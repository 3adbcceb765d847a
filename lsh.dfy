/** The banded locality-sensitive index the deduplicator builds (`MinHashLSH`
    from the `datasketch` library, not part of this model). A signature is cut
    into `b` contiguous bands of `r` slots; band `j` has its own bucket table from
    band contents to the keys inserted with those contents. A query returns every
    stored key that shares at least one whole band with the query signature.
    How the library derives `(b, r)` from the similarity threshold is not
    modelled: the two numbers are parameters. */
module Lsh {
  import opened MinHash

  /** `hashranges`: `b` contiguous bands of `r` slots each, the first starting
      at slot `start`. */
  function HashRanges(start: nat, b: nat, r: nat): (ranges: seq<(nat, nat)>)
    ensures |ranges| == b
    ensures b > 0 ==> ranges[0].0 == start
    ensures forall j :: 0 <= j < b ==> ranges[j].1 == ranges[j].0 + r
    ensures forall j :: 0 <= j < b - 1 ==> ranges[j].1 == ranges[j + 1].0
    decreases b
  {
    if b == 0 then [] else [(start, start + r)] + HashRanges(start + r, b - 1, r)
  }

  predicate ValidRanges(ranges: seq<(nat, nat)>) {
    forall j :: 0 <= j < |ranges| ==> ranges[j].0 <= ranges[j].1 <= NumPerm
  }

  /** Bands that together use at most `NumPerm` slots all fit in a signature. */
  lemma {:induction false} HashRangesFit(start: nat, b: nat, r: nat)
    requires start + b * r <= NumPerm
    ensures ValidRanges(HashRanges(start, b, r))
    decreases b
  {
    if b > 0 {
      assert b * r == r + (b - 1) * r;
      HashRangesFit(start + r, b - 1, r);
      var rs := HashRanges(start, b, r);
      forall j | 0 <= j < b ensures rs[j].0 <= rs[j].1 <= NumPerm {
        if j > 0 { assert rs[j] == HashRanges(start + r, b - 1, r)[j - 1]; }
      }
    }
  }

  function Band(sig: Signature, range: (nat, nat)): seq<int>
    requires range.0 <= range.1 <= |sig|
  {
    sig[range.0..range.1]
  }

  /** `a` and `b` agree on every slot of at least one band. */
  predicate ShareBand(a: Signature, b: Signature, ranges: seq<(nat, nat)>)
    requires ValidRanges(ranges) && |a| == NumPerm && |b| == NumPerm
  {
    exists j :: 0 <= j < |ranges| && Band(a, ranges[j]) == Band(b, ranges[j])
  }

  predicate AllFull<K>(stored: map<K, Signature>) {
    forall key :: key in stored ==> |stored[key]| == NumPerm
  }

  /** What `query(sig)` returns on an index holding `stored`. */
  function Candidates(stored: map<string, Signature>, ranges: seq<(nat, nat)>, sig: Signature): set<string>
    requires ValidRanges(ranges) && AllFull(stored) && |sig| == NumPerm
  {
    set key | key in stored && ShareBand(stored[key], sig, ranges)
  }

  /** Identical signatures are always candidates of each other. */
  lemma IdenticalAreCandidates(stored: map<string, Signature>, ranges: seq<(nat, nat)>, key: string)
    requires ValidRanges(ranges) && |ranges| >= 1 && AllFull(stored) && key in stored
    ensures key in Candidates(stored, ranges, stored[key])
  {
    assert Band(stored[key], ranges[0]) == Band(stored[key], ranges[0]);
  }

  class LshIndex {
    /** One slot range per band. */
    const ranges: seq<(nat, nat)>
    /** One bucket table per band: band contents to the keys stored with them. */
    var tables: seq<map<seq<int>, set<string>>>
    /** The library's `keys` table: every inserted key with its signature. */
    var stored: map<string, Signature>

    ghost predicate Valid()
      reads this
    {
      ValidRanges(ranges) && |ranges| >= 1 && IndexOf(tables, ranges, stored)
    }

    /** `MinHashLSH(...)` whose parameters came out as `b` bands of `r` slots. */
    constructor (b: nat, r: nat)
      requires 1 <= b && 1 <= r && b * r <= NumPerm
      ensures Valid()
      ensures ranges == HashRanges(0, b, r) && stored == map[]
    {
      HashRangesFit(0, b, r);
      ranges := HashRanges(0, b, r);
      tables := seq(b, j => map[]);
      stored := map[];
    }

    /** `insert(key, minhash)`: files `key` under each of the signature's bands.
        A key that is already stored is refused (`ok` is false: the library
        raises `ValueError`) and nothing changes. */
    method Insert(key: string, sig: Signature) returns (ok: bool)
      requires Valid() && |sig| == NumPerm
      modifies this
      ensures Valid()
      ensures ok <==> key !in old(stored)
      ensures stored == if ok then old(stored)[key := sig] else old(stored)
    {
      if key in stored {
        return false;
      }
      ghost var before := tables;
      var j := 0;
      while j < |ranges|
        invariant 0 <= j <= |ranges| && |tables| == |ranges| && stored == old(stored)
        invariant forall i :: j <= i < |ranges| ==> tables[i] == before[i]
        invariant forall i :: 0 <= i < j ==> tables[i] == AddKey(before[i], Band(sig, ranges[i]), key)
      {
        var slice := Band(sig, ranges[j]);
        var bucket := if slice in tables[j] then tables[j][slice] else {};
        tables := tables[j := tables[j][slice := bucket + {key}]];
        j := j + 1;
      }
      stored := stored[key := sig];
      ok := true;
      InsertKeepsIndex(ranges, before, tables, old(stored), key, sig);
    }

    /** `query(minhash)`: the union over bands of the bucket holding the query's
        band contents. */
    method Query(sig: Signature) returns (result: set<string>)
      requires Valid() && |sig| == NumPerm
      ensures result == Candidates(stored, ranges, sig)
    {
      result := {};
      var j := 0;
      while j < |ranges|
        invariant 0 <= j <= |ranges|
        invariant result == set key | key in stored &&
                    exists i :: 0 <= i < j && Band(stored[key], ranges[i]) == Band(sig, ranges[i])
      {
        var slice := Band(sig, ranges[j]);
        if slice in tables[j] {
          result := result + tables[j][slice];
        }
        j := j + 1;
      }
    }

  }

  /** The bucket tables index exactly the stored signatures, band by band: a
      key sits in band `j`'s bucket for `slice` iff it is stored with a
      signature whose band `j` is `slice`. */
  ghost predicate IndexOf(tables: seq<map<seq<int>, set<string>>>, ranges: seq<(nat, nat)>,
                          stored: map<string, Signature>)
  {
    && ValidRanges(ranges)
    && |tables| == |ranges|
    && AllFull(stored)
    && (forall j, slice, key :: 0 <= j < |tables| && slice in tables[j] && key in tables[j][slice] ==>
          key in stored && Band(stored[key], ranges[j]) == slice)
    && (forall j, key :: 0 <= j < |tables| && key in stored ==>
          Band(stored[key], ranges[j]) in tables[j] && key in tables[j][Band(stored[key], ranges[j])])
  }

  /** Filing a new key under each band of its signature keeps the tables an
      index of the stored signatures. */
  lemma InsertKeepsIndex(ranges: seq<(nat, nat)>, before: seq<map<seq<int>, set<string>>>,
                         after: seq<map<seq<int>, set<string>>>,
                         stored: map<string, Signature>, key: string, sig: Signature)
    requires |sig| == NumPerm && key !in stored
    requires IndexOf(before, ranges, stored) && |after| == |before|
    requires forall i :: 0 <= i < |before| ==> after[i] == AddKey(before[i], Band(sig, ranges[i]), key)
    ensures IndexOf(after, ranges, stored[key := sig])
  {
  }

  /** Bucket table `t` with `key` added to the bucket of `slice`. */
  function AddKey(t: map<seq<int>, set<string>>, slice: seq<int>, key: string): map<seq<int>, set<string>> {
    t[slice := (if slice in t then t[slice] else {}) + {key}]
  }
}
