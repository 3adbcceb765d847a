/** The MinHash signature contract the deduplicator relies on from the
    `datasketch` library (not part of this model). A signature holds one slot per
    permutation; slot `k` starts at the library's "no minimum yet" value and each
    `update(token)` lowers it to the token's permuted hash for `k` when that is
    smaller. The seeded hash functions themselves are a parameter `h`. */
module MinHash {

  /** `num_perm=128` at app/dedup.py:41 and :46. */
  const NumPerm: nat := 128

  /** The library's largest hash value, 2^32 - 1, which every slot starts at. */
  const MaxHash: int := 0xFFFF_FFFF

  type Signature = seq<int>

  /** `h(k, t)`: the hash of token `t` under permutation `k`. */
  type HashFamily = (nat, string) -> int

  function Min(a: int, b: int): int {
    if a <= b then a else b
  }

  /** A freshly made `MinHash(num_perm=128)`. */
  function EmptySignature(): Signature {
    seq(NumPerm, k => MaxHash)
  }

  /** `m.update(t)`: every slot keeps the smaller of its value and `t`'s hash. */
  function Update(sig: Signature, t: string, h: HashFamily): Signature
    requires |sig| == NumPerm
  {
    seq(NumPerm, k requires 0 <= k < NumPerm => Min(sig[k], h(k, t)))
  }

  /** `v` is the minimum over `words` of permutation `k`'s hash, or `MaxHash`
      when that is smaller (in particular when `words` is empty). */
  ghost predicate SlotIsMin(v: int, k: nat, words: set<string>, h: HashFamily) {
    && v <= MaxHash
    && (forall t :: t in words ==> v <= h(k, t))
    && (v == MaxHash || exists t :: t in words && v == h(k, t))
  }

  /** `sig` is the MinHash signature of the token set `words`. */
  ghost predicate IsMinSignature(sig: Signature, words: set<string>, h: HashFamily) {
    |sig| == NumPerm && forall k :: 0 <= k < NumPerm ==> SlotIsMin(sig[k], k, words, h)
  }

  /** A fresh signature is the signature of the empty token set. */
  lemma EmptyIsMinSignature(h: HashFamily)
    ensures IsMinSignature(EmptySignature(), {}, h)
  {
  }

  /** Updating the signature of `words` with `t` gives the signature of
      `words + {t}`. */
  lemma UpdateAddsWord(sig: Signature, words: set<string>, t: string, h: HashFamily)
    requires IsMinSignature(sig, words, h)
    ensures IsMinSignature(Update(sig, t, h), words + {t}, h)
  {
    var u := Update(sig, t, h);
    forall k | 0 <= k < NumPerm ensures SlotIsMin(u[k], k, words + {t}, h) {
      assert u[k] == Min(sig[k], h(k, t));
      if u[k] != MaxHash {
        if u[k] == sig[k] {
          var w :| w in words && sig[k] == h(k, w);
          assert w in words + {t};
        } else {
          assert t in words + {t};
        }
      }
    }
  }

  /** A token set has exactly one signature, so the signature depends on the
      set alone and not on the order in which its tokens were fed in. */
  lemma MinSignatureUnique(a: Signature, b: Signature, words: set<string>, h: HashFamily)
    requires IsMinSignature(a, words, h) && IsMinSignature(b, words, h)
    ensures a == b
  {
    forall k | 0 <= k < NumPerm ensures a[k] == b[k] {
      if a[k] != MaxHash {
        var t :| t in words && a[k] == h(k, t);
        assert b[k] <= a[k];
      }
      if b[k] != MaxHash {
        var t :| t in words && b[k] == h(k, t);
        assert a[k] <= b[k];
      }
    }
  }

  /** The number of slots on which `a` and `b` agree. */
  function EqualSlots(a: Signature, b: Signature): nat
    requires |a| == |b|
  {
    if a == [] then 0 else EqualSlots(a[1..], b[1..]) + (if a[0] == b[0] then 1 else 0)
  }

  lemma {:induction false} EqualSlotsFull(a: Signature, b: Signature)
    requires |a| == |b|
    ensures EqualSlots(a, b) <= |a|
    ensures EqualSlots(a, b) == |a| <==> a == b
  {
    if a != [] {
      EqualSlotsFull(a[1..], b[1..]);
      assert a == [a[0]] + a[1..] && b == [b[0]] + b[1..];
      if a == b { assert a[1..] == b[1..]; }
    }
  }

  /** `MinHash.jaccard`: the fraction of slots on which the two signatures agree.
      With 128 slots every such fraction is exact in binary floating point, so
      the real number here is the library's float. */
  function Jaccard(a: Signature, b: Signature): real
    requires |a| == NumPerm && |b| == NumPerm
  {
    EqualSlots(a, b) as real / NumPerm as real
  }

  /** The estimate lies in [0, 1] and is 1.0 exactly for identical signatures. */
  lemma JaccardOne(a: Signature, b: Signature)
    requires |a| == NumPerm && |b| == NumPerm
    ensures 0.0 <= Jaccard(a, b) <= 1.0
    ensures Jaccard(a, b) == 1.0 <==> a == b
  {
    EqualSlotsFull(a, b);
  }
}
