/** Frequency tables as Python's `collections.Counter` and pandas' `value_counts`
    build them: one (item, count) entry per distinct item, in order of first
    appearance. */
module Counting {

  /** The number of occurrences of `x` in `s`. */
  function Count<T(==)>(s: seq<T>, x: T): nat {
    if s == [] then 0 else Count(s[..|s| - 1], x) + (if s[|s| - 1] == x then 1 else 0)
  }

  function Keys<T>(t: seq<(T, nat)>): (ks: seq<T>)
    ensures |ks| == |t|
  {
    seq(|t|, i requires 0 <= i < |t| => t[i].0)
  }

  function Counts<T>(t: seq<(T, nat)>): (cs: seq<nat>)
    ensures |cs| == |t|
  {
    seq(|t|, i requires 0 <= i < |t| => t[i].1)
  }

  function Sum(cs: seq<nat>): nat {
    if cs == [] then 0 else cs[0] + Sum(cs[1..])
  }

  predicate DistinctKeys<T(==)>(t: seq<(T, nat)>) {
    forall i, j :: 0 <= i < j < |t| ==> t[i].0 != t[j].0
  }

  /** Every entry of `t` holds the number of times its item occurs in `s`. */
  predicate CountsOf<T(==)>(t: seq<(T, nat)>, s: seq<T>) {
    forall e :: e in t ==> e.1 == Count(s, e.0)
  }

  /** Counting one more `x`: bump its entry, or append a new entry at the end. */
  function Bump<T(==)>(t: seq<(T, nat)>, x: T): seq<(T, nat)> {
    if t == [] then [(x, 1)]
    else if t[0].0 == x then [(x, t[0].1 + 1)] + t[1..]
    else [t[0]] + Bump(t[1..], x)
  }

  /** The frequency table of `s`, read left to right. */
  function Tally<T(==)>(s: seq<T>): seq<(T, nat)> {
    if s == [] then [] else Bump(Tally(s[..|s| - 1]), s[|s| - 1])
  }

  /** Where an entry of `Bump(t, x)` comes from: the new entry for `x`, the
      entry for `x` raised by one, or an untouched entry of `t`. */
  predicate BumpedFrom<T(==)>(e: (T, nat), t: seq<(T, nat)>, x: T) {
    if e.0 == x then (e.1 == 1 && x !in Keys(t)) || (x, e.1 - 1) in t
    else e in t
  }

  lemma {:induction false} BumpFacts<T>(t: seq<(T, nat)>, x: T)
    requires DistinctKeys(t)
    ensures DistinctKeys(Bump(t, x))
    ensures forall y :: y in Keys(Bump(t, x)) <==> y == x || y in Keys(t)
    ensures Sum(Counts(Bump(t, x))) == Sum(Counts(t)) + 1
    ensures forall e :: e in Bump(t, x) ==> BumpedFrom(e, t, x)
  {
    if t == [] {
      assert Keys(Bump(t, x)) == [x];
    } else {
      var b := Bump(t, x);
      if t[0].0 == x {
        assert Counts(b) == [t[0].1 + 1] + Counts(t[1..]);
        assert Counts(t) == [t[0].1] + Counts(t[1..]);
        assert Keys(b) == Keys(t) && Keys(t)[0] == x;
        forall e | e in b
          ensures BumpedFrom(e, t, x)
        {
          if e != b[0] {
            var k :| 0 <= k < |b| && b[k] == e;
            assert b[k] == t[k] && t[k].0 != t[0].0;
          }
        }
      } else {
        BumpFacts(t[1..], x);
        var r := Bump(t[1..], x);
        assert b == [t[0]] + r;
        assert Counts(b) == [t[0].1] + Counts(r);
        assert Counts(t) == [t[0].1] + Counts(t[1..]);
        assert Keys(b) == [t[0].0] + Keys(r);
        assert Keys(t) == [t[0].0] + Keys(t[1..]);
        assert t[0].0 !in Keys(r) by {
          forall k | 0 <= k < |t[1..]| ensures t[1..][k].0 != t[0].0 { assert t[1..][k] == t[k + 1]; }
        }
        forall i, j | 0 <= i < j < |b| ensures b[i].0 != b[j].0 {
          if i == 0 { assert b[j].0 == Keys(r)[j - 1]; } else { assert b[i] == r[i - 1] && b[j] == r[j - 1]; }
        }
        forall e | e in b
          ensures BumpedFrom(e, t, x)
        {
          if e != t[0] { assert e in r; }
        }
      }
    }
  }

  /** `Tally(s)` is a frequency table of `s`: one entry per distinct item of `s`,
      each holding that item's positive count, and the counts add up to `|s|`. */
  lemma {:induction false} TallyFacts<T>(s: seq<T>)
    ensures DistinctKeys(Tally(s))
    ensures CountsOf(Tally(s), s)
    ensures forall x :: x in Keys(Tally(s)) <==> x in s
    ensures forall e :: e in Tally(s) ==> e.1 > 0
    ensures Sum(Counts(Tally(s))) == |s|
  {
    if s != [] {
      var p, x := s[..|s| - 1], s[|s| - 1];
      TallyFacts(p);
      BumpFacts(Tally(p), x);
      assert s == p + [x];
      forall y ensures y in Keys(Tally(s)) <==> y in s {
        assert y in s <==> y in p || y == x;
      }
      forall e | e in Tally(s) ensures e.1 == Count(s, e.0) && e.1 > 0 {
        if e.0 == x && !(e.1 == 1 && x !in Keys(Tally(p))) {
          assert (x, e.1 - 1) in Tally(p);
        } else if e.0 == x {
          assert Count(p, x) == 0 by {
            if Count(p, x) != 0 { CountPositive(p, x); }
          }
        }
      }
    }
  }

  /** An item occurs a positive number of times exactly when it is in `s`. */
  lemma {:induction false} CountPositive<T>(s: seq<T>, x: T)
    ensures Count(s, x) > 0 <==> x in s
  {
    if s != [] {
      var init := s[..|s| - 1];
      CountPositive(init, x);
      assert s == init + [s[|s| - 1]];
    }
  }

  /** Counting distributes over concatenation. */
  lemma {:induction false} CountAppend<T>(a: seq<T>, b: seq<T>, x: T)
    ensures Count(a + b, x) == Count(a, x) + Count(b, x)
    decreases |b|
  {
    if b != [] {
      assert (a + b)[..|a + b| - 1] == a + b[..|b| - 1];
      CountAppend(a, b[..|b| - 1], x);
    } else {
      assert a + b == a;
    }
  }

  /** A table with distinct keys has one entry per distinct item. */
  lemma {:induction false} DistinctKeysCardinality<T>(t: seq<(T, nat)>)
    requires DistinctKeys(t)
    ensures |set x | x in Keys(t)| == |t|
  {
    if t != [] {
      var rest := t[1..];
      DistinctKeysCardinality(rest);
      assert Keys(t) == [t[0].0] + Keys(rest);
      assert t[0].0 !in Keys(rest) by {
        forall k | 0 <= k < |rest| ensures Keys(rest)[k] != t[0].0 { assert rest[k] == t[k + 1]; }
      }
      assert (set x | x in Keys(t)) == {t[0].0} + (set x | x in Keys(rest));
    }
  }
}
