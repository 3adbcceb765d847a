/** Row ids travel through the LSH index as strings: `str(row_id)` on the way in
    and `int(key)` on the way out. This module models both conversions for the
    decimal form Python's `str` produces, and proves that they are inverse. */
module RowKeys {

  datatype Option<T> = None | Some(value: T)

  function DigitChar(d: nat): char
    requires d < 10
  {
    ('0' as int + d) as char
  }

  predicate IsDigit(c: char) {
    '0' <= c <= '9'
  }

  predicate AllDigits(s: string) {
    forall i :: 0 <= i < |s| ==> IsDigit(s[i])
  }

  /** The decimal digits of `n`, most significant first, without leading zeros. */
  function Digits(n: nat): (s: string)
    ensures |s| >= 1 && AllDigits(s)
  {
    if n < 10 then [DigitChar(n)] else Digits(n / 10) + [DigitChar(n % 10)]
  }

  /** The value of a string of decimal digits. */
  function DigitsValue(s: string): nat
    requires AllDigits(s)
  {
    if s == [] then 0 else 10 * DigitsValue(s[..|s| - 1]) + (s[|s| - 1] as int - '0' as int)
  }

  /** `str(n)` for an integer `n`. */
  function KeyOf(n: int): string {
    if n < 0 then "-" + Digits(-n) else Digits(n)
  }

  /** `int(s)` on the strings `str` produces: an optional minus sign followed by
      decimal digits. Any other string gives `None`. Python's `int` also accepts
      surrounding whitespace, a `+` sign and digit-separating underscores; keys
      never contain those. */
  function ParseKey(s: string): Option<int> {
    if |s| >= 2 && s[0] == '-' && AllDigits(s[1..]) then Some(-(DigitsValue(s[1..]) as int))
    else if |s| >= 1 && AllDigits(s) then Some(DigitsValue(s))
    else None
  }

  lemma {:induction false} DigitsRoundTrip(n: nat)
    ensures DigitsValue(Digits(n)) == n
  {
    if n >= 10 {
      DigitsRoundTrip(n / 10);
      var s := Digits(n);
      assert s[..|s| - 1] == Digits(n / 10);
    }
  }

  /** `int(str(n)) == n` for every integer row id. */
  lemma KeyRoundTrip(n: int)
    ensures ParseKey(KeyOf(n)) == Some(n)
  {
    if n < 0 {
      NegativeKeyRoundTrip(n);
    } else {
      var s := Digits(n);
      DigitsRoundTrip(n);
      assert IsDigit(s[0]);
      assert KeyOf(n) == s;
    }
  }

  lemma NegativeKeyRoundTrip(n: int)
    requires n < 0
    ensures ParseKey(KeyOf(n)) == Some(n)
  {
    var d := Digits(-n);
    var s := KeyOf(n);
    assert s == "-" + d;
    assert s[1..] == d;
    DigitsRoundTrip(-n);
    assert |s| >= 2 && s[0] == '-' && AllDigits(s[1..]);
  }

  /** Distinct row ids give distinct keys, so the id-to-key conversion is a
      bijection onto the keys it produces. */
  lemma KeyInjective(a: int, b: int)
    ensures KeyOf(a) == KeyOf(b) <==> a == b
  {
    KeyRoundTrip(a);
    KeyRoundTrip(b);
  }
}
