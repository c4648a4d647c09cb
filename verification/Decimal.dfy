/** `strconv.Atoi` and `strconv.Itoa` for Go's 64-bit `int`. */
module Decimal {
  import opened Wrappers

  const MIN_INT := -0x8000_0000_0000_0000
  const MAX_INT := 0x7fff_ffff_ffff_ffff

  predicate IsDigit(c: char) {
    '0' <= c <= '9'
  }

  predicate AllDigits(s: string) {
    forall i :: 0 <= i < |s| ==> IsDigit(s[i])
  }

  /** The number spelled by the first `n` digits. */
  function DigitsValue(s: string, n: nat): nat
    requires n <= |s| && AllDigits(s)
  {
    if n == 0 then 0 else 10 * DigitsValue(s, n - 1) + (s[n - 1] - '0') as nat
  }

  /** An optional sign and at least one digit, within the range of `int`. */
  function Atoi(s: string): Option<int> {
    var signed := s != "" && s[0] in {'+', '-'};
    var digits := if signed then s[1..] else s;
    if digits == "" || !AllDigits(digits) then None
    else
      var magnitude: int := DigitsValue(digits, |digits|);
      var n := if signed && s[0] == '-' then -magnitude else magnitude;
      if MIN_INT <= n <= MAX_INT then Some(n) else None
  }

  function Digits(n: nat): (s: string)
    ensures s != "" && AllDigits(s)
  {
    var last := [(n % 10) as char + '0'];
    if n < 10 then last else Digits(n / 10) + last
  }

  function Itoa(n: int): string {
    if n < 0 then "-" + Digits(-n) else Digits(n)
  }

  lemma {:induction false} PrefixValue(s: string, t: string, n: nat)
    requires n <= |s| && AllDigits(s) && AllDigits(s + t)
    ensures DigitsValue(s + t, n) == DigitsValue(s, n)
  {
    if n > 0 {
      PrefixValue(s, t, n - 1);
    }
  }

  lemma {:induction false} DigitsRoundTrip(n: nat)
    ensures DigitsValue(Digits(n), |Digits(n)|) == n
  {
    if n < 10 {
      assert DigitsValue(Digits(n), 0) == 0;
    } else {
      var s := Digits(n / 10);
      DigitsRoundTrip(n / 10);
      PrefixValue(s, [(n % 10) as char + '0'], |s|);
    }
  }

  /** Parsing a printed `int` gives it back. */
  lemma AtoiItoa(n: int)
    requires MIN_INT <= n <= MAX_INT
    ensures Atoi(Itoa(n)) == Some(n)
  {
    if n < 0 {
      DigitsRoundTrip(-n);
      assert Itoa(n)[1..] == Digits(-n);
    } else {
      DigitsRoundTrip(n);
    }
  }

  /** What is a number: an optional sign, then digits only and at least one. */
  lemma AtoiReads(s: string)
    ensures AllDigits(s) && Atoi(s).Some? ==> s != "" && Atoi(s).value == DigitsValue(s, |s|)
    ensures AllDigits(s) && s != "" ==> (Atoi(s).Some? <==> DigitsValue(s, |s|) <= MAX_INT)
    ensures AllDigits(s) && Atoi(s).Some? ==> Atoi("+" + s) == Atoi(s) && Atoi("-" + s) == Some(-Atoi(s).value)
    ensures Atoi(s).Some? ==> AllDigits(s) || (s != "" && s[0] in {'+', '-'} && s[1..] != "" && AllDigits(s[1..]))
  {
    assert ("+" + s)[1..] == s && ("-" + s)[1..] == s;
  }

  /** The digits of a number, most significant first, leading zeros allowed: one more digit on the right makes
      it ten times as much and that digit. */
  lemma AtoiDigits(s: string)
    requires s != "" && AllDigits(s)
    ensures |s| == 1 ==> Atoi(s) == Some((s[0] - '0') as int)
    ensures |s| > 1 && Atoi(s).Some? ==>
              var front := Atoi(s[..|s| - 1]);
              front.Some? && Atoi(s).value == 10 * front.value + (s[|s| - 1] - '0') as int
  {
    var n := |s| - 1;
    AtoiReads(s);
    AtoiReads(s[..n]);
    assert s == s[..n] + [s[n]];
    PrefixValue(s[..n], [s[n]], n);
    assert DigitsValue(s, 0) == 0;
  }

  /** A printed `int` holds only digits and possibly a leading minus sign. */
  lemma ItoaChars(n: int)
    ensures forall c :: c in Itoa(n) ==> IsDigit(c) || c == '-'
  {
  }
}
