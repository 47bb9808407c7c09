/** What strtol reads, said over the 36 digit characters themselves. */
module Notation {
  import opened Arith
  import opened CStrings
  import opened Digits
  import opened Strtol
  import opened RoundTrip

  const LOWER := "0123456789abcdefghijklmnopqrstuvwxyz"
  const UPPER := "0123456789ABCDEFGHIJKLMNOPQRSTUVWXYZ"

  /** n in positional notation over an alphabet, without leading zeros. */
  function Positional(n: nat, base: nat, alphabet: string): (s: string)
    requires 2 <= base <= |alphabet|
    ensures |s| > 0
    decreases n
  {
    DivStep(n, base);
    if n < base then [alphabet[n]] else Positional(n / base, base, alphabet) + [alphabet[n % base]]
  }

  lemma LowerDigit(d: nat)
    requires d < 36
    ensures DigitValue(LOWER[d]) == d
  {
  }

  lemma UpperDigit(d: nat)
    requires d < 36
    ensures DigitValue(UPPER[d]) == d
  {
  }

  lemma {:induction false} PositionalValue(n: nat, base: nat, alphabet: string)
    requires 2 <= base <= 36 && (alphabet == LOWER || alphabet == UPPER)
    ensures AllDigits(Positional(n, base, alphabet), base) && Value(Positional(n, base, alphabet), base) == n
    decreases n
  {
    hide DigitValue;
    DivStep(n, base);
    LowerDigit(n % base);
    UpperDigit(n % base);
    if n < base {
      ModSmall(n, base);
      assert Value([alphabet[n]], base) == Value([], base) * base + n;
    } else {
      PositionalValue(n / base, base, alphabet);
      var s := Positional(n, base, alphabet);
      assert s[..|s| - 1] == Positional(n / base, base, alphabet);
    }
  }

  /** Every number in every base up to 36, with digits of either case, with or without a
      minus sign, reads as itself. */
  lemma PositionalIsRead(n: nat, base: nat, alphabet: string, negative: bool)
    requires 2 <= base <= 36 && (alphabet == LOWER || alphabet == UPPER)
    ensures var s, v: int := (if negative then "-" else "") + Positional(n, base, alphabet), n;
            && Number(s, base) == (if negative then -v else v) && End(s, base) == |s|
  {
    hide Number, End, Value, Positional;
    PositionalValue(n, base, alphabet);
    ReadsDigits(0, negative, Positional(n, base, alphabet), base);
    var sign := if negative then "-" else "";
    assert "" + sign == sign;
  }

  /** A client: strtol on a number in positional notation returns it. */
  method ReadPositional(s: string, base: nat, ghost n: nat, ghost alphabet: string) returns (v: long, end: nat)
    requires 2 <= base <= 36 && (alphabet == LOWER || alphabet == UPPER) && n <= LONG_MAX
    requires s == Positional(n, base, alphabet)
    ensures v == n && end == |s|
  {
    hide Number, End, Value, Positional;
    PositionalIsRead(n, base, alphabet, false);
    PositionalValue(n, base, alphabet);
    assert !IsDigit(NUL, base);
    assert "" + s == s;
    DigitsOfNumber(s, base);
    v, end := Strtol.Strtol(s, base);
  }

  /** What the number printer writes is the lower-case notation. */
  lemma {:induction false} NumeralIsPositional(n: nat, base: nat)
    requires 2 <= base <= 16
    ensures Numeral(n, base) == Positional(n, base, LOWER)
    decreases n
  {
    DivStep(n, base);
    if n >= base {
      NumeralIsPositional(n / base, base);
    }
  }

  // ----- Upper and lower case

  /** The same digit of base b, in either case. */
  ghost predicate SameDigit(c: char, c': char, b: int) {
    exists d: nat :: d < 36 && d < b && (c == LOWER[d] || c == UPPER[d]) && (c' == LOWER[d] || c' == UPPER[d])
  }

  /** The texts differ at most in the case of digits of base b from `start` on. */
  ghost predicate SameUpToCase(s: string, s': string, start: nat, b: int) {
    |s| == |s'| &&
    forall k | 0 <= k < |s| :: s'[k] == s[k] || (k >= start && SameDigit(s[k], s'[k], b))
  }

  lemma SameDigitValue(c: char, c': char, b: int)
    requires SameDigit(c, c', b)
    ensures DigitValue(c) == DigitValue(c') && 0 <= DigitValue(c) < b
    ensures c == '0' <==> c' == '0'
  {
    var d: nat :| d < 36 && d < b && (c == LOWER[d] || c == UPPER[d]) && (c' == LOWER[d] || c' == UPPER[d]);
    LowerDigit(d);
    UpperDigit(d);
  }

  /** The case of the digits behind the prefix changes neither the number nor its end. */
  lemma CaseIsIgnored(s: string, s': string, base: int)
    requires SameUpToCase(s, s', Prefix(s, base).start, Prefix(s, base).base)
    ensures Number(s', base) == Number(s, base) && End(s', base) == End(s, base)
  {
    var r := Prefix(s, base);
    SamePrefix(s, s', base);
    forall k | 0 <= k < |s| ensures DigitValue(s'[k]) == DigitValue(s[k]) {
      if s'[k] != s[k] {
        SameDigitValue(s[k], s'[k], r.base);
      }
    }
    SameRun(s, s', r.start, r.base);
    var e := RunEnd(s, r.start, r.base);
    SameValue(s[r.start..e], s'[r.start..e], r.base);
  }

  lemma {:induction false} SameRun(s: string, s': string, i: nat, b: int)
    requires |s| == |s'| && i <= |s| && forall k | 0 <= k < |s| :: DigitValue(s'[k]) == DigitValue(s[k])
    ensures RunEnd(s', i, b) == RunEnd(s, i, b)
    decreases |s| - i
  {
    hide DigitValue;
    if i < |s| {
      SameRun(s, s', i + 1, b);
    }
  }

  lemma {:induction false} SameValue(s: string, s': string, b: int)
    requires |s| == |s'| && forall k | 0 <= k < |s| :: DigitValue(s'[k]) == DigitValue(s[k])
    ensures Value(s', b) == Value(s, b)
  {
    hide DigitValue;
    if s != [] {
      SameValue(s[..|s| - 1], s'[..|s| - 1], b);
    }
  }

  lemma SamePrefix(s: string, s': string, base: int)
    requires SameUpToCase(s, s', Prefix(s, base).start, Prefix(s, base).base)
    ensures Prefix(s', base) == Prefix(s, base)
  {
    hide SameDigit, DigitValue;
    var r, i, j := Prefix(s, base), SkipBlanks(s, 0), BodyStart(s);
    forall k | 0 <= k < |s| && s'[k] != s[k]
      ensures k >= r.start && IsDigit(s[k], r.base) && IsDigit(s'[k], r.base)
      ensures s[k] != '0' && s'[k] != '0'
    {
      SameDigitValue(s[k], s'[k], r.base);
    }
    BasePrefixForward(s, j, base);
    NoDigits(r.base);
    assert forall k | 0 <= k < i :: s'[k] == s[k];
    assert SkipBlanks(s', 0) == i;
    assert BodyStart(s') == j;
  }

  lemma NoDigits(b: int)
    ensures forall c | c == ' ' || c == '\t' || c == '+' || c == '-' :: !IsDigit(c, b)
    ensures b <= 16 ==> !IsDigit('x', b)
  {
  }
}
