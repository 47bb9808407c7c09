/** Positional notation: the digits printnum writes and the values strtol reads. */
module Digits {
  import opened Arith

  const HEX := "0123456789abcdef"

  /** The digits of n without leading zeros. */
  function Numeral(n: nat, base: nat): (s: string)
    requires 2 <= base <= 16
    ensures |s| > 0
    decreases n
  {
    DivStep(n, base);
    if n < base then [HEX[n]] else Numeral(n / base, base) + [HEX[n % base]]
  }

  /** The digit a character stands for, with letters of either case from 10 on, or -1. */
  function DigitValue(c: char): int {
    if '0' <= c <= '9' then c as int - '0' as int
    else if 'a' <= c <= 'z' then c as int - 'a' as int + 10
    else if 'A' <= c <= 'Z' then c as int - 'A' as int + 10
    else -1
  }

  predicate IsDigit(c: char, base: int) {
    0 <= DigitValue(c) < base
  }

  ghost predicate AllDigits(s: string, base: int) {
    forall i | 0 <= i < |s| :: IsDigit(s[i], base)
  }

  function Value(s: string, base: int): int {
    if s == [] then 0 else Value(s[..|s| - 1], base) * base + DigitValue(s[|s| - 1])
  }

  lemma HexDigitValue(d: nat)
    requires d < 16
    ensures DigitValue(HEX[d]) == d && !('A' <= HEX[d] <= 'Z')
  {
  }

  lemma HexDigitUnique(c: char)
    requires IsDigit(c, 16) && !('A' <= c <= 'Z')
    ensures c == HEX[DigitValue(c)]
  {
  }

  /** A numeral is canonical: digits below the base, no leading zero except for 0 itself,
      and its value is the number. */
  lemma {:induction false} NumeralIsCanonical(n: nat, base: nat)
    requires 2 <= base <= 16
    ensures AllDigits(Numeral(n, base), base) && Value(Numeral(n, base), base) == n
    ensures Numeral(n, base)[0] == '0' ==> n == 0 && |Numeral(n, base)| == 1
    ensures forall i | 0 <= i < |Numeral(n, base)| :: !('A' <= Numeral(n, base)[i] <= 'Z')
    decreases n
  {
    DivStep(n, base);
    HexDigitValue(n % base);
    if n < base {
      HexDigitValue(n);
      assert Value([HEX[n]], base) == Value([], base) * base + n;
    } else {
      NumeralIsCanonical(n / base, base);
      var s := Numeral(n, base);
      assert s == Numeral(n / base, base) + [HEX[n % base]];
      assert s[..|s| - 1] == Numeral(n / base, base);
    }
  }

  lemma {:induction false} ValueNonnegative(s: string, base: int)
    requires AllDigits(s, base)
    ensures Value(s, base) >= 0
    ensures s != [] && DigitValue(s[0]) > 0 ==> Value(s, base) > 0
  {
    if s != [] {
      ValueNonnegative(s[..|s| - 1], base);
      assert IsDigit(s[|s| - 1], base);
      MulGrows(Value(s[..|s| - 1], base), base);
    }
  }

  lemma NumeralStep(q: nat, base: nat, d: nat)
    requires 2 <= base <= 16 && d < base && q >= 1
    ensures Numeral(q * base + d, base) == Numeral(q, base) + [HEX[d]]
  {
    AppendedDigit(q, base, d);
  }

  lemma NumeralGrows(front: string, last: char, base: nat)
    requires 2 <= base <= 16 && IsDigit(last, base) && !('A' <= last <= 'Z')
    requires Value(front, base) >= 1 && front == Numeral(Value(front, base), base)
    ensures Value(front + [last], base) >= 0
    ensures front + [last] == Numeral(Value(front + [last], base), base)
  {
    var s := front + [last];
    HexDigitUnique(last);
    assert s[..|s| - 1] == front;
    assert Value(s, base) == Value(front, base) * base + DigitValue(last);
    NumeralStep(Value(front, base), base, DigitValue(last));
  }

  lemma OneDigit(c: char, base: nat)
    requires 2 <= base <= 16 && IsDigit(c, base) && !('A' <= c <= 'Z')
    ensures Value([c], base) == DigitValue(c) && [c] == Numeral(DigitValue(c), base)
  {
    HexDigitUnique(c);
    assert [c][..0] == [];
    assert Value([c], base) == Value([], base) * base + DigitValue(c);
  }

  /** Only one canonical digit string has a given value. */
  lemma {:induction false} NumeralIsUnique(s: string, base: nat)
    requires 2 <= base <= 16 && s != [] && AllDigits(s, base)
    requires forall i | 0 <= i < |s| :: !('A' <= s[i] <= 'Z')
    requires s[0] == '0' ==> |s| == 1
    ensures Value(s, base) >= 0 && s == Numeral(Value(s, base), base)
  {
    hide Numeral, Value;
    var front, last := s[..|s| - 1], s[|s| - 1];
    assert IsDigit(last, base) && s == front + [last];
    if |s| == 1 {
      assert s == [last];
      OneDigit(last, base);
    } else {
      assert front[0] == s[0] && IsDigit(s[0], base);
      NumeralIsUnique(front, base);
      ValueNonnegative(front, base);
      NumeralGrows(front, last, base);
    }
  }

  /** More digits never make a value smaller. */
  lemma {:induction false} ValueGrows(s: string, k: nat, base: int)
    requires k <= |s| && AllDigits(s, base)
    ensures 0 <= Value(s[..k], base) <= Value(s, base)
  {
    ValueNonnegative(s[..k], base);
    if k == |s| {
      assert s[..k] == s;
    } else {
      var front := s[..|s| - 1];
      ValueGrows(front, k, base);
      assert front[..k] == s[..k];
      assert IsDigit(s[|s| - 1], base);
      MulGrows(Value(front, base), base);
    }
  }

  lemma {:induction false} LeadingZeros(zeros: string, s: string, base: int)
    requires forall i | 0 <= i < |zeros| :: zeros[i] == '0'
    ensures Value(zeros + s, base) == Value(s, base)
  {
    if s != [] {
      LeadingZeros(zeros, s[..|s| - 1], base);
      assert (zeros + s)[..|zeros + s| - 1] == zeros + s[..|s| - 1];
    } else if zeros != [] {
      var rest := zeros[..|zeros| - 1];
      LeadingZeros(rest, s, base);
      assert rest + s == rest && zeros + s == zeros;
    }
  }
}
