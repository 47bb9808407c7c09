/** strtol: from text to number. */
module Strtol {
  import opened CStrings
  import opened Digits

  const LONG_MAX := 0x7FFF_FFFF_FFFF_FFFF

  type long = n: int | -LONG_MAX - 1 <= n <= LONG_MAX

  // ----- What the text says

  function SkipBlanks(s: string, i: nat): (j: nat)
    requires i <= |s|
    ensures i <= j <= |s| && At(s, j) != ' ' && At(s, j) != '\t'
    ensures forall k | i <= k < j :: s[k] == ' ' || s[k] == '\t'
    decreases |s| - i
  {
    if i < |s| && (s[i] == ' ' || s[i] == '\t') then SkipBlanks(s, i + 1) else i
  }

  /** The end of the longest run of digits of the base. */
  function RunEnd(s: string, i: nat, base: int): (j: nat)
    requires i <= |s|
    ensures i <= j <= |s| && (j < |s| ==> !IsDigit(s[j], base))
    ensures AllDigits(s[i..j], base)
    decreases |s| - i
  {
    if i < |s| && IsDigit(s[i], base) then
      var j := RunEnd(s, i + 1, base);
      assert s[i..j] == [s[i]] + s[i + 1..j];
      j
    else i
  }

  datatype Reading = Reading(negative: bool, base: int, start: nat)

  /** The base and the first digit position behind a base prefix at j: only a lower-case "0x"
      counts, and only when the base is 0 or 16. */
  function BasePrefix(s: string, j: nat, base: int): (r: (int, nat))
    requires j <= |s|
    ensures r.1 <= |s|
  {
    if (base == 0 || base == 16) && At(s, j) == '0' && At(s, j + 1) == 'x' then (16, j + 2)
    else if base == 0 && At(s, j) == '0' then (8, j + 1)
    else if base == 0 then (10, j)
    else (base, j)
  }

  function BehindSign(s: string, i: nat): (j: nat)
    requires i <= |s|
    ensures i <= j <= |s|
  {
    if At(s, i) == '+' || At(s, i) == '-' then i + 1 else i
  }

  /** The position behind the blanks and an optional sign. */
  function BodyStart(s: string): (j: nat)
    ensures SkipBlanks(s, 0) <= j <= |s|
  {
    BehindSign(s, SkipBlanks(s, 0))
  }

  predicate IsNegative(s: string) {
    At(s, SkipBlanks(s, 0)) == '-'
  }

  /** Blanks, an optional sign and an optional base prefix. */
  function Prefix(s: string, base: int): (r: Reading)
    ensures r.start <= |s|
  {
    var (b, start) := BasePrefix(s, BodyStart(s), base);
    Reading(IsNegative(s), b, start)
  }

  /** The signed value of the digits of a reading, as many as are valid. */
  function ReadNumber(s: string, r: Reading): int
    requires r.start <= |s|
  {
    var v := Value(s[r.start..RunEnd(s, r.start, r.base)], r.base);
    if r.negative then -v else v
  }

  function Run(s: string, base: int): string {
    var r := Prefix(s, base);
    s[r.start..RunEnd(s, r.start, r.base)]
  }

  function End(s: string, base: int): nat {
    var r := Prefix(s, base);
    RunEnd(s, r.start, r.base)
  }

  function Number(s: string, base: int): int {
    ReadNumber(s, Prefix(s, base))
  }

  // ----- strtol

  /** The first part of strtol: up to the first digit. */
  method ReadPrefix(str: string, base: int) returns (s: nat, neg: bool, b: int)
    requires IsCString(str)
    ensures Prefix(str, base) == Reading(neg, b, s)
  {
    s, neg, b := 0, false, base;
    while At(str, s) == ' ' || At(str, s) == '\t'
      invariant s <= |str| && SkipBlanks(str, 0) == SkipBlanks(str, s)
      decreases |str| - s
    {
      s := s + 1;
    }
    if At(str, s) == '+' {
      s := s + 1;
    } else if At(str, s) == '-' {
      s, neg := s + 1, true;
    }
    if (b == 0 || b == 16) && At(str, s) == '0' && At(str, s + 1) == 'x' {
      s, b := s + 2, 16;
    } else if b == 0 && At(str, s) == '0' {
      s, b := s + 1, 8;
    } else if b == 0 {
      b := 10;
    }
  }

  /** The second part: when the digits denote a number that fits in a long, every step of
      the accumulation fits as well. */
  method ReadDigits(str: string, start: nat, base: int) returns (val: long, s: nat)
    requires start <= |str|
    requires Value(str[start..RunEnd(str, start, base)], base) <= LONG_MAX
    ensures s == RunEnd(str, start, base) && val == Value(str[start..s], base)
  {
    s, val := start, 0;
    ghost var end := RunEnd(str, start, base);
    while true
      invariant start <= s <= end && RunEnd(str, s, base) == end
      invariant val == Value(str[start..s], base)
      decreases end - s
    {
      var dig: int;
      var c := At(str, s);
      if '0' <= c <= '9' {
        dig := c as int - '0' as int;
      } else if 'a' <= c <= 'z' {
        dig := c as int - 'a' as int + 10;
      } else if 'A' <= c <= 'Z' {
        dig := c as int - 'A' as int + 10;
      } else {
        break;
      }
      if dig >= base {
        break;
      }
      ValueFits(str, start, s, base);
      s, val := s + 1, val * base + dig;
    }
  }

  lemma ValueFits(str: string, start: nat, s: nat, base: int)
    requires start <= |str| && start <= s < RunEnd(str, start, base)
    ensures var v := Value(str[start..s], base) * base + DigitValue(str[s]);
            v == Value(str[start..s + 1], base) && 0 <= v <= Value(str[start..RunEnd(str, start, base)], base)
  {
    var run := str[start..RunEnd(str, start, base)];
    assert str[start..s + 1][..s - start] == str[start..s];
    assert run[..s + 1 - start] == str[start..s + 1];
    ValueGrows(run, s + 1 - start, base);
  }

  method Strtol(str: string, base: int) returns (r: long, endptr: nat)
    requires IsCString(str)
    requires Value(Run(str, base), Prefix(str, base).base) <= LONG_MAX
    ensures r == Number(str, base) && endptr == End(str, base)
  {
    var s, neg, b := ReadPrefix(str, base);
    var val: long;
    val, s := ReadDigits(str, s, b);
    RunNonnegative(str, base);
    return if neg then -val else val, s;
  }

  lemma RunNonnegative(s: string, base: int)
    ensures Value(Run(s, base), Prefix(s, base).base) >= 0
  {
    ValueNonnegative(Run(s, base), Prefix(s, base).base);
  }

  // ----- The grammar

  predicate StartsWithDigit(s: string, base: int) {
    s != [] && IsDigit(s[0], base)
  }

  /** The base prefix in front of `body`, and the base b it leaves. */
  ghost predicate IsBasePrefix(prefix: string, body: string, base: int, b: int) {
    if base == 0 then
      || (prefix == "0x" && b == 16)
      || (prefix == "0" && b == 8 && !("x" <= body))
      || (prefix == "" && b == 10 && !("0" <= body))
    else if base == 16 then
      b == 16 && (prefix == "0x" || (prefix == "" && !("0x" <= body)))
    else
      prefix == "" && b == base
  }

  /** Blanks and a sign, of which as much as possible was taken from what follows. */
  ghost predicate IsFront(blanks: string, sign: string, body: string) {
    && (forall i | 0 <= i < |blanks| :: blanks[i] == ' ' || blanks[i] == '\t')
    && (sign == "" || sign == "+" || sign == "-")
    && (sign == "" ==> body == [] || body[0] !in " \t+-")
  }

  /** Blanks, sign, base prefix, digits of the base b, and a rest that does not go on with
      such a digit. */
  ghost predicate Divides(blanks: string, sign: string, prefix: string, digits: string, rest: string,
                          base: int, b: int) {
    && IsFront(blanks, sign, prefix + digits + rest)
    && IsBasePrefix(prefix, digits + rest, base, b)
    && AllDigits(digits, b) && !StartsWithDigit(rest, b)
  }

  /** Any text so divided is read accordingly. */
  lemma ReadsGrammar(blanks: string, sign: string, prefix: string, digits: string, rest: string, base: int, b: int)
    requires Divides(blanks, sign, prefix, digits, rest, base, b)
    ensures var s := blanks + sign + prefix + digits + rest;
            && Number(s, base) == (if sign == "-" then -Value(digits, b) else Value(digits, b))
            && End(s, base) == |s| - |rest|
  {
    hide Value, Prefix, IsBasePrefix, IsFront, RunEnd, AllDigits;
    var s, front := blanks + sign + prefix + digits + rest, blanks + sign + prefix;
    assert prefix + digits + rest == prefix + (digits + rest);
    ReadsPrefixGrammar(blanks, sign, prefix, digits + rest, base, b);
    assert s == front + (digits + rest);
    ReadsRun(s, front, digits, rest, b);
  }

  /** Every text divides, whatever the base. */
  lemma EveryTextDivides(s: string, base: int)
    returns (blanks: string, sign: string, prefix: string, digits: string, rest: string, b: int)
    ensures s == blanks + sign + prefix + digits + rest
    ensures Divides(blanks, sign, prefix, digits, rest, base, b)
  {
    hide IsFront, IsBasePrefix, AllDigits, StartsWithDigit, SkipBlanks, BodyStart, BasePrefix, RunEnd;
    var i, j := SkipBlanks(s, 0), BodyStart(s);
    var (b', k) := BasePrefix(s, j, base);
    BasePrefixForward(s, j, base);
    var e := RunEnd(s, k, b');
    FrontDivides(s);
    PrefixDivides(s, j, base);
    RunDivides(s, k, b');
    blanks, sign, prefix, digits, rest, b := s[..i], s[i..j], s[j..k], s[k..e], s[e..], b';
    CutInFive(s, i, j, k, e);
  }

  lemma CutInFive(s: string, i: nat, j: nat, k: nat, e: nat)
    requires i <= j <= k <= e <= |s|
    ensures s[k..e] + s[e..] == s[k..] && s[j..k] + s[k..e] + s[e..] == s[j..]
    ensures s[..i] + s[i..j] + s[j..k] + s[k..e] + s[e..] == s
  {
    assert s[..i] + s[i..j] == s[..j];
    assert s[..j] + s[j..k] == s[..k];
    assert s[..k] + s[k..e] == s[..e];
  }

  lemma RunDivides(s: string, k: nat, b: int)
    requires k <= |s|
    ensures var e := RunEnd(s, k, b); AllDigits(s[k..e], b) && !StartsWithDigit(s[e..], b)
  {
    hide RunEnd, AllDigits, IsDigit;
    var e := RunEnd(s, k, b);
    assert e < |s| ==> s[e..][0] == s[e];
  }

  lemma BasePrefixForward(s: string, j: nat, base: int)
    requires j <= |s|
    ensures j <= BasePrefix(s, j, base).1 <= |s|
  {
  }

  lemma FrontDivides(s: string)
    ensures var i, j := SkipBlanks(s, 0), BodyStart(s);
            IsFront(s[..i], s[i..j], s[j..])
  {
    var i, j := SkipBlanks(s, 0), BodyStart(s);
    assert j == i + 1 ==> s[i..j] == [s[i]];
    assert j == i && j < |s| ==> s[j..][0] == At(s, i);
  }

  lemma PrefixDivides(s: string, j: nat, base: int)
    requires j <= |s|
    ensures var (b, k) := BasePrefix(s, j, base);
            j <= k <= |s| && IsBasePrefix(s[j..k], s[k..], base, b)
  {
    var (b, k) := BasePrefix(s, j, base);
    assert k == j + 1 ==> s[j..k] == [s[j]];
    assert k == j + 2 ==> s[j..k] == [s[j], s[j + 1]];
    assert k < |s| ==> s[k..][0] == At(s, k);
    assert k + 1 < |s| ==> s[k..][1] == At(s, k + 1);
  }

  lemma ReadsRun(s: string, front: string, digits: string, rest: string, b: int)
    requires s == front + digits + rest
    requires AllDigits(digits, b) && !StartsWithDigit(rest, b)
    ensures RunEnd(s, |front|, b) == |s| - |rest| && s[|front|..|s| - |rest|] == digits
  {
    hide IsDigit, RunEnd;
    var start, end := |front|, |s| - |rest|;
    CutOfSum(s, front, digits, rest);
    forall k | start <= k < end ensures IsDigit(s[k], b) {
      assert s[k] == digits[k - start];
    }
    RunEndIs(s, start, end, b);
  }

  lemma CutOfSum(s: string, front: string, digits: string, rest: string)
    requires s == front + digits + rest
    ensures var start, end := |front|, |s| - |rest|;
            && s[start..end] == digits && (rest != [] ==> s[end] == rest[0])
            && forall k | start <= k < end :: s[k] == digits[k - start]
  {
    assert s[..|s| - |rest|] == front + digits;
  }

  lemma {:induction false} RunEndIs(s: string, i: nat, j: nat, b: int)
    requires i <= j <= |s| && (j < |s| ==> !IsDigit(s[j], b))
    requires forall k | i <= k < j :: IsDigit(s[k], b)
    ensures RunEnd(s, i, b) == j
    decreases j - i
  {
    hide IsDigit;
    if i < j {
      RunEndIs(s, i + 1, j, b);
    }
  }

  lemma ReadsPrefixGrammar(blanks: string, sign: string, prefix: string, body: string, base: int, b: int)
    requires IsFront(blanks, sign, prefix + body) && IsBasePrefix(prefix, body, base, b)
    ensures Prefix(blanks + sign + prefix + body, base) == Reading(sign == "-", b, |blanks| + |sign| + |prefix|)
  {
    hide IsBasePrefix, BasePrefix;
    var s, i := blanks + sign + prefix + body, |blanks|;
    var tail := prefix + body;
    assert s == blanks + sign + tail;
    assert sign != "" ==> At(s, i) == sign[0];
    assert sign == "" ==> At(s, i) == At(tail, 0);
    assert SkipBlanks(s, 0) == i;
    ReadsBasePrefix(s, blanks + sign, prefix, body, base, b);
  }

  lemma ReadsBasePrefix(s: string, front: string, prefix: string, body: string, base: int, b: int)
    requires s == front + prefix + body && IsBasePrefix(prefix, body, base, b)
    ensures BasePrefix(s, |front|, base) == (b, |front| + |prefix|)
  {
    var j := |front|;
    assert prefix == "0x" ==> s[j] == '0' && s[j + 1] == 'x';
    assert prefix == "0" ==> s[j] == '0' && At(s, j + 1) == At(body, 0);
    assert prefix == "" ==> At(s, j) == At(body, 0) && (body != [] ==> At(s, j + 1) == At(body, 1));
  }

  // ----- Where the code departs from its own description

  /** The white space of section 7.4.1.10 of the C standard, of which the code skips only two. */
  predicate IsWhitespace(c: char) {
    c == ' ' || '\t' <= c <= '\r'
  }

  function SkipWhitespace(s: string, i: nat): (j: nat)
    requires i <= |s|
    ensures i <= j <= |s| && !IsWhitespace(At(s, j))
    ensures forall k | i <= k < j :: IsWhitespace(s[k])
    decreases |s| - i
  {
    if IsWhitespace(At(s, i)) then SkipWhitespace(s, i + 1) else i
  }

  predicate IsHexAt(s: string, i: nat) {
    i < |s| && IsDigit(s[i], 16)
  }

  /** The base prefix of the description: "0x" counts only in front of a digit, as part of a
      number, and for base 16 the upper-case "0X" counts as well. */
  function DescribedBasePrefix(s: string, j: nat, base: int): (r: (int, nat))
    requires j <= |s|
    ensures j <= r.1 <= |s|
  {
    if (base == 0 || base == 16) && At(s, j) == '0'
       && (At(s, j + 1) == 'x' || (base == 16 && At(s, j + 1) == 'X')) && IsHexAt(s, j + 2) then (16, j + 2)
    else if base == 0 && At(s, j) == '0' then (8, j + 1)
    else if base == 0 then (10, j)
    else (base, j)
  }

  function DescribedReading(s: string, base: int): (r: Reading)
    ensures SkipWhitespace(s, 0) <= r.start <= |s|
  {
    var i := SkipWhitespace(s, 0);
    var (b, start) := DescribedBasePrefix(s, BehindSign(s, i), base);
    Reading(At(s, i) == '-', b, start)
  }

  function DescribedNumber(s: string, base: int): int {
    ReadNumber(s, DescribedReading(s, base))
  }

  function DescribedEnd(s: string, base: int): nat {
    var r := DescribedReading(s, base);
    RunEnd(s, r.start, r.base)
  }

  /** The two ways to miss the described base prefix: "0x" with no digit behind it, and "0X"
      with one. */
  predicate MissesPrefix(s: string, j: nat, base: int)
    requires j <= |s|
  {
    At(s, j) == '0' &&
    (|| ((base == 0 || base == 16) && At(s, j + 1) == 'x' && !IsHexAt(s, j + 2))
     || (base == 16 && At(s, j + 1) == 'X' && IsHexAt(s, j + 2)))
  }

  /** The code reads what its description says, for every text and base, exactly when no other
      white space stands behind the spaces and tabs, and neither of these behind the sign. */
  lemma MeetsDescription(s: string, base: int)
    ensures Number(s, base) == DescribedNumber(s, base) && End(s, base) == DescribedEnd(s, base)
            <==> !IsWhitespace(At(s, SkipBlanks(s, 0))) && !MissesPrefix(s, BodyStart(s), base)
  {
    hide Value, SkipBlanks, SkipWhitespace, BehindSign;
    var i, j := SkipBlanks(s, 0), BodyStart(s);
    if IsWhitespace(At(s, i)) {
      StopsAtWhitespace(s, base);
    } else {
      SameBlanks(s, 0);
      if MissesPrefix(s, j, base) {
        DescriptionEndsElsewhere(s, j, base);
      } else {
        assert BasePrefix(s, j, base) == DescribedBasePrefix(s, j, base);
      }
    }
  }

  lemma {:induction false} SameBlanks(s: string, i: nat)
    requires i <= |s|
    ensures SkipBlanks(s, i) <= SkipWhitespace(s, i)
    ensures SkipBlanks(s, i) == SkipWhitespace(s, i) <==> !IsWhitespace(At(s, SkipBlanks(s, i)))
    decreases |s| - i
  {
    if i < |s| && (s[i] == ' ' || s[i] == '\t') {
      SameBlanks(s, i + 1);
    }
  }

  lemma StopsAtWhitespace(s: string, base: int)
    requires IsWhitespace(At(s, SkipBlanks(s, 0)))
    ensures End(s, base) == SkipBlanks(s, 0) < DescribedEnd(s, base)
  {
    hide SkipBlanks, SkipWhitespace, DescribedReading;
    SameBlanks(s, 0);
    var i := SkipBlanks(s, 0);
    assert forall b :: !IsDigit(At(s, i), b);
    assert Prefix(s, base).start == i;
    RunEndIs(s, i, i, Prefix(s, base).base);
  }

  lemma DescriptionEndsElsewhere(s: string, j: nat, base: int)
    requires j <= |s| && MissesPrefix(s, j, base)
    ensures var (b, k), (b', k') := BasePrefix(s, j, base), DescribedBasePrefix(s, j, base);
            RunEnd(s, k, b) != RunEnd(s, k', b')
  {
    assert IsDigit('0', 16) && !IsDigit('x', 16) && !IsDigit('X', 16) && !IsDigit('x', 8);
    hide IsDigit;
    if At(s, j + 1) == 'x' {
      RunEndIs(s, j + 2, j + 2, 16);
      if base == 0 {
        RunEndIs(s, j + 1, j + 1, 8);
      } else {
        RunEndIs(s, j, j + 1, 16);
      }
    } else {
      RunEndIs(s, j, j + 1, 16);
    }
  }

  /** The upper-case prefix: only its zero is read. */
  lemma UpperCasePrefixNotRead(blanks: string, sign: string, rest: string)
    requires IsFront(blanks, sign, "0X" + rest)
    ensures var s := blanks + sign + "0X" + rest;
            Number(s, 16) == 0 && End(s, 16) == |blanks| + |sign| + 1
  {
    hide Number, End;
    var tail := "X" + rest;
    assert "" + "0" + tail == "0X" + rest && "0" + tail == "0X" + rest;
    assert blanks + sign + "" + "0" + tail == blanks + sign + "0X" + rest;
    assert tail[0] == 'X' && !IsDigit('X', 16) && IsDigit('0', 16);
    assert ("0" + tail)[1] == 'X' && "0x"[1] == 'x';
    ReadsGrammar(blanks, sign, "", "0", tail, 16, 16);
    assert Value("0", 16) == Value("0"[..0], 16) * 16 + 0 == 0;
  }

  /** The bare prefix: both its characters are consumed. */
  lemma BarePrefixIsConsumed(blanks: string, sign: string, rest: string, base: int)
    requires (base == 0 || base == 16) && !StartsWithDigit(rest, 16) && IsFront(blanks, sign, "0x" + rest)
    ensures var s := blanks + sign + "0x" + rest;
            Number(s, base) == 0 && End(s, base) == |blanks| + |sign| + 2
  {
    hide Number, End;
    assert "0x" + "" + rest == "0x" + rest && "" + rest == rest;
    assert blanks + sign + "0x" + "" + rest == blanks + sign + "0x" + rest;
    ReadsGrammar(blanks, sign, "0x", "", rest, base, 16);
  }
}
