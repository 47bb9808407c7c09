/** Reading back what was printed: strtol on the output of the numeric conversions. */
module RoundTrip {
  import opened CStrings
  import opened Digits
  import opened Format
  import opened Printf
  import opened Strtol

  /** The text reads as v in the given base, and all of it is read. */
  ghost predicate ReadsAs(s: string, base: int, v: int) {
    Number(s, base) == v && End(s, base) == |s|
  }

  function Signed(negative: bool, n: int): int {
    if negative then -n else n
  }

  /** Blanks, possibly a minus sign, and digits. */
  lemma ReadsDigits(blanks: nat, negative: bool, digits: string, base: int)
    requires 2 <= base <= 36 && digits != [] && AllDigits(digits, base)
    ensures var s := Repeat(' ', blanks) + (if negative then "-" else "") + digits;
            ReadsAs(s, base, Signed(negative, Value(digits, base)))
  {
    hide Value, Number, End, Repeat, Divides;
    var sign := if negative then "-" else "";
    DigitsDivide(Repeat(' ', blanks), sign, digits, base);
    ReadsGrammar(Repeat(' ', blanks), sign, "", digits, "", base, base);
    assert Repeat(' ', blanks) + sign + "" + digits + "" == Repeat(' ', blanks) + sign + digits;
  }

  lemma DigitsDivide(blanks: string, sign: string, digits: string, base: int)
    requires 2 <= base <= 36 && digits != [] && AllDigits(digits, base) && (sign == "" || sign == "-")
    requires forall i | 0 <= i < |blanks| :: blanks[i] == ' '
    ensures Divides(blanks, sign, "", digits, "", base, base)
  {
    assert "" + digits + "" == digits && digits + "" == digits;
    assert IsDigit(digits[0], base) && (|digits| > 1 ==> IsDigit(digits[1], base));
    assert !IsDigit('x', 16);
  }

  /** A sign with no digit behind it ends the reading there. */
  lemma StopsBehindSign(s: string, base: int)
    requires 2 <= base <= 16 && |s| >= 2 && s[0] == '-' && (s[1] == ' ' || s[1] == '-')
    ensures End(s, base) == 1 && Number(s, base) == 0
  {
    hide Number, End;
    var tail := s[1..];
    assert s == "" + "-" + "" + "" + tail && "" + tail == tail;
    ReadsGrammar("", "-", "", "", tail, base, base);
  }

  /** Zeros in front of a numeral are part of the digits. */
  lemma ZeroPadded(num: nat, base: nat, width: int) returns (digits: string)
    requires 2 <= base <= 16
    ensures digits == NumberText(num, base, width, '0') && digits != []
    ensures AllDigits(digits, base) && Value(digits, base) == num
  {
    hide Numeral, Value;
    var contents := Numeral(num, base);
    var zeros := Repeat('0', width - |contents|);
    digits := zeros + contents;
    NumeralIsCanonical(num, base);
    LeadingZeros(zeros, contents, base);
    assert forall i | 0 <= i < |digits| ::
        IsDigit(digits[i], base) by {
      assert IsDigit('0', base);
      assert forall i | 0 <= i < |contents| :: IsDigit(contents[i], base);
    }
  }

  lemma BlankPadded(num: nat, base: nat, width: int, negative: bool)
    requires 2 <= base <= 16 && (negative ==> width <= |Numeral(num, base)|)
    ensures var sign := if negative then "-" else "";
            ReadsAs(sign + NumberText(num, base, width, ' '), base, Signed(negative, num))
  {
    hide Number, End, Numeral, Value;
    var contents := Numeral(num, base);
    var pads := if width > |contents| then width - |contents| else 0;
    NumeralIsCanonical(num, base);
    ReadsDigits(pads, negative, contents, base);
    var sign := if negative then "-" else "";
    assert NumberText(num, base, width, ' ') == Repeat(' ', pads) + contents;
    assert sign + (Repeat(' ', pads) + contents) == Repeat(' ', pads) + sign + contents;
  }

  lemma SignedZeroPadded(num: nat, base: nat, width: int, negative: bool)
    requires 2 <= base <= 16
    ensures var sign := if negative then "-" else "";
            ReadsAs(sign + NumberText(num, base, width, '0'), base, Signed(negative, num))
  {
    hide Number, End, NumberText, Value;
    var digits := ZeroPadded(num, base, width);
    ReadsDigits(0, negative, digits, base);
    var sign := if negative then "-" else "";
    assert Repeat(' ', 0) + sign + digits == sign + digits;
  }

  /** Padded with a single minus sign, the number reads as its negation. */
  lemma OneMinus(num: nat, base: nat)
    requires 2 <= base <= 16
    ensures ReadsAs(NumberText(num, base, |Numeral(num, base)| + 1, '-'), base, Signed(true, num))
  {
    hide Number, End, Numeral;
    BlankPadded(num, base, 0, true);
    NoPadding(num, base, 0, ' ');
    assert Repeat('-', 1) == Repeat('-', 0) + ['-'] == "-";
  }

  /** An unsigned number reads back, in the base it was printed in, unless it was padded
      with minus signs; a single one only goes unnoticed in front of 0. */
  lemma UnsignedRoundTrip(num: nat, base: nat, width: int, padc: char)
    requires 2 <= base <= 16 && IsPad(padc)
    ensures var n := |Numeral(num, base)|;
            ReadsAs(NumberText(num, base, width, padc), base, num) <==>
            padc != '-' || width <= n || (width == n + 1 && num == 0)
    ensures var v := Number(NumberText(num, base, width, padc), base); v == num || -v == num || v == 0
  {
    hide Number, End, Numeral;
    var n := |Numeral(num, base)|;
    var text := NumberText(num, base, width, padc);
    if padc == '0' {
      SignedZeroPadded(num, base, width, false);
      assert "" + text == text;
    } else if padc == ' ' || width <= n {
      BlankPadded(num, base, width, false);
      if width <= n {
        NoPadding(num, base, width, ' ');
        NoPadding(num, base, width, padc);
      }
      assert "" + text == text;
    } else if width == n + 1 {
      OneMinus(num, base);
    } else {
      StopsBehindSign(text, base);
    }
  }

  /** Nothing that ends the reading comes between the sign and the digits. */
  predicate KeepsNumber(v: int, f: Flags) {
    var n := |Numeral(if v < 0 then -v else v, 10)|;
    f.padc == '0' || f.width <= n || (v >= 0 && f.padc == ' ') || (v == 0 && f.width == n + 1)
  }

  /** A signed number reads back exactly then; otherwise what is read is its negation, or 0. */
  lemma SignedRoundTrip(v: int, f: Flags)
    requires IsPad(f.padc)
    ensures ReadsAs(SignedText(v, f), 10, v) <==> KeepsNumber(v, f)
    ensures var n := Number(SignedText(v, f), 10); n == v || n == -v || n == 0
  {
    hide Number, End, Numeral;
    if v >= 0 {
      UnsignedRoundTrip(v, 10, f.width, f.padc);
    } else if f.padc == '0' {
      SignedZeroPadded(-v, 10, f.width, true);
    } else if f.width <= |Numeral(-v, 10)| {
      BlankPadded(-v, 10, f.width, true);
      NoPadding(-v, 10, f.width, ' ');
      NoPadding(-v, 10, f.width, f.padc);
    } else {
      var text := SignedText(v, f);
      assert text[1] == f.padc;
      StopsBehindSign(text, 10);
    }
  }

  lemma ReadsPointer(digits: string, rest: string, base: int)
    requires base == 0 || base == 16
    requires AllDigits(digits, 16) && !StartsWithDigit(rest, 16)
    ensures var s := "0x" + digits + rest;
            Number(s, base) == Value(digits, 16) && End(s, base) == 2 + |digits|
  {
    hide Value, Number, End, IsDigit;
    var s := "0x" + digits + rest;
    assert s[0] == '0' && "" + "" + "0x" == "0x";
    ReadsGrammar("", "", "0x", digits, rest, base, 16);
  }

  /** A pointer reads back with the base left open, or given as 16, whenever nothing but
      zeros comes between its prefix and its digits. */
  lemma PointerRoundTrip(num: nat, f: Flags, base: int)
    requires IsPad(f.padc) && (base == 0 || base == 16)
    ensures ReadsAs(PointerText(num, f), base, num) <==> f.padc == '0' || f.width <= |Numeral(num, 16)|
  {
    hide Number, End, Numeral, Value;
    var padded := NumberText(num, 16, f.width, f.padc);
    if f.padc == '0' || f.width <= |Numeral(num, 16)| {
      var digits := ZeroPadded(num, 16, if f.padc == '0' then f.width else 0);
      if f.padc != '0' {
        NoPadding(num, 16, 0, '0');
        NoPadding(num, 16, f.width, f.padc);
      }
      ReadsPointer(digits, "", base);
      assert "0x" + digits + "" == PointerText(num, f);
    } else {
      assert padded[0] == f.padc && !IsDigit(f.padc, 16);
      ReadsPointer("", padded, base);
      assert "0x" + "" + padded == PointerText(num, f);
    }
  }

  // ----- From the buffer back

  /** A format that consists of one signed escape, with any flags, width and precision. */
  ghost predicate IsSignedField(fmt: CString, args: seq<Arg>) {
    fmt != [] && fmt[0] == '%' && At(fmt, Scan(fmt, 1, args, NoFlags).0) == 'd'
    && Scan(fmt, 1, args, NoFlags).0 == |fmt| - 1
  }

  /** The flags of such a format, and the number it prints. */
  function Field(fmt: CString, args: seq<Arg>): (int, Flags)
    requires fmt != []
  {
    var (_, args', f) := Scan(fmt, 1, args, NoFlags);
    (GetInt(args', f.lflag), f)
  }

  lemma FieldText(fmt: CString, args: seq<Arg>)
    requires IsSignedField(fmt, args)
    ensures var (v, f) := Field(fmt, args); Text(fmt, 0, args) == SignedText(v, f) && IsPad(f.padc)
  {
    hide StringText, ErrorText, PointerText, NumberText, SignedText, Scan;
    KnownEscape(fmt, 0, args);
    ScanPads(fmt, 1, args, NoFlags);
  }

  lemma FieldHasNoTerminator(v: int, f: Flags)
    requires IsPad(f.padc)
    ensures IsCString(SignedText(v, f))
  {
    hide Numeral, Value;
    var n := if v < 0 then -v else v;
    NumeralIsCanonical(n, 10);
    assert !IsDigit(NUL, 10);
    assert NUL !in Numeral(n, 10);
    assert NUL !in NumberText(n, 10, f.width, f.padc);
  }

  /** A client: a signed field of any form, printed into a buffer with room for it, is read
      back as its number, to its end, exactly when its flags keep the number.  The least long
      is the one that cannot be read without overflow. */
  method PrintAndReadField(fmt: CString, args: seq<Arg>, buf: array<char>) returns (v: long, end: nat)
    requires IsSignedField(fmt, args) && Field(fmt, args).0 >= -LONG_MAX
    requires |Text(fmt, 0, args)| < buf.Length
    modifies buf
    ensures var (num, f) := Field(fmt, args);
            v == num && end == |Text(fmt, 0, args)| <==> KeepsNumber(num, f)
  {
    hide Number, End, Text, SignedText, Value, Scan, KeepsNumber, Numeral, IsPad;
    ghost var (num, f) := Field(fmt, args);
    FieldText(fmt, args);
    FieldHasNoTerminator(num, f);
    SignedRoundTrip(num, f);
    var n := Vsnprintf(buf, buf.Length, fmt, args);
    assert buf[..n] == SignedText(num, f);
    DigitsOfNumber(buf[..n], 10);
    v, end := Strtol.Strtol(buf[..n], 10);
  }

  lemma DigitsOfNumber(s: string, base: int)
    ensures var v := Value(Run(s, base), Prefix(s, base).base);
            v == Number(s, base) || v == -Number(s, base)
    ensures Value(Run(s, base), Prefix(s, base).base) >= 0
  {
    RunNonnegative(s, base);
  }

  lemma LongField(w: u64)
    ensures IsSignedField("%ld", [Word(w)]) && Field("%ld", [Word(w)]) == (Signed64(w), NoFlags.(lflag := 1))
  {
    var fmt: CString, args := "%ld", [Word(w)];
    assert Scan(fmt, 2, args, NoFlags.(lflag := 1)).0 == 2;
    assert Scan(fmt, 1, args, NoFlags) == (2, args, NoFlags.(lflag := 1));
  }

  /** A long printed without padding is always read back as itself. */
  method PrintAndRead(w: u64, buf: array<char>) returns (v: long)
    requires Signed64(w) >= -LONG_MAX && |SignedText(Signed64(w), NoFlags)| < buf.Length
    modifies buf
    ensures v == Signed64(w)
  {
    hide Text, Scan, Numeral;
    LongField(w);
    FieldText("%ld", [Word(w)]);
    var end;
    v, end := PrintAndReadField("%ld", [Word(w)], buf);
  }
}
