/** What each escape of a format prints, and what its flags say. */
module Escapes {
  import opened CStrings
  import opened Digits
  import opened Format
  import opened Notation
  import opened RoundTrip
  import opened Strtol

  // ----- Flags, width and precision as they are written

  /** The last of the characters that set the padding, or p if there is none. */
  function LastPad(flags: string, p: char): char {
    if flags == [] then p
    else LastPad(flags[1..], if flags[0] == '#' then p else flags[0])
  }

  /** A number as it is written in an escape; 0 stands for none. */
  function Written(n: nat): string {
    if n == 0 then "" else Positional(n, 10, LOWER)
  }

  ghost predicate IsAt(piece: string, fmt: string, i: nat) {
    i + |piece| <= |fmt| && fmt[i..i + |piece|] == piece
  }

  lemma PieceIsAt(fmt: string, front: string, piece: string, rest: string)
    requires fmt == front + piece + rest
    ensures IsAt(piece, fmt, |front|)
  {
  }

  lemma {:induction false} ScanFlagCharacters(fmt: string, i: nat, args: seq<Arg>, f: Flags, flags: string)
    requires IsAt(flags, fmt, i) && forall k | 0 <= k < |flags| :: flags[k] in "-0#"
    ensures Scan(fmt, i, args, f) == Scan(fmt, i + |flags|, args,
                                          f.(padc := LastPad(flags, f.padc), altflag := f.altflag || '#' in flags))
    decreases |flags|
  {
    if flags != [] {
      var c, more := flags[0], flags[1..];
      assert fmt[i] == fmt[i..i + |flags|][0] == c;
      assert fmt[i + 1..i + |flags|] == fmt[i..i + |flags|][1..] == more;
      assert flags == [c] + more;
      ScanFlagCharacters(fmt, i + 1, args, if c == '#' then f.(altflag := true) else f.(padc := c), more);
    }
  }

  lemma ScanNumber(fmt: string, i: nat, args: seq<Arg>, f: Flags, n: nat)
    requires n >= 1 && IsAt(Written(n), fmt, i)
    requires !('0' <= At(fmt, i + |Written(n)|) <= '9')
    ensures Scan(fmt, i, args, f) == Scan(fmt, i + |Written(n)|, args, WithNumber(f, n))
  {
    hide Positional, Value;
    var digits := Written(n);
    WrittenNumber(n);
    var e := i + |digits|;
    assert forall k | i <= k < e :: fmt[k] == digits[k - i];
    DecimalEndIs(fmt, i, e);
  }

  lemma WrittenNumber(n: nat)
    requires n >= 1
    ensures var digits := Written(n);
            && digits != [] && Value(digits, 10) == n && digits[0] != '0'
            && forall k | 0 <= k < |digits| :: '0' <= digits[k] <= '9'
  {
    PositionalValue(n, 10, LOWER);
    NumeralIsPositional(n, 10);
    NumeralIsCanonical(n, 10);
    hide Numeral, Positional, Value;
    assert forall k | 0 <= k < |Written(n)| :: IsDigit(Written(n)[k], 10);
  }

  lemma {:induction false} DecimalEndIs(s: string, i: nat, e: nat)
    requires i <= e <= |s| && !('0' <= At(s, e) <= '9')
    requires forall k | i <= k < e :: '0' <= s[k] <= '9'
    ensures DecimalEnd(s, i) == e
    decreases e - i
  {
    if i < e {
      DecimalEndIs(s, i + 1, e);
    }
  }

  lemma {:induction false} ScanLongs(fmt: string, i: nat, args: seq<Arg>, f: Flags, longs: string)
    requires IsAt(longs, fmt, i) && forall k | 0 <= k < |longs| :: longs[k] == 'l'
    ensures Scan(fmt, i, args, f) == Scan(fmt, i + |longs|, args, f.(lflag := f.lflag + |longs|))
    decreases |longs|
  {
    if longs != [] {
      assert fmt[i] == fmt[i..i + |longs|][0] == 'l';
      assert fmt[i + 1..i + |longs|] == fmt[i..i + |longs|][1..] == longs[1..];
      ScanLongs(fmt, i + 1, args, f.(lflag := f.lflag + 1), longs[1..]);
    }
  }

  lemma ScanDot(fmt: string, i: nat, args: seq<Arg>, f: Flags)
    requires i < |fmt| && fmt[i] == '.'
    ensures Scan(fmt, i, args, f) == Scan(fmt, i + 1, args, f.(width := if f.width < 0 then 0 else f.width))
  {
  }

  lemma ScanStops(fmt: string, i: nat, args: seq<Arg>, f: Flags)
    requires i <= |fmt| && !IsFlag(At(fmt, i))
    ensures Scan(fmt, i, args, f) == (i, args, f)
  {
  }

  /** What the written flags say: the last pad character counts, the first number is the width,
      the one behind a dot the precision, and a dot alone makes the width 0. */
  function Said(flags: string, width: nat, dot: bool, precision: nat, longs: string): Flags {
    Flags(LastPad(flags, ' '), if width > 0 then width else if dot then 0 else -1,
          if dot && precision > 0 then precision else -1, |longs|, '#' in flags)
  }

  /** Flags, width, dot and precision, and the letters "l", in this order, are all understood,
      and the conversion character is the one behind them. */
  lemma EscapeGrammar(fmt: string, front: string, flags: string, width: nat, dot: bool, precision: nat,
                      longs: string, tail: string, args: seq<Arg>)
    requires (forall k | 0 <= k < |flags| :: flags[k] in "-0#") && (forall k | 0 <= k < |longs| :: longs[k] == 'l')
    requires (dot || precision == 0) && (tail == [] || tail[0] !in "-#.*l0123456789")
    requires fmt == front + flags + Written(width) + (if dot then "." else "") + Written(precision) + longs + tail
    ensures Scan(fmt, |front|, args, NoFlags)
            == (|fmt| - |tail|, args, Said(flags, width, dot, precision, longs))
  {
    hide Scan, Written, IsAt, LastPad;
    var point := if dot then "." else "";
    NothingWritten();
    PiecesAreAt(fmt, front, flags, Written(width), point, Written(precision), longs, tail);
    NextCharacters(fmt, front, flags, Written(width), point, Written(precision), longs, tail);
    var a, b := |front + flags|, |front + flags + Written(width)|;
    var d := |front + flags + Written(width) + point + Written(precision)|;
    var f := NoFlags.(padc := LastPad(flags, ' '), altflag := '#' in flags);
    ScanFlagCharacters(fmt, |front|, args, NoFlags, flags);
    ScanWidth(fmt, a, args, f, width);
    f := if width > 0 then f.(width := width) else f;
    ScanPrecision(fmt, b, args, f, dot, precision);
    f := f.(width := if dot && width == 0 then 0 else f.width,
            precision := if dot && precision > 0 then precision else -1);
    ScanLongs(fmt, d, args, f, longs);
    ScanStops(fmt, |fmt| - |tail|, args, f.(lflag := |longs|));
  }

  lemma ScanWidth(fmt: string, i: nat, args: seq<Arg>, f: Flags, width: nat)
    requires IsAt(Written(width), fmt, i) && !('0' <= At(fmt, i + |Written(width)|) <= '9')
    requires f.width < 0 && f.precision == -1
    ensures Scan(fmt, i, args, f)
            == Scan(fmt, i + |Written(width)|, args, if width > 0 then f.(width := width) else f)
  {
    hide Scan, IsAt;
    NothingWritten();
    hide Written;
    if width > 0 {
      ScanNumber(fmt, i, args, f, width);
    }
  }

  lemma ScanPrecision(fmt: string, i: nat, args: seq<Arg>, f: Flags, dot: bool, precision: nat)
    requires i <= |fmt| && (dot ==> At(fmt, i) == '.') && (dot || precision == 0)
    requires var j := i + if dot then 1 else 0;
             IsAt(Written(precision), fmt, j) && !('0' <= At(fmt, j + |Written(precision)|) <= '9')
    ensures Scan(fmt, i, args, f)
            == Scan(fmt, i + (if dot then 1 else 0) + |Written(precision)|, args,
                    f.(width := if dot && f.width < 0 then 0 else f.width,
                       precision := if dot && precision > 0 then precision else f.precision))
  {
    hide Scan, IsAt;
    NothingWritten();
    hide Written;
    if dot {
      ScanDot(fmt, i, args, f);
      if precision > 0 {
        ScanNumber(fmt, i + 1, args, f.(width := if f.width < 0 then 0 else f.width), precision);
      }
    }
  }

  lemma NothingWritten()
    ensures Written(0) == ""
  {
  }

  lemma PiecesAreAt(fmt: string, front: string, flags: string, width: string, point: string, precision: string,
                    longs: string, tail: string)
    requires fmt == front + flags + width + point + precision + longs + tail
    ensures IsAt(flags, fmt, |front|) && IsAt(width, fmt, |front + flags|)
    ensures IsAt(precision, fmt, |front + flags + width + point|)
    ensures IsAt(longs, fmt, |front + flags + width + point + precision|)
  {
    hide IsAt;
    PieceIsAt(fmt, front, flags, width + point + precision + longs + tail);
    PieceIsAt(fmt, front + flags, width, point + precision + longs + tail);
    PieceIsAt(fmt, front + flags + width + point, precision, longs + tail);
    PieceIsAt(fmt, front + flags + width + point + precision, longs, tail);
  }

  /** No number is followed by another digit. */
  lemma NextCharacters(fmt: string, front: string, flags: string, width: string, point: string,
                       precision: string, longs: string, tail: string)
    requires fmt == front + flags + width + point + precision + longs + tail
    requires point == "." || (point == "" && precision == "")
    requires (forall k | 0 <= k < |longs| :: longs[k] == 'l') && (tail == [] || tail[0] !in "-#.*l0123456789")
    ensures !('0' <= At(fmt, |front + flags + width|) <= '9')
    ensures point == "." ==> At(fmt, |front + flags + width|) == '.'
    ensures !('0' <= At(fmt, |front + flags + width + point + precision|) <= '9')
    ensures !IsFlag(At(fmt, |fmt| - |tail|))
  {
    var b, d := |front + flags + width|, |front + flags + width + point + precision|;
    assert fmt[|fmt| - |tail|..] == tail;
    assert fmt[d..] == longs + tail;
    assert d < |fmt| ==> fmt[d] == fmt[d..][0];
    assert point == "." ==> fmt[b] == '.';
  }

  // ----- Numbers

  /** v is the argument slot w read as a signed int, or as a signed long after an "l". */
  ghost predicate IsSignedSlot(w: u64, longs: nat, v: int) {
    if longs == 0 then -0x8000_0000 <= v < 0x8000_0000 && (v - w) % 0x1_0000_0000 == 0
    else -0x8000_0000_0000_0000 <= v < 0x8000_0000_0000_0000 && (v - w) % 0x1_0000_0000_0000_0000 == 0
  }

  /** A star takes the next argument, an int, for a number. */
  lemma StarTakesAnInt(fmt: string, i: nat, args: seq<Arg>, f: Flags, w: u64, v: int)
    requires i < |fmt| && fmt[i] == '*' && args != [] && args[0] == Word(w) && IsSignedSlot(w, 0, v)
    ensures Scan(fmt, i, args, f)
            == Scan(fmt, i + 1, args[1..], if f.width < 0 then f.(width := v, precision := -1) else f.(precision := v))
  {
    SignedSlots(w, 0, v);
  }

  lemma SignedSlots(w: u64, longs: nat, v: int)
    requires IsSignedSlot(w, longs, v)
    ensures v == if longs == 0 then Signed32(w) else Signed64(w)
  {
    var m := if longs == 0 then 0x1_0000_0000 else 0x1_0000_0000_0000_0000;
    var u := if longs == 0 then Signed32(w) else Signed64(w);
    assert (v - w) % m == 0 && (u - w) % m == 0 && -m < v - u < m;
    var p, q := (v - w) / m, (u - w) / m;
    assert v - u == m * (p - q);
  }

  /** The escape whose percent sign is at i, with its conversion character c and its argument. */
  ghost predicate IsEscape(fmt: CString, i: nat, args: seq<Arg>, c: char, arg: Arg) {
    && i < |fmt| && fmt[i] == '%'
    && var (j, args', _) := Scan(fmt, i + 1, args, NoFlags);
       j < |fmt| && fmt[j] == c && args' != [] && args'[0] == arg
  }

  /** What the text consists of: that of the escape, and the rest with the arguments left. */
  ghost predicate Prints(fmt: CString, i: nat, args: seq<Arg>, text: string)
    requires i < |fmt|
  {
    var (j, args', _) := Scan(fmt, i + 1, args, NoFlags);
    args' != [] && j < |fmt| && Text(fmt, i, args) == text + Text(fmt, j + 1, args'[1..])
  }

  function FlagsOf(fmt: CString, i: nat, args: seq<Arg>): Flags
    requires i < |fmt|
  {
    Scan(fmt, i + 1, args, NoFlags).2
  }

  /** The notation of n, padded in front to a width. */
  function Padded(n: nat, base: nat, width: int, padc: char): string
    requires 2 <= base <= 36
  {
    var digits := Positional(n, base, LOWER);
    Repeat(padc, width - |digits|) + digits
  }

  lemma PaddedIsNumberText(n: nat, base: nat, width: int, padc: char)
    requires 2 <= base <= 16
    ensures Padded(n, base, width, padc) == NumberText(n, base, width, padc)
  {
    NumeralIsPositional(n, base);
  }

  lemma EscapePrints(fmt: CString, i: nat, args: seq<Arg>, c: char, arg: Arg)
    requires IsEscape(fmt, i, args, c, arg) && IsConversion(c) && c != '%'
    ensures var (j, args', f) := Scan(fmt, i + 1, args, NoFlags);
            args' == [arg] + args'[1..] && Prints(fmt, i, args, Converted(c, args', f).0)
  {
    hide Text, Scan, StringText, ErrorText, PointerText, NumberText, SignedText;
    KnownEscape(fmt, i, args);
  }

  function BaseOf(c: char): nat {
    if c == 'u' then 10 else if c == 'o' then 8 else 16
  }

  /** An unsigned argument is an int, or a long after an "l"; pointers are always long. */
  function UnsignedSlot(c: char, w: u64, longs: nat): nat {
    if c == 'p' || longs >= 1 then w else w % 0x1_0000_0000
  }

  /** Unsigned numbers are printed in base 10, 8 or 16, and pointers in base 16 behind "0x". */
  lemma UnsignedEscape(fmt: CString, i: nat, args: seq<Arg>, c: char, w: u64)
    requires IsEscape(fmt, i, args, c, Word(w)) && c in "uoxp"
    ensures var f := FlagsOf(fmt, i, args);
            Prints(fmt, i, args, (if c == 'p' then "0x" else "") + Padded(UnsignedSlot(c, w, f.lflag), BaseOf(c), f.width, f.padc))
  {
    hide Scan, Prints, Padded, NumberText;
    var f := FlagsOf(fmt, i, args);
    EscapePrints(fmt, i, args, c, Word(w));
    PaddedIsNumberText(UnsignedSlot(c, w, f.lflag), BaseOf(c), f.width, f.padc);
    assert "" + Padded(UnsignedSlot(c, w, f.lflag), BaseOf(c), f.width, f.padc) == Padded(UnsignedSlot(c, w, f.lflag), BaseOf(c), f.width, f.padc);
  }

  /** A signed number is printed with its sign in front of the field. */
  lemma SignedEscape(fmt: CString, i: nat, args: seq<Arg>, w: u64, v: int)
    requires IsEscape(fmt, i, args, 'd', Word(w)) && IsSignedSlot(w, FlagsOf(fmt, i, args).lflag, v)
    ensures var f := FlagsOf(fmt, i, args);
            Prints(fmt, i, args, if v < 0 then "-" + Padded(-v, 10, f.width, f.padc) else Padded(v, 10, f.width, f.padc))
  {
    hide Scan, Prints, Padded, NumberText;
    var f := FlagsOf(fmt, i, args);
    EscapePrints(fmt, i, args, 'd', Word(w));
    SignedSlots(w, f.lflag, v);
    PaddedIsNumberText(if v < 0 then -v else v, 10, f.width, f.padc);
  }

  /** A format that is one escape: flags, a width and letters "l" as they are written. */
  function WrittenEscape(flags: string, width: nat, longs: string, c: char): string {
    "%" + flags + Written(width) + longs + [c]
  }

  ghost predicate AreFlags(flags: string, longs: string) {
    (forall k | 0 <= k < |flags| :: flags[k] in "-0#") && (forall k | 0 <= k < |longs| :: longs[k] == 'l')
  }

  /** An unsigned escape, from its text alone: the argument in positional notation, in the
      width and with the last pad character written. */
  lemma WrittenUnsigned(flags: string, width: nat, longs: string, c: char, w: u64)
    requires AreFlags(flags, longs) && c in "uoxp"
    ensures var fmt := WrittenEscape(flags, width, longs, c);
            var n := if c == 'p' || longs != "" then w else w % 0x1_0000_0000;
            var base := if c == 'u' then 10 else if c == 'o' then 8 else 16;
            && IsCString(fmt)
            && Text(fmt, 0, [Word(w)])
               == (if c == 'p' then "0x" else "") + Padded(n, base, width, LastPad(flags, ' '))
  {
    hide Text, Scan, Prints, Padded, Written, LastPad, IsEscape, FlagsOf;
    var fmt, n := WrittenEscape(flags, width, longs, c), UnsignedSlot(c, w, |longs|);
    WrittenIsCString(flags, width, longs, c);
    WrittenIsEscape(flags, width, longs, c, Word(w));
    UnsignedEscape(fmt, 0, [Word(w)], c, w);
    var f := FlagsOf(fmt, 0, [Word(w)]);
    WholeText(fmt, [Word(w)], (if c == 'p' then "0x" else "") + Padded(n, BaseOf(c), f.width, f.padc));
    NoWidth(n, BaseOf(c), f.padc);
  }

  /** The same for a signed escape. */
  lemma WrittenSigned(flags: string, width: nat, longs: string, w: u64, v: int)
    requires AreFlags(flags, longs) && IsSignedSlot(w, |longs|, v)
    ensures var fmt := WrittenEscape(flags, width, longs, 'd');
            && IsCString(fmt)
            && Text(fmt, 0, [Word(w)])
               == if v < 0 then "-" + Padded(-v, 10, width, LastPad(flags, ' '))
                  else Padded(v, 10, width, LastPad(flags, ' '))
  {
    hide Text, Scan, Prints, Padded, Written, LastPad, IsEscape, FlagsOf;
    var fmt, n := WrittenEscape(flags, width, longs, 'd'), if v < 0 then -v else v;
    WrittenIsCString(flags, width, longs, 'd');
    WrittenIsEscape(flags, width, longs, 'd', Word(w));
    SignedEscape(fmt, 0, [Word(w)], w, v);
    var f := FlagsOf(fmt, 0, [Word(w)]);
    WholeText(fmt, [Word(w)], if v < 0 then "-" + Padded(-v, 10, f.width, f.padc) else Padded(v, 10, f.width, f.padc));
    NoWidth(n, 10, f.padc);
  }

  lemma NoWidth(n: nat, base: nat, padc: char)
    requires 2 <= base <= 36
    ensures Padded(n, base, -1, padc) == Padded(n, base, 0, padc)
  {
    hide Positional;
  }

  lemma WrittenIsCString(flags: string, width: nat, longs: string, c: char)
    requires AreFlags(flags, longs) && c != NUL
    ensures IsCString(WrittenEscape(flags, width, longs, c))
  {
    NothingWritten();
    if width > 0 {
      WrittenNumber(width);
    }
    hide Written;
    assert NUL !in Written(width);
  }

  lemma WrittenIsEscape(flags: string, width: nat, longs: string, c: char, arg: Arg)
    requires AreFlags(flags, longs) && c in "cesduoxp" && IsCString(WrittenEscape(flags, width, longs, c))
    ensures var fmt := WrittenEscape(flags, width, longs, c);
            && IsEscape(fmt, 0, [arg], c, arg) && Scan(fmt, 1, [arg], NoFlags).0 == |fmt| - 1
            && FlagsOf(fmt, 0, [arg]).lflag == |longs|
            && FlagsOf(fmt, 0, [arg]).padc == LastPad(flags, ' ')
            && FlagsOf(fmt, 0, [arg]).width == if width > 0 then width else -1
  {
    hide Scan, LastPad;
    var fmt := WrittenEscape(flags, width, longs, c);
    NothingWritten();
    hide Written;
    assert "%" + flags + Written(width) + "" + "" + longs + [c] == fmt;
    EscapeGrammar(fmt, "%", flags, width, false, 0, longs, [c], [arg]);
  }

  /** What strtol makes of an unsigned field that is the whole format: the argument, in the
      base it was printed in, exactly when the padding keeps it. */
  lemma UnsignedFieldRoundTrip(fmt: CString, args: seq<Arg>, c: char, w: u64)
    requires IsEscape(fmt, 0, args, c, Word(w)) && c in "uoxp" && Scan(fmt, 1, args, NoFlags).0 == |fmt| - 1
    ensures var f := FlagsOf(fmt, 0, args);
            var n := UnsignedSlot(c, w, f.lflag);
            var digits := |Positional(n, BaseOf(c), LOWER)|;
            ReadsAs(Text(fmt, 0, args), BaseOf(c), n) <==>
            if c == 'p' then f.padc == '0' || f.width <= digits
            else f.padc != '-' || f.width <= digits || (f.width == digits + 1 && n == 0)
  {
    hide Scan, ReadsAs, NumberText, Padded, Positional, Numeral;
    var f := FlagsOf(fmt, 0, args);
    var n := UnsignedSlot(c, w, f.lflag);
    UnsignedEscape(fmt, 0, args, c, w);
    WholeText(fmt, args, (if c == 'p' then "0x" else "") + Padded(n, BaseOf(c), f.width, f.padc));
    PaddedIsNumberText(n, BaseOf(c), f.width, f.padc);
    NumeralIsPositional(n, BaseOf(c));
    ScanPads(fmt, 1, args, NoFlags);
    assert "" + Padded(n, BaseOf(c), f.width, f.padc) == Padded(n, BaseOf(c), f.width, f.padc);
    if c == 'p' {
      PointerRoundTrip(n, f, 16);
    } else {
      UnsignedRoundTrip(n, BaseOf(c), f.width, f.padc);
    }
  }

  /** The same of a signed field. */
  lemma SignedFieldRoundTrip(fmt: CString, args: seq<Arg>, w: u64, v: int)
    requires IsEscape(fmt, 0, args, 'd', Word(w)) && IsSignedSlot(w, FlagsOf(fmt, 0, args).lflag, v)
    requires Scan(fmt, 1, args, NoFlags).0 == |fmt| - 1
    ensures IsSignedField(fmt, args) && Field(fmt, args) == (v, FlagsOf(fmt, 0, args))
    ensures var f := FlagsOf(fmt, 0, args);
            var digits := |Positional(if v < 0 then -v else v, 10, LOWER)|;
            ReadsAs(Text(fmt, 0, args), 10, v) <==>
            f.padc == '0' || f.width <= digits || (v >= 0 && f.padc == ' ') || (v == 0 && f.width == digits + 1)
  {
    hide Scan, ReadsAs, SignedText, Positional, Numeral;
    var f := FlagsOf(fmt, 0, args);
    SignedSlots(w, f.lflag, v);
    FieldText(fmt, args);
    SignedRoundTrip(v, f);
    NumeralIsPositional(if v < 0 then -v else v, 10);
  }

  lemma WholeText(fmt: CString, args: seq<Arg>, text: string)
    requires fmt != [] && Prints(fmt, 0, args, text) && Scan(fmt, 1, args, NoFlags).0 == |fmt| - 1
    ensures Text(fmt, 0, args) == text
  {
    hide Scan;
    var args' := Scan(fmt, 1, args, NoFlags).1[1..];
    TextEnds(fmt, args');
    hide Text;
    assert text + "" == text;
  }

  lemma TextEnds(fmt: CString, args: seq<Arg>)
    ensures Text(fmt, |fmt|, args) == ""
  {
  }

  // ----- Characters, strings and errors

  /** A percent sign stands for itself and takes no argument. */
  lemma PercentEscape(fmt: CString, i: nat, args: seq<Arg>)
    requires i < |fmt| && fmt[i] == '%' && At(fmt, Scan(fmt, i + 1, args, NoFlags).0) == '%'
    ensures var (j, args', _) := Scan(fmt, i + 1, args, NoFlags);
            j < |fmt| && Text(fmt, i, args) == "%" + Text(fmt, j + 1, args')
  {
    hide Text, Scan, StringText, ErrorText, PointerText, NumberText, SignedText;
    KnownEscape(fmt, i, args);
  }

  /** Any other conversion character: the percent sign is plain text after all. */
  lemma OtherEscape(fmt: CString, i: nat, args: seq<Arg>)
    requires i < |fmt| && fmt[i] == '%' && At(fmt, Scan(fmt, i + 1, args, NoFlags).0) !in "cesduoxp%"
    ensures Text(fmt, i, args) == "%" + Text(fmt, i + 1, Scan(fmt, i + 1, args, NoFlags).1)
  {
    hide Text, Scan;
    UnknownEscape(fmt, i, args);
  }

  /** A character is the low byte of its argument; flags do not matter. */
  lemma CharacterEscape(fmt: CString, i: nat, args: seq<Arg>, w: u64)
    requires IsEscape(fmt, i, args, 'c', Word(w))
    ensures Prints(fmt, i, args, [(w % 256) as char])
  {
    hide Scan, Prints;
    EscapePrints(fmt, i, args, 'c', Word(w));
    LowByte(w);
  }

  lemma LowByte(w: u64)
    ensures Signed32(w) % 256 == w % 256
  {
    var z := (Signed32(w) - w) / 0x1_0000_0000;
    assert Signed32(w) == w + 256 * (0x100_0000 * z);
  }

  /** The k-th character of a string as it is shown: with the alternate flag, a question mark
      for whatever is not printable. */
  ghost predicate ShowsString(text: string, s: string, n: nat, start: nat, alternate: bool)
    requires n <= |s| && start + n <= |text|
  {
    forall k | 0 <= k < n :: text[start + k] == if !alternate || ' ' <= s[k] <= '~' then s[k] else '?'
  }

  /** A string, or "(null)" for a null pointer: its first `precision` characters, or all of
      them, at one end of a field that is padded with the pad character in front or with
      spaces behind. */
  lemma StringEscape(fmt: CString, i: nat, args: seq<Arg>, arg: Arg) returns (text: string)
    requires IsEscape(fmt, i, args, 's', arg) && !arg.Word?
    ensures Prints(fmt, i, args, text)
    ensures var s, f := if arg.Str? then arg.s else "(null)", FlagsOf(fmt, i, args);
            var n := if 0 <= f.precision < |s| then f.precision else |s|;
            && |text| == Max(f.width, n)
            && var start := if f.padc == '-' then 0 else |text| - n;
               && ShowsString(text, s, n, start, f.altflag)
               && forall k | 0 <= k < |text| && !(start <= k < start + n) ::
                    text[k] == if f.padc == '-' then ' ' else f.padc
  {
    hide Text, Scan, Prints, StringText, ShowsString;
    var s, f := if arg.Str? then arg.s else "(null)", FlagsOf(fmt, i, args);
    StringPrinted(fmt, i, args, arg, s);
    text := StringText(s, f);
    StringField(s, f);
  }

  lemma StringPrinted(fmt: CString, i: nat, args: seq<Arg>, arg: Arg, s: CString)
    requires IsEscape(fmt, i, args, 's', arg) && !arg.Word? && s == if arg.Str? then arg.s else "(null)"
    ensures Prints(fmt, i, args, StringText(s, FlagsOf(fmt, i, args)))
  {
    hide Scan, Prints, Converted;
    EscapePrints(fmt, i, args, 's', arg);
    StringConverted(Scan(fmt, i + 1, args, NoFlags).1, s, FlagsOf(fmt, i, args));
  }

  lemma StringConverted(args: seq<Arg>, s: CString, f: Flags)
    requires args != [] && !args[0].Word? && s == if args[0].Str? then args[0].s else "(null)"
    ensures Converted('s', args, f).0 == StringText(s, f)
  {
    hide StringText, ErrorText, PointerText, NumberText, SignedText;
  }

  lemma StringField(s: CString, f: Flags)
    ensures var text, n := StringText(s, f), if 0 <= f.precision < |s| then f.precision else |s|;
            && |text| == Max(f.width, n)
            && var start := if f.padc == '-' then 0 else |text| - n;
               && ShowsString(text, s, n, start, f.altflag)
               && forall k | 0 <= k < |text| && !(start <= k < start + n) ::
                    text[k] == if f.padc == '-' then ' ' else f.padc
  {
    var kept := Kept(s, f.precision, f.altflag);
    assert forall k | 0 <= k < |kept| :: kept[k] == if !f.altflag || ' ' <= s[k] <= '~' then s[k] else '?';
  }

  /** An error code is printed as its name or as its number, whatever its sign. */
  lemma ErrorEscape(fmt: CString, i: nat, args: seq<Arg>, w: u64, v: int) returns (text: string)
    requires IsEscape(fmt, i, args, 'e', Word(w)) && IsSignedSlot(w, 0, v)
    ensures Prints(fmt, i, args, text) && text == ErrorText(v)
    ensures var err := if v < 0 then -v else v;
            && (err == 1 ==> text == "unspecified error") && (err == 2 ==> text == "bad process")
            && (err == 3 ==> text == "invalid parameter") && (err == 4 ==> text == "out of memory")
            && (err == 5 ==> text == "out of processes") && (err == 6 ==> text == "segmentation fault")
            && (err == 8 ==> text == "invalid elf file") && (err == 9 ==> text == "process is killed")
            && (err == 10 ==> text == "panic failure")
            && (err == 0 || err == 7 || err > 10 ==> text == "error " + Positional(err, 10, LOWER))
  {
    hide Scan, Prints, Positional, Numeral;
    EscapePrints(fmt, i, args, 'e', Word(w));
    SignedSlots(w, 0, v);
    NumeralIsPositional(if v < 0 then -v else v, 10);
    text := ErrorText(v);
  }

  /** The text tells the errors apart: two codes print the same exactly when they are the same
      but for their sign. */
  lemma ErrorTextsDiffer(u: int, v: int)
    ensures ErrorText(u) == ErrorText(v) <==> u == v || u == -v
  {
    hide ErrorName, Numeral;
    if ErrorText(u) == ErrorText(v) {
      SameError(if u < 0 then -u else u, if v < 0 then -v else v);
    }
  }

  lemma SameError(a: nat, b: nat)
    requires ErrorText(a) == ErrorText(b)
    ensures a == b
  {
    hide ErrorName, Numeral;
    var text := ErrorText(a);
    NameInitials(a);
    NameInitials(b);
    assert text[0] == if IsNamed(a) then ErrorName(a)[0] else 'e';
    if !IsNamed(a) {
      assert !IsNamed(b);
      assert text[6..] == Numeral(a, 10) == Numeral(b, 10);
      NumeralIsCanonical(a, 10);
      NumeralIsCanonical(b, 10);
    }
  }

  predicate IsNamed(err: nat) {
    1 <= err <= 6 || 8 <= err <= 10
  }

  /** Three characters of a name identify it, and none begins like "error". */
  lemma NameInitials(err: nat)
    ensures var name := ErrorName(err);
            if IsNamed(err) then
              && |name| > 8 && name[0] != 'e'
              && (name[0], name[1], name[8]) ==
                 match err
                 case 1 => ('u', 'n', 'i')
                 case 2 => ('b', 'a', 'e')
                 case 3 => ('i', 'n', 'p')
                 case 4 => ('o', 'u', 'e')
                 case 5 => ('o', 'u', 'r')
                 case 6 => ('s', 'e', 't')
                 case 8 => ('i', 'n', 'e')
                 case 9 => ('p', 'r', 'i')
                 case _ => ('p', 'a', 'i')
            else name == ""
  {
  }
}
