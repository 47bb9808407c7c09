/** What a format string and its arguments denote: the whole text, produced from left to
    right without ever moving back in the format. */
module Format {
  import opened CStrings
  import opened Digits

  // ----- Arguments

  /** A variable argument: one 64-bit slot, or a string pointer, which may be NULL. */
  datatype Arg = Word(bits: u64) | Str(s: CString) | Null

  type u64 = n: nat | n < 0x1_0000_0000_0000_0000

  /** Reading an argument of another kind, or one that is not there, is undefined in C; it
      reads as 0, or as NULL, here. */
  function NextWord(args: seq<Arg>): u64 {
    if args != [] && args[0].Word? then args[0].bits else 0
  }

  function NextString(args: seq<Arg>): CString {
    if args != [] && args[0].Str? then args[0].s else "(null)"
  }

  function Rest(args: seq<Arg>): seq<Arg> {
    if args == [] then [] else args[1..]
  }

  function Unsigned32(w: u64): nat {
    w % 0x1_0000_0000
  }

  function Signed32(w: u64): (v: int)
    ensures -0x8000_0000 <= v < 0x8000_0000 && (v - w) % 0x1_0000_0000 == 0
  {
    if Unsigned32(w) < 0x8000_0000 then Unsigned32(w) else Unsigned32(w) - 0x1_0000_0000
  }

  function Signed64(w: u64): (v: int)
    ensures -0x8000_0000_0000_0000 <= v < 0x8000_0000_0000_0000
    ensures (v - w) % 0x1_0000_0000_0000_0000 == 0
  {
    if w < 0x8000_0000_0000_0000 then w else w - 0x1_0000_0000_0000_0000
  }

  /** On this machine long and long long are both 64 bits. */
  function GetUint(args: seq<Arg>, lflag: nat): u64 {
    if lflag >= 1 then NextWord(args) else Unsigned32(NextWord(args))
  }

  function GetInt(args: seq<Arg>, lflag: nat): int {
    if lflag >= 1 then Signed64(NextWord(args)) else Signed32(NextWord(args))
  }

  // ----- Flags, width and precision

  datatype Flags = Flags(padc: char, width: int, precision: int, lflag: nat, altflag: bool)

  const NoFlags := Flags(' ', -1, -1, 0, false)

  /** A number in an escape is the width, or the precision once a width is known. */
  function WithNumber(f: Flags, n: int): Flags {
    if f.width < 0 then f.(width := n, precision := -1) else f.(precision := n)
  }

  predicate IsFlag(c: char) {
    c == '-' || c == '.' || c == '#' || c == 'l' || c == '*' || '0' <= c <= '9'
  }

  /** Reads flags from index i of the format; the result is the index of the conversion
      character, the arguments left and the flags. */
  function Scan(fmt: string, i: nat, args: seq<Arg>, f: Flags): (r: (nat, seq<Arg>, Flags))
    requires i <= |fmt|
    ensures i <= r.0 <= |fmt| && !IsFlag(At(fmt, r.0))
    ensures forall k | i <= k < r.0 :: IsFlag(fmt[k])
    decreases |fmt| - i
  {
    var c := At(fmt, i);
    if !IsFlag(c) then (i, args, f)
    else if c == '-' || c == '0' then Scan(fmt, i + 1, args, f.(padc := c))
    else if c == '.' then Scan(fmt, i + 1, args, if f.width < 0 then f.(width := 0) else f)
    else if c == '#' then Scan(fmt, i + 1, args, f.(altflag := true))
    else if c == 'l' then Scan(fmt, i + 1, args, f.(lflag := f.lflag + 1))
    else if c == '*' then Scan(fmt, i + 1, Rest(args), WithNumber(f, Signed32(NextWord(args))))
    else
      var j := DecimalEnd(fmt, i);
      Scan(fmt, j, args, WithNumber(f, Value(fmt[i..j], 10)))
  }

  /** The end of the run of decimal digits at i. */
  function DecimalEnd(s: string, i: nat): (j: nat)
    requires i <= |s|
    ensures i <= j <= |s| && (j < |s| ==> !('0' <= s[j] <= '9'))
    ensures forall k | i <= k < j :: '0' <= s[k] <= '9'
    ensures i < |s| && '0' <= s[i] <= '9' ==> j > i
    decreases |s| - i
  {
    if i < |s| && '0' <= s[i] <= '9' then DecimalEnd(s, i + 1) else i
  }

  // ----- Conversions

  function Repeat(c: char, n: int): (s: string)
    ensures |s| == if n > 0 then n else 0
    ensures forall i | 0 <= i < |s| :: s[i] == c
  {
    if n <= 0 then [] else Repeat(c, n - 1) + [c]
  }

  /** A numeral padded on the left to the field width. */
  function NumberText(num: nat, base: nat, width: int, padc: char): string
    requires 2 <= base <= 16
  {
    Repeat(padc, width - |Numeral(num, base)|) + Numeral(num, base)
  }

  /** The sign is put in front of the padding and does not count in the width. */
  function SignedText(num: int, f: Flags): string {
    if num < 0 then "-" + NumberText(-num, 10, f.width, f.padc) else NumberText(num, 10, f.width, f.padc)
  }

  function PointerText(num: nat, f: Flags): string {
    "0x" + NumberText(num, 16, f.width, f.padc)
  }

  function Shown(c: char, altflag: bool): char {
    if altflag && (c < ' ' || c > '~') then '?' else c
  }

  /** The part of a string that the precision lets through, as it is shown. */
  function Kept(s: CString, precision: int, altflag: bool): string {
    seq(BoundedLength(s, precision), i requires 0 <= i < |s| => Shown(s[i], altflag))
  }

  /** Padded to the width: in front with the pad character, or behind with spaces. */
  function StringText(s: CString, f: Flags): string {
    var kept := Kept(s, f.precision, f.altflag);
    if f.padc == '-' then kept + Repeat(' ', f.width - |kept|)
    else Repeat(f.padc, f.width - |kept|) + kept
  }

  const MAXERROR := 24

  /** The name of an error code, empty where the table has none. */
  function ErrorName(err: nat): CString {
    match err
    case 1 => "unspecified error"
    case 2 => "bad process"
    case 3 => "invalid parameter"
    case 4 => "out of memory"
    case 5 => "out of processes"
    case 6 => "segmentation fault"
    case 8 => "invalid elf file"
    case 9 => "process is killed"
    case 10 => "panic failure"
    case _ => ""
  }

  /** A code and its negation mean the same error. */
  function ErrorText(code: int): string {
    var err := if code < 0 then -code else code;
    if err > MAXERROR || ErrorName(err) == "" then "error " + Numeral(err, 10) else ErrorName(err)
  }

  predicate IsConversion(c: char) {
    c in "cesduopx%"
  }

  /** The text of one recognised conversion and the arguments behind it. */
  function Converted(c: char, args: seq<Arg>, f: Flags): (string, seq<Arg>)
    requires IsConversion(c)
  {
    match c
    case 'c' => ([(Signed32(NextWord(args)) % 256) as char], Rest(args))
    case 'e' => (ErrorText(Signed32(NextWord(args))), Rest(args))
    case 's' => (StringText(NextString(args), f), Rest(args))
    case 'd' => (SignedText(GetInt(args, f.lflag), f), Rest(args))
    case 'u' => (NumberText(GetUint(args, f.lflag), 10, f.width, f.padc), Rest(args))
    case 'o' => (NumberText(GetUint(args, f.lflag), 8, f.width, f.padc), Rest(args))
    case 'p' => (PointerText(NextWord(args), f), Rest(args))
    case 'x' => (NumberText(GetUint(args, f.lflag), 16, f.width, f.padc), Rest(args))
    case _ => ("%", args)
  }

  // ----- The whole text

  /** What a piece of the format stands for, and where to go on. */
  datatype Piece = Piece(text: string, next: nat, args: seq<Arg>)

  /** The escape whose percent sign is at i.  One that is not recognised stands for itself, up
      to the character that is not a flag; arguments its flags took stay taken. */
  function Escape(fmt: CString, i: nat, args: seq<Arg>): (p: Piece)
    requires i < |fmt| && fmt[i] == '%'
    ensures i < p.next <= |fmt|
  {
    var (j, args', f) := Scan(fmt, i + 1, args, NoFlags);
    if IsConversion(At(fmt, j)) then
      var (text, args'') := Converted(fmt[j], args', f);
      Piece(text, j + 1, args'')
    else
      Piece(fmt[i..j], j, args')
  }

  /** The text of the format from index i on. */
  function Text(fmt: CString, i: nat, args: seq<Arg>): string
    requires i <= |fmt|
    decreases |fmt| - i
  {
    if i == |fmt| then ""
    else
      var p := if fmt[i] == '%' then Escape(fmt, i, args) else Piece([fmt[i]], i + 1, args);
      p.text + Text(fmt, p.next, p.args)
  }

  lemma PlainCharacter(fmt: CString, i: nat, args: seq<Arg>)
    requires i < |fmt| && fmt[i] != '%'
    ensures Text(fmt, i, args) == [fmt[i]] + Text(fmt, i + 1, args)
  {
    hide Escape;
  }

  /** Stretches without a percent sign stand for themselves. */
  lemma {:induction false} LiteralStretch(fmt: CString, i: nat, j: nat, args: seq<Arg>)
    requires i <= j <= |fmt| && forall k | i <= k < j :: fmt[k] != '%'
    ensures Text(fmt, i, args) == fmt[i..j] + Text(fmt, j, args)
    decreases j - i
  {
    hide Escape;
    if i == j {
      assert fmt[i..j] == [];
    } else {
      var rest := Text(fmt, j, args);
      calc {
        Text(fmt, i, args);
        { PlainCharacter(fmt, i, args); }
        [fmt[i]] + Text(fmt, i + 1, args);
        { LiteralStretch(fmt, i + 1, j, args); }
        [fmt[i]] + (fmt[i + 1..j] + rest);
        { assert fmt[i..j] == [fmt[i]] + fmt[i + 1..j]; }
        fmt[i..j] + rest;
      }
    }
  }

  /** An escape that is not recognised can be read again from behind its percent sign: what
      follows up to the offending character is plain. */
  lemma UnknownEscape(fmt: CString, i: nat, args: seq<Arg>)
    requires i < |fmt| && fmt[i] == '%'
    requires !IsConversion(At(fmt, Scan(fmt, i + 1, args, NoFlags).0))
    ensures Text(fmt, i, args) == "%" + Text(fmt, i + 1, Scan(fmt, i + 1, args, NoFlags).1)
  {
    hide Text, IsConversion;
    var (j, args', f) := Scan(fmt, i + 1, args, NoFlags);
    hide Scan;
    var rest := Text(fmt, j, args');
    UnknownEscapeIsLiteral(fmt, i, args);
    LiteralStretch(fmt, i + 1, j, args');
    assert fmt[i..j] + rest == "%" + (fmt[i + 1..j] + rest);
  }

  lemma UnknownEscapeIsLiteral(fmt: CString, i: nat, args: seq<Arg>)
    requires i < |fmt| && fmt[i] == '%'
    requires !IsConversion(At(fmt, Scan(fmt, i + 1, args, NoFlags).0))
    ensures var (j, args', _) := Scan(fmt, i + 1, args, NoFlags);
            Text(fmt, i, args) == fmt[i..j] + Text(fmt, j, args')
  {
    hide Converted;
  }

  lemma KnownEscape(fmt: CString, i: nat, args: seq<Arg>)
    requires i < |fmt| && fmt[i] == '%'
    requires IsConversion(At(fmt, Scan(fmt, i + 1, args, NoFlags).0))
    ensures var (j, args', f) := Scan(fmt, i + 1, args, NoFlags);
            var (text, args'') := Converted(At(fmt, j), args', f);
            j < |fmt| && Text(fmt, i, args) == text + Text(fmt, j + 1, args'')
  {
    hide Converted;
  }

  lemma NoPadding(num: nat, base: nat, width: int, padc: char)
    requires 2 <= base <= 16 && width <= |Numeral(num, base)|
    ensures NumberText(num, base, width, padc) == Numeral(num, base)
  {
    hide Numeral;
    assert Repeat(padc, width - |Numeral(num, base)|) == "";
  }

  /** An escape without flags at the end of the format. */
  lemma PlainEscape(fmt: CString, args: seq<Arg>)
    requires |fmt| >= 2 && fmt[|fmt| - 2] == '%' && IsConversion(fmt[|fmt| - 1])
    ensures Text(fmt, |fmt| - 2, args) == Converted(fmt[|fmt| - 1], args, NoFlags).0
  {
    hide Converted;
    var n := |fmt| - 1;
    assert Scan(fmt, n, args, NoFlags) == (n, args, NoFlags);
    KnownEscape(fmt, n - 1, args);
  }

  /** What the two formats print that the engine itself uses for error codes. */
  lemma NestedErrorFormats(err: u64, name: CString)
    requires err < 0x8000_0000
    ensures Text("error %d", 0, [Word(err)]) == "error " + Numeral(err, 10)
    ensures Text("%s", 0, [Str(name)]) == name
  {
    ErrorNumberFormat(err);
    PlainEscape("%s", [Str(name)]);
    assert Kept(name, -1, false) == name;
    assert StringText(name, NoFlags) == name;
  }

  lemma ErrorNumberFormat(err: u64)
    requires err < 0x8000_0000
    ensures Text("error %d", 0, [Word(err)]) == "error " + Numeral(err, 10)
  {
    hide Converted, Numeral, Text;
    var fmt: CString, args := "error %d", [Word(err)];
    PlainNumber(err);
    PlainEscape(fmt, args);
    LiteralStretch(fmt, 0, 6, args);
    assert fmt[0..6] == "error ";
  }

  lemma PlainNumber(n: u64)
    requires n < 0x8000_0000
    ensures Converted('d', [Word(n)], NoFlags).0 == Numeral(n, 10)
  {
    hide StringText, ErrorText, PointerText, Numeral, NumberText;
    NoPadding(n, 10, -1, ' ');
    assert GetInt([Word(n)], 0) == n;
  }

  // ----- Precision

  /** What a run of digits does once a width is known: its zeros are flags, and the number
      behind them is the precision. */
  function WithDigits(f: Flags, digits: string): Flags {
    f.(padc := if digits != [] && digits[0] == '0' then '0' else f.padc,
       precision := if Value(digits, 10) > 0 then Value(digits, 10) else f.precision)
  }

  /** A dot and digits: the number written becomes the precision unless it is 0, and a zero in
      front of it becomes the pad character. */
  lemma DottedNumber(fmt: string, i: nat, args: seq<Arg>, f: Flags)
    requires i < |fmt| && fmt[i] == '.'
    ensures var e := DecimalEnd(fmt, i + 1);
            Scan(fmt, i, args, f)
            == Scan(fmt, e, args, WithDigits(f.(width := if f.width < 0 then 0 else f.width), fmt[i + 1..e]))
  {
    ZerosAndNumber(fmt, i + 1, args, f.(width := if f.width < 0 then 0 else f.width));
  }

  lemma {:induction false} ZerosAndNumber(fmt: string, i: nat, args: seq<Arg>, f: Flags)
    requires i <= |fmt| && f.width >= 0
    ensures var e := DecimalEnd(fmt, i); Scan(fmt, i, args, f) == Scan(fmt, e, args, WithDigits(f, fmt[i..e]))
    decreases |fmt| - i
  {
    hide Scan, WithDigits;
    var e := DecimalEnd(fmt, i);
    if e == i {
      NoDigits(f);
      assert fmt[i..e] == "";
    } else if fmt[i] == '0' {
      ScanZero(fmt, i, args, f);
      assert fmt[i..e] == "0" + fmt[i + 1..e];
      LeadingZero(f, fmt[i + 1..e]);
      ZerosAndNumber(fmt, i + 1, args, f.(padc := '0'));
    } else {
      ScanPrecision(fmt, i, args, f);
    }
  }

  lemma NoDigits(f: Flags)
    ensures WithDigits(f, "") == f
  {
    assert Value("", 10) == 0;
  }

  lemma LeadingZero(f: Flags, digits: string)
    ensures WithDigits(f, "0" + digits) == WithDigits(f.(padc := '0'), digits)
  {
    hide Value;
    LeadingZeros("0", digits, 10);
  }

  lemma ScanZero(fmt: string, i: nat, args: seq<Arg>, f: Flags)
    requires i < |fmt| && fmt[i] == '0'
    ensures Scan(fmt, i, args, f) == Scan(fmt, i + 1, args, f.(padc := '0'))
  {
    hide Value, DecimalEnd;
  }

  lemma ScanPrecision(fmt: string, i: nat, args: seq<Arg>, f: Flags)
    requires i < |fmt| && '1' <= fmt[i] <= '9' && f.width >= 0
    ensures var e := DecimalEnd(fmt, i); Scan(fmt, i, args, f) == Scan(fmt, e, args, WithDigits(f, fmt[i..e]))
  {
    hide Value;
    var digits := fmt[i..DecimalEnd(fmt, i)];
    assert forall k | 0 <= k < |digits| :: IsDigit(digits[k], 10);
    assert DigitValue(digits[0]) > 0;
    ValueNonnegative(digits, 10);
  }

  // ----- Field widths

  ghost predicate IsPad(c: char) {
    c == ' ' || c == '0' || c == '-'
  }

  /** Whatever the flags, the pad character is one of three. */
  lemma {:induction false} ScanPads(fmt: string, i: nat, args: seq<Arg>, f: Flags)
    requires i <= |fmt| && IsPad(f.padc)
    ensures IsPad(Scan(fmt, i, args, f).2.padc)
    decreases |fmt| - i
  {
    var c := At(fmt, i);
    if !IsFlag(c) {
    } else if c == '-' || c == '0' {
      ScanPads(fmt, i + 1, args, f.(padc := c));
    } else if c == '.' {
      ScanPads(fmt, i + 1, args, if f.width < 0 then f.(width := 0) else f);
    } else if c == '#' {
      ScanPads(fmt, i + 1, args, f.(altflag := true));
    } else if c == 'l' {
      ScanPads(fmt, i + 1, args, f.(lflag := f.lflag + 1));
    } else if c == '*' {
      ScanPads(fmt, i + 1, Rest(args), WithNumber(f, Signed32(NextWord(args))));
    } else {
      var j := DecimalEnd(fmt, i);
      ScanPads(fmt, j, args, WithNumber(f, Value(fmt[i..j], 10)));
    }
  }

  function Max(a: int, b: int): int {
    if a > b then a else b
  }

  /** A field is exactly as long as its width or its contents, whichever is more: the contents
      at one end, and nothing but padding beside them. */
  lemma FieldWidths(num: nat, base: nat, s: CString, f: Flags)
    requires 2 <= base <= 16
    ensures var text, contents := NumberText(num, base, f.width, f.padc), Numeral(num, base);
            && |text| == Max(f.width, |contents|) && text[|text| - |contents|..] == contents
            && forall i | 0 <= i < |text| - |contents| :: text[i] == f.padc
    ensures var text, contents := StringText(s, f), Kept(s, f.precision, f.altflag);
            && |text| == Max(f.width, |contents|)
            && if f.padc == '-' then
                 text[..|contents|] == contents && forall i | |contents| <= i < |text| :: text[i] == ' '
               else
                 text[|text| - |contents|..] == contents
                 && forall i | 0 <= i < |text| - |contents| :: text[i] == f.padc
  {
    hide Numeral, Kept;
  }

  /** With the minus flag a number is what left justification would give exactly when there
      is nothing to pad. */
  lemma MinusFlag(num: nat, base: nat, width: int)
    requires 2 <= base <= 16
    ensures var contents := Numeral(num, base);
            NumberText(num, base, width, '-') == contents + Repeat(' ', width - |contents|) <==> width <= |contents|
  {
    hide Numeral;
    var contents := Numeral(num, base);
    if width <= |contents| {
      assert Repeat(' ', width - |contents|) == "" == Repeat('-', width - |contents|);
    } else {
      assert NumberText(num, base, width, '-')[width - 1] == contents[|contents| - 1];
      HasNoBlank(num, base);
    }
  }

  lemma HasNoBlank(num: nat, base: nat)
    requires 2 <= base <= 16
    ensures var contents := Numeral(num, base); contents[|contents| - 1] != ' '
  {
    NumeralIsCanonical(num, base);
    hide Numeral;
    var contents := Numeral(num, base);
    assert IsDigit(contents[|contents| - 1], base);
  }

  /** Sign and "0x" come on top of the field: the whole is as wide as asked for exactly when
      there is no such prefix or nothing to pad. */
  lemma PrefixedWidths(num: int, f: Flags)
    ensures var n, sign := |Numeral(if num < 0 then -num else num, 10)|, if num < 0 then 1 else 0;
            && |SignedText(num, f)| == sign + Max(f.width, n)
            && (|SignedText(num, f)| == Max(f.width, sign + n) <==> num >= 0 || f.width <= n)
    ensures num >= 0 ==>
              var n := |Numeral(num, 16)|;
              && |PointerText(num, f)| == 2 + Max(f.width, n)
              && (|PointerText(num, f)| == Max(f.width, 2 + n) <==> f.width <= n)
  {
    hide Numeral;
  }
}
