/** The format engine: it writes to a bounded buffer while it walks the format, moving back
    in it where an escape turns out not to be one. */
module Printf {
  import opened Arith
  import opened CStrings
  import opened Digits
  import opened Format

  const E_INVAL := 3

  /** A bounded buffer together with the function that puts one character in it. */
  class Sink {
    const str: array<char>
    const ebuf: nat
    var buf: nat
    var cnt: nat
    /** Everything that was put, whether or not it was stored. */
    ghost var emitted: string
    /** The buffer as it was at the start. */
    ghost const initial: seq<char>

    ghost predicate Valid()
      reads this, str
    {
      && ebuf < str.Length == |initial|
      && cnt == |emitted|
      && buf == (if cnt < ebuf then cnt else ebuf)
      && str[..buf] == emitted[..buf]
      && str[buf..] == initial[buf..]
    }

    constructor (str: array<char>, size: nat)
      requires 0 < size <= str.Length
      ensures Valid() && emitted == "" && this.str == str && ebuf == size - 1 && initial == str[..]
    {
      this.str := str;
      ebuf := size - 1;
      buf, cnt := 0, 0;
      emitted, initial := "", str[..];
    }

    method Putch(ch: char)
      requires Valid()
      modifies this, str
      ensures Valid() && emitted == old(emitted) + [ch]
    {
      cnt := cnt + 1;
      emitted := emitted + [ch];
      if buf < ebuf {
        str[buf] := ch;
        assert str[..buf + 1] == old(str[..buf]) + [ch];
        assert str[buf + 1..] == old(str[buf..])[1..] == initial[buf + 1..];
        buf := buf + 1;
      } else {
        assert emitted[..buf] == old(emitted[..buf]);
      }
    }
  }

  // ----- Numbers

  method PutRepeated(sink: Sink, c: char, n: int)
    requires sink.Valid()
    modifies sink, sink.str
    ensures sink.Valid() && sink.emitted == old(sink.emitted) + Repeat(c, n)
  {
    var left := n;
    while left > 0
      invariant sink.Valid() && left <= n
      invariant left < 0 ==> left == n
      invariant sink.emitted == old(sink.emitted) + Repeat(c, if n > 0 then n - left else 0)
    {
      sink.Putch(c);
      left := left - 1;
    }
  }

  /** One digit less, and one column less to fill. */
  lemma NumberTextStep(num: nat, base: nat, width: int, padc: char)
    requires 2 <= base <= 16
    ensures num % base < 16
    ensures NumberText(num, base, width, padc) ==
            (if num >= base then NumberText(num / base, base, width - 1, padc) else Repeat(padc, width - 1))
            + [HEX[num % base]]
  {
    hide Repeat;
    DivStep(num, base);
    if num < base {
      ModSmall(num, base);
    }
  }

  /** The padding comes out of the innermost call, in front of the first digit. */
  method PrintNum(sink: Sink, num: nat, base: nat, width: int, padc: char)
    requires sink.Valid() && 2 <= base <= 16
    modifies sink, sink.str
    ensures sink.Valid()
    ensures sink.emitted == old(sink.emitted) + NumberText(num, base, width, padc)
    decreases num
  {
    NumberTextStep(num, base, width, padc);
    var result, mod := num / base, num % base;
    if num >= base {
      DivStep(num, base);
      PrintNum(sink, result, base, width - 1, padc);
    } else {
      PutRepeated(sink, padc, width - 1);
    }
    sink.Putch(HEX[mod]);
  }

  // ----- Strings

  lemma KeptNext(p: CString, precision: int, altflag: bool, i: nat)
    requires i < BoundedLength(p, precision)
    ensures var kept := Kept(p, precision, altflag);
            kept[..i + 1] == kept[..i] + [Shown(p[i], altflag)]
  {
  }

  lemma KeptAll(p: CString, precision: int, altflag: bool)
    ensures var kept := Kept(p, precision, altflag);
            |kept| == BoundedLength(p, precision) && kept[..0] == "" && kept[..|kept|] == kept
  {
  }

  /** Every character put takes one off the width. */
  method PutKept(sink: Sink, p: CString, precision: int, altflag: bool, width: int) returns (left: int)
    requires sink.Valid()
    modifies sink, sink.str
    ensures sink.Valid() && sink.emitted == old(sink.emitted) + Kept(p, precision, altflag)
    ensures left == width - |Kept(p, precision, altflag)|
  {
    hide Kept;
    KeptAll(p, precision, altflag);
    left := width;
    var i, prec := 0, precision;
    while At(p, i) != NUL && (prec < 0 || prec - 1 >= 0)
      invariant i <= BoundedLength(p, precision) && sink.Valid() && left == width - i
      invariant sink.emitted == old(sink.emitted) + Kept(p, precision, altflag)[..i]
      invariant prec == if precision < 0 then precision else precision - i
      decreases |p| - i
    {
      var ch := p[i];
      KeptNext(p, precision, altflag, i);
      if prec >= 0 {
        prec := prec - 1;
      }
      if altflag && (ch < ' ' || ch > '~') {
        sink.Putch('?');
      } else {
        sink.Putch(ch);
      }
      i, left := i + 1, left - 1;
    }
  }

  method PrintString(sink: Sink, p: CString, f: Flags)
    requires sink.Valid()
    modifies sink, sink.str
    ensures sink.Valid() && sink.emitted == old(sink.emitted) + StringText(p, f)
  {
    var width := f.width;
    ghost var front, kept := "", Kept(p, f.precision, f.altflag);
    if width > 0 && f.padc != '-' {
      width := width - BoundedLength(p, f.precision);
      front := Repeat(f.padc, width);
      PutRepeated(sink, f.padc, width);
      width := if width > 0 then 0 else width;
    }
    assert sink.emitted == old(sink.emitted) + front;
    width := PutKept(sink, p, f.precision, f.altflag, width);
    PutRepeated(sink, ' ', width);
    StringTextParts(p, f, front, width);
    Associate(old(sink.emitted), front, kept, Repeat(' ', width));
  }

  lemma Associate(a: string, b: string, c: string, d: string)
    ensures a + b + c + d == a + (b + c + d)
    ensures a + b + c == a + (b + c)
  {
  }

  lemma StringTextParts(p: CString, f: Flags, front: string, behind: int)
    requires var n := f.width - |Kept(p, f.precision, f.altflag)|;
             if f.width > 0 && f.padc != '-' then front == Repeat(f.padc, n) && behind <= 0
             else front == "" && behind == n
    ensures front + Kept(p, f.precision, f.altflag) + Repeat(' ', behind) == StringText(p, f)
  {
    var kept := Kept(p, f.precision, f.altflag);
    assert f.width <= 0 ==> Repeat(f.padc, f.width - |kept|) == "";
    assert behind <= 0 ==> Repeat(' ', behind) == "";
  }

  method PrintLiteral(sink: Sink, s: string)
    requires sink.Valid()
    modifies sink, sink.str
    ensures sink.Valid() && sink.emitted == old(sink.emitted) + s
  {
    for i := 0 to |s|
      invariant sink.Valid() && sink.emitted == old(sink.emitted) + s[..i]
    {
      sink.Putch(s[i]);
      assert s[..i + 1] == s[..i] + [s[i]];
    }
    assert s[..|s|] == s;
  }

  // ----- Escapes

  lemma OneDigitMore(s: string, start: nat, i: nat)
    requires start < i <= |s| && '0' <= s[i - 1] <= '9'
    ensures Value(s[start..i], 10) == Value(s[start..i - 1], 10) * 10 + (s[i - 1] as int - '0' as int)
  {
    assert s[start..i][..i - 1 - start] == s[start..i - 1];
  }

  /** The decimal number whose first digit, at index start, has just been read. */
  method ScanNumber(fmt: CString, start: nat) returns (n: int, i: nat)
    requires start < |fmt| && '1' <= fmt[start] <= '9'
    ensures i == DecimalEnd(fmt, start) && n == Value(fmt[start..i], 10)
  {
    n, i := 0, start + 1;
    assert fmt[start..start] == "";
    assert Value("", 10) == 0;
    hide Value;
    var ch := fmt[start];
    while true
      invariant start < i <= |fmt| && ch == fmt[i - 1] && '0' <= ch <= '9'
      invariant DecimalEnd(fmt, start) == DecimalEnd(fmt, i - 1) && n == Value(fmt[start..i - 1], 10)
      decreases |fmt| - i
    {
      OneDigitMore(fmt, start, i);
      n := n * 10 + (ch as int - '0' as int);
      ch := At(fmt, i);
      if ch < '0' || ch > '9' {
        break;
      }
      i := i + 1;
    }
  }

  /** Everything from behind the percent sign up to and including the conversion character,
      which may be the terminator; i ends one behind it. */
  method ScanEscape(fmt: CString, start: nat, args: seq<Arg>)
    returns (ch: char, i: nat, ap: seq<Arg>, f: Flags)
    requires start <= |fmt|
    ensures i == Scan(fmt, start, args, NoFlags).0 + 1 && ch == At(fmt, i - 1)
    ensures ap == Scan(fmt, start, args, NoFlags).1 && f == Scan(fmt, start, args, NoFlags).2
  {
    hide Value, NextWord, Rest, Signed32, DecimalEnd;
    var padc, width, precision, lflag, altflag := ' ', -1, -1, 0, false;
    i, ap := start, args;
    while true
      invariant start <= i <= |fmt|
      invariant Scan(fmt, i, ap, Flags(padc, width, precision, lflag, altflag)) == Scan(fmt, start, args, NoFlags)
      decreases |fmt| - i
    {
      ch := At(fmt, i);
      i := i + 1;
      if ch == '-' {
        padc := '-';
      } else if ch == '0' {
        padc := '0';
      } else if '1' <= ch <= '9' || ch == '*' {
        if ch == '*' {
          precision, ap := Signed32(NextWord(ap)), Rest(ap);
        } else {
          precision, i := ScanNumber(fmt, i - 1);
        }
        if width < 0 {
          width, precision := precision, -1;
        }
      } else if ch == '.' {
        if width < 0 {
          width := 0;
        }
      } else if ch == '#' {
        altflag := true;
      } else if ch == 'l' {
        lflag := lflag + 1;
      } else {
        break;
      }
    }
    f := Flags(padc, width, precision, lflag, altflag);
  }

  method PrintSigned(sink: Sink, value: int, f: Flags)
    requires sink.Valid()
    modifies sink, sink.str
    ensures sink.Valid() && sink.emitted == old(sink.emitted) + SignedText(value, f)
  {
    var num := value;
    if num < 0 {
      sink.Putch('-');
      num := -num;
    }
    PrintNum(sink, num, 10, f.width, f.padc);
  }

  method PrintPointer(sink: Sink, num: u64, f: Flags)
    requires sink.Valid()
    modifies sink, sink.str
    ensures sink.Valid() && sink.emitted == old(sink.emitted) + PointerText(num, f)
  {
    sink.Putch('0');
    sink.Putch('x');
    PrintNum(sink, num, 16, f.width, f.padc);
  }

  /** The nested formats of the source, "error %d" and "%s", are replaced by what they print;
      see NestedErrorFormats. */
  method PrintError(sink: Sink, code: int)
    requires sink.Valid()
    modifies sink, sink.str
    ensures sink.Valid() && sink.emitted == old(sink.emitted) + ErrorText(code)
  {
    hide ErrorName, Numeral;
    var err := if code < 0 then -code else code;
    if err > MAXERROR || ErrorName(err) == "" {
      NoPadding(err, 10, -1, ' ');
      hide NumberText;
      PrintLiteral(sink, "error ");
      PrintNum(sink, err, 10, -1, ' ');
      Associate(old(sink.emitted), "error ", Numeral(err, 10), "");
    } else {
      PrintLiteral(sink, ErrorName(err));
    }
  }

  /** Carries out a conversion if the character names one. */
  method Convert(sink: Sink, ch: char, args: seq<Arg>, f: Flags) returns (known: bool, ap: seq<Arg>)
    requires sink.Valid()
    modifies sink, sink.str
    ensures sink.Valid() && (known <==> IsConversion(ch))
    ensures known ==> sink.emitted == old(sink.emitted) + Converted(ch, args, f).0
    ensures known ==> ap == Converted(ch, args, f).1
    ensures !known ==> sink.emitted == old(sink.emitted) && ap == args
  {
    known, ap := true, Rest(args);
    match ch
    case 'c' => sink.Putch((Signed32(NextWord(args)) % 256) as char);
    case 'e' => PrintError(sink, Signed32(NextWord(args)));
    case 's' => PrintString(sink, NextString(args), f);
    case 'd' => PrintSigned(sink, GetInt(args, f.lflag), f);
    case 'u' => PrintNum(sink, GetUint(args, f.lflag), 10, f.width, f.padc);
    case 'o' => PrintNum(sink, GetUint(args, f.lflag), 8, f.width, f.padc);
    case 'p' => PrintPointer(sink, NextWord(args), f);
    case 'x' => PrintNum(sink, GetUint(args, f.lflag), 16, f.width, f.padc);
    case '%' => sink.Putch(ch); ap := args;
    case _ => known, ap := false, args;
  }

  /** The escape whose percent sign is at index percent.  When the conversion character is
      not one, the percent sign is put and the format is walked back to right behind it. */
  method ProcessEscape(sink: Sink, fmt: CString, percent: nat, args: seq<Arg>) returns (i: nat, ap: seq<Arg>)
    requires sink.Valid() && percent < |fmt| && fmt[percent] == '%'
    modifies sink, sink.str
    ensures sink.Valid() && percent < i <= |fmt|
    ensures sink.emitted + Text(fmt, i, ap) == old(sink.emitted) + Text(fmt, percent, args)
    ensures !IsConversion(At(fmt, Scan(fmt, percent + 1, args, NoFlags).0)) ==> i == percent + 1
  {
    hide Converted, Text, Scan;
    var ch, f, known;
    ch, i, ap, f := ScanEscape(fmt, percent + 1, args);
    known, ap := Convert(sink, ch, ap, f);
    if known {
      KnownEscape(fmt, percent, args);
    } else {
      UnknownEscape(fmt, percent, args);
      sink.Putch('%');
      i := i - 1;
      while fmt[i - 1] != '%'
        invariant percent < i <= |fmt|
        invariant forall k | percent < k < i :: IsFlag(fmt[k])
        decreases i
      {
        i := i - 1;
      }
    }
  }

  // ----- The engine

  lemma TextEnds(fmt: CString)
    ensures forall args :: Text(fmt, |fmt|, args) == ""
  {
  }

  /** Writes the text of the format.  No index behind the terminator is read. */
  method VPrintFmt(sink: Sink, fmt: CString, args: seq<Arg>)
    requires sink.Valid()
    modifies sink, sink.str
    ensures sink.Valid() && sink.emitted == old(sink.emitted) + Text(fmt, 0, args)
  {
    hide Text;
    TextEnds(fmt);
    var i, ap := 0, args;
    while true
      invariant i <= |fmt| && sink.Valid()
      invariant sink.emitted + Text(fmt, i, ap) == old(sink.emitted) + Text(fmt, 0, args)
      decreases |fmt| - i
    {
      ghost var start := i;
      var ch := At(fmt, i);
      i := i + 1;
      while ch != '%'
        invariant start < i <= |fmt| + 1 && ch == At(fmt, i - 1) && sink.Valid()
        invariant sink.emitted + Text(fmt, i - 1, ap) == old(sink.emitted) + Text(fmt, 0, args)
        decreases |fmt| + 1 - i
      {
        if ch == NUL {
          return;
        }
        PlainCharacter(fmt, i - 1, ap);
        sink.Putch(ch);
        ch := At(fmt, i);
        i := i + 1;
      }
      i, ap := ProcessEscape(sink, fmt, i - 1, ap);
    }
  }

  lemma Terminated(full: string, text: string, was: string, n: nat)
    requires n < |full| == |was| && n <= |text|
    requires full[..n] == text[..n] && full[n..] == was[n..]
    ensures full[n := NUL] == text[..n] + [NUL] + was[n + 1..]
  {
    assert full[n..][1..] == full[n + 1..] && was[n..][1..] == was[n + 1..];
    assert full[n := NUL] == full[..n] + [NUL] + full[n + 1..];
  }

  /** Returns the length of the whole text.  The buffer gets as much of it as fits in front
      of a terminator; nothing behind the terminator is written. */
  method Vsnprintf(str: array?<char>, size: nat, fmt: CString, args: seq<Arg>) returns (r: int)
    requires str != null ==> size <= str.Length
    modifies if str == null then {} else {str}
    ensures str == null || size == 0 ==> r == -E_INVAL && (str != null ==> str[..] == old(str[..]))
    ensures str != null && size > 0 ==>
              var text := Text(fmt, 0, args);
              var n := if |text| < size - 1 then |text| else size - 1;
              r == |text| && str[..] == text[..n] + [NUL] + old(str[n + 1..])
  {
    hide Text;
    if str == null || size == 0 {
      return -E_INVAL;
    }
    var b := new Sink(str, size);
    VPrintFmt(b, fmt, args);
    ghost var text, was := Text(fmt, 0, args), b.initial;
    ghost var n, full := b.buf, str[..];
    assert full[..n] == text[..n] && full[n..] == was[n..];
    str[b.buf] := NUL;
    assert str[..] == full[n := NUL];
    Terminated(full, text, was, n);
    return b.cnt;
  }
}
