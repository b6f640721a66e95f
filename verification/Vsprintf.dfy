/** vsnprintf: the same text for every buffer size, cut to fit. */
module Vsprintf {
  import opened Wrappers
  import opened Bits
  import opened Numerals

  const TWO63: nat := 0x8000_0000_0000_0000
  const TWO31: nat := 0x8000_0000
  const MAX_ERRNO: nat := 4095

  /** An argument: the register that holds it, and the string found there if it is taken as a pointer. */
  datatype Arg = Arg(word: nat, text: string)

  predicate ValidArg(a: Arg) { a.word < TWO64 && '\0' !in a.text }

  datatype Conv = Character | Text | Pointer | Number(base: nat, long: bool)
  /** What a format starts with; n says how much of it was read. The sign flag is carried on to later conversions. */
  datatype Decoded = Literal(n: nat) | Conversion(n: nat, conv: Conv, sign: bool) | Invalid

  /** The characters before the first '%'. */
  function LiteralLength(fmt: string): (n: nat)
    ensures n <= |fmt|
  {
    if fmt == [] || fmt[0] == '%' then 0 else 1 + LiteralLength(fmt[1..])
  }

  /** The conversion named by the character at position i. */
  function ConversionAt(fmt: string, i: nat, long: bool, sign: bool): Decoded {
    if i >= |fmt| then Invalid
    else match fmt[i]
      case 'c' => Conversion(i + 1, Character, sign)
      case 's' => Conversion(i + 1, Text, sign)
      case 'p' => Conversion(i + 1, Pointer, sign)
      case 'o' => Conversion(i + 1, Number(8, long), sign)
      case 'X' => Conversion(i + 1, Number(16, long), sign)
      case 'x' => Conversion(i + 1, Number(16, long), sign)
      case 'd' => Conversion(i + 1, Number(10, long), true)
      case 'i' => Conversion(i + 1, Number(10, long), true)
      case 'u' => Conversion(i + 1, Number(10, long), sign)
      case _ => Invalid
  }

  function Decode(fmt: string, sign: bool): (d: Decoded)
    requires fmt != []
    ensures d.Literal? || d.Conversion? ==> 0 < d.n <= |fmt|
    ensures d.Conversion? && d.conv.Number? ==> Base(d.conv.base)
  {
    if fmt[0] != '%' then Literal(LiteralLength(fmt))
    else if |fmt| > 1 && fmt[1] == 'l' then ConversionAt(fmt, 2, true, sign)
    else ConversionAt(fmt, 1, false, sign)
  }

  function NumberText(num: nat, base: nat, sign: bool): string
    requires Base(base) && num < TWO64
  {
    if base == 10 && sign && num >= TWO63 then "-" + Digits(TWO64 - num, 10) else Digits(num, base)
  }

  /** The 64-bit value of a numeric argument: a long whole, else its low half, sign-extended once the flag is set. */
  function NumberArg(word: nat, long: bool, sign: bool): (r: nat)
    requires word < TWO64
    ensures r < TWO64
  {
    if long then word
    else
      var low := word % TWO32;
      if sign && low >= TWO31 then TWO64 - (TWO32 - low) else low
  }

  function ConvText(conv: Conv, sign: bool, a: Arg): string
    requires ValidArg(a) && (conv.Number? ==> Base(conv.base))
  {
    match conv
    case Character => [(a.word % 256) as char]
    case Text =>
      if a.word == 0 then "(null)"
      else if a.word < PAGE_SIZE || a.word >= TWO64 - MAX_ERRNO then "(efault)"
      else a.text
    case Pointer => NumberText(a.word, 16, sign)
    case Number(base, long) => NumberText(NumberArg(a.word, long, sign), base, sign)
  }

  /** The whole text of a format; None where the kernel stops at a bad conversion or an argument is missing. */
  function Full(fmt: string, args: seq<Arg>, sign: bool): Option<string>
    requires forall a :: a in args ==> ValidArg(a)
    decreases |fmt|
  {
    if fmt == [] then Some([])
    else match Decode(fmt, sign)
      case Invalid => None
      case Literal(n) => Prepend(fmt[..n], Full(fmt[n..], args, sign))
      case Conversion(n, conv, sign') =>
        if args == [] then None else Prepend(ConvText(conv, sign', args[0]), Full(fmt[n..], args[1..], sign'))
  }

  function Prepend(s: string, r: Option<string>): Option<string> {
    match r
    case None => None
    case Some(t) => Some(s + t)
  }

  /** The first characters of out, as many as fit, then what was there before. */
  ghost predicate Shows(buf: seq<char>, was: seq<char>, size: nat, out: string) {
    && |buf| == |was|
    && forall i :: 0 <= i < |buf| ==> buf[i] == if i < size && i < |out| then out[i] else was[i]
  }

  /** The first n characters of a text can be stored: the size given is true, or they fit anyway. */
  predicate Room(length: nat, size: nat, n: nat) { size <= length || n <= length }

  lemma ShowsMore(buf: seq<char>, buf': seq<char>, was: seq<char>, size: nat, out: string, c: char)
    requires Shows(buf, was, size, out) && Room(|was|, size, |out| + 1)
    requires buf' == if |out| < size then buf[|out| := c] else buf
    ensures Shows(buf', was, size, out + [c])
  {
  }

  /** if (buf < end) *buf = c; ++buf; */
  method PutChar(buf: array<char>, size: nat, pos: nat, c: char, ghost was: seq<char>, ghost out: string)
    returns (pos': nat)
    requires Room(buf.Length, size, |out| + 1) && Shows(buf[..], was, size, out) && pos == |out|
    modifies buf
    ensures Shows(buf[..], was, size, out + [c]) && pos' == pos + 1
  {
    ghost var b := buf[..];
    if pos < size {
      buf[pos] := c;
    }
    ShowsMore(b, buf[..], was, size, out, c);
    pos' := pos + 1;
  }

  /** string_nocheck without a precision. */
  method StringNocheck(buf: array<char>, size: nat, pos0: nat, s: string, ghost was: seq<char>, ghost out: string)
    returns (pos: nat)
    requires Room(buf.Length, size, |out| + |s|) && Shows(buf[..], was, size, out) && pos0 == |out|
    modifies buf
    ensures Shows(buf[..], was, size, out + s) && pos == pos0 + |s|
  {
    hide Shows;
    pos := pos0;
    var i := 0;
    assert out + s[..0] == out;
    while i < |s|
      invariant 0 <= i <= |s| && pos == pos0 + i && Shows(buf[..], was, size, out + s[..i])
    {
      pos := PutChar(buf, size, pos, s[i], was, out + s[..i]);
      assert out + s[..i] + [s[i]] == out + s[..i + 1];
      i := i + 1;
    }
    assert s[..i] == s;
  }

  function Reverse(s: string): string {
    if s == [] then [] else [s[|s| - 1]] + Reverse(s[..|s| - 1])
  }

  lemma ReverseAppend(s: string, c: char)
    ensures Reverse(s + [c]) == [c] + Reverse(s)
  {
    assert (s + [c])[..|s|] == s;
  }

  /** The value of a digit as the loops compute it: by masking the low byte, or by remainder. */
  function LowDigit(num: nat, base: nat): nat
    requires Base(base)
  {
    if base == 10 then num % 10 else And(num % 256, base - 1)
  }

  lemma LowDigitIs(num: nat, base: nat)
    requires Base(base)
    ensures LowDigit(num, base) == Rem(num, base) < 16
  {
    hide And;
    LowByte(num);
    assert Pow2(3) == 8 && Pow2(4) == 16;
    if base == 8 {
      AndLowMask(num % 256, 3);
    } else if base == 16 {
      AndLowMask(num % 256, 4);
    }
    hide *;
  }

  lemma LowByte(num: nat)
    ensures num % 256 % 8 == num % 8 && num % 256 % 16 == num % 16
  {
    var q, r := num / 256, num % 256;
    DivModUnique(num, 8, 32 * q + r / 8, r % 8);
    DivModUnique(num, 16, 16 * q + r / 16, r % 16);
  }

  /** 24 places are enough for the digits of any 64-bit number. */
  ghost predicate Fits(num: nat, i: nat) { i == 0 || (num > 0 && Mul(num, Pow2(3 * i)) < TWO64) }

  lemma RoomForDigit(num: nat, i: nat)
    requires Fits(num, i)
    ensures i < 24
  {
    if i >= 24 {
      PowersOfTwo();
      Pow2Monotone(64, 3 * i);
      MulMonotone(1, num, Pow2(3 * i));
    }
  }

  lemma NextDigit(num: nat, base: nat, i: nat)
    requires Base(base) && num < TWO64 && Fits(num, i) && Quot(num, base) > 0
    ensures Fits(Quot(num, base), i + 1)
  {
    var q, p := num / base, Pow2(3 * i);
    assert 8 * q <= base * q <= num by { MulMonotone(8, base, q); }
    assert Pow2(3 * (i + 1)) == 8 * p by { assert Pow2(3 * i + 3) == 2 * Pow2(3 * i + 2) == 4 * Pow2(3 * i + 1); }
    MulMonotone(8 * q, num, p);
    MulAssociates(q, 8, p);
    assert i == 0 ==> p == 1;
  }

  /** The do-while loops of number: the digits of num, least significant first. */
  method DigitsInto(tmp: array<char>, num0: nat, base: nat) returns (i: nat)
    requires tmp.Length == 24 && num0 < TWO64 && Base(base)
    modifies tmp
    ensures i <= 24 && Reverse(tmp[..i]) == Digits(num0, base)
  {
    hide Quot, Rem, LowDigit, Reverse, Fits, Digits, DigitChar;
    var num: nat := num0;
    i := 0;
    ReverseEmpty(num0);
    assert tmp[..0] == [];
    while true
      invariant 0 <= i <= 24 && num <= num0 && Fits(num, i)
                && Digits(num0, base) == Digits(num, base) + Reverse(tmp[..i])
      decreases num
    {
      RoomForDigit(num, i);
      LowDigitIs(num, base);
      ReverseAppend(tmp[..i], DigitChar(LowDigit(num, base)));
      tmp[i] := DigitChar(LowDigit(num, base));
      assert tmp[..i + 1] == tmp[..i] + [tmp[i]];
      LastDigit(num, base);
      if Quot(num, base) == 0 {
        i := i + 1;
        return;
      }
      NextDigit(num, base, i);
      num, i := Quot(num, base), i + 1;
    }
  }

  lemma ReverseEmpty(num: nat)
    ensures Reverse([]) == [] && Fits(num, 0)
  {
  }

  /** A numeral is the numeral of the quotient, if there is one, and the last digit. */
  lemma LastDigit(num: nat, base: nat)
    requires Base(base)
    ensures Rem(num, base) < base && Quot(num, base) <= num && (num > 0 ==> Quot(num, base) < num)
    ensures Digits(num, base) == (if Quot(num, base) == 0 then [] else Digits(Quot(num, base), base))
            + [DigitChar(Rem(num, base))]
  {
    hide Quot, Rem, Mul;
    if num < base { SmallNumeral(num, base); } else { LessDigits(num, base); }
  }

  /** number. */
  method PutNumber(buf: array<char>, size: nat, pos0: nat, num0: nat, base: nat, sign: bool, ghost was: seq<char>,
                   ghost out: string)
    returns (pos: nat)
    requires Base(base) && num0 < TWO64 && Room(buf.Length, size, |out| + |NumberText(num0, base, sign)|)
    requires Shows(buf[..], was, size, out) && pos0 == |out|
    modifies buf
    ensures Shows(buf[..], was, size, out + NumberText(num0, base, sign))
            && pos == pos0 + |NumberText(num0, base, sign)|
  {
    hide Shows, Digits, Reverse;
    var tmp := new char[24];
    var num, i := num0, 0;
    pos := pos0;
    ghost var shown := out;
    if base == 10 && sign && num >= TWO63 {
      num := TWO64 - num;
      pos := PutChar(buf, size, pos, '-', was, shown);
      shown := shown + ['-'];
    }
    i := DigitsInto(tmp, num, base);
    pos := PutReversed(buf, size, pos, tmp, i, was, shown);
    assert out + "-" + Digits(num, base) == out + ("-" + Digits(num, base));
  }

  /** The digits of the result, from the last one found to the first. */
  method PutReversed(buf: array<char>, size: nat, pos0: nat, tmp: array<char>, i0: nat, ghost was: seq<char>,
                     ghost out: string)
    returns (pos: nat)
    requires i0 <= tmp.Length && buf != tmp && Room(buf.Length, size, |out + Reverse(tmp[..i0])|)
    requires Shows(buf[..], was, size, out) && pos0 == |out|
    modifies buf
    ensures Shows(buf[..], was, size, out + Reverse(tmp[..i0])) && pos == |out + Reverse(tmp[..i0])|
  {
    hide Shows;
    pos := pos0;
    var i := i0;
    ghost var shown := out;
    while i > 0
      invariant 0 <= i <= i0 && Shows(buf[..], was, size, shown) && pos == |shown|
      invariant shown + Reverse(tmp[..i]) == out + Reverse(tmp[..i0])
    {
      i := i - 1;
      assert tmp[..i + 1][..i] == tmp[..i];
      pos := PutChar(buf, size, pos, tmp[i], was, shown);
      assert shown + ([tmp[i]] + Reverse(tmp[..i])) == (shown + [tmp[i]]) + Reverse(tmp[..i]);
      shown := shown + [tmp[i]];
    }
    assert shown == out + Reverse(tmp[..i0]);
  }

  /** format_decode. The flags of the specification outlive the call. */
  method FormatDecode(fmt: string, sign: bool) returns (d: Decoded)
    requires fmt != []
    ensures d == Decode(fmt, sign)
  {
    var i := 0;
    while i < |fmt| && fmt[i] != '%'
      invariant 0 <= i <= |fmt| && LiteralLength(fmt) == i + LiteralLength(fmt[i..])
    {
      assert fmt[i..][1..] == fmt[i + 1..];
      i := i + 1;
    }
    if i != 0 {
      return Literal(i);
    }
    var long := false;
    i := 1;
    if i < |fmt| && fmt[i] == 'l' {
      long, i := true, 2;
    }
    d := ConversionAt(fmt, i, long, sign);
  }

  /** The copy of a literal part: as much of it as still fits. */
  method CopyLiteral(buf: array<char>, size: nat, pos: nat, s: string, ghost was: seq<char>, ghost out: string)
    returns (pos': nat)
    requires Room(buf.Length, size, |out| + |s|) && Shows(buf[..], was, size, out) && pos == |out|
    modifies buf
    ensures Shows(buf[..], was, size, out + s) && pos' == pos + |s|
  {
    var copy := |s|;
    if pos < size {
      if copy > size - pos {
        copy := size - pos;
      }
      var i := 0;
      while i < copy
        invariant 0 <= i <= copy && Shows(buf[..], was, size, out + s[..i])
      {
        buf[pos + i] := s[i];
        i := i + 1;
      }
    }
    pos' := pos + |s|;
  }

  /** One conversion. */
  method PutConversion(buf: array<char>, size: nat, pos0: nat, conv: Conv, sign: bool, a: Arg, ghost was: seq<char>,
                       ghost out: string)
    returns (pos: nat)
    requires ValidArg(a) && (conv.Number? ==> Base(conv.base))
             && Room(buf.Length, size, |out + ConvText(conv, sign, a)|)
    requires Shows(buf[..], was, size, out) && pos0 == |out|
    modifies buf
    ensures Shows(buf[..], was, size, out + ConvText(conv, sign, a)) && pos == |out + ConvText(conv, sign, a)|
  {
    hide Shows, NumberText;
    match conv
    case Character => pos := PutChar(buf, size, pos0, (a.word % 256) as char, was, out);
    case Text =>
      if a.word == 0 {
        pos := StringNocheck(buf, size, pos0, "(null)", was, out);
      } else if a.word < PAGE_SIZE || a.word >= TWO64 - MAX_ERRNO {
        pos := StringNocheck(buf, size, pos0, "(efault)", was, out);
      } else {
        pos := StringNocheck(buf, size, pos0, a.text, was, out);
      }
    case Pointer => pos := PutNumber(buf, size, pos0, a.word, 16, sign, was, out);
    case Number(base, long) => pos := PutNumber(buf, size, pos0, NumberArg(a.word, long, sign), base, sign, was, out);
  }

  /** What the caller owes: a buffer of the size it names, or one that takes the whole text and its NUL. */
  predicate Fitting(length: nat, size: nat, text: Option<string>) {
    size <= length || (text.Some? && |text.value| < length)
  }

  /** vsnprintf. */
  method Vsnprintf(buf: array<char>, size: nat, fmt0: string, args0: seq<Arg>) returns (bug: bool, n: nat)
    requires (forall a :: a in args0 ==> ValidArg(a)) && Fitting(buf.Length, size, Full(fmt0, args0, false))
    modifies buf
    ensures bug <==> Full(fmt0, args0, false) == None
    ensures !bug ==> Printed(buf[..], old(buf[..]), size, Full(fmt0, args0, false).value)
    ensures !bug ==> n == |Full(fmt0, args0, false).value|
  {
    hide Shows;
    ghost var out;
    bug, n, out := PutAll(buf, size, fmt0, args0);
    if bug {
      return;
    }
    ghost var b := buf[..];
    if size > 0 {
      if n < size {
        buf[n] := '\0';
      } else {
        buf[size - 1] := '\0';
      }
    }
    Terminated(b, buf[..], old(buf[..]), size, out);
  }

  /** sprintf names no size, so INT_MAX stands for it: right when the buffer takes the text. */
  method Sprintf(buf: array<char>, fmt: string, args: seq<Arg>) returns (bug: bool, n: nat)
    requires (forall a :: a in args ==> ValidArg(a)) && Fitting(buf.Length, TWO31 - 1, Full(fmt, args, false))
    modifies buf
    ensures bug <==> Full(fmt, args, false) == None
    ensures !bug ==> Printed(buf[..], old(buf[..]), TWO31 - 1, Full(fmt, args, false).value)
    ensures !bug ==> n == |Full(fmt, args, false).value|
  {
    bug, n := Vsnprintf(buf, TWO31 - 1, fmt, args);
  }

  /** The loop of vsnprintf over the format. */
  method PutAll(buf: array<char>, size: nat, fmt0: string, args0: seq<Arg>)
    returns (bug: bool, n: nat, ghost out: string)
    requires (forall a :: a in args0 ==> ValidArg(a)) && Fitting(buf.Length, size, Full(fmt0, args0, false))
    modifies buf
    ensures Full(fmt0, args0, false) == if bug then None else Some(out)
    ensures !bug ==> Shows(buf[..], old(buf[..]), size, out) && n == |out|
  {
    hide Shows, Full, Decode, ConvText;
    var fmt, args, sign := fmt0, args0, false;
    ghost var was := buf[..];
    n, out := 0, [];
    NothingShown(was, size);
    bug := false;
    PrependNothing(Full(fmt, args, sign));
    while fmt != []
      invariant Shows(buf[..], was, size, out) && n == |out| && !bug && forall a :: a in args ==> ValidArg(a)
      invariant Full(fmt0, args0, false) == Prepend(out, Full(fmt, args, sign))
      decreases |fmt|
    {
      FullStep(fmt, args, sign, out);
      var d := FormatDecode(fmt, sign);
      match d
      case Invalid =>
        bug := true;
        return;
      case Literal(k) =>
        n := CopyLiteral(buf, size, n, fmt[..k], was, out);
        out := out + fmt[..k];
        fmt := fmt[k..];
      case Conversion(k, conv, sign') =>
        if args == [] {
          bug := true;
          return;
        }
        n := PutConversion(buf, size, n, conv, sign', args[0], was, out);
        out := out + ConvText(conv, sign', args[0]);
        fmt, args, sign := fmt[k..], args[1..], sign';
    }
    NothingLeft(args, sign);
    assert out + [] == out;
  }

  /** One round of the loop. */
  lemma FullStep(fmt: string, args: seq<Arg>, sign: bool, out: string)
    requires fmt != [] && forall a :: a in args ==> ValidArg(a)
    ensures var d := Decode(fmt, sign);
            && (d.Literal? || d.Conversion? ==> 0 < d.n <= |fmt|)
            && (d.Conversion? && d.conv.Number? ==> Base(d.conv.base))
            && Prepend(out, Full(fmt, args, sign)) ==
                if d.Literal? then Prepend(out + fmt[..d.n], Full(fmt[d.n..], args, sign))
                else if d.Conversion? && args != []
                then Prepend(out + ConvText(d.conv, d.sign, args[0]), Full(fmt[d.n..], args[1..], d.sign))
                else None
  {
    hide ConvText;
    match Decode(fmt, sign)
    case Invalid =>
    case Literal(n) => PrependTwice(out, fmt[..n], Full(fmt[n..], args, sign));
    case Conversion(n, conv, sign') =>
      if args != [] { PrependTwice(out, ConvText(conv, sign', args[0]), Full(fmt[n..], args[1..], sign')); }
  }

  lemma PrependTwice(s: string, t: string, r: Option<string>)
    ensures Prepend(s, Prepend(t, r)) == Prepend(s + t, r)
  {
    if r.Some? { assert s + (t + r.value) == s + t + r.value; }
  }

  lemma PrependNothing(r: Option<string>)
    ensures Prepend([], r) == r
  {
    if r.Some? { assert [] + r.value == r.value; }
  }

  lemma NothingLeft(args: seq<Arg>, sign: bool)
    requires forall a :: a in args ==> ValidArg(a)
    ensures Full([], args, sign) == Some([])
  {
  }

  lemma NothingShown(was: seq<char>, size: nat)
    ensures Shows(was, was, size, [])
  {
  }

  /** What the caller finds in the buffer: the text or its first size - 1 characters, then NUL, then what was there. */
  ghost predicate Printed(buf: seq<char>, was: seq<char>, size: nat, text: string) {
    && |buf| == |was|
    && if size == 0 then buf == was
       else
         var k := if |text| < size then |text| else size - 1;
         k < |buf| && buf[..k] == text[..k] && buf[k] == '\0' && buf[k + 1..] == was[k + 1..]
  }

  lemma Terminated(b: seq<char>, buf: seq<char>, was: seq<char>, size: nat, out: string)
    requires Shows(b, was, size, out) && Fitting(|b|, size, Some(out))
    requires buf == if size == 0 then b else b[(if |out| < size then |out| else size - 1) := '\0']
    ensures Printed(buf, was, size, out)
  {
    if size == 0 {
      assert buf == was;
    } else {
      var k := if |out| < size then |out| else size - 1;
      assert buf[..k] == out[..k] && buf[k + 1..] == was[k + 1..];
    }
  }

  /** The sign flag set by one %d stays set: a later %u is printed as if it were signed. */
  lemma SignSticks()
    ensures Full("%d%u", [Arg(7, ""), Arg(TWO32 - 1, "")], false) == Some("7-1")
  {
    var args := [Arg(7, ""), Arg(TWO32 - 1, "")];
    assert "%d%u"[2..] == "%u" && "%u"[2..] == [] && args[1..] == [args[1]];
    assert ConvText(Number(10, false), true, args[0]) == "7";
    assert ConvText(Number(10, false), true, args[1]) == "-1";
    hide ConvText;
    assert Full("%u", args[1..], true) == Prepend("-1", Some([]));
    assert Full("%d%u", args, false) == Prepend("7", Full("%u", args[1..], true));
    assert "-1" + [] == "-1" && "7" + "-1" == "7-1";
  }

  /** The conversion of a long in each base. */
  function LongFormat(b: nat): string { if b == 8 then "%lo" else if b == 10 then "%lu" else "%lx" }

  lemma LongText(n: nat, b: nat)
    requires Base(b) && n < TWO64
    ensures Full(LongFormat(b), [Arg(n, "")], false) == Some(Digits(n, b))
  {
    hide Digits;
    assert LongFormat(b)[3..] == [];
    assert Digits(n, b) + [] == Digits(n, b);
    assert Decode(LongFormat(b), false) == Conversion(3, Number(b, true), false);
    hide Decode, LongFormat;
  }

  /** Text printed with one conversion and read back is the number again, under the bound of the reader. */
  lemma PrintThenParse(n: nat, b: nat)
    requires Base(b) && n < TWO64
    ensures var text := Full(LongFormat(b), [Arg(n, "")], false);
            text.Some? && Parse(text.value, b, 0) == if Quot(n, b) < TWO60 then Parsed(n, |text.value|) else Overflow
  {
    hide Full, Digits, Parse, LongFormat;
    LongText(n, b);
    RoundTrip(n, b, []);
    assert Digits(n, b) + [] == Digits(n, b);
  }
}
