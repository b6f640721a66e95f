/** What a format prints, piece by piece: which conversions the sign flag of an earlier %d reaches, and when it
    matters. */
module FormatPieces {
  import opened Wrappers
  import opened Bits
  import opened Numerals
  import opened Vsprintf

  /** A format cut into literal parts and conversions; None where a conversion is bad. */
  function Split(fmt: string): Option<seq<string>>
    decreases |fmt|
  {
    if fmt == [] then Some([])
    else match Decode(fmt, false)
      case Invalid => None
      case Literal(n) => Cons(fmt[..n], Split(fmt[n..]))
      case Conversion(n, _, _) => Cons(fmt[..n], Split(fmt[n..]))
  }

  function Cons(p: string, ps: Option<seq<string>>): Option<seq<string>> {
    match ps
    case None => None
    case Some(rest) => Some([p] + rest)
  }

  predicate IsConversion(p: string) { p != [] && p[0] == '%' }

  /** A %d or a %i, of either length. */
  predicate SetsSign(p: string) { IsConversion(p) && (p[|p| - 1] == 'd' || p[|p| - 1] == 'i') }

  /** A %d or %i stands among the first k pieces. */
  ghost predicate SignBefore(ps: seq<string>, k: nat) { exists j :: 0 <= j < k && j < |ps| && SetsSign(ps[j]) }

  function Conversions(ps: seq<string>): nat {
    if ps == [] then 0 else Conversions(ps[..|ps| - 1]) + if IsConversion(ps[|ps| - 1]) then 1 else 0
  }

  /** The conversion a piece stands for. */
  function ConvOf(p: string): (c: Conv)
    ensures c.Number? ==> Base(c.base)
  {
    if p != [] && Decode(p, false).Conversion? then Decode(p, false).conv else Character
  }

  /** What piece k prints for an argument. */
  ghost function Shown(ps: seq<string>, k: nat, a: Arg): string
    requires k < |ps| && ValidArg(a)
  {
    ConvText(ConvOf(ps[k]), SignBefore(ps, k + 1), a)
  }

  /** The text of the pieces from k on, each conversion with its own argument. */
  ghost function Render(ps: seq<string>, k: nat, args: seq<Arg>): Option<string>
    requires forall a :: a in args ==> ValidArg(a)
    decreases |ps| - k
  {
    if k >= |ps| then Some([])
    else if !IsConversion(ps[k]) then Prepend(ps[k], Render(ps, k + 1, args))
    else if Conversions(ps[..k]) >= |args| then None
    else Prepend(Shown(ps, k, args[Conversions(ps[..k])]), Render(ps, k + 1, args))
  }

  /** The flag changes nothing in how a format is cut, and a conversion sets it exactly when it is a %d or %i. */
  lemma DecodeFlag(fmt: string, sign: bool)
    requires fmt != []
    ensures match Decode(fmt, false)
            case Invalid => Decode(fmt, sign) == Invalid
            case Literal(n) => Decode(fmt, sign) == Literal(n) && !IsConversion(fmt[..n])
            case Conversion(n, conv, _) =>
              Decode(fmt, sign) == Conversion(n, conv, sign || SetsSign(fmt[..n])) && IsConversion(fmt[..n])
                && ConvOf(fmt[..n]) == conv
  {
    if fmt[0] == '%' {
      var i := if |fmt| > 1 && fmt[1] == 'l' then 2 else 1;
      if i < |fmt| {
        var p := fmt[..i + 1];
        assert p[0] == fmt[0] && p[|p| - 1] == fmt[i] && (i == 2 ==> p[1] == 'l') && (i == 1 ==> p[1] != 'l');
      }
    }
  }

  /** A bad conversion anywhere spoils the whole text. */
  lemma {:induction false} BadFormat(fmt: string, args: seq<Arg>, sign: bool)
    requires Split(fmt) == None && forall a :: a in args ==> ValidArg(a)
    ensures Full(fmt, args, sign) == None
    decreases |fmt|
  {
    DecodeFlag(fmt, sign);
    hide ConvText, SetsSign, ConvOf;
    match Decode(fmt, sign)
    case Invalid =>
    case Literal(n) => BadFormat(fmt[n..], args, sign);
    case Conversion(n, _, sign') => if args != [] { BadFormat(fmt[n..], args[1..], sign'); }
  }

  /** The flag that vsnprintf carries along is, at every piece, whether a %d or %i stands before it. */
  lemma {:induction false} RenderFrom(fmt: string, ps: seq<string>, k: nat, args: seq<Arg>)
    requires k <= |ps| && Split(fmt) == Some(ps[k..]) && Conversions(ps[..k]) <= |args|
    requires forall a :: a in args ==> ValidArg(a)
    ensures Full(fmt, args[Conversions(ps[..k])..], SignBefore(ps, k)) == Render(ps, k, args)
    decreases |fmt|
  {
    var i, sign := Conversions(ps[..k]), SignBefore(ps, k);
    if fmt != [] {
      DecodeFlag(fmt, sign);
      var d := Decode(fmt, sign);
      assert d != Invalid && Split(fmt[d.n..]).Some?;
      assert ps[k..] == [fmt[..d.n]] + Split(fmt[d.n..]).value;
      NextPiece(ps, k, fmt[..d.n], Split(fmt[d.n..]).value);
      hide Conversions, SignBefore, SetsSign, ConvOf, Split;
      if d.Literal? {
        RenderFrom(fmt[d.n..], ps, k + 1, args);
      } else if i < |args| {
        assert args[i..][1..] == args[i + 1..] && args[i..][0] == args[i];
        RenderFrom(fmt[d.n..], ps, k + 1, args);
      }
    }
  }

  lemma NextPiece(ps: seq<string>, k: nat, p: string, rest: seq<string>)
    requires k <= |ps| && ps[k..] == [p] + rest
    ensures k < |ps| && ps[k] == p && ps[k + 1..] == rest
    ensures Conversions(ps[..k + 1]) == Conversions(ps[..k]) + if IsConversion(p) then 1 else 0
    ensures SignBefore(ps, k + 1) <==> SignBefore(ps, k) || SetsSign(p)
  {
    assert ps[k..][0] == ps[k] && ps[k..][1..] == ps[k + 1..];
    assert ps[..k + 1][..k] == ps[..k];
    if SetsSign(p) { assert SetsSign(ps[k]); }
  }

  /** The text of every format: its pieces in order, each conversion with its own argument and with the flag set
      exactly when a %d or %i stands before it or is it. */
  lemma FullIsRender(fmt: string, args: seq<Arg>)
    requires forall a :: a in args ==> ValidArg(a)
    ensures Full(fmt, args, false) == if Split(fmt) == None then None else Render(Split(fmt).value, 0, args)
  {
    if Split(fmt) == None {
      BadFormat(fmt, args, false);
    } else {
      var ps := Split(fmt).value;
      assert ps[0..] == ps && ps[..0] == [] && args[0..] == args;
      RenderFrom(fmt, ps, 0, args);
    }
  }

  lemma {:induction false} StartsWithDigit(n: nat, b: nat)
    requires Base(b)
    ensures Digits(n, b)[0] != '-'
  {
    if n >= b {
      LessDigits(n, b);
      StartsWithDigit(Quot(n, b), b);
    }
  }

  /** Different numbers have different numerals. */
  lemma {:induction false} NumeralTells(m: nat, n: nat, b: nat)
    requires Base(b) && Digits(m, b) == Digits(n, b)
    ensures m == n
    decreases m + n
  {
    var s, t := Digits(m, b), Digits(n, b);
    LastDigit(m, b);
    LastDigit(n, b);
    assert s[|s| - 1] == DigitChar(Rem(m, b)) && t[|t| - 1] == DigitChar(Rem(n, b));
    DigitRoundTrip(Rem(m, b));
    DigitRoundTrip(Rem(n, b));
    var p, q := Quot(m, b), Quot(n, b);
    assert s[..|s| - 1] == if p == 0 then [] else Digits(p, b);
    assert t[..|t| - 1] == if q == 0 then [] else Digits(q, b);
    Parts(m, b);
    Parts(n, b);
    if p > 0 && q > 0 {
      NumeralTells(p, q, b);
    }
  }

  lemma Parts(n: nat, b: nat)
    requires Base(b)
    ensures n == Mul(Quot(n, b), b) + Rem(n, b)
  {
    if n < b { SmallNumeral(n, b); } else { LessDigits(n, b); }
  }

  /** The numbers that the conversions of a word are meant to print. */
  function Low(a: Arg): nat { a.word % TWO32 }
  function SignedText(value: nat, half: nat): string
    requires value < 2 * half
  {
    if value >= half then "-" + Digits(2 * half - value, 10) else Digits(value, 10)
  }

  /** %u prints the unsigned value exactly when no %d or %i stands before it or bit 31 is clear. */
  lemma UnsignedExactly(ps: seq<string>, k: nat, a: Arg)
    requires k < |ps| && ps[k] == "%u" && ValidArg(a)
    ensures Shown(ps, k, a) == Digits(Low(a), 10) <==> !SignBefore(ps, k) || Low(a) < TWO31
  {
    NextPiece(ps, k, ps[k], ps[k + 1..]);
    assert ConvOf("%u") == Number(10, false);
    StartsWithDigit(Low(a), 10);
    hide Digits, SignBefore, ConvOf;
  }

  /** %lu prints the unsigned value exactly when no %d or %i stands before it or bit 63 is clear. */
  lemma UnsignedLongExactly(ps: seq<string>, k: nat, a: Arg)
    requires k < |ps| && ps[k] == "%lu" && ValidArg(a)
    ensures Shown(ps, k, a) == Digits(a.word, 10) <==> !SignBefore(ps, k) || a.word < TWO63
  {
    NextPiece(ps, k, ps[k], ps[k + 1..]);
    assert ConvOf("%lu") == Number(10, true);
    StartsWithDigit(a.word, 10);
    hide Digits, SignBefore, ConvOf;
  }

  predicate IsHexOrOctal(p: string, b: nat) { (b == 8 && p == "%o") || (b == 16 && (p == "%x" || p == "%X")) }

  /** %x and %o print the low half exactly when no %d or %i stands before them or bit 31 is clear; else the
      sign-extended word. */
  lemma HexOctalExactly(ps: seq<string>, k: nat, a: Arg, b: nat)
    requires k < |ps| && IsHexOrOctal(ps[k], b) && ValidArg(a)
    ensures Shown(ps, k, a) == Digits(Low(a), b) <==> !SignBefore(ps, k) || Low(a) < TWO31
    ensures SignBefore(ps, k) && Low(a) >= TWO31 ==> Shown(ps, k, a) == Digits(TWO64 - TWO32 + Low(a), b)
  {
    NextPiece(ps, k, ps[k], ps[k + 1..]);
    assert ConvOf("%o") == Number(8, false) && ConvOf("%x") == Number(16, false) && ConvOf("%X") == Number(16, false);
    hide SignBefore, ConvOf;
    if Digits(TWO64 - TWO32 + Low(a), b) == Digits(Low(a), b) {
      NumeralTells(TWO64 - TWO32 + Low(a), Low(a), b);
    }
    hide Digits;
  }

  predicate IsLongHexOrOctal(p: string, b: nat) {
    (b == 8 && p == "%lo") || (b == 16 && (p == "%lx" || p == "%lX" || p == "%p" || p == "%lp"))
  }

  /** %lx, %lo and %p print the whole word whatever stands before them. */
  lemma LongHexOctalAlways(ps: seq<string>, k: nat, a: Arg, b: nat)
    requires k < |ps| && IsLongHexOrOctal(ps[k], b) && ValidArg(a)
    ensures Shown(ps, k, a) == Digits(a.word, b)
  {
    assert ConvOf("%lo") == Number(8, true) && ConvOf("%lx") == Number(16, true) && ConvOf("%lX") == Number(16, true);
    assert ConvOf("%p") == Pointer && ConvOf("%lp") == Pointer;
    hide Digits, SignBefore, ConvOf;
  }

  /** %d and %i print the low half as a signed number, %ld and %li the whole word, whatever stands before them. */
  lemma SignedAlways(ps: seq<string>, k: nat, a: Arg)
    requires k < |ps| && ValidArg(a)
    ensures ps[k] == "%d" || ps[k] == "%i" ==> Shown(ps, k, a) == SignedText(Low(a), TWO31)
    ensures ps[k] == "%ld" || ps[k] == "%li" ==> Shown(ps, k, a) == SignedText(a.word, TWO63)
  {
    NextPiece(ps, k, ps[k], ps[k + 1..]);
    assert ConvOf("%d") == Number(10, false) && ConvOf("%i") == Number(10, false);
    assert ConvOf("%ld") == Number(10, true) && ConvOf("%li") == Number(10, true);
    hide Digits, SignBefore, ConvOf;
  }
}
