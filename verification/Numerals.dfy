/** Writing and reading numerals: number and _parse_integer. */
module Numerals {
  import opened Wrappers
  import opened Bits
  import opened Words

  const TWO60: nat := 0x1000_0000_0000_0000

  predicate Base(b: nat) { b == 8 || b == 10 || b == 16 }

  /** The entries of "0123456789ABCDEF". */
  function DigitChar(v: nat): char
    requires v < 16
  {
    if v < 10 then (48 + v) as char else (55 + v) as char
  }

  /** The numeral of n, most significant digit first. */
  function Digits(n: nat, b: nat): (s: string)
    requires Base(b)
    ensures |s| > 0
  {
    if n < b then [DigitChar(n)] else (LessDigits(n, b); Digits(Quot(n, b), b) + [DigitChar(Rem(n, b))])
  }

  /** The value of a character as a digit, letters of either case included. */
  function DigitValue(c: char): Option<nat> {
    var code := c as nat;
    var lower := if code / 32 % 2 == 0 then code + 32 else code; // c | 0x20
    if 48 <= code <= 57 then Some(code - 48) else if 97 <= lower <= 102 then Some(lower - 87) else None
  }

  lemma DigitRoundTrip(v: nat)
    requires v < 16
    ensures DigitValue(DigitChar(v)) == Some(v)
  {
  }

  predicate DigitIn(c: char, b: nat) { DigitValue(c).Some? && DigitValue(c).value < b }

  datatype Parsed = Overflow | Parsed(value: nat, count: nat)

  /** What _parse_integer makes of a string: digits as long as there are any, and a panic when the value so far
      has any of its four top bits set. */
  function Parse(s: string, b: nat, res: nat): Parsed {
    if s == [] || !DigitIn(s[0], b) then Parsed(res, 0)
    else if res >= TWO60 then Overflow
    else
      Longer(Parse(s[1..], b, (Mul(res, b) + DigitValue(s[0]).value) % TWO64), 1)
  }

  lemma LessDigits(n: nat, b: nat)
    requires 0 < b <= n && Base(b)
    ensures 0 < Quot(n, b) < n && Rem(n, b) < b && n == Mul(Quot(n, b), b) + Rem(n, b)
  {
  }

  /** One more digit in front of what was read. */
  function Longer(p: Parsed, n: nat): Parsed {
    match p
    case Overflow => Overflow
    case Parsed(v, k) => Parsed(v, k + n)
  }

  /** Reading a numeral gives its number back exactly when all but its last digit stay below 2^60. */
  lemma {:induction false} ParseDigits(n: nat, b: nat, rest: string)
    requires Base(b) && n < TWO64
    ensures Parse(Digits(n, b) + rest, b, 0) ==
              if Quot(n, b) >= TWO60 then Overflow else Longer(Parse(rest, b, n), |Digits(n, b)|)
    decreases n
  {
    hide Mul, Quot, Rem, Parse;
    if n < b {
      SmallNumeral(n, b);
      ParseStep(n, b, 0, rest);
    } else {
      LessDigits(n, b);
      var q, d := Quot(n, b), [DigitChar(Rem(n, b))];
      assert Digits(n, b) + rest == Digits(q, b) + (d + rest);
      ParseDigits(q, b, d + rest);
      ParseStep(Rem(n, b), b, q, rest);
      SmallerStill(q, b);
    }
  }

  lemma SmallNumeral(n: nat, b: nat)
    requires n < b && Base(b)
    ensures Quot(n, b) == 0 && Rem(n, b) == n && Mul(0, b) == 0
  {
  }

  lemma SmallerStill(q: nat, b: nat)
    requires Base(b)
    ensures Quot(q, b) <= q
  {
  }

  /** One digit. */
  lemma ParseStep(v: nat, b: nat, res: nat, rest: string)
    requires Base(b) && v < b && Mul(res, b) + v < TWO64
    ensures Parse([DigitChar(v)] + rest, b, res) ==
              if res >= TWO60 then Overflow else Longer(Parse(rest, b, Mul(res, b) + v), 1)
  {
    hide Mul, DigitValue, DigitChar, Parse;
    DigitRoundTrip(v);
    var s := [DigitChar(v)] + rest;
    assert s[1..] == rest && s[0] == DigitChar(v);
    ParseOne(s, b, res);
  }

  lemma ParseOne(s: string, b: nat, res: nat)
    requires s != [] && DigitIn(s[0], b)
    ensures var next := (Mul(res, b) + DigitValue(s[0]).value) % TWO64;
            Parse(s, b, res) == if res >= TWO60 then Overflow else Longer(Parse(s[1..], b, next), 1)
  {
    hide Mul, DigitValue;
  }

  /** number and _parse_integer undo each other for n / base < 2^60, and only then. */
  lemma RoundTrip(n: nat, b: nat, rest: string)
    requires Base(b) && n < TWO64 && (rest == [] || !DigitIn(rest[0], b))
    ensures Parse(Digits(n, b) + rest, b, 0) == if Quot(n, b) < TWO60 then Parsed(n, |Digits(n, b)|) else Overflow
  {
    ParseDigits(n, b, rest);
  }

  /** The largest 64-bit number is written but not read back in decimal and octal. */
  lemma LargestNotReadBack(b: nat)
    requires Base(b) && b != 16
    ensures Parse(Digits(TWO64 - 1, b), b, 0) == Overflow
  {
    RoundTrip(TWO64 - 1, b, []);
    assert Digits(TWO64 - 1, b) + [] == Digits(TWO64 - 1, b);
    hide Digits, Parse;
  }

  /** _parse_integer; the end of s stands for the terminating NUL. */
  method ParseInteger(s: string, b: nat) returns (r: Parsed)
    requires '\0' !in s
    ensures r == Parse(s, b, 0)
  {
    hide Mul;
    var rv: nat, res: nat := 0, 0;
    while true
      invariant 0 <= rv <= |s| && res < TWO64
      invariant Parse(s, b, 0) == Longer(Parse(s[rv..], b, res), rv)
      decreases |s| - rv
    {
      if rv == |s| || !DigitIn(s[rv], b) {
        break;
      }
      TopBits(res);
      if And(res, TWO64 - TWO60) != 0 {
        return Overflow;
      }
      assert s[rv..][1..] == s[rv + 1..];
      res := (Mul(res, b) + DigitValue(s[rv]).value) % TWO64;
      rv := rv + 1;
    }
    r := Parsed(res, rv);
  }

  lemma TopBits(x: nat)
    requires x < TWO64
    ensures And(x, TWO64 - TWO60) != 0 <==> x >= TWO60
  {
    hide And;
    PowersOfTwo();
    Pow2Adds(4, 56);
    Pow2Adds(8, 48);
    Pow2Adds(16, 32);
    HighMask(x, 60);
    hide Pow2;
    if x < TWO60 { DivModUnique(x, TWO60, 0, x); } else { RemLess(x, TWO60); }
  }

  lemma RemLess(x: nat, p: nat)
    requires p > 0
    ensures x % p < p
  {
  }

  /** The character at i, or the terminating NUL. */
  function CharAt(s: string, i: nat): char { if i < |s| then s[i] else '\0' }

  /** _tolower(c) == 'x'. */
  predicate IsX(c: char) {
    var code := c as nat;
    (if code / 32 % 2 == 0 then code + 32 else code) == 120
  }

  /** _parse_integer_fixup_radix: the base, guessed from the prefix if it is 0, and how much prefix to skip. */
  function FixedBase(s: string, base: nat): nat {
    if base != 0 then base
    else if CharAt(s, 0) != '0' then 10
    else if IsX(CharAt(s, 1)) && DigitIn(CharAt(s, 2), 16) then 16 else 8
  }

  function Skipped(s: string, base: nat): (k: nat)
    ensures k <= |s|
  {
    if base == 16 && CharAt(s, 0) == '0' && IsX(CharAt(s, 1)) then 2 else 0
  }

  function Strtoull(s: string, base: nat): Parsed {
    var b := FixedBase(s, base);
    Longer(Parse(s[Skipped(s, b)..], b, 0), Skipped(s, b))
  }

  /** simple_strtoull. */
  method SimpleStrtoull(s: string, base0: nat) returns (r: Parsed)
    requires '\0' !in s
    ensures r == Strtoull(s, base0)
  {
    var base, cp := base0, 0;
    if base == 0 {
      if CharAt(s, 0) == '0' {
        if IsX(CharAt(s, 1)) && DigitIn(CharAt(s, 2), 16) {
          base := 16;
        } else {
          base := 8;
        }
      } else {
        base := 10;
      }
    }
    if base == 16 && CharAt(s, 0) == '0' && IsX(CharAt(s, 1)) {
      cp := 2;
    }
    r := ParseInteger(s[cp..], base);
    if r.Parsed? {
      r := Parsed(r.value, r.count + cp);
    }
  }

  /** Only the number 0 has a numeral that starts with 0. */
  lemma {:induction false} LeadingDigit(n: nat, b: nat)
    requires Base(b)
    ensures n > 0 ==> Digits(n, b)[0] != '0'
    ensures DigitIn(Digits(n, b)[0], b)
  {
    if n < b {
      DigitRoundTrip(n);
    } else {
      LessDigits(n, b);
      LeadingDigit(Quot(n, b), b);
    }
  }

  /** With the base left to the prefix, a decimal numeral is read as the decimal number it is. */
  lemma AutoDecimal(n: nat)
    requires n < TWO64
    ensures Strtoull(Digits(n, 10), 0) == if Quot(n, 10) < TWO60 then Parsed(n, |Digits(n, 10)|) else Overflow
  {
    var s := Digits(n, 10);
    assert s[0..] == s && s + [] == s;
    LeadingDigit(n, 10);
    if n > 0 {
      RoundTrip(n, 10, []);
    } else {
      assert s == Digits(0, 8);
      RoundTrip(0, 8, []);
    }
  }

  /** And "0x" makes it hexadecimal, with the base left open or given as 16. */
  lemma AutoHex(n: nat, base: nat)
    requires n < TWO64 && (base == 0 || base == 16)
    ensures Strtoull("0x" + Digits(n, 16), base) ==
              if Quot(n, 16) < TWO60 then Parsed(n, |Digits(n, 16)| + 2) else Overflow
  {
    var s := "0x" + Digits(n, 16);
    LeadingDigit(n, 16);
    assert CharAt(s, 2) == Digits(n, 16)[0];
    assert FixedBase(s, base) == 16 && Skipped(s, 16) == 2;
    assert s[2..] == Digits(n, 16) && Digits(n, 16) + [] == Digits(n, 16);
    RoundTrip(n, 16, []);
  }
}
