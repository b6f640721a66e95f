/** User memory as bytes, with what is kept when a stretch of it is written. */
module UserMemory {
  import opened Bits

  /** The bytes bs stand at address a. */
  ghost predicate Holds(m: seq<Byte>, a: nat, bs: seq<Byte>) {
    a + |bs| <= |m| && m[a..a + |bs|] == bs
  }

  /** Only addresses in [lo, hi) may differ. */
  ghost predicate SameOutside(m: seq<Byte>, m': seq<Byte>, lo: int, hi: int) {
    |m'| == |m| && forall i :: 0 <= i < |m| && !(lo <= i < hi) ==> m'[i] == m[i]
  }

  function Poke(m: seq<Byte>, a: nat, bs: seq<Byte>): (m': seq<Byte>)
    requires a + |bs| <= |m|
    ensures |m'| == |m|
  {
    m[..a] + bs + m[a + |bs|..]
  }

  lemma PokeIs(m: seq<Byte>, a: nat, bs: seq<Byte>)
    requires a + |bs| <= |m|
    ensures Holds(Poke(m, a, bs), a, bs) && SameOutside(m, Poke(m, a, bs), a, a + |bs|)
  {
  }

  lemma HoldsKept(m: seq<Byte>, m': seq<Byte>, lo: int, hi: int, a: nat, bs: seq<Byte>)
    requires Holds(m, a, bs) && SameOutside(m, m', lo, hi) && (a + |bs| <= lo || hi <= a)
    ensures Holds(m', a, bs)
  {
    assert m'[a..a + |bs|] == m[a..a + |bs|];
  }

  lemma HoldsJoin(m: seq<Byte>, a: nat, x: seq<Byte>, y: seq<Byte>)
    ensures Holds(m, a, x + y) <==> Holds(m, a, x) && Holds(m, a + |x|, y)
  {
    if a + |x| + |y| <= |m| {
      assert m[a..a + |x + y|] == m[a..a + |x|] + m[a + |x|..a + |x| + |y|];
      if Holds(m, a, x + y) {
        assert m[a..a + |x|] == (x + y)[..|x|] && m[a + |x|..a + |x| + |y|] == (x + y)[|x|..];
      }
    }
  }

  lemma SameOutsideTrans(m: seq<Byte>, m1: seq<Byte>, m2: seq<Byte>, lo: int, mid: int, hi: int)
    requires lo <= mid <= hi && SameOutside(m, m1, mid, hi) && SameOutside(m1, m2, lo, mid)
    ensures SameOutside(m, m2, lo, hi)
  {
  }

  /** The little-endian value of a run of bytes. */
  function WordValue(bs: seq<Byte>): nat {
    if bs == [] then 0 else bs[0] + 256 * WordValue(bs[1..])
  }

  function Pow256(n: nat): nat { if n == 0 then 1 else 256 * Pow256(n - 1) }

  lemma Pow256Of8()
    ensures Pow256(8) == TWO64
  {
  }

  /** The n little-endian bytes of v. */
  method Encode(v: nat, n: nat) returns (bs: seq<Byte>)
    requires v < Pow256(n)
    ensures |bs| == n && WordValue(bs) == v
  {
    if n == 0 {
      return [];
    }
    var rest := Encode(v / 256, n - 1);
    bs := [v % 256] + rest;
    assert bs[1..] == rest;
  }

  /** The 64-bit word v stands at address a. */
  ghost predicate Word(m: seq<Byte>, a: nat, v: nat) {
    a + 8 <= |m| && WordValue(m[a..a + 8]) == v
  }

  /** The words stand one after the other from address a. */
  ghost predicate Words(m: seq<Byte>, a: nat, ws: seq<nat>) {
    a + 8 * |ws| <= |m| && forall i :: 0 <= i < |ws| ==> Word(m, a + 8 * i, ws[i])
  }

  lemma WordKept(m: seq<Byte>, m': seq<Byte>, lo: int, hi: int, a: nat, v: nat)
    requires Word(m, a, v) && SameOutside(m, m', lo, hi) && (a + 8 <= lo || hi <= a)
    ensures Word(m', a, v)
  {
    assert m'[a..a + 8] == m[a..a + 8];
  }
}
