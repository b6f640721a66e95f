/** The flattened device tree format: trees, tokens, bytes, and the reader's primitives. */
module Fdt {
  import opened Bits

  const FDT_BEGIN_NODE: nat := 1
  const FDT_END_NODE: nat := 2
  const FDT_PROP: nat := 3
  const FDT_NOP: nat := 4
  const FDT_END: nat := 9
  const INT_MAX: nat := 0x7fff_ffff

  /** A property with the place of its name in the strings block. */
  datatype Property = Property(name: seq<Byte>, nameoff: nat, data: seq<Byte>)

  datatype Node = Node(name: seq<Byte>, props: seq<Property>, kids: seq<Node>)

  datatype Token = Begin(name: seq<Byte>) | Prop(p: Property) | EndNode | Nop | Finish

  function PropTokens(ps: seq<Property>): seq<Token> {
    seq(|ps|, i requires 0 <= i < |ps| => Prop(ps[i]))
  }

  /** The structure block of a node: its properties, then its children, then the end tag. */
  function Flatten(n: Node): seq<Token>
    decreases n, 1
  {
    [Begin(n.name)] + (PropTokens(n.props) + (FlattenAll(n.kids) + [EndNode]))
  }

  function FlattenAll(ns: seq<Node>): seq<Token>
    decreases ns, 0
  {
    if ns == [] then [] else Flatten(ns[0]) + FlattenAll(ns[1..])
  }

  function WithoutNops(ts: seq<Token>): seq<Token> {
    if ts == [] then [] else (if ts[0].Nop? then [] else [ts[0]]) + WithoutNops(ts[1..])
  }

  // Bytes

  function Be32(blob: seq<Byte>, pos: nat): nat
    requires pos + 4 <= |blob|
  {
    blob[pos] as int * 0x100_0000 + blob[pos + 1] as int * 0x1_0000 + blob[pos + 2] as int * 0x100
      + blob[pos + 3] as int
  }

  /** (x + 3) & ~3 */
  function TagAlign(x: nat): nat
    requires x + 3 < TWO32
  {
    And(x + 3, TWO32 - 4)
  }

  /** n rounded up to a multiple of four. */
  function Round4(n: nat): (r: nat)
    ensures r % 4 == 0 && n <= r < n + 4
  {
    (n + 3) / 4 * 4
  }

  lemma TagAlignIs(x: nat)
    requires x + 3 < TWO32
    ensures TagAlign(x) == Round4(x)
  {
    PowersOfTwo();
    AndHighMask(x + 3, 32, 2);
    ModFour(x + 3);
  }

  lemma ModFour(y: nat)
    ensures Pow2(2) == 4 && y % Pow2(2) == y % 4
  {
  }

  lemma RoundAbove(a: nat, n: nat)
    requires a % 4 == 0
    ensures Round4(a + n) == a + Round4(n)
  {
  }

  lemma RoundAligned(n: nat)
    requires n % 4 == 0
    ensures Round4(n) == n
  {
    DivModUnique(n + 3, 4, n / 4, 3);
  }

  /** Bytes taken by a token: tag, fields, and contents padded to a multiple of four. */
  function Size(t: Token): nat {
    match t
    case Begin(name) => 4 + Round4(|name| + 1)
    case Prop(p) => 12 + Round4(|p.data|)
    case EndNode => 4
    case Nop => 4
    case Finish => 4
  }

  function TagOf(t: Token): nat {
    match t
    case Begin(_) => FDT_BEGIN_NODE
    case Prop(_) => FDT_PROP
    case EndNode => FDT_END_NODE
    case Nop => FDT_NOP
    case Finish => FDT_END
  }

  /** The bytes at pos are those of token t; padding may hold anything. */
  ghost predicate TokenAt(blob: seq<Byte>, pos: nat, t: Token) {
    && pos + Size(t) <= |blob|
    && Be32(blob, pos) == TagOf(t)
    && (match t
        case Begin(name) =>
          && blob[pos + 4..pos + 4 + |name|] == name && blob[pos + 4 + |name|] == 0
          && forall k :: 0 <= k < |name| ==> name[k] != 0
        case Prop(p) =>
          && Be32(blob, pos + 4) == |p.data| && Be32(blob, pos + 8) == p.nameoff
          && blob[pos + 12..pos + 12 + |p.data|] == p.data
        case EndNode => true
        case Nop => true
        case Finish => true)
  }

  /** Where token i starts, relative to the structure block. */
  function Off(ts: seq<Token>, i: nat): nat
    requires i <= |ts|
  {
    if i == 0 then 0 else Off(ts, i - 1) + Size(ts[i - 1])
  }

  const HEADER: nat := 40

  function OffStruct(blob: seq<Byte>): nat
    requires |blob| >= HEADER
  {
    Be32(blob, 8)
  }

  function OffStrings(blob: seq<Byte>): nat
    requires |blob| >= HEADER
  {
    Be32(blob, 12)
  }

  function SizeStrings(blob: seq<Byte>): nat
    requires |blob| >= HEADER
  {
    Be32(blob, 32)
  }

  /** The strings block holds s, NUL-terminated, at offset off. */
  ghost predicate StringAt(blob: seq<Byte>, off: nat, s: seq<Byte>)
    requires |blob| >= HEADER
  {
    var pos := OffStrings(blob) + off;
    && off + |s| < SizeStrings(blob) && OffStrings(blob) + SizeStrings(blob) <= |blob|
    && blob[pos..pos + |s|] == s && blob[pos + |s|] == 0
    && forall k :: 0 <= k < |s| ==> s[k] != 0
  }

  /** Token i is in its place, and if it is a property its name is in the strings block. */
  ghost predicate Placed(blob: seq<Byte>, ts: seq<Token>, i: nat)
    requires |blob| >= HEADER && i < |ts|
  {
    && TokenAt(blob, OffStruct(blob) + Off(ts, i), ts[i])
    && (ts[i].Prop? ==> StringAt(blob, ts[i].p.nameoff, ts[i].p.name))
  }

  /** The structure block of the blob is the token list, and property names are in the strings block. */
  ghost predicate Laid(blob: seq<Byte>, ts: seq<Token>) {
    && HEADER <= |blob| <= INT_MAX
    && forall i :: 0 <= i < |ts| ==> Placed(blob, ts, i)
  }

  /** The list ends with FDT_END. */
  predicate Terminated(ts: seq<Token>) {
    |ts| > 0 && ts[|ts| - 1].Finish?
  }

  /** The blob is a serialisation of the tree, with any number of NOP tags before FDT_END. */
  ghost predicate Serialises(blob: seq<Byte>, ts: seq<Token>, root: Node) {
    Laid(blob, ts) && Terminated(ts) && WithoutNops(ts) == Flatten(root) + [Finish]
  }

  // The reader

  /** fdt_next_tag at the start of token i: its tag, and where the next token starts. */
  method NextTag(blob: seq<Byte>, startoffset: nat, ghost ts: seq<Token>, ghost i: nat)
    returns (tag: nat, nextoffset: nat)
    requires Laid(blob, ts) && i < |ts| && startoffset == Off(ts, i)
    ensures tag == TagOf(ts[i]) && nextoffset == Off(ts, i + 1)
  {
    OffAligned(ts, i);
    assert Placed(blob, ts, i);
    var offset;
    tag, offset := ReadTag(blob, OffStruct(blob), startoffset, ts[i]);
    TagAlignIs(offset);
    nextoffset := TagAlign(offset);
  }

  /** The switch of fdt_next_tag: the tag, and the offset past the token before alignment. */
  method ReadTag(blob: seq<Byte>, base: nat, startoffset: nat, ghost t: Token) returns (tag: nat, offset: nat)
    requires TokenAt(blob, base + startoffset, t) && |blob| <= INT_MAX && startoffset % 4 == 0
    ensures tag == TagOf(t) && Round4(offset) == startoffset + Size(t) && offset <= |blob|
  {
    tag := Be32(blob, base + startoffset);
    offset := startoffset + 4;
    ReadSize(startoffset, t);
    if tag == FDT_BEGIN_NODE {
      NameBytes(blob, base + offset, t.name);
      offset := SkipName(blob, base, offset, |t.name|);
    } else if tag == FDT_PROP {
      offset := offset + 12 - 4 + Be32(blob, base + offset);
    }
  }

  lemma ReadSize(start: nat, t: Token)
    requires start % 4 == 0
    ensures match t
            case Begin(name) => Round4(start + 4 + (|name| + 1)) == start + Size(t)
            case Prop(p) => Round4(start + 12 + |p.data|) == start + Size(t)
            case EndNode => Round4(start + 4) == start + Size(t)
            case Nop => Round4(start + 4) == start + Size(t)
            case Finish => Round4(start + 4) == start + Size(t)
  {
    hide Round4;
    match t
    case Begin(name) => RoundAbove(start + 4, |name| + 1);
    case Prop(p) => RoundAbove(start + 12, |p.data|);
    case EndNode => RoundAligned(start + 4);
    case Nop => RoundAligned(start + 4);
    case Finish => RoundAligned(start + 4);
  }

  lemma NameBytes(blob: seq<Byte>, pos: nat, name: seq<Byte>)
    requires pos + |name| <= |blob| && blob[pos..pos + |name|] == name && forall k :: 0 <= k < |name| ==> name[k] != 0
    ensures forall k :: pos <= k < pos + |name| ==> blob[k] != 0
  {
    forall k | pos <= k < pos + |name| ensures blob[k] != 0 { assert blob[k] == name[k - pos]; }
  }

  /** The do-while loop over the name: the offset just past its NUL. */
  method SkipName(blob: seq<Byte>, base: nat, start: nat, ghost len: nat) returns (offset: nat)
    requires base + start + len < |blob| && blob[base + start + len] == 0
    requires forall k :: base + start <= k < base + start + len ==> blob[k] != 0
    ensures offset == start + len + 1
  {
    offset := start;
    while blob[base + offset] != 0
      invariant start <= offset <= start + len
      decreases start + len - offset
    {
      offset := offset + 1;
    }
    offset := offset + 1;
  }

  /** Every token starts on a multiple of four. */
  lemma {:induction false} OffAligned(ts: seq<Token>, i: nat)
    requires i <= |ts|
    ensures Off(ts, i) % 4 == 0
  {
    hide Size;
    if i > 0 {
      OffAligned(ts, i - 1);
      SizeAligned(ts[i - 1]);
      SumAligned(Off(ts, i - 1), Size(ts[i - 1]));
    }
  }

  lemma SumAligned(a: nat, b: nat)
    requires a % 4 == 0 && b % 4 == 0
    ensures (a + b) % 4 == 0
  {
    DivModUnique(a + b, 4, a / 4 + b / 4, 0);
  }

  lemma SizeAligned(t: Token)
    ensures Size(t) % 4 == 0
  {
    hide Round4;
    match t
    case Begin(name) => SumAligned(4, Round4(|name| + 1));
    case Prop(p) => SumAligned(12, Round4(|p.data|));
    case EndNode =>
    case Nop =>
    case Finish =>
  }
}
