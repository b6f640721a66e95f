/** Scanning a flattened device tree: preorder walk and property lookup. */
module FdtScan {
  import opened Wrappers
  import opened Bits
  import opened Fdt

  /** What a scan learns at one node: its name, its own properties, its depth. */
  datatype Info = Info(name: seq<Byte>, props: seq<Property>, depth: int)

  /** The nodes of a tree in preorder with their depths. */
  function Preorder(n: Node, depth: int): seq<Info>
    decreases n, 1
  {
    [Info(n.name, n.props, depth)] + PreorderAll(n.kids, depth + 1)
  }

  function PreorderAll(ns: seq<Node>, depth: int): seq<Info>
    decreases ns, 0
  {
    if ns == [] then [] else Preorder(ns[0], depth) + PreorderAll(ns[1..], depth)
  }

  /** The properties at the head of a token list, up to the first node tag. */
  function PropsRun(ts: seq<Token>): seq<Property> {
    if ts == [] then []
    else match ts[0]
      case Prop(p) => [p] + PropsRun(ts[1..])
      case Nop => PropsRun(ts[1..])
      case _ => []
  }

  /** The nodes met in a token list until the depth drops below zero. */
  function ScanNodes(ts: seq<Token>, depth: int): seq<Info> {
    if ts == [] then []
    else match ts[0]
      case Begin(name) => [Info(name, PropsRun(ts[1..]), depth + 1)] + ScanNodes(ts[1..], depth + 1)
      case EndNode => if depth - 1 < 0 then [] else ScanNodes(ts[1..], depth - 1)
      case Finish => []
      case _ => ScanNodes(ts[1..], depth)
  }

  lemma {:induction false} PropsSkipNops(ts: seq<Token>)
    ensures PropsRun(WithoutNops(ts)) == PropsRun(ts)
  {
    if ts != [] {
      PropsSkipNops(ts[1..]);
      if ts[0].Nop? {
        assert WithoutNops(ts) == WithoutNops(ts[1..]);
      } else {
        assert WithoutNops(ts)[0] == ts[0] && WithoutNops(ts)[1..] == WithoutNops(ts[1..]);
      }
    }
  }

  lemma {:induction false} NopsInvisible(ts: seq<Token>, depth: int)
    ensures ScanNodes(WithoutNops(ts), depth) == ScanNodes(ts, depth)
    decreases |ts|
  {
    if ts != [] {
      if ts[0].Nop? {
        assert WithoutNops(ts) == WithoutNops(ts[1..]);
        NopsInvisible(ts[1..], depth);
      } else {
        assert WithoutNops(ts)[0] == ts[0] && WithoutNops(ts)[1..] == WithoutNops(ts[1..]);
        PropsSkipNops(ts[1..]);
        NopsInvisible(ts[1..], match ts[0] case Begin(_) => depth + 1 case EndNode => depth - 1 case _ => depth);
      }
    }
  }

  /** Properties followed by a node tag make exactly the property run, and are no nodes. */
  lemma {:induction false} PropsThen(ps: seq<Property>, rest: seq<Token>, depth: int)
    requires rest != [] && !rest[0].Prop? && !rest[0].Nop?
    ensures PropsRun(PropTokens(ps) + rest) == ps
    ensures ScanNodes(PropTokens(ps) + rest, depth) == ScanNodes(rest, depth)
    decreases |ps|
  {
    var ts := PropTokens(ps) + rest;
    if ps == [] {
      assert ts == rest;
    } else {
      assert ts[0] == Prop(ps[0]) && ts[1..] == PropTokens(ps[1..]) + rest;
      PropsThen(ps[1..], rest, depth);
      assert ps == [ps[0]] + ps[1..];
    }
  }

  lemma FlattenAllStarts(ns: seq<Node>, rest: seq<Token>)
    ensures var ts := FlattenAll(ns) + ([EndNode] + rest); ts != [] && (ts[0].Begin? || ts[0].EndNode?)
  {
    if ns != [] { assert FlattenAll(ns)[0] == Begin(ns[0].name); }
  }

  /** Scanning a flattened subtree lists it in preorder one level down, then goes on at the old depth. */
  lemma {:induction false} ScanFlatten(n: Node, rest: seq<Token>, depth: int)
    requires depth >= -1
    ensures ScanNodes(Flatten(n) + rest, depth)
            == Preorder(n, depth + 1) + if depth < 0 then [] else ScanNodes(rest, depth)
    decreases n, 1
  {
    var tail := FlattenAll(n.kids) + ([EndNode] + rest);
    var ts := Flatten(n) + rest;
    assert ts[0] == Begin(n.name) && ts[1..] == PropTokens(n.props) + tail;
    FlattenAllStarts(n.kids, rest);
    PropsThen(n.props, tail, depth + 1);
    ScanFlattenAll(n.kids, [EndNode] + rest, depth + 1);
    assert ([EndNode] + rest)[1..] == rest;
    var after := if depth < 0 then [] else ScanNodes(rest, depth);
    assert ScanNodes([EndNode] + rest, depth + 1) == after;
    assert [Info(n.name, n.props, depth + 1)] + (PreorderAll(n.kids, depth + 2) + after)
        == ([Info(n.name, n.props, depth + 1)] + PreorderAll(n.kids, depth + 2)) + after;
  }

  lemma {:induction false} ScanFlattenAll(ns: seq<Node>, rest: seq<Token>, depth: int)
    requires depth >= 0
    ensures ScanNodes(FlattenAll(ns) + rest, depth) == PreorderAll(ns, depth + 1) + ScanNodes(rest, depth)
    decreases ns, 0
  {
    if ns == [] {
      assert FlattenAll(ns) + rest == rest;
    } else {
      var more := FlattenAll(ns[1..]) + rest;
      assert FlattenAll(ns) + rest == Flatten(ns[0]) + more;
      ScanFlatten(ns[0], more, depth);
      ScanFlattenAll(ns[1..], rest, depth);
      assert Preorder(ns[0], depth + 1) + (PreorderAll(ns[1..], depth + 1) + ScanNodes(rest, depth))
          == (Preorder(ns[0], depth + 1) + PreorderAll(ns[1..], depth + 1)) + ScanNodes(rest, depth);
    }
  }

  /** With any NOP padding, the scan of a serialised tree is its preorder walk. */
  lemma ScanIsPreorder(ts: seq<Token>, root: Node)
    requires WithoutNops(ts) == Flatten(root) + [Finish]
    ensures ScanNodes(ts, -1) == Preorder(root, 0)
  {
    NopsInvisible(ts, -1);
    ScanFlatten(root, [Finish], -1);
  }

  // The walk over token indices, as the reader makes it.

  datatype Step = Found(i: nat, depth: int) | Stop(depth: int)

  /** The next node tag at or after token i. */
  function NextBegin(ts: seq<Token>, i: nat, depth: int): Step
    decreases |ts| - i
  {
    if i >= |ts| then Stop(depth)
    else match ts[i]
      case Begin(_) => Found(i, depth + 1)
      case EndNode => if depth - 1 < 0 then Stop(depth - 1) else NextBegin(ts, i + 1, depth - 1)
      case Finish => Stop(depth)
      case _ => NextBegin(ts, i + 1, depth)
  }

  lemma ScanUnfolds(ts: seq<Token>, i: nat, depth: int)
    requires i <= |ts|
    ensures ScanNodes(ts[i..], depth) ==
              if i == |ts| || ts[i].Finish? || (ts[i].EndNode? && depth - 1 < 0) then []
              else if ts[i].Begin? then [Info(ts[i].name, PropsRun(ts[i + 1..]), depth + 1)]
                + ScanNodes(ts[i + 1..], depth + 1)
              else ScanNodes(ts[i + 1..], if ts[i].EndNode? then depth - 1 else depth)
  {
    if i < |ts| {
      assert ts[i..][0] == ts[i] && ts[i..][1..] == ts[i + 1..];
    }
  }

  /** What the search from token i finds is the first node of the scan from there. */
  ghost predicate StepScans(ts: seq<Token>, i: nat, depth: int, found: Step)
    requires i <= |ts|
  {
    match found
    case Found(j, d) =>
      && i <= j < |ts| && ts[j].Begin? && d >= 0
      && ScanNodes(ts[i..], depth) == [Info(ts[j].name, PropsRun(ts[j + 1..]), d)] + ScanNodes(ts[j + 1..], d)
    case Stop(_) => ScanNodes(ts[i..], depth) == []
  }

  /** A token the scan passes over. */
  lemma StepPasses(ts: seq<Token>, i: nat, depth: int, depth': int, found: Step)
    requires i < |ts| && ScanNodes(ts[i..], depth) == ScanNodes(ts[i + 1..], depth')
             && StepScans(ts, i + 1, depth', found)
    ensures StepScans(ts, i, depth, found)
  {
    hide ScanNodes, PropsRun;
  }

  lemma {:induction false} NextBeginIs(ts: seq<Token>, i: nat, depth: int)
    requires i <= |ts| && depth >= -1
    ensures StepScans(ts, i, depth, NextBegin(ts, i, depth))
    decreases |ts| - i
  {
    hide ScanNodes, PropsRun;
    ScanUnfolds(ts, i, depth);
    if i < |ts| {
      match ts[i]
      case Begin(_) => assert NextBegin(ts, i, depth) == Found(i, depth + 1);
      case EndNode =>
        if depth >= 1 {
          NextBeginIs(ts, i + 1, depth - 1);
          StepPasses(ts, i, depth, depth - 1, NextBegin(ts, i, depth));
        }
      case Finish =>
      case _ =>
        NextBeginIs(ts, i + 1, depth);
        StepPasses(ts, i, depth, depth, NextBegin(ts, i, depth));
    }
  }

  /**
   fdt_next_node. A negative offset starts at the first token; otherwise offset
   is that of token i - 1 and the search goes on behind it.
   */
  method NextNode(blob: seq<Byte>, offset: int, depth: int, ghost ts: seq<Token>, ghost i: nat)
    returns (offset': int, depth': int)
    requires Laid(blob, ts) && Terminated(ts) && i < |ts|
    requires if offset < 0 then i == 0 else i > 0 && offset == Off(ts, i - 1)
    ensures match NextBegin(ts, i, depth)
            case Found(j, d) => j < |ts| && offset' == Off(ts, j) && depth' == d
            case Stop(d) => (offset' < 0 || depth' < 0) && depth' == d
  {
    var tag, nextoffset := 0, 0;
    if offset >= 0 {
      tag, nextoffset := NextTag(blob, offset, ts, i - 1);
    }
    ghost var k := i;
    depth' := depth;
    while true
      invariant i <= k < |ts| && nextoffset == Off(ts, k) && NextBegin(ts, k, depth') == NextBegin(ts, i, depth)
      decreases |ts| - k
    {
      offset' := nextoffset;
      tag, nextoffset := NextTag(blob, offset', ts, k);
      if tag == FDT_BEGIN_NODE {
        depth' := depth' + 1;
        return;
      } else if tag == FDT_END_NODE {
        depth' := depth' - 1;
        if depth' < 0 {
          return nextoffset, depth';
        }
      } else if tag == FDT_END {
        return -1, depth';
      }
      k := k + 1;
    }
  }

  /** fdt_get_name at a node tag. */
  method GetName(blob: seq<Byte>, offset: nat, ghost ts: seq<Token>, ghost i: nat) returns (name: seq<Byte>)
    requires Laid(blob, ts) && i < |ts| && ts[i].Begin? && offset == Off(ts, i)
    ensures name == ts[i].name
  {
    var base := OffStruct(blob) + offset + 4;
    assert Placed(blob, ts, i);
    NameBytes(blob, base, ts[i].name);
    var end := SkipName(blob, base, 0, |ts[i].name|);
    name := blob[base..base + end - 1];
  }

  /** A call of the callback. */
  datatype Visit = Visit(offset: nat, name: seq<Byte>, depth: int)

  /** The calls a scan makes when no callback stops it, from token i at the given depth. */
  ghost function Visits(ts: seq<Token>, i: nat, depth: int): seq<Visit>
    decreases |ts| - i
  {
    match NextBegin(ts, i, depth)
    case Found(j, d) =>
      if i <= j < |ts| && ts[j].Begin? && d >= 0 then [Visit(Off(ts, j), ts[j].name, d)] + Visits(ts, j + 1, d) else []
    case Stop(_) => []
  }

  /** Call k reports node k of the scan; its offset is that node's tag, followed by that node's properties. */
  ghost predicate Reports(ts: seq<Token>, v: Visit, info: Info) {
    v.name == info.name && v.depth == info.depth && exists j :: 0 <= j < |ts| && TagAt(ts, j, v.offset, info)
  }

  ghost predicate TagAt(ts: seq<Token>, j: nat, offset: nat, info: Info)
    requires j < |ts|
  {
    ts[j] == Begin(info.name) && offset == Off(ts, j) && PropsRun(ts[j + 1..]) == info.props
  }

  ghost predicate AllReport(ts: seq<Token>, vs: seq<Visit>, infos: seq<Info>) {
    |vs| == |infos| && forall k :: 0 <= k < |vs| ==> Reports(ts, vs[k], infos[k])
  }

  lemma ConsReport(ts: seq<Token>, v: Visit, info: Info, vs: seq<Visit>, infos: seq<Info>)
    requires Reports(ts, v, info) && AllReport(ts, vs, infos)
    ensures AllReport(ts, [v] + vs, [info] + infos)
  {
    forall k | 0 <= k < |vs| + 1 ensures Reports(ts, ([v] + vs)[k], ([info] + infos)[k]) {
      if k > 0 { assert Reports(ts, vs[k - 1], infos[k - 1]); }
    }
  }

  lemma {:induction false} VisitsReport(ts: seq<Token>, i: nat, depth: int)
    requires i <= |ts| && depth >= -1
    ensures AllReport(ts, Visits(ts, i, depth), ScanNodes(ts[i..], depth))
    decreases |ts| - i
  {
    hide ScanNodes, PropsRun, NextBegin, Off;
    NextBeginIs(ts, i, depth);
    var step := NextBegin(ts, i, depth);
    if step.Found? {
      var j, d := step.i, step.depth;
      var v, info := Visit(Off(ts, j), ts[j].name, d), Info(ts[j].name, PropsRun(ts[j + 1..]), d);
      var vs, infos := Visits(ts, j + 1, d), ScanNodes(ts[j + 1..], d);
      assert Visits(ts, i, depth) == [v] + vs && ScanNodes(ts[i..], depth) == [info] + infos;
      assert Reports(ts, v, info) by { assert TagAt(ts, j, v.offset, info); }
      VisitsReport(ts, j + 1, d);
      ConsReport(ts, v, info, vs, infos);
    }
  }

  /** Calls up to and including the first whose callback returns non-zero, and that value. */
  function CallsUntil(vs: seq<Visit>, cb: Visit -> int): seq<Visit> {
    if vs == [] then [] else if cb(vs[0]) != 0 then [vs[0]] else [vs[0]] + CallsUntil(vs[1..], cb)
  }

  function ResultOf(vs: seq<Visit>, cb: Visit -> int): int {
    if vs == [] then 0 else if cb(vs[0]) != 0 then cb(vs[0]) else ResultOf(vs[1..], cb)
  }

  /** The calls still to be made from token i at depth d, cut by the callback, complete the ones made. */
  ghost predicate Underway(ts: seq<Token>, i: nat, d: int, cb: Visit -> int, calls: seq<Visit>, rc: int,
                           all: seq<Visit>) {
    if rc != 0 then calls == CallsUntil(all, cb) && rc == ResultOf(all, cb)
    else
      && calls + CallsUntil(Visits(ts, i, d), cb) == CallsUntil(all, cb)
      && ResultOf(Visits(ts, i, d), cb) == ResultOf(all, cb)
  }

  lemma CallMade(ts: seq<Token>, i: nat, d: int, cb: Visit -> int, calls: seq<Visit>, all: seq<Visit>, j: nat, d': int)
    requires Underway(ts, i, d, cb, calls, 0, all)
    requires NextBegin(ts, i, d) == Found(j, d') && i <= j < |ts| && ts[j].Begin? && d' >= 0
    ensures var v := Visit(Off(ts, j), ts[j].name, d'); Underway(ts, j + 1, d', cb, calls + [v], cb(v), all)
  {
    var v, rest := Visit(Off(ts, j), ts[j].name, d'), Visits(ts, j + 1, d');
    assert Visits(ts, i, d) == [v] + rest && ([v] + rest)[1..] == rest;
    assert calls + [v] + CallsUntil(rest, cb) == calls + ([v] + CallsUntil(rest, cb));
  }

  /** The reader's variables after fdt_next_node searched from token i at depth d. */
  ghost predicate Searched(ts: seq<Token>, i: nat, d: int, offset: int, depth: int) {
    match NextBegin(ts, i, d)
    case Found(j, d') => i <= j && j + 1 < |ts| && ts[j].Begin? && d' >= 0 && offset == Off(ts, j) && depth == d'
    case Stop(_) => offset < 0 || depth < 0
  }

  method SearchNode(blob: seq<Byte>, offset: int, depth: int, ghost ts: seq<Token>, ghost i: nat)
    returns (offset': int, depth': int)
    requires Laid(blob, ts) && Terminated(ts) && i < |ts| && depth >= -1
    requires if offset < 0 then i == 0 else i > 0 && offset == Off(ts, i - 1)
    ensures Searched(ts, i, depth, offset', depth')
  {
    NextBeginIs(ts, i, depth);
    offset', depth' := NextNode(blob, offset, depth, ts, i);
  }

  /**
   of_scan_flat_dt on a serialised tree: the callback is called on the nodes in
   preorder with their true names and depths, until it returns non-zero or the
   tree is exhausted.
   */
  method ScanFlatDt(blob: seq<Byte>, cb: Visit -> int, ghost ts: seq<Token>, ghost root: Node)
    returns (rc: int, calls: seq<Visit>)
    requires Serialises(blob, ts, root)
    ensures AllReport(ts, Visits(ts, 0, -1), Preorder(root, 0))
    ensures calls == CallsUntil(Visits(ts, 0, -1), cb) && rc == ResultOf(Visits(ts, 0, -1), cb)
  {
    ghost var all := Visits(ts, 0, -1);
    assert AllReport(ts, all, Preorder(root, 0)) by {
      ScanIsPreorder(ts, root);
      assert ts[0..] == ts;
      VisitsReport(ts, 0, -1);
    }
    rc, calls := 0, [];
    var offset, depth := SearchNode(blob, -1, -1, ts, 0);
    ghost var i: nat, d: int := 0, -1;
    while offset >= 0 && depth >= 0 && rc == 0
      invariant Searched(ts, i, d, offset, depth) && Underway(ts, i, d, cb, calls, rc, all)
      decreases |ts| - i
    {
      ghost var j := NextBegin(ts, i, d).i;
      var name := GetName(blob, offset, ts, j);
      CallMade(ts, i, d, cb, calls, all, j, depth);
      rc := cb(Visit(offset, name, depth));
      calls := calls + [Visit(offset, name, depth)];
      i, d := j + 1, depth;
      offset, depth := SearchNode(blob, offset, depth, ts, j + 1);
    }
    if rc == 0 { assert Visits(ts, i, d) == []; }
  }

  // Property lookup

  /** The next property tag at or after token i, if only NOPs lie between. */
  function NextPropAt(ts: seq<Token>, i: nat): Option<nat>
    decreases |ts| - i
  {
    if i >= |ts| then None
    else match ts[i]
      case Prop(_) => Some(i)
      case Nop => NextPropAt(ts, i + 1)
      case _ => None
  }

  lemma {:induction false} NextPropIs(ts: seq<Token>, i: nat)
    requires i <= |ts|
    ensures match NextPropAt(ts, i)
            case Some(j) => i <= j < |ts| && ts[j].Prop? && PropsRun(ts[i..]) == [ts[j].p] + PropsRun(ts[j + 1..])
            case None => PropsRun(ts[i..]) == []
    decreases |ts| - i
  {
    if i < |ts| {
      assert ts[i..][0] == ts[i] && ts[i..][1..] == ts[i + 1..];
      if ts[i].Nop? { NextPropIs(ts, i + 1); }
    }
  }

  /** nextprop_ from token i: the offset of the next property of the node, or negative. */
  method NextProp(blob: seq<Byte>, offset: nat, ghost ts: seq<Token>, ghost i: nat) returns (offset': int)
    requires Laid(blob, ts) && Terminated(ts) && i < |ts| && offset == Off(ts, i)
    ensures match NextPropAt(ts, i)
            case Some(j) => j < |ts| && offset' == Off(ts, j)
            case None => offset' < 0
  {
    var at := offset;
    ghost var k := i;
    while true
      invariant i <= k < |ts| && at == Off(ts, k) && NextPropAt(ts, k) == NextPropAt(ts, i)
      decreases |ts| - k
    {
      var tag, nextoffset := NextTag(blob, at, ts, k);
      if tag == FDT_END {
        return -11;
      } else if tag == FDT_PROP {
        return at;
      } else if tag != FDT_NOP {
        return -1;
      }
      at := nextoffset;
      k := k + 1;
    }
  }

  /** The first property of that name. */
  function FirstNamed(ps: seq<Property>, name: seq<Byte>): Option<Property> {
    if ps == [] then None else if ps[0].name == name then Some(ps[0]) else FirstNamed(ps[1..], name)
  }

  /** fdt_string_eq_: the name at stroffset in the strings block is s. */
  method StringEq(blob: seq<Byte>, stroffset: nat, s: seq<Byte>, ghost name: seq<Byte>) returns (eq: bool)
    requires |blob| >= HEADER && StringAt(blob, stroffset, name)
    ensures eq <==> name == s
  {
    var pos := OffStrings(blob) + stroffset;
    NameBytes(blob, pos, name);
    var slen := SkipName(blob, pos, 0, |name|);
    slen := slen - 1;
    eq := slen == |s| && blob[pos..pos + slen] == s;
  }

  /**
   fdt_get_property_namelen_ at the node tag i: the offset and length of the
   first property of that name among the node's own properties, or nothing.
   */
  method GetProperty(blob: seq<Byte>, nodeoffset: nat, name: seq<Byte>, ghost ts: seq<Token>, ghost i: nat)
    returns (found: Option<(nat, nat)>)
    requires Laid(blob, ts) && Terminated(ts) && i < |ts| && ts[i].Begin? && nodeoffset == Off(ts, i)
    ensures match FirstNamed(PropsRun(ts[i + 1..]), name)
            case None => found == None
            case Some(p) =>
              && found.Some? && found.value.1 == |p.data|
              && OffStruct(blob) + found.value.0 + 12 + |p.data| <= |blob|
              && blob[OffStruct(blob) + found.value.0 + 12..][..|p.data|] == p.data
  {
    hide Laid, Off, PropsRun, FirstNamed, OffStruct, NextPropAt;
    var offset := FirstProperty(blob, nodeoffset, ts, i);
    ghost var k := i + 1;
    while offset >= 0
      invariant i < k < |ts| && AtProp(ts, k, offset)
      invariant FirstNamed(PropsRun(ts[k..]), name) == FirstNamed(PropsRun(ts[i + 1..]), name)
      decreases |ts| - k
    {
      ghost var j := NextPropAt(ts, k).value;
      NamedStep(ts, k, j, name);
      var eq, len := NameMatches(blob, offset, name, ts, j);
      if eq {
        return Some((offset, len));
      }
      offset := FirstProperty(blob, offset, ts, j);
      k := j + 1;
    }
    NoneNamed(ts, k, name);
    found := None;
  }

  lemma NoneNamed(ts: seq<Token>, k: nat, name: seq<Byte>)
    requires k <= |ts| && NextPropAt(ts, k) == None
    ensures FirstNamed(PropsRun(ts[k..]), name) == None
  {
    NextPropIs(ts, k);
  }

  lemma NamedStep(ts: seq<Token>, k: nat, j: nat, name: seq<Byte>)
    requires k <= |ts| && NextPropAt(ts, k) == Some(j)
    ensures k <= j < |ts| && ts[j].Prop?
    ensures FirstNamed(PropsRun(ts[k..]), name)
            == if ts[j].p.name == name then Some(ts[j].p) else FirstNamed(PropsRun(ts[j + 1..]), name)
  {
    NextPropIs(ts, k);
    var run := PropsRun(ts[k..]);
    assert run[0] == ts[j].p && run[1..] == PropsRun(ts[j + 1..]);
  }

  /** The loop body of the lookup at property tag j: whether the name matches, and the data length. */
  method NameMatches(blob: seq<Byte>, offset: nat, name: seq<Byte>, ghost ts: seq<Token>, ghost j: nat)
    returns (eq: bool, len: nat)
    requires Laid(blob, ts) && j < |ts| && ts[j].Prop? && offset == Off(ts, j)
    ensures eq <==> ts[j].p.name == name
    ensures len == |ts[j].p.data| && OffStruct(blob) + offset + 12 + len <= |blob|
    ensures blob[OffStruct(blob) + offset + 12..][..len] == ts[j].p.data
  {
    assert Placed(blob, ts, j);
    var at := OffStruct(blob) + offset;
    len := Be32(blob, at + 4);
    eq := StringEq(blob, Be32(blob, at + 8), name, ts[j].p.name);
    assert blob[at + 12..][..len] == blob[at + 12..at + 12 + len];
  }

  /** fdt_first_property_offset at a node tag, fdt_next_property_offset at a property tag. */
  method FirstProperty(blob: seq<Byte>, offset: nat, ghost ts: seq<Token>, ghost i: nat) returns (offset': int)
    requires Laid(blob, ts) && Terminated(ts) && i + 1 < |ts| && offset == Off(ts, i)
    ensures AtProp(ts, i + 1, offset')
  {
    NextPropIs(ts, i + 1);
    var _, next := NextTag(blob, offset, ts, i);
    offset' := NextProp(blob, next, ts, i + 1);
  }

  /** The reader's offset after nextprop_ was called at token k. */
  ghost predicate AtProp(ts: seq<Token>, k: nat, offset: int) {
    match NextPropAt(ts, k)
    case Some(j) => k <= j && j + 1 < |ts| && ts[j].Prop? && offset == Off(ts, j)
    case None => offset < 0
  }

  /** Looked up at the offset of a visit, a name finds the first property of that name of the visited node,
      and nothing of its children. */
  method PropertyOfVisit(blob: seq<Byte>, v: Visit, name: seq<Byte>, ghost ts: seq<Token>, ghost info: Info)
    returns (found: Option<(nat, nat)>)
    requires Laid(blob, ts) && Terminated(ts) && Reports(ts, v, info)
    ensures match FirstNamed(info.props, name)
            case None => found == None
            case Some(p) =>
              && found.Some? && found.value.1 == |p.data|
              && OffStruct(blob) + found.value.0 + 12 + |p.data| <= |blob|
              && blob[OffStruct(blob) + found.value.0 + 12..][..|p.data|] == p.data
  {
    ghost var j :| 0 <= j < |ts| && TagAt(ts, j, v.offset, info);
    found := GetProperty(blob, v.offset, name, ts, j);
  }
}
