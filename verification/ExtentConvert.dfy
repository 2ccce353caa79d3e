// Turning a part of an unwritten extent into a written one: the extent is split around it.

module ExtentConvert {
  import opened ExtentTree
  import opened ExtentLookup
  import opened ExtentLeaf
  import opened ExtentInode
  import opened ExtentShort
  import P = ExtentPath

  // The n blocks from one on are written, with the physical blocks they had, and all others
  // are mapped as before.
  ghost predicate Converts(s: seq<Extent>, from: nat, n: nat, out: seq<Extent>) {
    forall b: nat, p: nat, u: bool ::
      Maps(out, b, p, u) <==> if from <= b < from + n then !u && Maps(s, b, p, true) else Maps(s, b, p, u)
  }

  // ---------------------------------------------------------------- parts of an extent

  // The blocks of an extent from a up to b, marked as unwritten or not.
  function Part(e: Extent, a: nat, b: nat, unwritten: bool): (x: Extent)
    requires e.first <= a < b <= e.End() && b - a < INIT_MAX
    ensures x.first == a && x.End() == b && x.Unwritten() == unwritten
  {
    Extent(a, if unwritten then MarkUnwritten(b - a) else b - a, e.start + (a - e.first))
  }

  // What a list maps in which parts stand for one extent.
  ghost predicate Stand(s: seq<Extent>, e: Extent, t: seq<Extent>, parts: seq<Extent>, out: seq<Extent>) {
    forall b: nat, p: nat, u: bool ::
      Maps(out, b, p, u) <==> Maps(s, b, p, u) || Maps(parts, b, p, u) || Maps(t, b, p, u)
  }

  // In an ordered list no other extent covers a block of this one.
  predicate Apart(s: seq<Extent>, e: Extent, t: seq<Extent>) { P.EndsBy(s, e.first) && P.StartsAt(t, e.End()) }

  // Parts that cover the range with written blocks and the rest of the extent with unwritten
  // ones convert it.
  lemma PartsConvert(s: seq<Extent>, e: Extent, t: seq<Extent>, parts: seq<Extent>, out: seq<Extent>, from: nat, n: nat)
    requires Apart(s, e, t) && e.Unwritten() && e.first <= from && from + n <= e.End() && Stand(s, e, t, parts, out)
    requires forall b: nat, p: nat, u: bool ::
               Maps(parts, b, p, u) <==>
               if from <= b < from + n then !u && MapsOne(e, b, p, true) else MapsOne(e, b, p, u)
    ensures Converts(s + [e] + t, from, n, out)
  {
    forall b: nat, p: nat, u: bool
      ensures Maps(out, b, p, u) <==>
              if from <= b < from + n then !u && Maps(s + [e] + t, b, p, true) else Maps(s + [e] + t, b, p, u)
    {
      MapsThree(s, [e], t, b, p, u);
      MapsThree(s, [e], t, b, p, true);
      MapsSingle(e, b, p, u);
      MapsSingle(e, b, p, true);
      if from <= b < from + n {
        NotBeside(s, e, t, b, p, u);
        NotBeside(s, e, t, b, p, true);
      }
    }
  }

  lemma NotBeside(s: seq<Extent>, e: Extent, t: seq<Extent>, b: nat, p: nat, u: bool)
    requires Apart(s, e, t) && e.Covers(b)
    ensures !Maps(s, b, p, u) && !Maps(t, b, p, u)
  {
  }

  // Two parts of an extent, of which one is the range.
  lemma TwoParts(e: Extent, m: nat, left: bool, b: nat, p: nat, u: bool)
    requires e.Unwritten() && e.first < m < e.End()
    ensures var x, y := Part(e, e.first, m, !left), Part(e, m, e.End(), left);
            var from, to := if left then e.first else m, if left then m else e.End();
            Maps([x, y], b, p, u) <==> if from <= b < to then !u && MapsOne(e, b, p, true) else MapsOne(e, b, p, u)
  {
    var x, y := Part(e, e.first, m, !left), Part(e, m, e.End(), left);
    assert [x, y] == [x] + [y];
    MapsConcat([x], [y], b, p, u);
    MapsSingle(x, b, p, u);
    MapsSingle(y, b, p, u);
  }

  // ---------------------------------------------------------------- one split

  // What lies before and behind the extent at the end of a path.
  function Front(path: seq<Frame>, height: nat): seq<Extent>
    requires |path| == height + 1 && Linked(path) && AtLeaf(path[height]) && path[height].node.exts != []
  {
    P.Before(path, height) + path[height].node.exts[..path[height].pos]
  }

  function Rear(path: seq<Frame>, height: nat): seq<Extent>
    requires |path| == height + 1 && Linked(path) && AtLeaf(path[height]) && path[height].node.exts != []
  {
    path[height].node.exts[path[height].pos + 1..] + P.After(path, height)
  }

  lemma AroundExtent(path: seq<Frame>, t: Tree, height: nat)
    requires Wf(t, height, 0, LIMIT) && IsPath(path, t, height) && path[height].node.exts != []
    ensures var e := path[height].node.exts[path[height].pos];
            && Flat(t) == Front(path, height) + [e] + Rear(path, height)
            && Apart(Front(path, height), e, Rear(path, height))
  {
    var exts, pos := path[height].node.exts, path[height].pos;
    EndBefore(path, t, height);
    RestStarts(path, t, height);
    AroundPosition(path, height, height);
    ListShort(P.Before(path, height), exts, pos, exts[pos], P.After(path, height));
  }

  // Exchanging the extent, and adding another one behind it.
  lemma StandTwo(s: seq<Extent>, e: Extent, t: seq<Extent>, x: Extent, y: Extent, short: seq<Extent>, out: seq<Extent>)
    requires short == s + [x] + t && AddsExactly(short, y, out)
    ensures Stand(s, e, t, [x, y], out)
  {
    forall b: nat, p: nat, u: bool
      ensures Maps(out, b, p, u) <==> Maps(s, b, p, u) || Maps([x, y], b, p, u) || Maps(t, b, p, u)
    {
      MapsThree(s, [x], t, b, p, u);
      assert [x, y] == [x] + [y];
      MapsConcat([x], [y], b, p, u);
      MapsSingle(y, b, p, u);
    }
  }

  // Cuts the extent at the end of a path in two, each part marked as unwritten or not. The
  // parts stand for the extent if there are blocks enough for the nodes that this needs.
  method SplitAt(path: seq<Frame>, height: nat, split: nat, mark1: bool, mark2: bool, space: nat, supply: seq<nat>)
    returns (ok: bool, r: seq<Frame>, height': nat)
    requires |path| == height + 1 && Sane(path[0].node, height, space) && IsPath(path, path[0].node, height)
    requires path[height].node.exts != [] && Taken(path, split)
    requires var e := path[height].node.exts[path[height].pos]; e.Unwritten() && e.first < split < e.End()
    ensures ok <==> FullTail(path, height) <= |supply|
    ensures var e := path[height].node.exts[path[height].pos];
            var x, y := Part(e, e.first, split, mark1), Part(e, split, e.End(), mark2);
            ok ==>
              && |r| == height' + 1 && Sane(r[0].node, height', space) && IsPath(r, r[0].node, height')
              && Stands(r[height'], y)
              && Stand(Front(path, height), e, Rear(path, height), [x, y], Flat(r[0].node))
  {
    var leaf, pos := path[height].node, path[height].pos;
    var e := leaf.exts[pos];
    var first, rest := split - e.first, e.Len() - (split - e.first);
    var x := e.(count := if mark1 then MarkUnwritten(first) else first);
    var y := Extent(split, if mark2 then MarkUnwritten(rest) else rest, split - e.first + e.start);
    assert x == Part(e, e.first, split, mark1) && y == Part(e, split, e.End(), mark2);
    var q := Store(path, height, leaf.(exts := leaf.exts[pos := x]), pos, false, 0);
    SplitReady(path, path[0].node, height, space, split, x, y, q);
    var status;
    status, r, height' := InsertExtent(q, height, y, false, space, supply);
    ok := status != NoSpace;
    if ok {
      ShortFlat(path, height, x);
      StandTwo(Front(path, height), e, Rear(path, height), x, y, Flat(q[0].node), Flat(r[0].node));
    }
  }

  lemma SplitReady(path: seq<Frame>, t: Tree, height: nat, space: nat, split: nat, x: Extent, y: Extent, q: seq<Frame>)
    requires Sane(t, height, space) && IsPath(path, t, height) && path[height].node.exts != [] && Taken(path, split)
    requires var e := path[height].node.exts[path[height].pos]; Shorter(e, x) && TailOf(e, x, y) && y.first == split
    requires q == WithLast(path, height, x)
    ensures Sane(q[0].node, height, space) && Target(q, q[0].node, height, y) && !Occupied(q, height, y)
    ensures FullTail(q, height) == FullTail(path, height)
  {
    Shortened(path, t, height, space, x, q);
    TailTarget(path, t, height, space, split, x, y, q);
    SameFull(path, q, height, x, height);
  }

  lemma ShortFlat(path: seq<Frame>, height: nat, x: Extent)
    requires |path| == height + 1 && Linked(path) && AtLeaf(path[height]) && path[height].node.exts != []
    ensures Flat(WithLast(path, height, x)[0].node) == Front(path, height) + [x] + Rear(path, height)
  {
    var leaf, pos := path[height].node, path[height].pos;
    P.RiseFlat(path, height, leaf.(exts := leaf.exts[pos := x]), pos, false, 0);
    ListShort(P.Before(path, height), leaf.exts, pos, x, P.After(path, height));
  }

  // ---------------------------------------------------------------- the second split

  // Unsigned arithmetic of the source.
  function Wrap32(x: int): nat { x % 0x1_0000_0000 }

  function Wrap16(x: int): Count { x % 0x1_0000 }

  // The second split of a range in the middle works on the position of the part that the
  // first one inserted, although the range lies before it. Whatever it makes of that part, an
  // extent elsewhere keeps its mapping.
  method SplitBefore(path: seq<Frame>, height: nat, split: nat) returns (out: Outcome, r: seq<Frame>)
    requires |path| == height + 1 && IsPath(path, path[0].node, height) && path[height].node.exts != []
    requires split < path[height].node.exts[path[height].pos].first
    ensures out == NeedSplit <==> Full(path[height].node)
    ensures out == Done ==>
              r != [] && OthersKept(Front(path, height), Rear(path, height), Flat(r[0].node))
    ensures out != Exists
  {
    var leaf, pos := path[height].node, path[height].pos;
    var e := leaf.exts[pos];
    var x := e.(count := MarkUnwritten(Wrap16(Wrap32(split - e.first))));
    var y := Extent(split, Wrap16(e.Len() - Wrap32(split - e.first)), Wrap32(split - e.first) + e.start);
    var q := Store(path, height, leaf.(exts := leaf.exts[pos := x]), pos, false, 0);
    P.RiseLinked(path, height, leaf.(exts := leaf.exts[pos := x]), pos, false, 0);
    out, r := InsertLeaf(q, height, y, false);
    if out == Done {
      StaleKeeps(path, height, x, y, q);
    }
  }

  // What was mapped around an extent still is.
  ghost predicate OthersKept(front: seq<Extent>, rear: seq<Extent>, out: seq<Extent>) {
    forall b: nat, p: nat, u: bool :: Maps(front, b, p, u) || Maps(rear, b, p, u) ==> Maps(out, b, p, u)
  }

  lemma StaleKeeps(path: seq<Frame>, height: nat, x: Extent, y: Extent, q: seq<Frame>)
    requires |path| == height + 1 && Linked(path) && AtLeaf(path[height]) && path[height].node.exts != []
    requires q == WithLast(path, height, x) && Linked(q) && y.first < x.first
    ensures AtLeaf(q[height])
    ensures OthersKept(Front(path, height), Rear(path, height), Flat(AfterInsert(q, height, y, false)[0].node))
  {
    var leaf, pos := path[height].node, path[height].pos;
    var exts := NewExtents(leaf.exts[pos := x], pos, y, false);
    P.RiseAround(path, height, leaf.(exts := leaf.exts[pos := x]), pos, false, 0, height);
    P.RiseFlat(q, height, leaf.(exts := exts), pos, pos == 0, exts[0].first);
    PlacedBefore(leaf.exts, pos, x, y);
    KeepsOthers(P.Before(path, height), leaf.exts[..pos], [y], [x], leaf.exts[pos + 1..], P.After(path, height));
  }

  lemma PlacedBefore(exts: seq<Extent>, pos: nat, x: Extent, y: Extent)
    requires pos < |exts| && y.first < x.first
    ensures NewExtents(exts[pos := x], pos, y, false) == exts[..pos] + [y] + ([x] + exts[pos + 1..])
  {
  }

  lemma KeepsOthers(b0: seq<Extent>, l: seq<Extent>, y: seq<Extent>, x: seq<Extent>, r: seq<Extent>, a0: seq<Extent>)
    ensures OthersKept(b0 + l, r + a0, b0 + (l + y + (x + r)) + a0)
  {
    forall b: nat, p: nat, u: bool | Maps(b0 + l, b, p, u) || Maps(r + a0, b, p, u)
      ensures Maps(b0 + (l + y + (x + r)) + a0, b, p, u)
    {
      MapsConcat(b0, l, b, p, u);
      MapsConcat(r, a0, b, p, u);
      MapsConcat(x, r, b, p, u);
      MapsThree(l, y, x + r, b, p, u);
      MapsThree(b0, l + y + (x + r), a0, b, p, u);
    }
  }

  // ---------------------------------------------------------------- the conversion

  datatype Conversion = Converted | NoBlocks | SecondSplit

  // A block that the first split left unwritten is still so.
  lemma StillUnwritten(path: seq<Frame>, t: Tree, height: nat, e: Extent, m: nat, s: seq<Extent>, rear: seq<Extent>,
                       b: nat)
    requires Wf(t, height, 0, LIMIT) && IsPath(path, t, height) && e.Unwritten() && e.first <= b < m < e.End()
    requires Stands(path[height], Part(e, m, e.End(), true))
    requires Stand(s, e, rear, [Part(e, e.first, m, true), Part(e, m, e.End(), true)], Flat(t))
    ensures var p := e.start + (b - e.first);
            Maps(Front(path, height), b, p, true) || Maps(Rear(path, height), b, p, true)
  {
    var x, y, p := Part(e, e.first, m, true), Part(e, m, e.End(), true), e.start + (b - e.first);
    assert MapsOne([x, y][0], b, p, true);
    assert Maps([x, y], b, p, true);
    assert Maps(Flat(t), b, p, true);
    AroundExtent(path, t, height);
    MapsThree(Front(path, height), [y], Rear(path, height), b, p, true);
    MapsSingle(y, b, p, true);
  }

  lemma NotConverted(s: seq<Extent>, from: nat, n: nat, out: seq<Extent>, p: nat)
    requires 0 < n && Maps(out, from, p, true)
    ensures !Converts(s, from, n, out)
  {
  }

  // Makes n blocks of the unwritten extent at the end of a path written. A range in the middle
  // of the extent is never converted right; any other is.
  method Convert(path: seq<Frame>, height: nat, from: nat, n: nat, space: nat, supply: seq<nat>)
    returns (res: Conversion, root: Tree, height': nat)
    requires |path| == height + 1 && Sane(path[0].node, height, space) && IsPath(path, path[0].node, height)
    requires path[height].node.exts != [] && Taken(path, from) && 0 < n
    requires var e := path[height].node.exts[path[height].pos]; e.Unwritten() && e.first <= from && from + n <= e.End()
    ensures var e := path[height].node.exts[path[height].pos];
            && (res == NoBlocks <==> (e.first < from || from + n < e.End()) && |supply| < FullTail(path, height))
            && (res == SecondSplit ==> e.first < from && from + n < e.End())
            && (res == Converted ==>
                  (Converts(Flat(path[0].node), from, n, Flat(root)) <==> from == e.first || from + n == e.End()))
            && (res == Converted && (from == e.first || from + n == e.End()) ==> Sane(root, height', space))
  {
    var leaf, pos := path[height].node, path[height].pos;
    var e := leaf.exts[pos];
    root, height' := path[0].node, height;
    AroundExtent(path, path[0].node, height);
    if from + n == e.End() && from == e.first {
      root := ConvertWhole(path, height, space);
    } else if from + n == e.End() || from == e.first {
      var left := from + n != e.End();
      if left {
        NextBehind(path, path[0].node, height);
        TakenOn(path, path[0].node, height, from, from + n);
      }
      var ok, r, h := SplitAt(path, height, if left then from + n else from, !left, left, space, supply);
      if !ok {
        return NoBlocks, root, height';
      }
      root, height' := r[0].node, h;
      ConvertSide(Front(path, height), e, Rear(path, height), from, n, left, Flat(root));
    } else {
      res, root := ConvertMiddle(path, height, from, n, space, supply);
      return;
    }
    res := Converted;
  }

  lemma ConvertSide(s: seq<Extent>, e: Extent, t: seq<Extent>, from: nat, n: nat, left: bool, out: seq<Extent>)
    requires Apart(s, e, t) && e.Unwritten() && 0 < n && e.first <= from && from + n <= e.End()
    requires if left then from == e.first && from + n < e.End() else e.first < from && from + n == e.End()
    requires var m := if left then from + n else from;
             Stand(s, e, t, [Part(e, e.first, m, !left), Part(e, m, e.End(), left)], out)
    ensures Converts(s + [e] + t, from, n, out)
  {
    var m := if left then from + n else from;
    var parts := [Part(e, e.first, m, !left), Part(e, m, e.End(), left)];
    forall b: nat, p: nat, u: bool
      ensures Maps(parts, b, p, u) <==>
              if from <= b < from + n then !u && MapsOne(e, b, p, true) else MapsOne(e, b, p, u)
    {
      TwoParts(e, m, left, b, p, u);
    }
    PartsConvert(s, e, t, parts, out, from, n);
  }

  // The whole extent is marked as written.
  method ConvertWhole(path: seq<Frame>, height: nat, ghost space: nat) returns (root: Tree)
    requires |path| == height + 1 && Sane(path[0].node, height, space) && IsPath(path, path[0].node, height)
    requires path[height].node.exts != [] && path[height].node.exts[path[height].pos].Unwritten()
    ensures var e := path[height].node.exts[path[height].pos];
            Converts(Flat(path[0].node), e.first, e.Len(), Flat(root))
    ensures Sane(root, height, space)
  {
    var leaf, pos := path[height].node, path[height].pos;
    var e := leaf.exts[pos];
    var x := e.(count := e.Len());
    var r := Store(path, height, leaf.(exts := leaf.exts[pos := x]), pos, false, 0);
    root := r[0].node;
    AroundExtent(path, path[0].node, height);
    Shortened(path, path[0].node, height, space, x, r);
    ShortFlat(path, height, x);
    WholeParts(Front(path, height), e, Rear(path, height), x, Flat(root));
  }

  lemma WholeParts(s: seq<Extent>, e: Extent, t: seq<Extent>, x: Extent, out: seq<Extent>)
    requires Apart(s, e, t) && e.Unwritten() && x == e.(count := e.Len()) && out == s + [x] + t
    ensures Converts(s + [e] + t, e.first, e.Len(), out)
  {
    forall b: nat, p: nat, u: bool
      ensures Maps(out, b, p, u) <==> Maps(s, b, p, u) || Maps([x], b, p, u) || Maps(t, b, p, u)
      ensures Maps([x], b, p, u) <==> if e.Covers(b) then !u && MapsOne(e, b, p, true) else MapsOne(e, b, p, u)
    {
      MapsThree(s, [x], t, b, p, u);
      MapsSingle(x, b, p, u);
    }
    PartsConvert(s, e, t, [x], out, e.first, e.Len());
  }

  lemma NextBehind(path: seq<Frame>, t: Tree, height: nat)
    requires Wf(t, height, 0, LIMIT) && IsPath(path, t, height) && path[height].node.exts != []
    ensures var exts, pos := path[height].node.exts, path[height].pos;
            && (pos + 1 < |exts| ==> exts[pos].End() <= exts[pos + 1].first)
            && exts[pos].End() <= P.HiAt(path, height, LIMIT)
  {
    P.NodeWf(path, t, height, 0, LIMIT, height);
  }

  // Two splits around a range in the middle of the extent.
  method ConvertMiddle(path: seq<Frame>, height: nat, from: nat, n: nat, space: nat, supply: seq<nat>)
    returns (res: Conversion, root: Tree)
    requires |path| == height + 1 && Sane(path[0].node, height, space) && IsPath(path, path[0].node, height)
    requires path[height].node.exts != [] && Taken(path, from) && 0 < n
    requires var e := path[height].node.exts[path[height].pos]; e.Unwritten() && e.first < from && from + n < e.End()
    ensures res == NoBlocks <==> |supply| < FullTail(path, height)
    ensures res == Converted ==> !Converts(Flat(path[0].node), from, n, Flat(root))
  {
    var e := path[height].node.exts[path[height].pos];
    NextBehind(path, path[0].node, height);
    TakenOn(path, path[0].node, height, from, from + n);
    var ok, r, h := SplitAt(path, height, from + n, true, true, space, supply);
    root := path[0].node;
    if !ok {
      return NoBlocks, root;
    }
    StillUnwritten(r, r[0].node, h, e, from + n, Front(path, height), Rear(path, height), from);
    var out, q := SplitBefore(r, h, from);
    if out == NeedSplit {
      return SecondSplit, root;
    }
    root := q[0].node;
    NotConverted(Flat(path[0].node), from, n, Flat(root), e.start + (from - e.first));
    res := Converted;
  }
}
