// An inode that owns an extent tree: blocks are mapped and ranges are removed.

module ExtentFile {
  import Seqs
  import opened ExtentTree
  import opened ExtentLookup
  import opened ExtentLeaf
  import opened ExtentCut
  import opened ExtentInode
  import opened ExtentShort
  import opened ExtentRemove
  import P = ExtentPath
  import S = ExtentStack

  predicate Hole(s: seq<Extent>, b: nat) {
    forall e :: e in s ==> !e.Covers(b)
  }

  // ---------------------------------------------------------------- inside one extent

  // The extent reaches over the range on both sides.
  predicate Interior(e: Extent, from: nat, to: nat) {
    e.first < from && to + 1 < e.End()
  }

  // The two pieces of an extent around a range inside it.
  lemma Pieces(e: Extent, from: nat, to: nat)
    requires Interior(e, from, to) && from <= to
    ensures var x, y := Piece(e, e.first, from), Piece(e, to + 1, e.End());
            Shorter(e, x) && TailOf(e, x, y) && !CanAppend(x, y) && !CanPrepend(x, y)
  {
  }

  // What is mapped once the two pieces stand for the extent.
  lemma PiecesCut(exts: seq<Extent>, pos: nat, from: nat, to: nat, lo: nat, hi: nat)
    requires Chain(exts, lo, hi) && pos < |exts| && from <= to && Interior(exts[pos], from, to)
    ensures var x, y := Piece(exts[pos], exts[pos].first, from), Piece(exts[pos], to + 1, exts[pos].End());
            Cut(exts, from, to) == exts[..pos] + [x, y] + exts[pos + 1..]
  {
    var a, z := exts[..pos], exts[pos + 1..];
    NoneMeet(exts, pos, a, z, from, to, lo, hi);
    Seqs.Cut(exts, pos);
    CutAround(a, [exts[pos]], z, from, to);
    OneCut(exts[pos], from, to);
  }

  lemma NoneMeet(exts: seq<Extent>, pos: nat, a: seq<Extent>, z: seq<Extent>, from: nat, to: nat, lo: nat, hi: nat)
    requires Chain(exts, lo, hi) && pos < |exts| && Interior(exts[pos], from, to)
    requires a == exts[..pos] && z == exts[pos + 1..]
    ensures forall i :: 0 <= i < |a| ==> !Meets(a[i], from, to)
    ensures forall i :: 0 <= i < |z| ==> !Meets(z[i], from, to)
  {
    forall i | 0 <= i < |z| ensures !Meets(z[i], from, to) {
      assert exts[pos].End() <= exts[pos + 1 + i].first;
    }
  }

  lemma OneCut(e: Extent, from: nat, to: nat)
    requires from <= to && Interior(e, from, to)
    ensures Cut([e], from, to) == [Piece(e, e.first, from), Piece(e, to + 1, e.End())]
  {
    assert Cut([e], from, to) == Keep(e, from, to) + Cut([], from, to);
  }

  lemma PiecesMap(exts: seq<Extent>, pos: nat, x: Extent, y: Extent, b: nat, p: nat, u: bool)
    requires pos < |exts|
    ensures Maps(exts[..pos] + [x, y] + exts[pos + 1..], b, p, u) <==>
            Maps(exts[pos := x], b, p, u) || MapsOne(y, b, p, u)
  {
    MapsReplaced(exts, pos, x, b, p, u);
    MapsThree(exts[..pos], [x, y], exts[pos + 1..], b, p, u);
    assert [x, y] == [x] + [y];
    MapsConcat([x], [y], b, p, u);
    MapsSingle(x, b, p, u);
    MapsSingle(y, b, p, u);
  }

  lemma CutAround(x: seq<Extent>, m: seq<Extent>, z: seq<Extent>, from: nat, to: nat)
    requires forall i :: 0 <= i < |x| ==> !Meets(x[i], from, to)
    requires forall i :: 0 <= i < |z| ==> !Meets(z[i], from, to)
    ensures Cut(x + m + z, from, to) == x + Cut(m, from, to) + z
  {
    CutConcat(x + m, z, from, to);
    CutConcat(x, m, from, to);
    CutNothing(x, from, to);
    CutNothing(z, from, to);
  }

  // The whole tree maps what it did but for the range.
  lemma InsideRemoves(path: seq<Frame>, t: Tree, height: nat, space: nat, from: nat, to: nat, x: Extent, y: Extent,
                      out: seq<Extent>)
    requires Sane(t, height, space) && IsPath(path, t, height) && Taken(path, from) && from <= to
    requires path[height].node.exts != [] && Interior(path[height].node.exts[path[height].pos], from, to)
    requires var e := path[height].node.exts[path[height].pos];
             x == Piece(e, e.first, from) && y == Piece(e, to + 1, e.End())
    requires AddsExactly(P.Before(path, height) + path[height].node.exts[path[height].pos := x] + P.After(path, height),
                         y, out)
    ensures RemovesExactly(Flat(t), from, to, out)
  {
    var exts, pos, b0, a0 := path[height].node.exts, path[height].pos, P.Before(path, height), P.After(path, height);
    var lo, hi := P.LoAt(path, height, 0), P.HiAt(path, height, LIMIT);
    P.NodeWf(path, t, height, 0, LIMIT, height);
    P.PathFlat(path, t, height, height);
    P.BeforeBelow(path, t, height, 0, LIMIT, height, from);
    P.AfterAbove(path, t, height, 0, LIMIT, height);
    PiecesCut(exts, pos, from, to, lo, hi);
    CutAround(b0, exts, a0, from, to);
    FlatChain(t, height, 0, LIMIT);
    forall b: nat, p: nat, u: bool
      ensures Maps(out, b, p, u) <==> Maps(Flat(t), b, p, u) && !Within(b, from, to)
    {
      CutMaps(Flat(t), from, to, b, p, u);
      MapsThree(b0, exts[pos := x], a0, b, p, u);
      MapsThree(b0, exts[..pos] + [x, y] + exts[pos + 1..], a0, b, p, u);
      PiecesMap(exts, pos, x, y, b, p, u);
    }
  }

  // Cutting everything from a block inside one extent up to the end of a stretch.
  lemma CutStretch(x: seq<Extent>, e: Extent, m: seq<Extent>, z: seq<Extent>, from: nat, h: nat)
    requires e.first < from < e.End() <= h && P.EndsBy(x, e.first) && P.StartsAt(z, h)
    requires P.StartsAt(m, e.End()) && P.EndsBy(m, h) && NonEmpty(m)
    ensures Cut(x + [e] + m + z, from, h - 1) == x + [Piece(e, e.first, from)] + z
  {
    CutBelow(x, e.first, from, h - 1);
    CutAbove(z, h, from, h - 1);
    CutAll(m, from, h - 1);
    CutFirst(e, from, h - 1);
    CutFour(x, [e], m, z, from, h - 1, [Piece(e, e.first, from)]);
  }

  lemma CutBelow(x: seq<Extent>, b: nat, from: nat, to: nat)
    requires P.EndsBy(x, b) && b <= from
    ensures Cut(x, from, to) == x
  {
    CutNothing(x, from, to);
  }

  lemma CutAbove(z: seq<Extent>, b: nat, from: nat, to: nat)
    requires P.StartsAt(z, b) && to < b
    ensures Cut(z, from, to) == z
  {
    CutNothing(z, from, to);
  }

  lemma CutFirst(e: Extent, from: nat, to: nat)
    requires e.first < from < e.End() <= to + 1
    ensures Cut([e], from, to) == [Piece(e, e.first, from)]
  {
    assert Cut([e], from, to) == Keep(e, from, to) + Cut([], from, to);
  }

  lemma CutFour(x: seq<Extent>, y: seq<Extent>, m: seq<Extent>, z: seq<Extent>, from: nat, to: nat, y': seq<Extent>)
    requires Cut(x, from, to) == x && Cut(y, from, to) == y' && Cut(m, from, to) == [] && Cut(z, from, to) == z
    ensures Cut(x + y + m + z, from, to) == x + y' + z
  {
    CutConcat(x + y + m, z, from, to);
    CutConcat(x + y, m, from, to);
    CutConcat(x, y, from, to);
    assert x + y' + [] == x + y';
  }

  lemma {:induction false} CutAll(m: seq<Extent>, from: nat, to: nat)
    requires from <= to && NonEmpty(m) && P.StartsAt(m, from) && P.EndsBy(m, to + 1)
    ensures Cut(m, from, to) == []
  {
    if m != [] {
      CutAll(m[1..], from, to);
      assert Meets(m[0], from, to);
    }
  }

  // The last block that is lost when the tail of an interior removal finds no place.
  function LostTo(path: seq<Frame>, height: nat, e: Extent, n: nat): nat
    requires |path| == height + 1 && Linked(path) && 0 < e.Len()
  {
    var end := if 0 < n <= height then P.HiAt(path, height - n + 1, LIMIT) else e.End();
    if end > 0 then end - 1 else 0
  }

  // A path on which the extent at the end has been cut short.
  predicate ShortPath(path: seq<Frame>, t: Tree, height: nat, from: nat, x: Extent, r: seq<Frame>) {
    && Wf(t, height, 0, LIMIT) && IsPath(path, t, height) && path[height].node.exts != []
    && var leaf, pos := path[height].node, path[height].pos;
       && leaf.exts[pos].first < from < leaf.exts[pos].End() && x == Piece(leaf.exts[pos], leaf.exts[pos].first, from)
       && r == WithLast(path, height, x)
  }

  lemma ShortLinked(path: seq<Frame>, t: Tree, height: nat, from: nat, x: Extent, r: seq<Frame>)
    requires ShortPath(path, t, height, from, x, r)
    ensures |r| == height + 1 && Linked(r) && AtLeaf(r[height]) && r[height].node.exts != []
  {
    var leaf, pos := path[height].node, path[height].pos;
    P.RiseLinked(path, height, leaf.(exts := leaf.exts[pos := x]), pos, false, 0);
  }

  // The list with the extent shortened and everything behind it cut off in n levels.
  lemma KeptShort(path: seq<Frame>, t: Tree, height: nat, from: nat, x: Extent, n: nat, r: seq<Frame>, e: Extent)
    requires ShortPath(path, t, height, from, x, r) && n <= height && e == path[height].node.exts[path[height].pos]
    requires |r| == height + 1 && Linked(r) && AtLeaf(r[height]) && r[height].node.exts != []
    ensures Kept(r, height, n) == Cut(Flat(t), from, LostTo(path, height, e, n))
  {
    if n == 0 {
      KeptShortWhole(path, t, height, from, x, r);
    } else {
      KeptShortCut(path, t, height, from, x, n, r);
    }
  }

  lemma KeptShortWhole(path: seq<Frame>, t: Tree, height: nat, from: nat, x: Extent, r: seq<Frame>)
    requires ShortPath(path, t, height, from, x, r)
    ensures Flat(r[0].node) == Cut(Flat(t), from, path[height].node.exts[path[height].pos].End() - 1)
  {
    var leaf, pos := path[height].node, path[height].pos;
    P.RiseFlat(path, height, leaf.(exts := leaf.exts[pos := x]), pos, false, 0);
    ShortCut(path, t, height, from, x);
  }

  lemma KeptShortCut(path: seq<Frame>, t: Tree, height: nat, from: nat, x: Extent, n: nat, r: seq<Frame>)
    requires ShortPath(path, t, height, from, x, r) && 0 < n <= height
    requires |r| == height + 1 && Linked(r) && AtLeaf(r[height]) && r[height].node.exts != []
    ensures P.HiAt(path, height - n + 1, LIMIT) > 0
    ensures UpTo(r, height) + P.After(r, height - n + 1) == Cut(Flat(t), from, P.HiAt(path, height - n + 1, LIMIT) - 1)
  {
    var a := height - n + 1;
    ShortAround(path, t, height, from, x, r, a);
    ShortCutBehind(path, t, height, from, x, a);
  }

  lemma ShortAround(path: seq<Frame>, t: Tree, height: nat, from: nat, x: Extent, r: seq<Frame>, a: nat)
    requires ShortPath(path, t, height, from, x, r) && a <= height
    requires |r| == height + 1 && Linked(r) && AtLeaf(r[height]) && r[height].node.exts != []
    ensures UpTo(r, height) ==
            P.Before(path, height) + path[height].node.exts[path[height].pos := x][..path[height].pos + 1]
    ensures P.After(r, a) == P.After(path, a)
  {
    var leaf, pos := path[height].node, path[height].pos;
    P.RiseAround(path, height, leaf.(exts := leaf.exts[pos := x]), pos, false, 0, height);
    P.RiseAround(path, height, leaf.(exts := leaf.exts[pos := x]), pos, false, 0, a);
  }

  // The extent is shortened and nothing else is lost.
  lemma ShortCut(path: seq<Frame>, t: Tree, height: nat, from: nat, x: Extent)
    requires Wf(t, height, 0, LIMIT) && IsPath(path, t, height) && path[height].node.exts != []
    requires var e := path[height].node.exts[path[height].pos];
             e.first < from < e.End() && x == Piece(e, e.first, from)
    ensures var exts, pos := path[height].node.exts, path[height].pos;
            P.Before(path, height) + exts[pos := x] + P.After(path, height) == Cut(Flat(t), from, exts[pos].End() - 1)
  {
    EndBefore(path, t, height);
    RestStarts(path, t, height);
    AroundPosition(path, height, height);
    CutShort(P.Before(path, height), path[height].node.exts, path[height].pos, x, P.After(path, height), from);
  }

  lemma CutShort(b: seq<Extent>, exts: seq<Extent>, pos: nat, x: Extent, z: seq<Extent>, from: nat)
    requires pos < |exts| && exts[pos].first < from < exts[pos].End() && x == Piece(exts[pos], exts[pos].first, from)
    requires P.EndsBy(b + exts[..pos], exts[pos].first) && P.StartsAt(exts[pos + 1..] + z, exts[pos].End())
    ensures b + exts[pos := x] + z == Cut(b + exts[..pos + 1] + exts[pos + 1..] + z, from, exts[pos].End() - 1)
  {
    ListShort(b, exts, pos, x, z);
    CutRest(b + exts[..pos], exts[pos], exts[pos + 1..] + z, from);
  }

  lemma CutRest(x: seq<Extent>, e: Extent, z: seq<Extent>, from: nat)
    requires e.first < from < e.End() && P.EndsBy(x, e.first) && P.StartsAt(z, e.End())
    ensures Cut(x + [e] + z, from, e.End() - 1) == x + [Piece(e, e.first, from)] + z
  {
    CutStretch(x, e, [], z, from, e.End());
    assert x + [e] + [] == x + [e];
  }

  // The extent is shortened, and what is behind it in the node at level a is lost.
  lemma ShortCutBehind(path: seq<Frame>, t: Tree, height: nat, from: nat, x: Extent, a: nat)
    requires Wf(t, height, 0, LIMIT) && IsPath(path, t, height) && path[height].node.exts != [] && a <= height
    requires var e := path[height].node.exts[path[height].pos];
             e.first < from < e.End() && x == Piece(e, e.first, from)
    ensures P.HiAt(path, a, LIMIT) > 0
    ensures var exts, pos := path[height].node.exts, path[height].pos;
            P.Before(path, height) + exts[pos := x][..pos + 1] + P.After(path, a) ==
            Cut(Flat(t), from, P.HiAt(path, a, LIMIT) - 1)
  {
    AroundBounds(path, t, height, a);
    PositionFlat(path, t, height, a);
    CutUpTo(P.Before(path, height), path[height].node.exts, path[height].pos, x, Behind(path, height, a),
            P.After(path, a), from, P.HiAt(path, a, LIMIT));
  }

  lemma AroundBounds(path: seq<Frame>, t: Tree, height: nat, a: nat)
    requires Wf(t, height, 0, LIMIT) && IsPath(path, t, height) && path[height].node.exts != [] && a <= height
    ensures var exts, pos, h := path[height].node.exts, path[height].pos, P.HiAt(path, a, LIMIT);
            && P.EndsBy(P.Before(path, height) + exts[..pos], exts[pos].first) && P.StartsAt(P.After(path, a), h)
            && P.StartsAt(Behind(path, height, a), exts[pos].End()) && P.EndsBy(Behind(path, height, a), h)
            && NonEmpty(Behind(path, height, a)) && exts[pos].End() <= h
  {
    EndBefore(path, t, height);
    BehindBounds(path, t, height, a);
    P.AfterAbove(path, t, height, 0, LIMIT, a);
  }

  lemma PositionFlat(path: seq<Frame>, t: Tree, height: nat, a: nat)
    requires IsPath(path, t, height) && path[height].node.exts != [] && a <= height
    ensures Flat(t) == P.Before(path, height) + path[height].node.exts[..path[height].pos + 1] + Behind(path, height, a)
                       + P.After(path, a)
  {
    AroundPosition(path, height, a);
  }

  lemma CutUpTo(b: seq<Extent>, exts: seq<Extent>, pos: nat, x: Extent, m: seq<Extent>, z: seq<Extent>, from: nat,
                h: nat)
    requires pos < |exts| && exts[pos].first < from < exts[pos].End() <= h
    requires x == Piece(exts[pos], exts[pos].first, from)
    requires P.EndsBy(b + exts[..pos], exts[pos].first) && P.StartsAt(z, h)
    requires P.StartsAt(m, exts[pos].End()) && P.EndsBy(m, h) && NonEmpty(m)
    ensures b + exts[pos := x][..pos + 1] + z == Cut(b + exts[..pos + 1] + m + z, from, h - 1)
  {
    ListUpTo(b, exts, pos, x);
    CutStretch(b + exts[..pos], exts[pos], m, z, from, h);
  }

  lemma ListUpTo(b: seq<Extent>, exts: seq<Extent>, pos: nat, x: Extent)
    requires pos < |exts|
    ensures b + exts[..pos + 1] == (b + exts[..pos]) + [exts[pos]]
    ensures b + exts[pos := x][..pos + 1] == (b + exts[..pos]) + [x]
  {
    assert exts[..pos + 1] == exts[..pos] + [exts[pos]];
    assert exts[pos := x][..pos + 1] == exts[..pos] + [x];
  }

  // Removes a range inside the extent at the end of the path: the extent is shortened and a
  // second one is inserted for the blocks behind the range. Nothing is freed. When the second
  // one needs more blocks for nodes than there are, the range that is lost goes on to the end
  // of the nodes that were cut.
  method RemoveInside(path: seq<Frame>, height: nat, from: nat, to: nat, space: nat, supply: seq<nat>)
    returns (ok: bool, root: Tree, height': nat)
    requires |path| == height + 1 && Sane(path[0].node, height, space) && IsPath(path, path[0].node, height)
    requires Taken(path, from) && from <= to
    requires path[height].node.exts != [] && Interior(path[height].node.exts[path[height].pos], from, to)
    ensures Sane(root, height', space) && (ok <==> FullTail(path, height) <= |supply|)
    ensures var e := path[height].node.exts[path[height].pos];
            var last := if ok then to else LostTo(path, height, e, CutLevels(path, height, |supply|));
            RemovesExactly(Flat(path[0].node), from, last, Flat(root))
  {
    var leaf, pos := path[height].node, path[height].pos;
    var e := leaf.exts[pos];
    var x := e.(count := if e.Unwritten() then MarkUnwritten(from - e.first) else from - e.first);
    var y := Extent(to + 1, if e.Unwritten() then MarkUnwritten(e.End() - 1 - to) else e.End() - 1 - to,
                    to + 1 - e.first + e.start);
    assert x == Piece(e, e.first, from) && y == Piece(e, to + 1, e.End());
    var r := Store(path, height, leaf.(exts := leaf.exts[pos := x]), pos, false, 0);
    Pieces(e, from, to);
    Shortened(path, path[0].node, height, space, x, r);
    TailTarget(path, path[0].node, height, space, from, x, y, r);
    SameFull(path, r, height, x, height);
    var status, out, h1 := InsertExtent(r, height, y, true, space, supply);
    ok, root, height' := status != NoSpace, out[0].node, h1;
    if ok {
      InsideRemoves(path, path[0].node, height, space, from, to, x, y, Flat(root));
    } else {
      InsideLoses(path, path[0].node, height, from, to, x, CutLevels(path, height, |supply|), r);
    }
  }

  lemma InsideLoses(path: seq<Frame>, t: Tree, height: nat, from: nat, to: nat, x: Extent, n: nat, r: seq<Frame>)
    requires ShortPath(path, t, height, from, x, r) && n <= height && from <= to
    requires Interior(path[height].node.exts[path[height].pos], from, to)
    ensures |r| == height + 1 && Linked(r) && AtLeaf(r[height]) && r[height].node.exts != []
    ensures var e := path[height].node.exts[path[height].pos];
            && to < LostTo(path, height, e, n)
            && RemovesExactly(Flat(t), from, LostTo(path, height, e, n), Kept(r, height, n))
  {
    var e := path[height].node.exts[path[height].pos];
    ShortLinked(path, t, height, from, x, r);
    KeptShort(path, t, height, from, x, n, r, e);
    FlatChain(t, height, 0, LIMIT);
    BehindBounds(path, t, height, if n == 0 then height else height - n + 1);
    CutRemoves(Flat(t), from, LostTo(path, height, e, n));
  }

  // ---------------------------------------------------------------- removing a range

  // What a removal does, by what lies at the start of the range. It can fail only inside one
  // extent, where a new entry may need new nodes; it then loses more than the range.
  ghost predicate RangeRemoved(t: Tree, height: nat, from: nat, to: nat, space: nat, have: nat,
                               ok: bool, root: Tree, height': nat, log: Log)
    requires Wf(t, height, 0, LIMIT)
  {
    var path := SearchPath(t, height, from, 0, LIMIT);
    SearchPathOk(t, height, from, 0, LIMIT);
    && Sane(root, height', space)
    && (Hole(Flat(t), from) ==> ok && root == t && height' == height && log == Log([], []))
    && (forall e :: e in Flat(t) && e.Covers(from) ==>
          if Interior(e, from, to) then
            && log == Log([], []) && (ok <==> FullTail(path, height) <= have)
            && (0 < e.Len() ==>
                  RemovesExactly(Flat(t), from,
                                 if ok then to else LostTo(path, height, e, CutLevels(path, height, have)), Flat(root)))
          else ok && Removed(t, from, to, space, root, height', log))
  }

  method RemoveSpace(t: Tree, height: nat, from: nat, to: nat, space: nat, supply: seq<nat>)
    returns (ok: bool, root: Tree, height': nat, log: Log)
    requires Sane(t, height, space) && from <= to
    ensures RangeRemoved(t, height, from, to, space, |supply|, ok, root, height', log)
  {
    var path := FindExtent(t, height, from, 0, LIMIT);
    var exts, pos := path[height].node.exts, path[height].pos;
    ok, root, height', log := true, t, height, Log([], []);
    OnlyHit(path, t, height, from);
    if exts != [] && exts[pos].Covers(from) {
      if exts[pos].first < from && to < exts[pos].End() - 1 {
        ok, root, height' := RemoveInside(path, height, from, to, space, supply);
      } else {
        HitFirst(path, t, height, from, to);
        root, height', log := RemoveFrom(path, height, from, to, space);
      }
    }
  }

  // The extent at the end of the path is the only one that can cover the block.
  lemma OnlyHit(path: seq<Frame>, t: Tree, height: nat, from: nat)
    requires Wf(t, height, 0, LIMIT) && IsPath(path, t, height) && Taken(path, from)
    ensures var exts, pos := path[height].node.exts, path[height].pos;
            forall e: Extent :: e.Covers(from) ==> (e in Flat(t) <==> exts != [] && e == exts[pos])
  {
    var exts, pos := path[height].node.exts, path[height].pos;
    LeafChain(path, t, height, 0, LIMIT);
    assert Chosen(path[height], from);
    forall e: Extent | e.Covers(from) ensures e in Flat(t) <==> exts != [] && e == exts[pos] {
      SearchComplete(path, t, height, 0, LIMIT, from, e);
      if exts != [] {
        OnlyExtent(exts, 0, LIMIT, from, pos, e);
      }
    }
  }

  lemma HitFirst(path: seq<Frame>, t: Tree, height: nat, from: nat, to: nat)
    requires Wf(t, height, 0, LIMIT) && IsPath(path, t, height) && Taken(path, from) && from <= to
    requires var exts, pos := path[height].node.exts, path[height].pos;
             exts != [] && exts[pos].Covers(from) && !Interior(exts[pos], from, to)
    ensures FirstHit(path[height].node.exts, path[height].pos, from, to) && from < LIMIT
  {
    LeafChain(path, t, height, 0, LIMIT);
    var exts, pos := path[height].node.exts, path[height].pos;
    assert pos > 0 ==> exts[0].End() <= exts[pos].first;
  }

  // ---------------------------------------------------------------- when it is right

  // Leaving the list alone is right exactly when no mapped block lies in the range.
  lemma UnchangedRight(s: seq<Extent>, from: nat, to: nat)
    requires NonEmpty(s) && from <= to
    ensures RemovesExactly(s, from, to, s) <==> forall i :: 0 <= i < |s| ==> !Meets(s[i], from, to)
  {
    if forall i :: 0 <= i < |s| ==> !Meets(s[i], from, to) {
      CutNothing(s, from, to);
      CutRemoves(s, from, to);
    } else {
      var i :| 0 <= i < |s| && Meets(s[i], from, to);
      var e := s[i];
      var b := if e.first < from then from else e.first;
      assert MapsOne(s[i], b, e.start + (b - e.first), e.Unwritten());
      assert Maps(s, b, e.start + (b - e.first), e.Unwritten()) && Within(b, from, to);
    }
  }

  // A removal that fails loses blocks behind the range.
  lemma LostBeyond(t: Tree, height: nat, from: nat, to: nat, e: Extent, n: nat)
    requires Wf(t, height, 0, LIMIT) && from <= to && e in Flat(t) && e.Covers(from) && Interior(e, from, to)
    ensures var path := SearchPath(t, height, from, 0, LIMIT);
            IsPath(path, t, height) && to < LostTo(path, height, e, n)
  {
    var path := SearchPath(t, height, from, 0, LIMIT);
    SearchPathOk(t, height, from, 0, LIMIT);
    OnlyHit(path, t, height, from);
    BehindBounds(path, t, height, if 0 < n <= height then height - n + 1 else height);
  }

  lemma MoreLost(s: seq<Extent>, from: nat, to: nat, last: nat, e: Extent, out: seq<Extent>)
    requires e in s && Interior(e, from, to) && from <= to < last && RemovesExactly(s, from, last, out)
    ensures !RemovesExactly(s, from, to, out)
  {
    var i :| 0 <= i < |s| && s[i] == e;
    var p := e.start + (to + 1 - e.first);
    assert MapsOne(s[i], to + 1, p, e.Unwritten());
    assert Maps(s, to + 1, p, e.Unwritten()) && Within(to + 1, from, last) && !Within(to + 1, from, to);
  }

  // The removal takes exactly the range away if and only if it starts in a hole and nothing of
  // it is mapped, or it starts in a mapped block and does not fail.
  lemma RemovalExact(t: Tree, height: nat, from: nat, to: nat, space: nat, have: nat,
                     ok: bool, root: Tree, height': nat, log: Log)
    requires Sane(t, height, space) && from <= to
    requires RangeRemoved(t, height, from, to, space, have, ok, root, height', log)
    ensures RemovesExactly(Flat(t), from, to, Flat(root)) <==>
            if Hole(Flat(t), from) then forall i :: 0 <= i < |Flat(t)| ==> !Meets(Flat(t)[i], from, to) else ok
  {
    FlatChain(t, height, 0, LIMIT);
    if Hole(Flat(t), from) {
      UnchangedRight(Flat(t), from, to);
    } else {
      var e :| e in Flat(t) && e.Covers(from);
      if !ok {
        var path := SearchPath(t, height, from, 0, LIMIT);
        LostBeyond(t, height, from, to, e, CutLevels(path, height, have));
        MoreLost(Flat(t), from, to, LostTo(path, height, e, CutLevels(path, height, have)), e, Flat(root));
      } else if !Interior(e, from, to) {
        CutRemoves(Flat(t), from, to);
      }
    }
  }

  // It frees exactly the physical blocks behind the range unless the range is inside one
  // extent, where it frees none, or starts in a hole.
  lemma FreedExact(t: Tree, height: nat, from: nat, to: nat, space: nat, have: nat,
                   ok: bool, root: Tree, height': nat, log: Log, e: Extent)
    requires Sane(t, height, space) && from <= to
    requires RangeRemoved(t, height, from, to, space, have, ok, root, height', log)
    requires e in Flat(t) && e.Covers(from)
    ensures (forall p :: InRuns(log.runs, p) <==> Backs(Flat(t), from, to, p)) <==> !Interior(e, from, to)
  {
    FlatChain(t, height, 0, LIMIT);
    if Interior(e, from, to) {
      var i :| 0 <= i < |Flat(t)| && Flat(t)[i] == e;
      var p := e.start + (from - e.first);
      assert MapsOne(Flat(t)[i], from, p, e.Unwritten());
      assert Within(from, from, to) && Maps(Flat(t), from, p, e.Unwritten());
      assert Backs(Flat(t), from, to, p) && !InRuns(log.runs, p);
    } else {
      forall p ensures InRuns(log.runs, p) <==> Backs(Flat(t), from, to, p) {
        RunsBack(Flat(t), from, to, p);
      }
    }
  }

  // ---------------------------------------------------------------- the inode

  // What mapping one block in a hole does, by the branch that its insertion takes and the
  // blocks that there are for new nodes.
  ghost predicate Created(t: Tree, height: nat, e: Extent, space: nat, supply: seq<nat>, status: Status, root: Tree,
                          height': nat)
    requires Wf(t, height, 0, LIMIT)
  {
    var path, have := SearchPath(t, height, e.first, 0, LIMIT), |supply|;
    SearchPathOk(t, height, e.first, 0, LIMIT);
    && status == (if have < BlocksFor(path, height, e, true) then NoSpace else Stored)
    && (status == Stored ==> (AddsExactly(Flat(t), e, Flat(root)) <==> Exact(path, height, e, true)))
    && (status == Stored ==> Lists(path, height, e, true, Flat(root)))
    && (status == Stored ==> S.Blocks(root) == S.Blocks(t) + multiset(supply[..BlocksFor(path, height, e, true)]))
    && (Sane(root, height', space) <==> status == NoSpace || !Lowered(path, height, e, true))
    && (status == NoSpace ==>
          && path[height].node.exts != [] && CutLevels(path, height, have) <= height
          && Flat(root) == Kept(path, height, CutLevels(path, height, have))
          && NodesKept(path, height, supply, false, root))
  }

  class Inode {
    var root: Tree
    var height: nat
    const space: nat

    constructor (space: nat)
      requires space > ROOT_MAX
      ensures this.space == space && Sane(root, height, space) && Flat(root) == []
    {
      this.space := space;
      root, height := Leaf(ROOT_MAX, []), 0;
    }

    // Maps a block in a hole to a newly allocated physical block.
    method Create(b: nat, block: nat, supply: seq<nat>) returns (status: Status)
      requires Sane(root, height, space) && b < LIMIT && Hole(Flat(root), b)
      modifies this
      ensures Created(old(root), old(height), Extent(b, 1, block), space, supply, status, root, height)
    {
      var e := Extent(b, 1, block);
      var path := FindExtent(root, height, b, 0, LIMIT);
      OnlyHit(path, root, height, b);
      HoleTarget(path, root, height, space, e);
      var s, r, h := InsertExtent(path, height, e, true, space, supply);
      status, root, height := s, r[0].node, h;
    }

    // Unmaps the blocks of a range and reports what was freed.
    method Remove(from: nat, to: nat, supply: seq<nat>) returns (ok: bool, log: Log)
      requires Sane(root, height, space) && from <= to
      modifies this
      ensures RangeRemoved(old(root), old(height), from, to, space, |supply|, ok, root, height, log)
    {
      var k, r, h, l := RemoveSpace(root, height, from, to, space, supply);
      ok, root, height, log := k, r, h, l;
    }
  }
}
