// The extent tree of one inode: lookup, insertion and block creation.

module ExtentInode {
  import Seqs
  import opened ExtentTree
  import opened ExtentLookup
  import opened ExtentPath
  import opened ExtentLeaf
  import opened ExtentSplit
  import opened ExtentSplitPath
  import opened ExtentInsert
  import opened ExtentDense
  import S = ExtentStack
  import N = ExtentNodes

  datatype Outcome = Done | NeedSplit | Exists
  datatype Status = Stored | Present | NoSpace

  // Writes a changed node back and, when its first entry changed, corrects the keys above,
  // level by level.
  method Store(path: seq<Frame>, a: nat, node: Tree, pos: nat, touched: bool, border: nat) returns (r: seq<Frame>)
    requires a < |path| && Linked(path)
    ensures r == Rise(path, a, node, pos, touched, border)
  {
    var k, n, q, up := a, node, pos, touched;
    r := [];
    while k > 0
      invariant 0 <= k <= a
      invariant Rise(path, a, node, pos, touched, border) == Rise(path, k, n, q, up, border) + r
    {
      r := [Frame(n, q)] + r;
      var f := path[k - 1];
      var key := if up then border else f.node.kids[f.pos].first;
      n, q, up := WithKid(f.node, f.pos, key, n), f.pos, up && f.pos == 0;
      k := k - 1;
    }
    r := [Frame(n, q)] + r;
  }

  // What the insertion into the leaf of a path does to it. The keys above are corrected when
  // the position before the insertion was the first one, also if the new entry goes behind it.
  function AfterInsert(path: seq<Frame>, height: nat, e: Extent, combine: bool): (r: seq<Frame>)
    requires |path| == height + 1 && Linked(path) && AtLeaf(path[height])
    ensures |r| == height + 1
  {
    var leaf, pos := path[height].node, path[height].pos;
    var entry, exts := WayOf(leaf.exts, pos, e, combine).Entry?, NewExtents(leaf.exts, pos, e, combine);
    Rise(path, height, leaf.(exts := exts), if entry then Slot(leaf.exts, pos, e) else pos, entry && pos == 0,
         exts[0].first)
  }

  // Merges the extent into its neighbour or enters it into the leaf, if there is room.
  method InsertLeaf(path: seq<Frame>, height: nat, e: Extent, combine: bool) returns (out: Outcome, r: seq<Frame>)
    requires |path| == height + 1 && Linked(path) && AtLeaf(path[height])
    ensures var leaf, pos := path[height].node, path[height].pos;
            && (out == Exists <==> leaf.exts != [] && leaf.exts[pos].first == e.first)
            && (out == NeedSplit <==>
                  out != Exists && WayOf(leaf.exts, pos, e, combine).Entry? && |leaf.exts| == leaf.max)
            && r == if out == Done then AfterInsert(path, height, e, combine) else path
  {
    var leaf, pos := path[height].node, path[height].pos;
    r := path;
    if leaf.exts != [] && e.first == leaf.exts[pos].first {
      return Exists, r;
    }
    if combine && leaf.exts != [] {
      var x := leaf.exts[pos];
      if CanAppend(x, e) {
        var exts := leaf.exts[pos := Grown(x, e)];
        r := Store(path, height, leaf.(exts := exts), pos, false, exts[0].first);
        return Done, r;
      }
      if CanPrepend(x, e) {
        var exts := leaf.exts[pos := Grown(x, e).(first := e.first)];
        r := Store(path, height, leaf.(exts := exts), pos, false, exts[0].first);
        return Done, r;
      }
    }
    if |leaf.exts| == leaf.max {
      return NeedSplit, r;
    }
    var slot := if leaf.exts == [] then 0 else if e.first > leaf.exts[pos].first then pos + 1 else pos;
    var exts := leaf.exts[..slot] + [e] + leaf.exts[slot..];
    r := Store(path, height, leaf.(exts := exts), slot, pos == 0, exts[0].first);
    return Done, r;
  }

  // The position where an extent is to go: found by a search for its first block, with the
  // gap large enough, or taken by an extent that starts at the same block.
  predicate Target(path: seq<Frame>, t: Tree, height: nat, e: Extent) {
    && IsPath(path, t, height) && Taken(path, e.first) && 0 < e.Len()
    && var exts, pos := path[height].node.exts, path[height].pos;
       InGap(exts, pos, e, HiAt(path, height, LIMIT)) || (exts != [] && exts[pos].first == e.first)
  }

  predicate Exact(path: seq<Frame>, height: nat, e: Extent, combine: bool)
    requires |path| == height + 1 && AtLeaf(path[height])
  {
    ExactWay(path[height].node.exts, path[height].pos, e, combine)
  }

  // Entries that fit in the root, which lies in the inode.
  const ROOT_MAX := 4

  predicate Good(t: Tree, height: nat, space: nat) {
    Wf(t, height, 0, LIMIT) && Caps(t, space) && t.max == ROOT_MAX < space
  }

  lemma {:induction false} RiseMax(path: seq<Frame>, a: nat, node: Tree, pos: nat, touched: bool, border: nat)
    requires a < |path| && Linked(path) && node.max == path[a].node.max
    ensures Rise(path, a, node, pos, touched, border)[0].node.max == path[0].node.max
  {
    if a > 0 {
      var up := path[a - 1];
      var key := if touched then border else up.node.kids[up.pos].first;
      RiseMax(path, a - 1, WithKid(up.node, up.pos, key, node), up.pos, touched && up.pos == 0, border);
    }
  }

  // The prepend branch moves the start of a leaf below its key, which it does not correct.
  predicate Lowered(path: seq<Frame>, height: nat, e: Extent, combine: bool)
    requires |path| == height + 1 && Linked(path) && AtLeaf(path[height])
  {
    WayOf(path[height].node.exts, path[height].pos, e, combine).Prepend? && e.first < LoAt(path, height, 0)
  }

  // An insertion for which there is room keeps the tree well formed if and only if it does not
  // do that.
  lemma InsertGood(path: seq<Frame>, t: Tree, height: nat, space: nat, e: Extent, combine: bool)
    requires Good(t, height, space) && Target(path, t, height, e) && !Occupied(path, height, e)
    requires WayOf(path[height].node.exts, path[height].pos, e, combine).Entry? ==> !Full(path[height].node)
    ensures Good(AfterInsert(path, height, e, combine)[0].node, height, space) <==> !Lowered(path, height, e, combine)
  {
    if Lowered(path, height, e, combine) {
      LoweredBad(path, t, height, e, combine);
    } else {
      var leaf, pos := path[height].node, path[height].pos;
      var entry, exts := WayOf(leaf.exts, pos, e, combine).Entry?, NewExtents(leaf.exts, pos, e, combine);
      var slot, n, touched := if entry then Slot(leaf.exts, pos, e) else pos, leaf.(exts := exts), entry && pos == 0;
      InsertWf(path, t, height, e, combine);
      CapsAt(path, t, height, height, space);
      RiseCaps(path, t, height, height, n, slot, touched, exts[0].first, space);
      RiseMax(path, height, n, slot, touched, exts[0].first);
    }
  }

  lemma NewLeafWf(leaf: Tree, pos: nat, e: Extent, combine: bool, lo: nat, hi: nat)
    requires leaf.Leaf? && Wf(leaf, 0, lo, hi) && (if leaf.exts == [] then pos == 0 else pos < |leaf.exts|)
    requires InGap(leaf.exts, pos, e, hi)
    requires match WayOf(leaf.exts, pos, e, combine)
             case Append => true
             case Prepend => lo <= e.first
             case Entry => |leaf.exts| < leaf.max
    ensures var exts := NewExtents(leaf.exts, pos, e, combine);
            Wf(leaf.(exts := exts), 0,
               if WayOf(leaf.exts, pos, e, combine).Entry? && pos == 0 then exts[0].first else lo, hi)
  {
    InsertChain(leaf.exts, pos, e, combine, lo, hi);
  }

  lemma InsertWf(path: seq<Frame>, t: Tree, height: nat, e: Extent, combine: bool)
    requires Wf(t, height, 0, LIMIT) && Target(path, t, height, e) && !Occupied(path, height, e)
    requires WayOf(path[height].node.exts, path[height].pos, e, combine).Entry? ==> !Full(path[height].node)
    requires !Lowered(path, height, e, combine)
    ensures Wf(AfterInsert(path, height, e, combine)[0].node, height, 0, LIMIT)
  {
    var leaf, pos := path[height].node, path[height].pos;
    var entry, exts := WayOf(leaf.exts, pos, e, combine).Entry?, NewExtents(leaf.exts, pos, e, combine);
    var slot, n, touched := if entry then Slot(leaf.exts, pos, e) else pos, leaf.(exts := exts), entry && pos == 0;
    NodeWf(path, t, height, 0, LIMIT, height);
    NewLeafWf(leaf, pos, e, combine, LoAt(path, height, 0), HiAt(path, height, LIMIT));
    if touched {
      BorderOk(path, t, height, e, exts[0].first);
    }
    RiseWf(path, t, height, 0, LIMIT, height, n, slot, touched, exts[0].first);
  }

  lemma LoweredBad(path: seq<Frame>, t: Tree, height: nat, e: Extent, combine: bool)
    requires Target(path, t, height, e) && Wf(t, height, 0, LIMIT) && Lowered(path, height, e, combine)
    ensures !Wf(AfterInsert(path, height, e, combine)[0].node, height, 0, LIMIT)
  {
    var leaf, pos, r := path[height].node, path[height].pos, AfterInsert(path, height, e, combine);
    var exts := NewExtents(leaf.exts, pos, e, combine);
    RisePlain(path, height, leaf.(exts := exts), pos, exts[0].first);
    RiseHi(path, height, leaf.(exts := exts), pos, LIMIT);
    if Wf(r[0].node, height, 0, LIMIT) {
      NodeWf(r, r[0].node, height, 0, LIMIT, height);
    }
  }

  // Without a correction the border does not matter.
  lemma {:induction false} RisePlain(path: seq<Frame>, a: nat, node: Tree, pos: nat, border: nat)
    requires a < |path| && Linked(path)
    ensures Rise(path, a, node, pos, false, border) == Rise(path, a, node, pos, false, 0)
  {
    if a > 0 {
      var up := path[a - 1];
      RisePlain(path, a - 1, WithKid(up.node, up.pos, up.node.kids[up.pos].first, node), up.pos, border);
    }
  }

  // The first block of a leaf is a key that all nodes above can take.
  lemma BorderOk(path: seq<Frame>, t: Tree, height: nat, e: Extent, border: nat)
    requires Wf(t, height, 0, LIMIT) && Target(path, t, height, e) && !Occupied(path, height, e)
    requires path[height].pos == 0
    requires border == if path[height].node.exts == [] || e.first < path[height].node.exts[0].first then e.first
                       else path[height].node.exts[0].first
    ensures border <= HiAt(path, height, LIMIT)
    ensures forall i :: 0 <= i < height && path[i].pos > 0 ==> path[i].node.kids[path[i].pos].first <= border
  {
    NodeWf(path, t, height, 0, LIMIT, height);
    if border == e.first {
      KeysBelow(path, t, height, e.first);
    } else {
      forall i | 0 <= i < height ensures path[i].node.kids[path[i].pos].first <= border {
        LoRises(path, t, height, 0, LIMIT, i + 1, height);
      }
    }
  }

  // An insertion leaves no node below the root empty.
  lemma InsertFine(path: seq<Frame>, t: Tree, height: nat, space: nat, e: Extent, combine: bool)
    requires Good(t, height, space) && IsPath(path, t, height) && Beside(path, space)
    ensures S.Fine(AfterInsert(path, height, e, combine)[0].node, space)
  {
    var leaf, pos := path[height].node, path[height].pos;
    var entry, exts := WayOf(leaf.exts, pos, e, combine).Entry?, NewExtents(leaf.exts, pos, e, combine);
    var slot, n, touched := if entry then Slot(leaf.exts, pos, e) else pos, leaf.(exts := exts), entry && pos == 0;
    CapsAt(path, t, height, height, space);
    RiseBeside(path, height, n, slot, touched, exts[0].first, space);
    RiseLinked(path, height, n, slot, touched, exts[0].first);
    var r := Rise(path, height, n, slot, touched, exts[0].first);
    assert n.exts != [] && S.Fine(n, space);
    BesideFine(r, r[0].node, height, space, 0);
  }

  // Behind the first position a search never meets a key above the block it looks for.
  lemma KeysBelow(path: seq<Frame>, t: Tree, height: nat, b: nat)
    requires IsPath(path, t, height) && Taken(path, b)
    ensures forall i :: 0 <= i < height && path[i].pos > 0 ==> path[i].node.kids[path[i].pos].first <= b
  {
    forall i | 0 <= i < height && path[i].pos > 0 ensures path[i].node.kids[path[i].pos].first <= b {
      assert Chosen(path[i], b);
    }
  }

  // The insertion adds exactly the mapping of the extent if and only if its branch is exact.
  lemma InsertMaps(path: seq<Frame>, t: Tree, height: nat, space: nat, e: Extent, combine: bool)
    requires Good(t, height, space) && Target(path, t, height, e)
    requires var leaf, pos := path[height].node, path[height].pos; leaf.exts != [] ==> leaf.exts[pos].first != e.first
    ensures AddsExactly(Flat(t), e, Flat(AfterInsert(path, height, e, combine)[0].node)) <==>
            Exact(path, height, e, combine)
  {
    var leaf, pos := path[height].node, path[height].pos;
    var entry, exts := WayOf(leaf.exts, pos, e, combine).Entry?, NewExtents(leaf.exts, pos, e, combine);
    var slot, n, touched := if entry then Slot(leaf.exts, pos, e) else pos, leaf.(exts := exts), entry && pos == 0;
    var x, z := Before(path, height), After(path, height);
    PathFlat(path, t, height, height);
    RiseFlat(path, height, n, slot, touched, exts[0].first);
    NodeWf(path, t, height, 0, LIMIT, height);
    if Exact(path, height, e, combine) {
      ExactAdds(leaf.exts, pos, e, combine);
      AddsAround(x, leaf.exts, z, e, n.exts);
    } else {
      InexactMisses(leaf.exts, pos, e, combine, LoAt(path, height, 0), HiAt(path, height, LIMIT));
      BeforeBelow(path, t, height, 0, LIMIT, height, e.first);
      AfterAbove(path, t, height, 0, LIMIT, height);
      MissesAround(x, leaf.exts, z, e, n.exts);
    }
  }

  // ---------------------------------------------------------------- splitting

  // A position that is good for a new entry: the tree below it is well formed, and the
  // extent goes into its leaf by neither merge branch.
  predicate EntryAt(path: seq<Frame>, height: nat, e: Extent, combine: bool, space: nat) {
    && |path| == height + 1 && Good(path[0].node, height, space) && Target(path, path[0].node, height, e)
    && var exts, pos := path[height].node.exts, path[height].pos;
       && (exts != [] ==> exts[pos].first != e.first)
       && WayOf(exts, pos, e, combine).Entry?
  }

  predicate Full(n: Tree) {
    match n
    case Leaf(max, exts) => |exts| == max
    case Index(max, kids) => |kids| == max
  }

  // A leaf is cut behind the position of the search. The key of the right half is its first
  // extent, or the new extent when nothing is left for it.
  function CutKey(leaf: Tree, pos: nat, e: Extent): nat
    requires leaf.Leaf? && pos < |leaf.exts| == leaf.max
  {
    if pos != leaf.max - 1 then leaf.exts[pos + 1].first else e.first
  }

  lemma CutOk(path: seq<Frame>, height: nat, e: Extent, combine: bool, space: nat)
    requires EntryAt(path, height, e, combine, space) && Full(path[height].node)
    ensures var leaf, p := path[height].node, path[height].pos;
            && p < |leaf.exts|
            && leaf.exts[p].End() <= CutKey(leaf, p, e) <= HiAt(path, height, LIMIT)
            && (CutKey(leaf, p, e) <= e.first <==> p == leaf.max - 1)
            && LoAt(path, height, 0) < CutKey(leaf, p, e)
  {
    var leaf, p := path[height].node, path[height].pos;
    NodeWf(path, path[0].node, height, 0, LIMIT, height);
    CapsAt(path, path[0].node, height, height, space);
    assert Chosen(path[height], e.first);
  }

  // After the cut the extent goes into the half that the search would take.
  lemma CutTarget(path: seq<Frame>, height: nat, e: Extent, combine: bool, space: nat, out: seq<Frame>)
    requires EntryAt(path, height, e, combine, space) && Full(path[height].node)
    requires path[height].pos < |path[height].node.exts|
    requires |out| == height + 1 && Good(out[0].node, height, space)
    requires IsPath(out, out[0].node, height) && Taken(out, e.first)
    requires var leaf, p := path[height].node, path[height].pos;
             if p == leaf.max - 1 then
               && out[height] == Frame(LeafRight(leaf, p, space), 0)
               && HiAt(out, height, LIMIT) == HiAt(path, height, LIMIT)
             else
               && out[height] == Frame(LeafLeft(leaf, p), p)
               && HiAt(out, height, LIMIT) == CutKey(leaf, p, e)
    ensures EntryAt(out, height, e, combine, space) && !Full(out[height].node)
  {
  }

  // The nodes of a path from level i down, each cut behind the position of the search.
  function LeftsOf(path: seq<Frame>, height: nat, i: nat): (l: seq<Frame>)
    requires |path| == height + 1 && Linked(path) && AtLeaf(path[height]) && path[height].node.exts != [] && i <= height
    ensures |l| == height - i + 1
    decreases height - i
  {
    var f := path[i];
    if i == height then [Frame(LeafLeft(f.node, f.pos), f.pos)]
    else
      var below := LeftsOf(path, height, i + 1);
      [Frame(IndexLeft(f.node, f.pos, below[0].node), f.pos)] + below
  }

  function RightsOf(path: seq<Frame>, height: nat, i: nat, key: nat, space: nat, supply: seq<nat>): (r: seq<Frame>)
    requires |path| == height + 1 && Linked(path) && AtLeaf(path[height]) && path[height].node.exts != [] && i <= height
    requires height - i <= |supply|
    ensures |r| == height - i + 1
    decreases height - i
  {
    var f := path[i];
    if i == height then [Frame(LeafRight(f.node, f.pos, space), 0)]
    else
      var below := RightsOf(path, height, i + 1, key, space, supply);
      [Frame(IndexRight(f.node, f.pos, key, supply[height - i - 1], below[0].node, space), 0)] + below
  }

  lemma {:induction false} HalfLeaves(path: seq<Frame>, height: nat, i: nat, key: nat, space: nat, supply: seq<nat>)
    requires |path| == height + 1 && Linked(path) && AtLeaf(path[height]) && path[height].node.exts != [] && i <= height
    requires height - i <= |supply|
    ensures LeftsOf(path, height, i)[height - i] ==
            Frame(LeafLeft(path[height].node, path[height].pos), path[height].pos)
    ensures RightsOf(path, height, i, key, space, supply)[height - i] ==
            Frame(LeafRight(path[height].node, path[height].pos, space), 0)
    decreases height - i
  {
    if i < height {
      HalfLeaves(path, height, i + 1, key, space, supply);
    }
  }

  lemma {:induction false} HalvedAt(path: seq<Frame>, height: nat, i: nat, key: nat, b: nat, space: nat,
                                    supply: seq<nat>)
    requires |path| == height + 1 && Good(path[0].node, height, space)
    requires IsPath(path, path[0].node, height) && Taken(path, b) && i <= height && height - i <= |supply|
    requires var leaf, p := path[height].node, path[height].pos;
             && leaf.exts != [] && leaf.exts[p].End() <= key
             && LoAt(path, height, 0) <= key <= HiAt(path, height, LIMIT)
             && (p + 1 < |leaf.exts| ==> key <= leaf.exts[p + 1].first)
    ensures Halved(path, height, i, 0, LIMIT, key, b, space, LeftsOf(path, height, i),
                   RightsOf(path, height, i, key, space, supply))
    decreases height - i
  {
    var t := path[0].node;
    if i == height {
      HalvedLeaf(path, t, height, 0, LIMIT, key, b, space);
    } else {
      HalvedAt(path, height, i + 1, key, b, space, supply);
      LoRises(path, t, height, 0, LIMIT, i + 1, height);
      HiFalls(path, t, height, 0, LIMIT, i + 1, height);
      HalvedStep(path, t, height, 0, LIMIT, key, b, space, i + 1, LeftsOf(path, height, i + 1),
                 RightsOf(path, height, i + 1, key, space, supply), supply[height - i - 1]);
    }
  }

  lemma {:induction false} HalvesFineAt(path: seq<Frame>, height: nat, i: nat, key: nat, space: nat, supply: seq<nat>)
    requires |path| == height + 1 && Linked(path) && AtLeaf(path[height]) && path[height].node.exts != [] && i <= height
    requires height - i <= |supply| && Beside(path, space) && 2 <= path[height].node.max <= space
    ensures HalvesFine(LeftsOf(path, height, i), RightsOf(path, height, i, key, space, supply),
                       path[height].pos + 1 == |path[height].node.exts|, space)
    decreases height - i
  {
    if i < height {
      HalvesFineAt(path, height, i + 1, key, space, supply);
      assert S.SiteFine(path[i].node, path[i].pos, space);
      HalvesStep(path[i], LeftsOf(path, height, i + 1), RightsOf(path, height, i + 1, key, space, supply), key,
                 supply[height - i - 1], path[height].pos + 1 == |path[height].node.exts|, space);
    }
  }

  // Cuts the nodes of a path from the leaf up to level `at`.
  method CutNodes(path: seq<Frame>, height: nat, at: nat, key: nat, space: nat, supply: seq<nat>)
    returns (lefts: seq<Frame>, rights: seq<Frame>)
    requires |path| == height + 1 && Linked(path) && AtLeaf(path[height]) && path[height].node.exts != []
    requires at <= height
    requires height - at <= |supply|
    ensures lefts == LeftsOf(path, height, at) && rights == RightsOf(path, height, at, key, space, supply)
  {
    var leaf, p := path[height].node, path[height].pos;
    lefts, rights := [Frame(LeafLeft(leaf, p), p)], [Frame(LeafRight(leaf, p, space), 0)];
    var i := height;
    while i > at
      invariant at <= i <= height
      invariant lefts == LeftsOf(path, height, i) && rights == RightsOf(path, height, i, key, space, supply)
    {
      i := i - 1;
      var f := path[i];
      lefts := [Frame(IndexLeft(f.node, f.pos, lefts[0].node), f.pos)] + lefts;
      rights := [Frame(IndexRight(f.node, f.pos, key, supply[height - i - 1], rights[0].node, space), 0)] + rights;
    }
  }

  // The tree after a split, seen along the path to the half that the search takes.
  function SplitPath(path: seq<Frame>, height: nat, at: nat, e: Extent, space: nat, supply: seq<nat>): (out: seq<Frame>)
    requires |path| == height + 1 && Linked(path) && AtLeaf(path[height])
    requires 0 < at <= height < at + |supply|
    requires path[height].node.exts != [] && Full(path[height].node)
  {
    var key := CutKey(path[height].node, path[height].pos, e);
    var lefts, rights := LeftsOf(path, height, at), RightsOf(path, height, at, key, space, supply);
    var up, goRight := path[at - 1], key <= e.first;
    var n := WithRight(up.node, up.pos, lefts[0].node, key, supply[height - at], rights[0].node);
    Rise(path, at - 1, n, if goRight then up.pos + 1 else up.pos, false, 0) + if goRight then rights else lefts
  }

  // A split changes no mapping and leaves room where the extent is to go.
  lemma SplitDone(path: seq<Frame>, height: nat, at: nat, e: Extent, combine: bool, space: nat, supply: seq<nat>)
    requires EntryAt(path, height, e, combine, space) && Full(path[height].node)
    requires 0 < at <= height < at + |supply| && !Full(path[at - 1].node) && path[height].node.exts != []
    ensures var out := SplitPath(path, height, at, e, space, supply);
            && EntryAt(out, height, e, combine, space) && !Full(out[height].node)
            && Flat(out[0].node) == Flat(path[0].node)
  {
    var t, out := path[0].node, SplitPath(path, height, at, e, space, supply);
    var key := CutKey(path[height].node, path[height].pos, e);
    var lefts, rights := LeftsOf(path, height, at), RightsOf(path, height, at, key, space, supply);
    var up, goRight := path[at - 1], key <= e.first;
    CutOk(path, height, e, combine, space);
    HalvedAt(path, height, at, key, e.first, space, supply);
    HalfLeaves(path, height, at, key, space, supply);
    LoRises(path, t, height, 0, LIMIT, at, height);
    HiFalls(path, t, height, 0, LIMIT, at, height);
    NodeWf(path, t, height, 0, LIMIT, at - 1);
    SplitFinished(path, t, height, 0, LIMIT, key, e.first, space, at, lefts, rights, supply[height - at], goRight, out);
    var n := WithRight(up.node, up.pos, lefts[0].node, key, supply[height - at], rights[0].node);
    RiseMax(path, at - 1, n, if goRight then up.pos + 1 else up.pos, false, 0);
    CutTarget(path, height, e, combine, space, out);
  }

  // A split leaves no node empty but the leaf that the extent goes into.
  lemma SplitBeside(path: seq<Frame>, height: nat, at: nat, e: Extent, combine: bool, space: nat, supply: seq<nat>)
    requires EntryAt(path, height, e, combine, space) && Full(path[height].node)
    requires 0 < at <= height < at + |supply| && path[height].node.exts != [] && Beside(path, space)
    ensures Beside(SplitPath(path, height, at, e, space, supply), space)
  {
    var key := CutKey(path[height].node, path[height].pos, e);
    var lefts, rights := LeftsOf(path, height, at), RightsOf(path, height, at, key, space, supply);
    var up, goRight := path[at - 1], key <= e.first;
    CutOk(path, height, e, combine, space);
    CapsAt(path, path[0].node, height, height, space);
    HalvesFineAt(path, height, at, key, space, supply);
    var n, q := WithRight(up.node, up.pos, lefts[0].node, key, supply[height - at], rights[0].node),
                if goRight then up.pos + 1 else up.pos;
    RiseBeside(path, at - 1, n, q, false, 0, space);
    assert S.SiteFine(up.node, up.pos, space);
    JoinFine(up.node, up.pos, lefts[0].node, key, supply[height - at], rights[0].node, goRight, space);
    BesideConcat(Rise(path, at - 1, n, q, false, 0), if goRight then rights else lefts, space);
  }

  // What is left along the path when the blocks for new nodes run out after n levels were cut:
  // the right halves are freed again, but what was moved there is gone.
  function BrokenPath(path: seq<Frame>, height: nat, n: nat): (out: seq<Frame>)
    requires |path| == height + 1 && Linked(path) && AtLeaf(path[height]) && path[height].node.exts != [] && n <= height
    ensures out != []
  {
    if n == 0 then path
    else
      var a := height - n + 1;
      Rise(path, a, LeftsOf(path, height, a)[0].node, path[a].pos, false, 0)
  }

  // The extents up to a position, and those behind it in the node at level i.
  function UpTo(path: seq<Frame>, height: nat): seq<Extent>
    requires |path| == height + 1 && Linked(path) && AtLeaf(path[height]) && path[height].node.exts != []
  {
    Before(path, height) + path[height].node.exts[..path[height].pos + 1]
  }

  function Behind(path: seq<Frame>, height: nat, i: nat): seq<Extent>
    requires |path| == height + 1 && Linked(path) && AtLeaf(path[height]) && path[height].node.exts != [] && i <= height
    decreases height - i
  {
    var f := path[i];
    if i == height then f.node.exts[f.pos + 1..] else Behind(path, height, i + 1) + KidsFlat(f.node.kids[f.pos + 1..])
  }

  lemma {:induction false} AroundPosition(path: seq<Frame>, height: nat, i: nat)
    requires |path| == height + 1 && Linked(path) && AtLeaf(path[height]) && path[height].node.exts != [] && i <= height
    ensures Flat(path[0].node) == UpTo(path, height) + Behind(path, height, i) + After(path, i)
    decreases height - i
  {
    var f := path[i];
    if i == height {
      AroundLeaf(path, height);
    } else {
      AroundPosition(path, height, i + 1);
      Outwards(Flat(path[0].node), UpTo(path, height), Behind(path, height, i + 1), After(path, i + 1),
               KidsFlat(f.node.kids[f.pos + 1..]), After(path, i), Behind(path, height, i));
    }
  }

  lemma AroundLeaf(path: seq<Frame>, height: nat)
    requires |path| == height + 1 && Linked(path) && AtLeaf(path[height]) && path[height].node.exts != []
    ensures Flat(path[0].node) == UpTo(path, height) + Behind(path, height, height) + After(path, height)
  {
    PathFlat(path, path[0].node, height, height);
    CutMiddle(Before(path, height), path[height].node.exts, path[height].pos + 1, After(path, height));
  }

  lemma Outwards(whole: seq<Extent>, x: seq<Extent>, l: seq<Extent>, z: seq<Extent>, r: seq<Extent>, z': seq<Extent>,
                 l': seq<Extent>)
    requires whole == x + l + z && z == r + z' && l' == l + r
    ensures whole == x + l' + z'
  {
    MoveOver(x, l, r, z');
  }

  lemma CutMiddle(x: seq<Extent>, s: seq<Extent>, k: nat, z: seq<Extent>)
    requires k <= |s|
    ensures x + s + z == (x + s[..k]) + s[k..] + z
  {
    assert s == s[..k] + s[k..];
    MoveOver(x, s[..k], s[k..], z);
  }

  lemma MoveOver(x: seq<Extent>, l: seq<Extent>, r: seq<Extent>, z: seq<Extent>)
    ensures x + l + (r + z) == x + (l + r) + z == (x + l) + r + z
  {
  }

  // What is left when the nodes of n levels were cut and their right halves are gone.
  function Kept(path: seq<Frame>, height: nat, n: nat): seq<Extent>
    requires |path| == height + 1 && Linked(path) && AtLeaf(path[height]) && path[height].node.exts != [] && n <= height
  {
    if n == 0 then Flat(path[0].node) else UpTo(path, height) + After(path, height - n + 1)
  }

  lemma {:induction false} LeftsFlat(path: seq<Frame>, height: nat, i: nat)
    requires |path| == height + 1 && Linked(path) && AtLeaf(path[height]) && path[height].node.exts != [] && i <= height
    ensures Before(path, i) + Flat(LeftsOf(path, height, i)[0].node) == UpTo(path, height)
    decreases height - i
  {
    if i < height {
      LeftsFlat(path, height, i + 1);
      var f, left := path[i], LeftsOf(path, height, i + 1)[0].node;
      KidsConcat(f.node.kids[..f.pos], [f.node.kids[f.pos].(tree := left)]);
      KidsOne(f.node.kids[f.pos].(tree := left));
      Seqs.Assoc(Before(path, i), KidsFlat(f.node.kids[..f.pos]), Flat(left));
    }
  }

  // When the blocks run out, the tree stays well formed and has lost exactly that.
  lemma BrokenOk(path: seq<Frame>, height: nat, e: Extent, combine: bool, space: nat, n: nat)
    requires EntryAt(path, height, e, combine, space) && Full(path[height].node) && Beside(path, space)
    requires path[height].node.exts != [] && n <= height
    ensures var root := BrokenPath(path, height, n)[0].node;
            Good(root, height, space) && S.Fine(root, space) && Flat(root) == Kept(path, height, n)
  {
    if n == 0 {
      FullFine(path, height, e, combine, space);
    } else {
      var a := height - n + 1;
      BrokenHalves(path, height, a, e, combine, space);
      BrokenFine(path, height, a, e, combine, space);
      LeftsFlat(path, height, a);
      RiseFlat(path, a, LeftsOf(path, height, a)[0].node, path[a].pos, false, 0);
    }
  }

  // Any blocks serve to talk about the right halves.
  function SomeBlocks(n: nat): (s: seq<nat>) { seq(n, _ => 0) }

  lemma BrokenHalves(path: seq<Frame>, height: nat, a: nat, e: Extent, combine: bool, space: nat)
    requires EntryAt(path, height, e, combine, space) && Full(path[height].node) && path[height].node.exts != []
    requires 0 < a <= height
    ensures Good(Rise(path, a, LeftsOf(path, height, a)[0].node, path[a].pos, false, 0)[0].node, height, space)
  {
    var key := CutKey(path[height].node, path[height].pos, e);
    CutOk(path, height, e, combine, space);
    HalvedAt(path, height, a, key, e.first, space, SomeBlocks(height));
    BrokenWf(path, height, a, key, LeftsOf(path, height, a)[0].node, space);
  }

  lemma BrokenFine(path: seq<Frame>, height: nat, a: nat, e: Extent, combine: bool, space: nat)
    requires EntryAt(path, height, e, combine, space) && path[height].node.exts != [] && Beside(path, space)
    requires 0 < a <= height
    ensures S.Fine(Rise(path, a, LeftsOf(path, height, a)[0].node, path[a].pos, false, 0)[0].node, space)
  {
    CapsAt(path, path[0].node, height, height, space);
    HalvesFineAt(path, height, a, 0, space, SomeBlocks(height));
    RiseFine(path, a, LeftsOf(path, height, a)[0].node, path[a].pos, false, 0, space);
  }

  lemma BrokenWf(path: seq<Frame>, height: nat, a: nat, key: nat, left: Tree, space: nat)
    requires |path| == height + 1 && Good(path[0].node, height, space) && IsPath(path, path[0].node, height)
    requires 0 < a <= height && Wf(left, height - a, LoAt(path, a, 0), key) && Caps(left, space)
    requires key <= HiAt(path, height, LIMIT) && left.max == path[a].node.max
    ensures Good(Rise(path, a, left, path[a].pos, false, 0)[0].node, height, space)
  {
    var t := path[0].node;
    HiFalls(path, t, height, 0, LIMIT, a, height);
    WfWiden(left, height - a, LoAt(path, a, 0), key, LoAt(path, a, 0), HiAt(path, a, LIMIT));
    RiseWf(path, t, height, 0, LIMIT, a, left, path[a].pos, false, 0);
    RiseCaps(path, t, height, a, left, path[a].pos, false, 0, space);
    RiseMax(path, a, left, path[a].pos, false, 0);
  }

  // The position is the last one of its node.
  predicate AtEnd(f: Frame) {
    match f.node
    case Leaf(_, exts) => f.pos + 1 == |exts|
    case Index(_, kids) => f.pos + 1 == |kids|
  }

  lemma {:induction false} SomeExtent(t: Tree, space: nat)
    requires S.Fine(t, space) && !S.Empty(t)
    ensures Flat(t) != []
    decreases t
  {
    if t.Index? {
      assert S.KidFine(t.kids[0], space);
      SomeExtent(t.kids[0].tree, space);
      assert KidsFlat(t.kids) == KidFlat(t.kids[0]) + KidsFlat(t.kids[1..]);
    }
  }

  // Nothing lies behind a position exactly when it goes through the last entries.
  lemma {:induction false} NothingBehind(path: seq<Frame>, height: nat, i: nat, space: nat)
    requires |path| == height + 1 && Linked(path) && AtLeaf(path[height]) && path[height].node.exts != [] && i <= height
    requires Beside(path, space)
    ensures Behind(path, height, i) == [] <==> forall k :: i <= k <= height ==> AtEnd(path[k])
    decreases height - i
  {
    if i < height {
      NothingBehind(path, height, i + 1, space);
      var f := path[i];
      var rest := f.node.kids[f.pos + 1..];
      if rest != [] {
        assert S.SiteFine(f.node, f.pos, space) && rest[0] == f.node.kids[f.pos + 1];
        SomeExtent(rest[0].tree, space);
      }
      assert KidsFlat(rest) == [] <==> AtEnd(f);
      assert (forall k :: i <= k <= height ==> AtEnd(path[k])) <==>
             AtEnd(f) && forall k :: i + 1 <= k <= height ==> AtEnd(path[k]);
    } else {
      assert |Behind(path, height, height)| == 0 <==> AtEnd(path[height]);
    }
  }

  // A split that runs out of blocks loses nothing if and only if it cut nothing or the path
  // goes through the last entries of all nodes that were cut.
  lemma BrokenExact(path: seq<Frame>, height: nat, space: nat, n: nat)
    requires |path| == height + 1 && Linked(path) && AtLeaf(path[height]) && path[height].node.exts != []
    requires Beside(path, space) && n <= height
    ensures Kept(path, height, n) == Flat(path[0].node) <==>
            n == 0 || forall k :: height - n < k <= height ==> AtEnd(path[k])
  {
    if n > 0 {
      var a := height - n + 1;
      AroundPosition(path, height, a);
      NothingBehind(path, height, a, space);
      LostBetween(UpTo(path, height), Behind(path, height, a), After(path, a));
    }
  }

  lemma LostBetween(x: seq<Extent>, l: seq<Extent>, z: seq<Extent>)
    ensures x + z == x + l + z <==> l == []
  {
    assert |x + l + z| == |x + z| + |l|;
  }

  // ---------------------------------------------------------------- the blocks of nodes

  // The halves along a path have its blocks and as many of the supply as levels were cut.
  lemma {:induction false} HalvesBlocks(path: seq<Frame>, height: nat, i: nat, key: nat, space: nat, supply: seq<nat>)
    requires |path| == height + 1 && Linked(path) && AtLeaf(path[height]) && path[height].node.exts != [] && i <= height
    requires height - i <= |supply|
    ensures var left, right := LeftsOf(path, height, i)[0].node, RightsOf(path, height, i, key, space, supply)[0].node;
            S.Blocks(left) + S.Blocks(right) == S.Blocks(path[i].node) + multiset(supply[..height - i])
    decreases height - i
  {
    if i < height {
      HalvesBlocks(path, height, i + 1, key, space, supply);
      var f, k := path[i], height - i - 1;
      N.HalvesBlocks(f.node, f.pos, LeftsOf(path, height, i + 1)[0].node, key, supply[k],
                     RightsOf(path, height, i + 1, key, space, supply)[0].node, space);
      N.NodeBlocks(f.node, f.pos);
      N.FirstOnes(supply, k);
      assert path[i + 1].node == f.node.kids[f.pos].tree;
    }
  }

  // A split takes a block of the supply for each node it makes, and loses none.
  lemma SplitBlocks(path: seq<Frame>, height: nat, at: nat, e: Extent, space: nat, supply: seq<nat>)
    requires |path| == height + 1 && Linked(path) && AtLeaf(path[height])
    requires 0 < at <= height < at + |supply|
    requires path[height].node.exts != [] && Full(path[height].node)
    ensures SplitPath(path, height, at, e, space, supply) != []
    ensures S.Blocks(SplitPath(path, height, at, e, space, supply)[0].node) ==
            S.Blocks(path[0].node) + multiset(supply[..height - at + 1])
  {
    var key := CutKey(path[height].node, path[height].pos, e);
    var left, right := LeftsOf(path, height, at)[0].node, RightsOf(path, height, at, key, space, supply)[0].node;
    var up, goRight, k := path[at - 1], key <= e.first, height - at;
    var n, q := WithRight(up.node, up.pos, left, key, supply[k], right), if goRight then up.pos + 1 else up.pos;
    assert S.Blocks(n) ==
           N.Around(up.node, up.pos) + (S.Blocks(path[at].node) + multiset(supply[..k])) + multiset{supply[k]} by {
      HalvesBlocks(path, height, at, key, space, supply);
      N.WithRightBlocks(up.node, up.pos, left, key, supply[k], right);
    }
    N.FirstOnes(supply, k);
    AboveBlocks(path, at, n, q, multiset(supply[..k]), multiset{supply[k]});
  }

  // The whole tree has the new blocks of a node above the cut.
  lemma AboveBlocks(path: seq<Frame>, at: nat, n: Tree, q: nat, used: multiset<nat>, last: multiset<nat>)
    requires 0 < at < |path| && Linked(path)
    requires var up := path[at - 1];
             S.Blocks(n) == N.Around(up.node, up.pos) + (S.Blocks(path[at].node) + used) + last
    ensures S.Blocks(Rise(path, at - 1, n, q, false, 0)[0].node) == S.Blocks(path[0].node) + (used + last)
  {
    var up := path[at - 1];
    N.NodeBlocks(up.node, up.pos);
    N.RiseBlocks(path, at - 1, n, q, false, 0);
    Used(S.Blocks(Rise(path, at - 1, n, q, false, 0)[0].node), S.Blocks(up.node), S.Blocks(path[0].node), S.Blocks(n),
         N.Around(up.node, up.pos), S.Blocks(path[at].node), used, last);
  }

  lemma Used(r: multiset<nat>, up: multiset<nat>, root: multiset<nat>, n: multiset<nat>, a: multiset<nat>,
             x: multiset<nat>, s: multiset<nat>, b: multiset<nat>)
    requires r + up == root + n && up == a + x && n == a + (x + s) + b
    ensures r == root + (s + b)
  {
    assert n == up + (s + b);
    assert r + up == root + (s + b) + up;
    assert (r + up) - up == r && (root + (s + b) + up) - up == root + (s + b);
  }

  // The blocks of the nodes behind a position, in the node at level i.
  function BehindBlocks(path: seq<Frame>, height: nat, i: nat): multiset<nat>
    requires |path| == height + 1 && i <= height
    decreases height - i
  {
    if i == height then multiset{} else BehindBlocks(path, height, i + 1) + BehindEntry(path[i])
  }

  // Those behind one entry.
  function BehindEntry(f: Frame): multiset<nat> {
    if f.node.Index? && f.pos < |f.node.kids| then S.KidsBlocks(f.node.kids[f.pos + 1..]) else multiset{}
  }

  lemma {:induction false} LeftsBlocks(path: seq<Frame>, height: nat, i: nat)
    requires |path| == height + 1 && Linked(path) && AtLeaf(path[height]) && path[height].node.exts != [] && i <= height
    ensures S.Blocks(LeftsOf(path, height, i)[0].node) + BehindBlocks(path, height, i) == S.Blocks(path[i].node)
    decreases height - i
  {
    if i < height {
      LeftsBlocks(path, height, i + 1);
      N.LeftBlocks(path[i].node, path[i].pos, LeftsOf(path, height, i + 1)[0].node);
      N.NodeBlocks(path[i].node, path[i].pos);
      LeftsSum(S.Blocks(LeftsOf(path, height, i)[0].node), S.KidsBlocks(path[i].node.kids[path[i].pos + 1..]),
               N.Around(path[i].node, path[i].pos), S.Blocks(LeftsOf(path, height, i + 1)[0].node),
               BehindBlocks(path, height, i + 1), S.Blocks(path[i + 1].node));
    }
  }

  lemma LeftsSum(l: multiset<nat>, k: multiset<nat>, a: multiset<nat>, x: multiset<nat>, b: multiset<nat>,
                 child: multiset<nat>)
    requires l + k == a + x && x + b == child
    ensures l + (b + k) == a + child
  {
    assert l + (b + k) == (l + k) + b;
  }

  // The blocks of nodes that are lost when n levels were cut in vain: nothing frees them.
  function LostBlocks(path: seq<Frame>, height: nat, n: nat): multiset<nat>
    requires |path| == height + 1 && n <= height
  {
    if n == 0 then multiset{} else BehindBlocks(path, height, height - n + 1)
  }

  lemma BrokenBlocks(path: seq<Frame>, height: nat, n: nat)
    requires |path| == height + 1 && Linked(path) && AtLeaf(path[height]) && path[height].node.exts != [] && n <= height
    ensures S.Blocks(BrokenPath(path, height, n)[0].node) + LostBlocks(path, height, n) == S.Blocks(path[0].node)
  {
    if n > 0 {
      var a := height - n + 1;
      var left := LeftsOf(path, height, a)[0].node;
      LeftsBlocks(path, height, a);
      N.RiseBlocks(path, a, left, path[a].pos, false, 0);
      Dropped(S.Blocks(Rise(path, a, left, path[a].pos, false, 0)[0].node), S.Blocks(path[a].node),
              S.Blocks(path[0].node), S.Blocks(left), BehindBlocks(path, height, a));
    }
  }

  lemma Dropped(r: multiset<nat>, x: multiset<nat>, root: multiset<nat>, l: multiset<nat>, b: multiset<nat>)
    requires r + x == root + l && l + b == x
    ensures r + b == root
  {
    assert r + b + l == root + l;
    assert (r + b + l) - l == r + b && (root + l) - l == root;
  }

  // Cuts as many nodes as there are blocks for.
  method RunOut(path: seq<Frame>, height: nat, key: nat, space: nat, supply: seq<nat>) returns (out: seq<Frame>)
    requires |path| == height + 1 && Linked(path) && AtLeaf(path[height]) && path[height].node.exts != []
    requires |supply| <= height
    ensures out == BrokenPath(path, height, |supply|)
  {
    out := path;
    if |supply| > 0 {
      var a := height - |supply| + 1;
      var lefts, rights := CutNodes(path, height, a, key, space, supply);
      out := Store(path, a, lefts[0].node, path[a].pos, false, 0);
    }
  }

  // Splits the nodes of a path from the leaf up to level `at` and enters the new half into
  // the node above. The key of the new half is above the key on the path, so that its entry
  // goes behind that one. `supply` are the blocks that can be had for new nodes.
  method SplitNode(path: seq<Frame>, height: nat, at: nat, e: Extent, ghost combine: bool, space: nat, supply: seq<nat>)
    returns (ok: bool, out: seq<Frame>)
    requires EntryAt(path, height, e, combine, space) && Full(path[height].node) && path[height].node.exts != []
    requires 0 < at <= height
    ensures ok <==> height < at + |supply|
    ensures out == if ok then SplitPath(path, height, at, e, space, supply) else BrokenPath(path, height, |supply|)
  {
    var leaf, p := path[height].node, path[height].pos;
    var key := if p != leaf.max - 1 then leaf.exts[p + 1].first else e.first;
    if height >= at + |supply| {
      out := RunOut(path, height, key, space, supply);
      return false, out;
    }
    assert path[at - 1].node.kids[path[at - 1].pos].first < key by {
      CutOk(path, height, e, combine, space);
      LoRises(path, path[0].node, height, 0, LIMIT, at, height);
    }
    out := CutAndJoin(path, height, at, e, space, supply);
    return true, out;
  }

  // Cuts the nodes and enters the right half above the cut.
  method CutAndJoin(path: seq<Frame>, height: nat, at: nat, e: Extent, space: nat, supply: seq<nat>)
    returns (out: seq<Frame>)
    requires |path| == height + 1 && Linked(path) && AtLeaf(path[height]) && 0 < at <= height < at + |supply|
    requires path[height].node.exts != [] && Full(path[height].node)
    ensures out == SplitPath(path, height, at, e, space, supply)
  {
    var leaf, p := path[height].node, path[height].pos;
    var key := if p != leaf.max - 1 then leaf.exts[p + 1].first else e.first;
    var lefts, rights := CutNodes(path, height, at, key, space, supply);
    var up, goRight := path[at - 1], key <= e.first;
    var n := WithRight(up.node, up.pos, lefts[0].node, key, supply[height - at], rights[0].node);
    var above := Store(path, at - 1, n, if goRight then up.pos + 1 else up.pos, false, 0);
    out := above + if goRight then rights else lefts;
  }

  // How many nodes at the lower end of a path are full.
  function FullTail(path: seq<Frame>, k: nat): (n: nat)
    requires k < |path|
    ensures n <= k + 1
  {
    if !Full(path[k].node) then 0 else if k == 0 then 1 else 1 + FullTail(path, k - 1)
  }

  // The lowest node that has room for one more entry, or -1.
  method FindRoom(path: seq<Frame>, height: nat) returns (i: int)
    requires |path| == height + 1
    ensures i == height - FullTail(path, height) && (i >= 0 ==> !Full(path[i].node))
    ensures i < 0 ==> Full(path[0].node)
  {
    i := height;
    while i >= 0 && Full(path[i].node)
      invariant -1 <= i <= height && (i < height ==> Full(path[i + 1].node))
      invariant FullTail(path, height) == height - i + if i >= 0 then FullTail(path, i) else 0
    {
      i := i - 1;
    }
  }

  // ---------------------------------------------------------------- growing

  // The same position, one level further down.
  lemma GrownTarget(path: seq<Frame>, height: nat, e: Extent, combine: bool, space: nat, block: nat, out: seq<Frame>)
    requires EntryAt(path, height, e, combine, space) && Full(path[height].node)
    requires var t := path[0].node;
             && (if t.Leaf? then t.exts != [] else t.kids != [])
             && IsPath(out, Deeper(t, block, space), height + 1) && Taken(out, e.first) && Beside(path, space)
    ensures Beside(out, space)
    ensures EntryAt(out, height + 1, e, combine, space) && Flat(out[0].node) == Flat(path[0].node)
    ensures out == [Frame(Deeper(path[0].node, block, space), 0)] + Moved(path, space)
  {
    GrownOk(path[0].node, height, LIMIT, block, space);
    GrownPath(path, path[0].node, height, LIMIT, e.first, block, space, out);
    assert forall k :: 0 < k <= height ==> out[k + 1] == path[k];
    assert S.SiteFine(out[0].node, out[0].pos, space);
    forall k | 1 <= k < |out| - 1 ensures S.SiteFine(out[k].node, out[k].pos, space) {
      assert S.SiteFine(path[k - 1].node, path[k - 1].pos, space);
    }
  }

  // A path below a new root: the same positions in the same entries.
  predicate Under(path: seq<Frame>, p: seq<Frame>) {
    && path != [] && |p| == |path| + 1
    && p[0].pos == 0 && p[0].node.Index? && |p[0].node.kids| == 1
    && p[1].pos == path[0].pos
    && (|path| > 1 ==> p[1].node.Index? && path[0].node.Index? && p[1].node.kids == path[0].node.kids)
    && (|path| == 1 ==> p[1].node.Leaf? && path[0].node.Leaf? && p[1].node.exts == path[0].node.exts)
    && forall k :: 0 < k < |path| ==> p[k + 1] == path[k]
  }

  lemma {:induction false} GrownAround(path: seq<Frame>, p: seq<Frame>, k: nat)
    requires Linked(path) && Linked(p) && Under(path, p) && k < |path|
    ensures Before(p, k + 1) == Before(path, k) && After(p, k + 1) == After(path, k)
  {
    if k > 0 {
      GrownAround(path, p, k - 1);
    } else {
      assert p[0].node.kids[..0] == [] && p[0].node.kids[1..] == [];
      assert Before(p, 1) == [] + KidsFlat([]) && After(p, 1) == KidsFlat([]) + [];
    }
  }

  // A cut below a new root leaves what the same cut leaves without it.
  lemma GrownKept(path: seq<Frame>, p: seq<Frame>, height: nat, n: nat)
    requires |path| == height + 1 && Linked(path) && AtLeaf(path[height]) && path[height].node.exts != [] && n <= height
    requires Linked(p) && Under(path, p) && AtLeaf(p[height + 1]) && Flat(p[0].node) == Flat(path[0].node)
    ensures p[height + 1].node.exts != [] && Kept(p, height + 1, n) == Kept(path, height, n)
  {
    GrownAround(path, p, height);
    if n > 0 {
      GrownAround(path, p, height - n + 1);
    }
  }

  lemma {:induction false} SameBehind(path: seq<Frame>, p: seq<Frame>, height: nat, i: nat)
    requires |path| == height + 1 && |p| == height + 2 && i <= height
    requires forall k :: i <= k < height ==> BehindEntry(path[k]) == BehindEntry(p[k + 1])
    ensures BehindBlocks(p, height + 1, i + 1) == BehindBlocks(path, height, i)
    decreases height - i
  {
    if i < height {
      SameBehind(path, p, height, i + 1);
      assert BehindEntry(path[i]) == BehindEntry(p[i + 1]);
    }
  }

  lemma GrownBehind(path: seq<Frame>, p: seq<Frame>, height: nat, i: nat)
    requires |path| == height + 1 && Linked(path) && Linked(p) && Under(path, p) && i <= height
    ensures BehindBlocks(p, height + 1, i + 1) == BehindBlocks(path, height, i)
  {
    forall k | i <= k < height ensures BehindEntry(path[k]) == BehindEntry(p[k + 1]) {
    }
    SameBehind(path, p, height, i);
  }

  // Puts a new root above the old one and searches again.
  method Grow(path: seq<Frame>, height: nat, e: Extent, ghost combine: bool, space: nat, block: nat)
    returns (out: seq<Frame>)
    requires EntryAt(path, height, e, combine, space) && Full(path[height].node) && Full(path[0].node)
    requires Beside(path, space)
    ensures Beside(out, space)
    ensures EntryAt(out, height + 1, e, combine, space) && Flat(out[0].node) == Flat(path[0].node)
    ensures !Full(out[1].node) && (height > 0 ==> Full(out[height + 1].node))
    ensures Under(path, out) && S.Blocks(out[0].node) == S.Blocks(path[0].node) + multiset{block}
  {
    var t := path[0].node;
    var root := Deeper(t, block, space);
    N.OneKid(root.kids[0]);
    GrownOk(t, height, LIMIT, block, space);
    out := FindExtent(root, height + 1, e.first, 0, LIMIT);
    GrownTarget(path, height, e, combine, space, block, out);
  }

  // ---------------------------------------------------------------- the insertion

  // How many levels are cut before the blocks run out. The first block goes to a new root when
  // the whole path is full.
  function CutLevels(path: seq<Frame>, height: nat, have: nat): nat
    requires |path| == height + 1
  {
    if FullTail(path, height) == height + 1 && have > 0 then have - 1 else have
  }

  // What making room promises. Without enough blocks the tree has lost what was moved.
  ghost predicate RoomMade(path: seq<Frame>, height: nat, e: Extent, combine: bool, space: nat, n: nat,
                           ok: bool, out: seq<Frame>, height': nat)
    requires |path| == height + 1 && Linked(path) && AtLeaf(path[height])
  {
    && out != []
    && (ok ==>
          && EntryAt(out, height', e, combine, space) && !Full(out[height'].node) && Beside(out, space)
          && Flat(out[0].node) == Flat(path[0].node))
    && (!ok ==>
          && Good(out[0].node, height', space) && S.Fine(out[0].node, space)
          && path[height].node.exts != [] && n <= height && Flat(out[0].node) == Kept(path, height, n))
  }

  // Splits the full nodes at the end of the path.
  method SplitFull(path: seq<Frame>, height: nat, at: nat, e: Extent, ghost combine: bool, space: nat, supply: seq<nat>)
    returns (ok: bool, out: seq<Frame>)
    requires EntryAt(path, height, e, combine, space) && Full(path[height].node) && Beside(path, space)
    requires 0 < at <= height && !Full(path[at - 1].node)
    ensures RoomMade(path, height, e, combine, space, |supply|, ok, out, height)
    ensures ok <==> height < at + |supply|
    ensures ok ==> S.Blocks(out[0].node) == S.Blocks(path[0].node) + multiset(supply[..height - at + 1])
    ensures !ok ==> S.Blocks(out[0].node) + LostBlocks(path, height, |supply|) == S.Blocks(path[0].node)
  {
    CapsAt(path, path[0].node, height, height, space);
    if height < at + |supply| {
      SplitDone(path, height, at, e, combine, space, supply);
      SplitBeside(path, height, at, e, combine, space, supply);
      SplitBlocks(path, height, at, e, space, supply);
    } else {
      BrokenOk(path, height, e, combine, space, |supply|);
      BrokenBlocks(path, height, |supply|);
    }
    ok, out := SplitNode(path, height, at, e, combine, space, supply);
  }

  lemma FullFine(path: seq<Frame>, height: nat, e: Extent, combine: bool, space: nat)
    requires EntryAt(path, height, e, combine, space) && Full(path[height].node) && Beside(path, space)
    ensures S.Fine(path[0].node, space) && path[height].node.exts != []
  {
    CapsAt(path, path[0].node, height, height, space);
    BesideFine(path, path[0].node, height, space, 0);
  }

  // Makes room for an entry: splits the full nodes at the end of the path, after growing the
  // tree by a level when all are full. It needs a block for each full node.
  method MakeRoom(path: seq<Frame>, height: nat, e: Extent, ghost combine: bool, space: nat, supply: seq<nat>)
    returns (ok: bool, out: seq<Frame>, height': nat)
    requires EntryAt(path, height, e, combine, space) && Full(path[height].node) && Beside(path, space)
    ensures RoomMade(path, height, e, combine, space, CutLevels(path, height, |supply|), ok, out, height')
    ensures ok <==> FullTail(path, height) <= |supply|
    ensures NodesKept(path, height, supply, ok, out[0].node)
  {
    var i := FindRoom(path, height);
    height' := height;
    FullFine(path, height, e, combine, space);
    if i >= 0 {
      ok, out := SplitFull(path, height, i + 1, e, combine, space, supply);
    } else if |supply| == 0 {
      ok, out := false, path;
    } else {
      height' := height + 1;
      var p := Grow(path, height, e, combine, space, supply[0]);
      ok, out := true, p;
      if height > 0 {
        ok, out := SplitFull(p, height', 2, e, combine, space, supply[1..]);
        if !ok {
          GrownKept(path, p, height, |supply| - 1);
        }
        GrownNodes(path, p, height, supply, ok, out[0].node);
      } else {
        assert supply[..1] == [supply[0]];
      }
    }
  }

  // What making room does to the blocks of nodes: one of the supply for each full node, or a
  // new root and the loss of what was cut.
  ghost predicate NodesKept(path: seq<Frame>, height: nat, supply: seq<nat>, ok: bool, root: Tree)
    requires |path| == height + 1
  {
    var need, n := FullTail(path, height), CutLevels(path, height, |supply|);
    if ok then need <= |supply| && S.Blocks(root) == S.Blocks(path[0].node) + multiset(supply[..need])
    else
      && n <= height
      && S.Blocks(root) + LostBlocks(path, height, n) ==
         S.Blocks(path[0].node) + (if need == height + 1 && supply != [] then multiset{supply[0]} else multiset{})
  }

  lemma FirstAndMore(supply: seq<nat>, n: nat)
    requires n < |supply|
    ensures multiset(supply[..n + 1]) == multiset{supply[0]} + multiset(supply[1..][..n])
  {
    assert supply[..n + 1] == [supply[0]] + supply[1..][..n];
  }

  lemma GrownNodes(path: seq<Frame>, p: seq<Frame>, height: nat, supply: seq<nat>, ok: bool, root: Tree)
    requires |path| == height + 1 && Linked(path) && Linked(p) && Under(path, p) && supply != [] && height > 0
    requires FullTail(path, height) == height + 1 && S.Blocks(p[0].node) == S.Blocks(path[0].node) + multiset{supply[0]}
    requires ok <==> height < |supply|
    requires ok ==> S.Blocks(root) == S.Blocks(p[0].node) + multiset(supply[1..][..height])
    requires !ok ==> S.Blocks(root) + LostBlocks(p, height + 1, |supply| - 1) == S.Blocks(p[0].node)
    ensures NodesKept(path, height, supply, ok, root)
  {
    if ok {
      FirstAndMore(supply, height);
    } else if |supply| > 1 {
      GrownBehind(path, p, height, height - |supply| + 2);
    }
  }

  // What one try of the insertion promises for the tree it leaves.
  ghost predicate Tried(path: seq<Frame>, height: nat, e: Extent, combine: bool, space: nat, out: Outcome,
                        r: seq<Frame>)
    requires |path| == height + 1 && Linked(path) && AtLeaf(path[height])
  {
    match out
    case Exists => r == path
    case NeedSplit => EntryAt(path, height, e, combine, space) && Full(path[height].node)
    case Done =>
      && |r| == height + 1 && S.Fine(r[0].node, space) && IsPath(r, r[0].node, height)
      && (AddsExactly(Flat(path[0].node), e, Flat(r[0].node)) <==> Exact(path, height, e, combine))
      && (Good(r[0].node, height, space) <==> !Lowered(path, height, e, combine))
      && (WayOf(path[height].node.exts, path[height].pos, e, combine).Entry? ==> Stands(r[height], e))
      && Lists(path, height, e, combine, Flat(r[0].node)) && S.Blocks(r[0].node) == S.Blocks(path[0].node)
  }

  // The list afterwards: with the extent in its place, or with the neighbour changed.
  ghost predicate Lists(path: seq<Frame>, height: nat, e: Extent, combine: bool, out: seq<Extent>)
    requires |path| == height + 1 && Linked(path) && AtLeaf(path[height])
  {
    var leaf, pos := path[height].node, path[height].pos;
    if WayOf(leaf.exts, pos, e, combine).Entry? then out == Placed(Flat(path[0].node), e)
    else out == Before(path, height) + NewExtents(leaf.exts, pos, e, combine) + After(path, height)
  }

  lemma InsertLists(path: seq<Frame>, t: Tree, height: nat, e: Extent, combine: bool)
    requires Wf(t, height, 0, LIMIT) && Target(path, t, height, e) && !Occupied(path, height, e)
    ensures Lists(path, height, e, combine, Flat(AfterInsert(path, height, e, combine)[0].node))
  {
    var leaf, pos := path[height].node, path[height].pos;
    var entry, exts := WayOf(leaf.exts, pos, e, combine).Entry?, NewExtents(leaf.exts, pos, e, combine);
    RiseFlat(path, height, leaf.(exts := exts), if entry then Slot(leaf.exts, pos, e) else pos, entry && pos == 0,
             exts[0].first);
    if entry {
      PlacedThere(path, t, height, e);
    }
  }

  // An entry in the gap that a search found has its place in the whole list.
  lemma PlacedThere(path: seq<Frame>, t: Tree, height: nat, e: Extent)
    requires Wf(t, height, 0, LIMIT) && Target(path, t, height, e) && !Occupied(path, height, e)
    ensures var exts, pos := path[height].node.exts, path[height].pos;
            var k := Slot(exts, pos, e);
            Before(path, height) + (exts[..k] + [e] + exts[k..]) + After(path, height) == Placed(Flat(t), e)
  {
    var exts, pos, x, z := path[height].node.exts, path[height].pos, Before(path, height), After(path, height);
    var k := Slot(exts, pos, e);
    PathFlat(path, t, height, height);
    BelowSlot(path, t, height, e);
    PlacedBetween(x, exts, k, z, e);
  }

  lemma BelowSlot(path: seq<Frame>, t: Tree, height: nat, e: Extent)
    requires Wf(t, height, 0, LIMIT) && Target(path, t, height, e) && !Occupied(path, height, e)
    ensures var exts, pos, x, z := path[height].node.exts, path[height].pos, Before(path, height), After(path, height);
            var k := Slot(exts, pos, e);
            && (forall i :: 0 <= i < |x| ==> x[i].first <= e.first)
            && (forall i :: 0 <= i < k ==> exts[i].first <= e.first)
            && (k < |exts| ==> e.first < exts[k].first) && (z != [] ==> e.first < z[0].first)
  {
    var exts, pos := path[height].node.exts, path[height].pos;
    NodeWf(path, t, height, 0, LIMIT, height);
    BeforeBelow(path, t, height, 0, LIMIT, height, e.first);
    AfterAbove(path, t, height, 0, LIMIT, height);
    assert forall i :: 0 <= i < pos && i < |exts| ==> exts[i].End() <= exts[pos].first;
  }

  lemma PlacedBetween(x: seq<Extent>, exts: seq<Extent>, k: nat, z: seq<Extent>, e: Extent)
    requires k <= |exts| && (forall i :: 0 <= i < |x| ==> x[i].first <= e.first)
    requires (forall i :: 0 <= i < k ==> exts[i].first <= e.first)
    requires (k < |exts| ==> e.first < exts[k].first) && (z != [] ==> e.first < z[0].first)
    ensures x + (exts[..k] + [e] + exts[k..]) + z == Placed(x + exts + z, e)
  {
    Seqs.Halves(exts, k);
    PlacedHalves(x, exts[..k], exts[k..], z, e);
  }

  lemma PlacedHalves(x: seq<Extent>, l: seq<Extent>, r: seq<Extent>, z: seq<Extent>, e: Extent)
    requires forall i :: 0 <= i < |x| ==> x[i].first <= e.first
    requires forall i :: 0 <= i < |l| ==> l[i].first <= e.first
    requires (r != [] ==> e.first < r[0].first) && (z != [] ==> e.first < z[0].first)
    ensures x + (l + [e] + r) + z == Placed(x + (l + r) + z, e)
  {
    AroundOne(x, l, r, z, e);
    PlacedAfter(x + l, r + z, e);
  }

  lemma AroundOne(x: seq<Extent>, l: seq<Extent>, r: seq<Extent>, z: seq<Extent>, e: Extent)
    ensures x + (l + [e] + r) + z == x + l + [e] + (r + z)
    ensures x + (l + r) + z == x + l + (r + z)
  {
  }

  lemma PlacedAfter(a: seq<Extent>, b: seq<Extent>, e: Extent)
    requires (forall i :: 0 <= i < |a| ==> a[i].first <= e.first) && (b != [] ==> e.first < b[0].first)
    ensures Placed(a + b, e) == a + [e] + b
  {
    PlacedAt(a + b, |a|, e);
    assert (a + b)[..|a|] == a && (a + b)[|a|..] == b;
  }

  // The position is that of the extent.
  predicate Stands(f: Frame, e: Extent) { f.node.Leaf? && f.pos < |f.node.exts| && f.node.exts[f.pos] == e }

  predicate Occupied(path: seq<Frame>, height: nat, e: Extent)
    requires |path| == height + 1 && AtLeaf(path[height])
  {
    path[height].node.exts != [] && path[height].node.exts[path[height].pos].first == e.first
  }

  method TryInsert(path: seq<Frame>, height: nat, e: Extent, combine: bool, space: nat)
    returns (out: Outcome, r: seq<Frame>)
    requires |path| == height + 1 && Good(path[0].node, height, space) && Target(path, path[0].node, height, e)
    requires Beside(path, space)
    ensures out == Exists <==> Occupied(path, height, e)
    ensures out == NeedSplit <==> out != Exists && 0 < BlocksFor(path, height, e, combine)
    ensures Tried(path, height, e, combine, space, out, r)
  {
    NodeWf(path, path[0].node, height, 0, LIMIT, height);
    out, r := InsertLeaf(path, height, e, combine);
    if out == Done {
      InsertMaps(path, path[0].node, height, space, e, combine);
      InsertFine(path, path[0].node, height, space, e, combine);
      InsertGood(path, path[0].node, height, space, e, combine);
      InsertStands(path, height, e, combine);
      InsertLists(path, path[0].node, height, e, combine);
      InsertBlocks(path, height, e, combine);
    }
  }

  lemma InsertBlocks(path: seq<Frame>, height: nat, e: Extent, combine: bool)
    requires |path| == height + 1 && Linked(path) && AtLeaf(path[height])
    ensures S.Blocks(AfterInsert(path, height, e, combine)[0].node) == S.Blocks(path[0].node)
  {
    var leaf, pos := path[height].node, path[height].pos;
    var entry, exts := WayOf(leaf.exts, pos, e, combine).Entry?, NewExtents(leaf.exts, pos, e, combine);
    var r := Rise(path, height, leaf.(exts := exts), if entry then Slot(leaf.exts, pos, e) else pos, entry && pos == 0,
                  exts[0].first);
    N.RiseBlocks(path, height, leaf.(exts := exts), if entry then Slot(leaf.exts, pos, e) else pos, entry && pos == 0,
                 exts[0].first);
    assert S.Blocks(path[height].node) == multiset{} && S.Blocks(leaf.(exts := exts)) == multiset{};
    assert S.Blocks(r[0].node) == S.Blocks(r[0].node) + multiset{};
  }

  lemma InsertStands(path: seq<Frame>, height: nat, e: Extent, combine: bool)
    requires |path| == height + 1 && Linked(path) && AtLeaf(path[height])
    ensures var r := AfterInsert(path, height, e, combine);
            && IsPath(r, r[0].node, height)
            && (WayOf(path[height].node.exts, path[height].pos, e, combine).Entry? ==> Stands(r[height], e))
  {
    var leaf, pos := path[height].node, path[height].pos;
    var entry, exts := WayOf(leaf.exts, pos, e, combine).Entry?, NewExtents(leaf.exts, pos, e, combine);
    RiseLinked(path, height, leaf.(exts := exts), if entry then Slot(leaf.exts, pos, e) else pos, entry && pos == 0,
               exts[0].first);
  }

  // The blocks for new nodes that an insertion needs: one for each full node at the end of the
  // path, if the extent gets an entry of its own.
  function BlocksFor(path: seq<Frame>, height: nat, e: Extent, combine: bool): nat
    requires |path| == height + 1 && AtLeaf(path[height])
  {
    if WayOf(path[height].node.exts, path[height].pos, e, combine).Entry? then FullTail(path, height) else 0
  }

  // Inserts an extent at the position that a search found, retrying after making room. It
  // adds exactly the mapping of the extent if and only if the first try does not take the
  // prepend branch or append to an extent of the other written state. Without enough blocks
  // for new nodes nothing is added, and what was moved is lost.
  method InsertExtent(path: seq<Frame>, height: nat, e: Extent, combine: bool, space: nat, supply: seq<nat>)
    returns (status: Status, r: seq<Frame>, height': nat)
    requires |path| == height + 1 && Good(path[0].node, height, space) && Target(path, path[0].node, height, e)
    requires S.Fine(path[0].node, space)
    ensures status == Present <==> Occupied(path, height, e)
    ensures status == NoSpace <==> !Occupied(path, height, e) && |supply| < BlocksFor(path, height, e, combine)
    ensures r != [] && S.Fine(r[0].node, space)
    ensures status == Present ==> r == path && height' == height
    ensures status == Stored ==>
              && IsPath(r, r[0].node, height')
              && (AddsExactly(Flat(path[0].node), e, Flat(r[0].node)) <==> Exact(path, height, e, combine))
              && (Good(r[0].node, height', space) <==> !Lowered(path, height, e, combine))
              && (WayOf(path[height].node.exts, path[height].pos, e, combine).Entry? ==> Stands(r[height'], e))
              && Lists(path, height, e, combine, Flat(r[0].node))
              && S.Blocks(r[0].node) == S.Blocks(path[0].node) + multiset(supply[..BlocksFor(path, height, e, combine)])
    ensures status == NoSpace ==>
              && Good(r[0].node, height', space)
              && path[height].node.exts != [] && CutLevels(path, height, |supply|) <= height
              && Flat(r[0].node) == Kept(path, height, CutLevels(path, height, |supply|))
              && NodesKept(path, height, supply, false, r[0].node)
  {
    FineBeside(path, path[0].node, height, space);
    var p, out := path, Done;
    height' := height;
    out, r := TryInsert(p, height', e, combine, space);
    while out == NeedSplit
      invariant |p| == height' + 1 && Linked(p) && AtLeaf(p[height']) && Tried(p, height', e, combine, space, out, r)
      invariant || (p == path && height' == height && (out == Exists <==> Occupied(path, height, e))
                    && (out == NeedSplit <==> out != Exists && 0 < BlocksFor(path, height, e, combine)))
                || (out == Done && EntryAt(p, height', e, combine, space) && EntryAt(path, height, e, combine, space)
                    && Flat(p[0].node) == Flat(path[0].node) && NodesKept(path, height, supply, true, p[0].node))
      decreases out == NeedSplit
    {
      var ok;
      ok, p, height' := MakeRoom(p, height', e, combine, space, supply);
      if !ok {
        return NoSpace, p, height';
      }
      out, r := TryInsert(p, height', e, combine, space);
    }
    status := if out == Exists then Present else Stored;
  }

  // ---------------------------------------------------------------- creating a block

  // A search never leaves the range that holds its block.
  lemma {:induction false} HiAbove(path: seq<Frame>, b: nat, k: nat, hi: nat)
    requires Linked(path) && Taken(path, b) && k < |path| && b < hi
    ensures b < HiAt(path, k, hi)
  {
    if k > 0 {
      HiAbove(path, b, k - 1, hi);
      assert Chosen(path[k - 1], b);
    }
  }

  // A search for a block in a hole ends at the gap that holds it.
  lemma HoleTarget(path: seq<Frame>, t: Tree, height: nat, space: nat, e: Extent)
    requires Good(t, height, space) && IsPath(path, t, height) && Taken(path, e.first)
    requires e.Len() == 1 && e.first < LIMIT
    requires path[height].node.exts != [] ==> !path[height].node.exts[path[height].pos].Covers(e.first)
    ensures Target(path, t, height, e) && !Occupied(path, height, e)
  {
    NodeWf(path, t, height, 0, LIMIT, height);
    HiAbove(path, e.first, height, LIMIT);
    assert Chosen(path[height], e.first);
  }
}
