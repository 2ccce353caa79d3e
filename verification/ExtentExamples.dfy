// Inputs on which operations on an extent tree do not do what is asked of them.

module ExtentExamples {
  import opened ExtentTree
  import opened ExtentLookup
  import opened ExtentLeaf
  import opened ExtentCut
  import opened ExtentInode
  import opened ExtentFile
  import opened ExtentShort
  import opened ExtentMerge
  import opened ExtentConvert
  import opened ExtentRemove
  import P = ExtentPath
  import S = ExtentStack
  import SP = ExtentSplitPath

  // ---------------------------------------------------------------- a split without blocks

  // A tree of three levels: the first leaf and the node above it are full, the root is not.
  function FullLeaf(): Tree {
    Leaf(5, [Extent(0, 1, 100), Extent(10, 1, 110), Extent(20, 1, 120), Extent(30, 1, 130), Extent(40, 1, 140)])
  }

  function SmallLeaf(b: nat): Tree { Leaf(5, [Extent(b, 1, 100 + b)]) }

  function FullNode(): Tree {
    Index(5, [Kid(0, 21, FullLeaf()), Kid(50, 22, SmallLeaf(50)), Kid(60, 23, SmallLeaf(60)),
              Kid(70, 24, SmallLeaf(70)), Kid(80, 25, SmallLeaf(80))])
  }

  function FullTree(): Tree { Index(4, [Kid(0, 20, FullNode())]) }

  function FullPath(): seq<Frame> { [Frame(FullTree(), 0), Frame(FullNode(), 0), Frame(FullLeaf(), 0)] }

  lemma FullNodeOk()
    ensures Wf(FullNode(), 1, 0, LIMIT) && SP.Caps(FullNode(), 5) && S.Fine(FullNode(), 5)
  {
    var kids := FullNode().kids;
    forall i | 0 <= i < |kids|
      ensures KidWf(kids, i, 1, LIMIT) && SP.KidCaps(kids[i], 5) && S.KidFine(kids[i], 5)
    {
      if i == 0 {
        FullLeafOk();
      } else {
        SmallLeafOk(40 + 10 * i, KidEnd(kids, i, LIMIT));
      }
    }
  }

  lemma FullLeafOk()
    ensures Wf(FullLeaf(), 0, 0, 50) && SP.Caps(FullLeaf(), 5) && S.Fine(FullLeaf(), 5) && !S.Empty(FullLeaf())
  {
  }

  lemma SmallLeafOk(b: nat, hi: nat)
    requires b < hi
    ensures Wf(SmallLeaf(b), 0, b, hi) && SP.Caps(SmallLeaf(b), 5) && S.Fine(SmallLeaf(b), 5) && !S.Empty(SmallLeaf(b))
  {
  }

  lemma FullTreeOk()
    ensures Good(FullTree(), 2, 5) && S.Fine(FullTree(), 5)
  {
    FullNodeOk();
    var kids := FullTree().kids;
    assert KidWf(kids, 0, 2, LIMIT) && SP.KidCaps(kids[0], 5) && S.KidFine(kids[0], 5);
  }

  // Block 5 needs two new nodes. With one block for them the extents from block 10 to 40 are
  // gone.
  lemma SplitLoses()
    ensures var path, e := FullPath(), Extent(5, 1, 300);
            && Good(FullTree(), 2, 5) && S.Fine(FullTree(), 5) && Target(path, FullTree(), 2, e)
            && BlocksFor(path, 2, e, true) == 2 && CutLevels(path, 2, 1) == 1
            && Extent(10, 1, 110) in Flat(FullTree()) && Extent(10, 1, 110) !in Kept(path, 2, 1)
  {
    var path, e := FullPath(), Extent(5, 1, 300);
    FullTreeOk();
    PathOk(path, e);
    TwoFull(path, e);
    Lost();
    KeptOthers(path);
  }

  lemma TwoFull(path: seq<Frame>, e: Extent)
    requires path == FullPath() && e == Extent(5, 1, 300)
    ensures BlocksFor(path, 2, e, true) == 2 && CutLevels(path, 2, 1) == 1
  {
    assert FullTail(path, 0) == 0 && FullTail(path, 1) == 1 && FullTail(path, 2) == 2;
  }

  lemma Lost()
    ensures Extent(10, 1, 110) in Flat(FullTree())
  {
    assert FullLeaf().exts[1] == Extent(10, 1, 110);
    MemberOfKid(FullNode().kids, 0, Extent(10, 1, 110));
    MemberOfKid(FullTree().kids, 0, Extent(10, 1, 110));
  }

  lemma PathOk(path: seq<Frame>, e: Extent)
    requires path == FullPath() && e == Extent(5, 1, 300)
    ensures Target(path, FullTree(), 2, e)
  {
    assert Chosen(path[0], 5) && Chosen(path[1], 5) && Chosen(path[2], 5);
    assert P.HiAt(path, 0, LIMIT) == LIMIT && P.HiAt(path, 1, LIMIT) == LIMIT && P.HiAt(path, 2, LIMIT) == 50;
  }

  lemma KeptOthers(path: seq<Frame>)
    requires path == FullPath()
    ensures Linked(path) && Extent(10, 1, 110) !in Kept(path, 2, 1)
  {
    var kids := FullNode().kids;
    FullAround(path);
    assert FullLeaf().exts[..1] == [Extent(0, 1, 100)];
    NotInKids(kids[1..], Extent(10, 1, 110));
  }

  lemma NotInKids(kids: seq<Kid>, e: Extent)
    requires forall j :: 0 <= j < |kids| ==> e !in Flat(kids[j].tree)
    ensures e !in KidsFlat(kids)
  {
    if e in KidsFlat(kids) {
      var j := KidsMember(kids, e);
    }
  }

  lemma FullAround(path: seq<Frame>)
    requires path == FullPath()
    ensures Linked(path) && P.Before(path, 2) == [] && P.After(path, 2) == KidsFlat(FullNode().kids[1..])
  {
    var kids := FullNode().kids;
    assert FullTree().kids[..0] == [] && kids[..0] == [] && FullTree().kids[1..] == [];
    assert P.Before(path, 1) == [] + KidsFlat([]) && P.Before(path, 2) == P.Before(path, 1) + KidsFlat([]);
    assert P.After(path, 1) == KidsFlat([]) + P.After(path, 0);
    assert P.After(path, 2) == KidsFlat(kids[1..]) + P.After(path, 1);
  }

  // ---------------------------------------------------------------- a key left behind

  // Block 9 in front of a leaf that starts with block 10: the key of the leaf stays 10.
  lemma KeyLeftBehind()
    ensures var leaf := Leaf(5, [Extent(10, 1, 110)]);
            var t := Index(4, [Kid(10, 20, leaf)]);
            var path, e := [Frame(t, 0), Frame(leaf, 0)], Extent(9, 1, 109);
            && Good(t, 1, 5) && Target(path, t, 1, e) && Lowered(path, 1, e, true)
            && !Good(AfterInsert(path, 1, e, true)[0].node, 1, 5)
  {
    var leaf := Leaf(5, [Extent(10, 1, 110)]);
    var t := Index(4, [Kid(10, 20, leaf)]);
    var path, e := [Frame(t, 0), Frame(leaf, 0)], Extent(9, 1, 109);
    assert KidWf(t.kids, 0, 1, LIMIT) && SP.KidCaps(t.kids[0], 5);
    assert Chosen(path[0], 9) && Chosen(path[1], 9);
    assert P.HiAt(path, 0, LIMIT) == LIMIT && P.HiAt(path, 1, LIMIT) == LIMIT;
    InsertGood(path, t, 1, 5, e, true);
  }

  function HidingTree(): Tree {
    Index(4, [Kid(0, 20, Leaf(5, [Extent(0, 1, 100)])), Kid(1, 21, Leaf(5, [Extent(9, 1, 300)]))])
  }

  // A key below the first extent of its leaf hides a neighbour: block 1 belongs behind block 0
  // in the file and on the device, but the search ends in the leaf with key 1.
  lemma NeighbourHidden()
    ensures var x, t := Extent(0, 1, 100), HidingTree();
            && Wf(t, 1, 0, LIMIT) && x in Flat(t) && Hole(Flat(t), 1) && Precedes(x, 1, 101)
            && Reached(t, 1, 1) == [Extent(9, 1, 300)]
  {
    HidingOk();
    HidingFlat();
    var kids := HidingTree().kids;
    assert Keys(kids) == [0, 1];
    assert LastAt([0, 1], 1) == 1;
  }

  lemma HidingOk()
    ensures Wf(HidingTree(), 1, 0, LIMIT)
  {
    var kids := HidingTree().kids;
    assert KidWf(kids, 0, 1, LIMIT) && KidWf(kids, 1, 1, LIMIT);
  }

  lemma HidingFlat()
    ensures Flat(HidingTree()) == [Extent(0, 1, 100), Extent(9, 1, 300)]
  {
    var kids := HidingTree().kids;
    assert kids[1..] == [kids[1]];
    KidsOne(kids[1]);
    assert KidsFlat(kids) == KidFlat(kids[0]) + KidsFlat(kids[1..]);
  }

  // The root leaf of an inode is full, and there is no block for nodes: block 31 on physical
  // block 401 is stored all the same, by making the last extent longer.
  lemma FullRootGrows(supply: seq<nat>, status: Status, root: Tree, height: nat)
    requires var t := Leaf(4, [Extent(0, 1, 100), Extent(10, 1, 200), Extent(20, 1, 300), Extent(30, 1, 400)]);
             Sane(t, 0, 5) && Created(t, 0, Extent(31, 1, 401), 5, supply, status, root, height)
    ensures status == Stored
    ensures Flat(root) == [Extent(0, 1, 100), Extent(10, 1, 200), Extent(20, 1, 300), Extent(30, 2, 400)]
  {
    var x := Extent(30, 1, 400);
    var t := Leaf(4, [Extent(0, 1, 100), Extent(10, 1, 200), Extent(20, 1, 300), x]);
    assert Reached(t, 0, 31) == t.exts && t.exts[3] == x;
    CreateGrows(t, 0, 31, 401, 5, supply, status, root, height, x);
  }

  // ---------------------------------------------------------------- removals

  // A range that starts in a hole is left as it is: block 5 stays mapped.
  lemma HoleStops(have: nat, ok: bool, root: Tree, height: nat, log: Log)
    requires RangeRemoved(Leaf(4, [Extent(5, 1, 105)]), 0, 3, 6, 5, have, ok, root, height, log)
    ensures ok && Maps(Flat(root), 5, 105, false) && !RemovesExactly([Extent(5, 1, 105)], 3, 6, Flat(root))
  {
    var t := Leaf(4, [Extent(5, 1, 105)]);
    assert root == t;
    assert MapsOne(Flat(root)[0], 5, 105, false);
    RemovalExact(t, 0, 3, 6, 5, have, ok, root, height, log);
    assert Meets(Flat(t)[0], 3, 6);
  }

  // Blocks 4 and 5 in the middle of an extent are unmapped, but their physical blocks are not
  // freed.
  lemma InteriorLeaks(have: nat, ok: bool, root: Tree, height: nat, log: Log)
    requires RangeRemoved(Leaf(4, [Extent(0, 10, 100)]), 0, 4, 5, 5, have, ok, root, height, log)
    ensures Backs([Extent(0, 10, 100)], 4, 5, 104) && !InRuns(log.runs, 104) && !Maps(Flat(root), 4, 104, false)
  {
    var s := [Extent(0, 10, 100)];
    assert Extent(0, 10, 100) in Flat(Leaf(4, s));
    assert Interior(s[0], 4, 5);
    assert MapsOne(s[0], 4, 104, false);
    assert Maps(s, 4, 104, false) && Within(4, 4, 5);
  }

  // ---------------------------------------------------------------- conversion

  // Blocks 4 and 5 of ten unwritten ones: after the two splits the first part still maps block
  // 4 as unwritten, and the part made for it has a physical block 2^32 too high.
  lemma MiddleStays()
    ensures var e, y := Extent(0, MarkUnwritten(10), 100), Extent(6, MarkUnwritten(4), 106);
            var split := [Part(e, 0, 6, true), y];
            var x := y.(count := MarkUnwritten(Wrap16(Wrap32(4 - 6))));
            var z := Extent(4, Wrap16(4 - Wrap32(4 - 6)), Wrap32(4 - 6) + 106);
            var out := NewExtents(split[1 := x], 1, z, false);
            && out == [Extent(0, MarkUnwritten(6), 100), Extent(4, 6, 0x1_0000_0000 + 104), Extent(6, 65534, 106)]
            && Maps(out, 4, 104, true) && !Converts([e], 4, 2, out)
  {
    var e, y := Extent(0, MarkUnwritten(10), 100), Extent(6, MarkUnwritten(4), 106);
    var out := [Extent(0, MarkUnwritten(6), 100), Extent(4, 6, 0x1_0000_0000 + 104), Extent(6, 65534, 106)];
    assert MapsOne(out[0], 4, 104, true);
    NotConverted([e], 4, 2, out, 104);
  }
}
