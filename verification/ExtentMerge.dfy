// When mapping a block makes a neighbour longer and when it makes an entry, told from the list
// of extents alone.

module ExtentMerge {
  import opened ExtentTree
  import opened ExtentLookup
  import opened ExtentLeaf
  import opened ExtentInode
  import opened ExtentShort
  import opened ExtentFile
  import P = ExtentPath

  // ---------------------------------------------------------------- neighbours

  // Most blocks that an extent can have: the top bit of the count marks unwritten ones.
  function MostBlocks(x: Extent): nat { if x.Unwritten() then 32767 else 32768 }

  // An extent that ends right before a block, in the file and on the device, with room for it.
  predicate Precedes(x: Extent, b: nat, block: nat) {
    0 < x.Len() < MostBlocks(x) && x.first + x.Len() == b && x.start + x.Len() == block
  }

  // And one that starts right behind it.
  predicate Succeeds(x: Extent, b: nat, block: nat) {
    0 < x.Len() < MostBlocks(x) && b + 1 == x.first && block + 1 == x.start
  }

  // The list with one extent exchanged for another.
  function Exchanged(s: seq<Extent>, x: Extent, y: Extent): (r: seq<Extent>)
    ensures |r| == |s| && forall i :: 0 <= i < |s| ==> r[i] == if s[i] == x then y else s[i]
  {
    seq(|s|, i requires 0 <= i < |s| => if s[i] == x then y else s[i])
  }

  // The leaf where a search for a block ends.
  function Reached(t: Tree, height: nat, b: nat): (s: seq<Extent>)
    requires Wf(t, height, 0, LIMIT)
    ensures forall x :: x in s ==> x in Flat(t)
  {
    SearchPathOk(t, height, b, 0, LIMIT);
    var path := SearchPath(t, height, b, 0, LIMIT);
    P.PathFlat(path, t, height, height);
    path[height].node.exts
  }

  lemma ExchangedAt(a: seq<Extent>, exts: seq<Extent>, z: seq<Extent>, pos: nat, y: Extent, lo: nat, hi: nat)
    requires pos < |exts| && Chain(a + exts + z, lo, hi)
    ensures a + exts[pos := y] + z == Exchanged(a + exts + z, exts[pos], y)
  {
    var s, out, k := a + exts + z, a + exts[pos := y] + z, |a| + pos;
    assert s[k] == exts[pos];
    forall i | 0 <= i < |s| ensures out[i] == Exchanged(s, exts[pos], y)[i] {
      assert out[i] == if i == k then y else s[i];
      if s[i] == s[k] {
        SameIndex(s, i, k, lo, hi);
      }
    }
  }

  lemma SameIndex(s: seq<Extent>, i: nat, k: nat, lo: nat, hi: nat)
    requires Chain(s, lo, hi) && i < |s| && k < |s| && (s[i] == s[k] || s[i].End() == s[k].End())
    ensures i == k
  {
  }

  // ---------------------------------------------------------------- the three cases

  // The position that a search takes next to an extent that ends at its block.
  lemma AtNeighbour(t: Tree, height: nat, b: nat, x: Extent)
    requires Wf(t, height, 0, LIMIT) && Hole(Flat(t), b) && x in Reached(t, height, b) && 0 < x.Len() && x.End() == b
    ensures var path := SearchPath(t, height, b, 0, LIMIT);
            IsPath(path, t, height) && path[height].node.exts != [] && path[height].node.exts[path[height].pos] == x
  {
    var path := SearchPath(t, height, b, 0, LIMIT);
    SearchPathOk(t, height, b, 0, LIMIT);
    var exts := Reached(t, height, b);
    LeafChain(path, t, height, 0, LIMIT);
    assert Chosen(path[height], b);
    var j :| 0 <= j < |exts| && exts[j] == x;
    if j + 1 < |exts| {
      assert exts[j + 1] in exts;
      assert exts[j + 1].Covers(exts[j + 1].first);
    }
    FirstsRise(exts, 0, LIMIT);
    OnlySlot(Firsts(exts), b, path[height].pos, j);
  }

  lemma FirstsRise(exts: seq<Extent>, lo: nat, hi: nat)
    requires Chain(exts, lo, hi)
    ensures Rising(Firsts(exts))
  {
    forall i, j | 0 <= i < j < |exts| ensures Firsts(exts)[i] <= Firsts(exts)[j] {
      assert exts[i].End() <= exts[j].first;
    }
  }

  // A neighbour before the block, in the leaf that the search reaches, grows by one block and
  // keeps its state. This needs no block for nodes, so it never fails.
  lemma CreateGrows(t: Tree, height: nat, b: nat, block: nat, space: nat, supply: seq<nat>, status: Status, root: Tree,
                    height': nat, x: Extent)
    requires Sane(t, height, space) && b < LIMIT && Hole(Flat(t), b)
    requires Created(t, height, Extent(b, 1, block), space, supply, status, root, height')
    requires x in Reached(t, height, b) && Precedes(x, b, block)
    ensures status == Stored && Flat(root) == Exchanged(Flat(t), x, x.(count := x.count + 1))
  {
    var path, e := SearchPath(t, height, b, 0, LIMIT), Extent(b, 1, block);
    AtNeighbour(t, height, b, x);
    assert WayOf(path[height].node.exts, path[height].pos, e, true) == Append;
    assert Grown(x, e) == x.(count := x.count + 1);
    ListExchanged(path, t, height, Grown(x, e));
  }

  lemma ListExchanged(path: seq<Frame>, t: Tree, height: nat, y: Extent)
    requires Wf(t, height, 0, LIMIT) && IsPath(path, t, height) && path[height].node.exts != []
    ensures var exts, pos := path[height].node.exts, path[height].pos;
            P.Before(path, height) + exts[pos := y] + P.After(path, height) == Exchanged(Flat(t), exts[pos], y)
  {
    P.PathFlat(path, t, height, height);
    FlatChain(t, height, 0, LIMIT);
    ExchangedAt(P.Before(path, height), path[height].node.exts, P.After(path, height), path[height].pos, y, 0, LIMIT);
  }

  // A neighbour behind the block is taken only when it is the first extent of the leaf reached.
  // Its start on the device stays, so that all its blocks move up by one.
  lemma CreateShifts(t: Tree, height: nat, b: nat, block: nat, space: nat, supply: seq<nat>, status: Status, root: Tree,
                     height': nat)
    requires Sane(t, height, space) && b < LIMIT && Hole(Flat(t), b)
    requires Created(t, height, Extent(b, 1, block), space, supply, status, root, height')
    requires Reached(t, height, b) != [] && Succeeds(Reached(t, height, b)[0], b, block)
    ensures var x := Reached(t, height, b)[0];
            status == Stored && Flat(root) == Exchanged(Flat(t), x, Extent(b, x.count + 1, x.start))
  {
    SearchPathOk(t, height, b, 0, LIMIT);
    PathShifts(SearchPath(t, height, b, 0, LIMIT), t, height, b, block, Flat(root));
  }

  lemma PathShifts(path: seq<Frame>, t: Tree, height: nat, b: nat, block: nat, out: seq<Extent>)
    requires Wf(t, height, 0, LIMIT) && IsPath(path, t, height) && Taken(path, b)
    requires path[height].node.exts != [] && Succeeds(path[height].node.exts[0], b, block)
    ensures BlocksFor(path, height, Extent(b, 1, block), true) == 0
    ensures var x := path[height].node.exts[0];
            Lists(path, height, Extent(b, 1, block), true, out) ==>
            out == Exchanged(Flat(t), x, Extent(b, x.count + 1, x.start))
  {
    LeafChain(path, t, height, 0, LIMIT);
    var exts, x := path[height].node.exts, path[height].node.exts[0];
    assert Chosen(path[height], b);
    ShiftsFirst(exts, path[height].pos, b, block);
    ListExchanged(path, t, height, Extent(b, x.count + 1, x.start));
  }

  lemma ShiftsFirst(exts: seq<Extent>, pos: nat, b: nat, block: nat)
    requires exts != [] && pos < |exts| && LastBelow(Firsts(exts), b, pos) && Succeeds(exts[0], b, block)
    requires forall i :: 0 < i < |exts| ==> exts[0].first <= exts[i].first
    ensures var x, e := exts[0], Extent(b, 1, block);
            && pos == 0 && WayOf(exts, pos, e, true) == Prepend
            && NewExtents(exts, pos, e, true) == exts[0 := Extent(b, x.count + 1, x.start)]
  {
  }

  // In all other cases the block gets an extent of its own, in its place in the list, if there
  // is a block for each full node at the end of the path.
  lemma CreateEnters(t: Tree, height: nat, b: nat, block: nat, space: nat, supply: seq<nat>, status: Status, root: Tree,
                     height': nat)
    requires Sane(t, height, space) && b < LIMIT && Hole(Flat(t), b)
    requires Created(t, height, Extent(b, 1, block), space, supply, status, root, height')
    requires forall x :: x in Reached(t, height, b) ==> !Precedes(x, b, block)
    requires Reached(t, height, b) != [] ==> !Succeeds(Reached(t, height, b)[0], b, block)
    ensures status == if |supply| < FullTail(SearchPath(t, height, b, 0, LIMIT), height) then NoSpace else Stored
    ensures status == Stored ==> Flat(root) == Placed(Flat(t), Extent(b, 1, block))
  {
    var path := SearchPath(t, height, b, 0, LIMIT);
    SearchPathOk(t, height, b, 0, LIMIT);
    LeafChain(path, t, height, 0, LIMIT);
    assert Chosen(path[height], b);
    EntersLeaf(path[height].node.exts, path[height].pos, b, block, 0, LIMIT);
  }

  lemma EntersLeaf(exts: seq<Extent>, pos: nat, b: nat, block: nat, lo: nat, hi: nat)
    requires Chain(exts, lo, hi) && (exts == [] || LastBelow(Firsts(exts), b, pos))
    requires forall x :: x in exts ==> !Precedes(x, b, block)
    requires exts != [] ==> !Succeeds(exts[0], b, block)
    ensures WayOf(exts, pos, Extent(b, 1, block), true) == Entry
  {
    if exts != [] {
      var x := exts[pos];
      assert !Precedes(x, b, block);
    }
  }

  // ---------------------------------------------------------------- when a neighbour is seen

  // A neighbour before the block grows if and only if it lies in the leaf reached.
  lemma GrowsExactly(t: Tree, height: nat, b: nat, block: nat, space: nat, supply: seq<nat>, root: Tree, height': nat,
                     x: Extent)
    requires Sane(t, height, space) && b < LIMIT && Hole(Flat(t), b)
    requires Created(t, height, Extent(b, 1, block), space, supply, Stored, root, height')
    requires x in Flat(t) && Precedes(x, b, block)
    ensures Flat(root) == Exchanged(Flat(t), x, x.(count := x.count + 1)) <==> x in Reached(t, height, b)
  {
    if x in Reached(t, height, b) {
      CreateGrows(t, height, b, block, space, supply, Stored, root, height', x);
    } else {
      FlatChain(t, height, 0, LIMIT);
      OnlyPreceding(t, height, b, block, x);
      var exts := Reached(t, height, b);
      if exts != [] && Succeeds(exts[0], b, block) {
        CreateShifts(t, height, b, block, space, supply, Stored, root, height');
        var i :| 0 <= i < |Flat(t)| && Flat(t)[i] == x;
        assert Flat(root)[i] == x;
      } else {
        CreateEnters(t, height, b, block, space, supply, Stored, root, height');
      }
    }
  }

  lemma OnlyPreceding(t: Tree, height: nat, b: nat, block: nat, x: Extent)
    requires Wf(t, height, 0, LIMIT) && x in Flat(t) && Precedes(x, b, block) && x !in Reached(t, height, b)
    ensures forall y :: y in Reached(t, height, b) ==> !Precedes(y, b, block)
  {
    FlatChain(t, height, 0, LIMIT);
    var s := Flat(t);
    var i :| 0 <= i < |s| && s[i] == x;
    forall y | y in Reached(t, height, b) ensures !Precedes(y, b, block) {
      var k :| 0 <= k < |s| && s[k] == y;
      assert i != k;
    }
  }

  // Every key is the first block of the extents below it.
  predicate TightKeys(t: Tree)
    decreases t
  {
    t.Index? ==> forall i :: 0 <= i < |t.kids| ==> TightKid(t.kids[i])
  }

  predicate TightKid(k: Kid)
    decreases k
  {
    Flat(k.tree) != [] && k.first == Flat(k.tree)[0].first && TightKeys(k.tree)
  }

  // Then the search reaches every neighbour before its block.
  lemma {:induction false} TightReaches(t: Tree, height: nat, lo: nat, hi: nat, b: nat, x: Extent)
    requires Wf(t, height, lo, hi) && TightKeys(t) && Hole(Flat(t), b) && x in Flat(t) && 0 < x.Len() && x.End() == b
    ensures var path := SearchPath(t, height, b, lo, hi); IsPath(path, t, height) && x in path[height].node.exts
    decreases height
  {
    SearchPathOk(t, height, b, lo, hi);
    if height > 0 {
      var kids := t.kids;
      var pos := LastAt(Keys(kids), b);
      var j := KidsMember(kids, x);
      LastAtBelow(Keys(kids), b);
      assert KidWf(kids, pos, height, hi) && KidWf(kids, j, height, hi);
      KidInFlat(kids, pos);
      KidOfNeighbour(kids, height, hi, b, x, pos, j);
      assert TightKid(kids[pos]);
      TightReaches(kids[pos].tree, height - 1, kids[pos].first, KidEnd(kids, pos, hi), b, x);
    }
  }

  lemma KidInFlat(kids: seq<Kid>, j: nat)
    requires j < |kids|
    ensures forall x :: x in Flat(kids[j].tree) ==> x in KidsFlat(kids)
  {
    KidsAround(kids, j);
  }

  lemma KidOfNeighbour(kids: seq<Kid>, height: nat, hi: nat, b: nat, x: Extent, pos: nat, j: nat)
    requires height > 0 && j < |kids| && KeysOk(kids, hi) && LastBelow(Keys(kids), b, pos)
    requires Wf(kids[j].tree, height - 1, kids[j].first, KidEnd(kids, j, hi)) && x in Flat(kids[j].tree)
    requires 0 < x.Len() && x.End() == b && Hole(KidsFlat(kids), b)
    requires Wf(kids[pos].tree, height - 1, kids[pos].first, KidEnd(kids, pos, hi)) && TightKid(kids[pos])
    ensures j == pos
  {
    FlatChain(kids[j].tree, height - 1, kids[j].first, KidEnd(kids, j, hi));
    FlatChain(kids[pos].tree, height - 1, kids[pos].first, KidEnd(kids, pos, hi));
    KeysRise(kids, hi);
    KidInFlat(kids, pos);
    var y := Flat(kids[pos].tree)[0];
    assert y in Flat(kids[pos].tree) && !y.Covers(b);
    if j < pos {
      KidsRise(kids, hi, j + 1, pos);
    }
  }
}
