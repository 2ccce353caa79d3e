// Finding the extent of a logical block by descending the tree.

module ExtentLookup {
  import Seqs
  import opened ExtentTree
  import opened ExtentLeaf

  // One level of a path: a node and the position taken in it.
  datatype Frame = Frame(node: Tree, pos: nat)

  predicate Linked(path: seq<Frame>) {
    forall k :: 0 <= k < |path| - 1 ==>
      && path[k].node.Index?
      && path[k].pos < |path[k].node.kids|
      && path[k + 1].node == path[k].node.kids[path[k].pos].tree
  }

  predicate AtLeaf(f: Frame) {
    f.node.Leaf? && (f.pos < |f.node.exts| || f.pos == 0)
  }

  // A path from the root of a tree to a leaf. A leaf without extents is left at position 0.
  predicate IsPath(path: seq<Frame>, t: Tree, height: nat) {
    |path| == height + 1 && path[0].node == t && Linked(path) && AtLeaf(path[height])
  }

  // The last key not above a block, or the first one when all are above it.
  predicate LastBelow(keys: seq<nat>, b: nat, pos: nat) {
    && pos < |keys|
    && (pos > 0 ==> keys[pos] <= b)
    && (pos + 1 < |keys| ==> b < keys[pos + 1])
  }

  predicate Rising(keys: seq<nat>) {
    forall i, j :: 0 <= i < j < |keys| ==> keys[i] <= keys[j]
  }

  function Keys(kids: seq<Kid>): (k: seq<nat>)
    ensures |k| == |kids| && forall i :: 0 <= i < |kids| ==> k[i] == kids[i].first
  {
    seq(|kids|, i requires 0 <= i < |kids| => kids[i].first)
  }

  function Firsts(exts: seq<Extent>): (k: seq<nat>)
    ensures |k| == |exts| && forall i :: 0 <= i < |exts| ==> k[i] == exts[i].first
  {
    seq(|exts|, i requires 0 <= i < |exts| => exts[i].first)
  }

  // The binary search that both kinds of node use.
  method BinSearch(keys: seq<nat>, b: nat) returns (pos: nat)
    requires keys != [] && Rising(keys)
    ensures LastBelow(keys, b, pos)
  {
    var l, r := 1, |keys| - 1;
    while l <= r
      invariant 1 <= l <= r + 1 <= |keys|
      invariant forall i :: 1 <= i < l ==> keys[i] <= b
      invariant forall i :: r < i < |keys| ==> b < keys[i]
    {
      var m := l + (r - l) / 2;
      if b < keys[m] {
        r := m - 1;
      } else {
        l := m + 1;
      }
    }
    pos := l - 1;
  }

  lemma {:induction false} KidsRise(kids: seq<Kid>, hi: nat, i: nat, j: nat)
    requires i <= j < |kids| && KeysOk(kids, hi)
    ensures kids[i].first <= kids[j].first
    decreases j - i
  {
    if i < j {
      KidsRise(kids, hi, i + 1, j);
      assert kids[i].first <= KidEnd(kids, i, hi);
    }
  }

  // The position that a search for a block takes in one node.
  predicate Chosen(f: Frame, b: nat) {
    match f.node
    case Index(_, kids) => LastBelow(Keys(kids), b, f.pos)
    case Leaf(_, exts) => exts != [] ==> LastBelow(Firsts(exts), b, f.pos)
  }

  predicate Taken(path: seq<Frame>, b: nat) {
    forall k :: 0 <= k < |path| ==> Chosen(path[k], b)
  }

  lemma KeysRise(kids: seq<Kid>, hi: nat)
    requires KeysOk(kids, hi)
    ensures Rising(Keys(kids))
  {
    forall x, y | 0 <= x < y < |kids| ensures Keys(kids)[x] <= Keys(kids)[y] {
      KidsRise(kids, hi, x, y);
    }
  }

  // The same position by a plain scan from the right.
  function LastAt(keys: seq<nat>, b: nat): (at: nat)
    requires keys != []
    ensures at < |keys|
  {
    var last := |keys| - 1;
    if last == 0 || keys[last] <= b then last else LastAt(keys[..last], b)
  }

  lemma {:induction false} LastAtBelow(keys: seq<nat>, b: nat)
    requires keys != []
    ensures LastBelow(keys, b, LastAt(keys, b))
  {
    var last := |keys| - 1;
    if last > 0 && keys[last] > b {
      LastAtBelow(keys[..last], b);
    }
  }

  // Keys that rise have one such position.
  lemma OnePosition(keys: seq<nat>, b: nat, p: nat)
    requires Rising(keys) && LastBelow(keys, b, p)
    ensures p == LastAt(keys, b)
  {
    LastAtBelow(keys, b);
  }

  // The path of a search: in every node the last key not above the block.
  function SearchPath(t: Tree, height: nat, b: nat, lo: nat, hi: nat): (path: seq<Frame>)
    requires Wf(t, height, lo, hi)
    ensures |path| == height + 1 && path[0].node == t
    decreases height
  {
    if height == 0 then [Frame(t, if t.exts == [] then 0 else LastAt(Firsts(t.exts), b))]
    else
      var pos := LastAt(Keys(t.kids), b);
      assert KidWf(t.kids, pos, height, hi);
      [Frame(t, pos)] + SearchPath(t.kids[pos].tree, height - 1, b, t.kids[pos].first, KidEnd(t.kids, pos, hi))
  }

  lemma {:induction false} SearchPathOk(t: Tree, height: nat, b: nat, lo: nat, hi: nat)
    requires Wf(t, height, lo, hi)
    ensures var path := SearchPath(t, height, b, lo, hi); IsPath(path, t, height) && Taken(path, b)
    decreases height
  {
    if height == 0 {
      if t.exts != [] {
        LastAtBelow(Firsts(t.exts), b);
      }
    } else {
      var pos := LastAt(Keys(t.kids), b);
      LastAtBelow(Keys(t.kids), b);
      assert KidWf(t.kids, pos, height, hi);
      SearchPathOk(t.kids[pos].tree, height - 1, b, t.kids[pos].first, KidEnd(t.kids, pos, hi));
      StepAbove(Frame(t, pos), SearchPath(t.kids[pos].tree, height - 1, b, t.kids[pos].first, KidEnd(t.kids, pos, hi)),
                height, b);
    }
  }

  lemma StepAbove(f: Frame, tail: seq<Frame>, height: nat, b: nat)
    requires height > 0 && f.node.Index? && f.pos < |f.node.kids| && Chosen(f, b)
    requires IsPath(tail, f.node.kids[f.pos].tree, height - 1) && Taken(tail, b)
    ensures IsPath([f] + tail, f.node, height) && Taken([f] + tail, b)
  {
    var path := [f] + tail;
    assert forall k :: 0 < k < |path| ==> path[k] == tail[k - 1];
  }

  lemma SearchStep(t: Tree, height: nat, b: nat, lo: nat, hi: nat, pos: nat)
    requires Wf(t, height, lo, hi) && height > 0 && LastBelow(Keys(t.kids), b, pos)
    ensures Wf(t.kids[pos].tree, height - 1, t.kids[pos].first, KidEnd(t.kids, pos, hi))
    ensures SearchPath(t, height, b, lo, hi) ==
            [Frame(t, pos)] + SearchPath(t.kids[pos].tree, height - 1, b, t.kids[pos].first, KidEnd(t.kids, pos, hi))
  {
    KeysRise(t.kids, hi);
    OnePosition(Keys(t.kids), b, pos);
    assert KidWf(t.kids, pos, height, hi);
  }

  // Descends from the root to the leaf and the extent nearest to a block.
  method FindExtent(t: Tree, height: nat, b: nat, ghost lo: nat, ghost hi: nat) returns (path: seq<Frame>)
    requires Wf(t, height, lo, hi)
    ensures path == SearchPath(t, height, b, lo, hi) && IsPath(path, t, height) && Taken(path, b)
  {
    SearchPathOk(t, height, b, lo, hi);
    path := [];
    var node, i := t, height;
    ghost var l, h := lo, hi;
    ghost var whole := SearchPath(t, height, b, lo, hi);
    while i > 0
      invariant 0 <= i <= height && Wf(node, i, l, h)
      invariant whole == path + SearchPath(node, i, b, l, h)
    {
      KeysRise(node.kids, h);
      var pos := BinSearch(Keys(node.kids), b);
      SearchStep(node, i, b, l, h, pos);
      ghost var k, e := node.kids[pos], KidEnd(node.kids, pos, h);
      Seqs.Assoc(path, [Frame(node, pos)], SearchPath(k.tree, i - 1, b, k.first, e));
      path := path + [Frame(node, pos)];
      l, h := k.first, e;
      node, i := node.kids[pos].tree, i - 1;
    }
    var pos := SearchLeaf(node, b, l, h);
    path := path + [Frame(node, pos)];
  }

  // Searches the leaf; one without extents is left at position 0.
  method SearchLeaf(leaf: Tree, b: nat, ghost lo: nat, ghost hi: nat) returns (pos: nat)
    requires Wf(leaf, 0, lo, hi)
    ensures SearchPath(leaf, 0, b, lo, hi) == [Frame(leaf, pos)]
  {
    pos := 0;
    if leaf.exts != [] {
      pos := BinSearch(Firsts(leaf.exts), b);
      OnePosition(Firsts(leaf.exts), b, pos);
    }
  }

  // ---------------------------------------------------------------- agreement with the list

  lemma {:induction false} KidsMember(kids: seq<Kid>, e: Extent) returns (j: nat)
    requires e in KidsFlat(kids)
    ensures j < |kids| && e in Flat(kids[j].tree)
  {
    if e in KidFlat(kids[0]) {
      j := 0;
    } else {
      j := KidsMember(kids[1..], e);
      j := j + 1;
    }
  }

  lemma MemberOfKid(kids: seq<Kid>, j: nat, e: Extent)
    requires j < |kids| && e in Flat(kids[j].tree)
    ensures e in KidsFlat(kids)
  {
    KidsAround(kids, j);
  }

  lemma OnlySlot(keys: seq<nat>, b: nat, pos: nat, j: nat)
    requires Rising(keys) && LastBelow(keys, b, pos) && j < |keys|
    requires keys[j] <= b && (j + 1 < |keys| ==> b < keys[j + 1])
    ensures j == pos
  {
  }

  // The child that a search takes is the only one that can cover the block.
  lemma OnlyKid(kids: seq<Kid>, height: nat, hi: nat, b: nat, pos: nat, j: nat, e: Extent)
    requires height > 0 && j < |kids| && LastBelow(Keys(kids), b, pos)
    requires KeysOk(kids, hi)
    requires Wf(kids[j].tree, height - 1, kids[j].first, KidEnd(kids, j, hi))
    requires e in Flat(kids[j].tree) && e.Covers(b)
    ensures j == pos
  {
    FlatChain(kids[j].tree, height - 1, kids[j].first, KidEnd(kids, j, hi));
    KeysRise(kids, hi);
    OnlySlot(Keys(kids), b, pos, j);
  }

  // An extent covers the block somewhere in the tree exactly when it does so in the leaf
  // that the search reaches.
  lemma {:induction false} SearchComplete(path: seq<Frame>, t: Tree, height: nat, lo: nat, hi: nat, b: nat, e: Extent)
    requires Wf(t, height, lo, hi) && IsPath(path, t, height) && Taken(path, b) && e.Covers(b)
    ensures e in Flat(t) <==> e in path[height].node.exts
    decreases height
  {
    if height > 0 {
      var kids, pos := t.kids, path[0].pos;
      var tail := path[1..];
      assert forall k :: 0 <= k < |tail| ==> tail[k] == path[k + 1];
      assert LastBelow(Keys(kids), b, pos);
      assert IsPath(tail, kids[pos].tree, height - 1);
      assert KidWf(kids, pos, height, hi);
      SearchComplete(tail, kids[pos].tree, height - 1, kids[pos].first, KidEnd(kids, pos, hi), b, e);
      if e in Flat(t) {
        var j := KidsMember(kids, e);
        assert KidWf(kids, j, height, hi);
        OnlyKid(kids, height, hi, b, pos, j, e);
      }
      if e in Flat(kids[pos].tree) {
        MemberOfKid(kids, pos, e);
      }
    }
  }

  // In an ordered list the entry that the search takes is the only one that can cover.
  lemma OnlyExtent(exts: seq<Extent>, lo: nat, hi: nat, b: nat, pos: nat, e: Extent)
    requires Chain(exts, lo, hi) && exts != [] && LastBelow(Firsts(exts), b, pos) && e.Covers(b)
    ensures e in exts <==> e == exts[pos]
  {
    if e in exts {
      var j :| 0 <= j < |exts| && exts[j] == e;
    }
  }

  // What a lookup may answer for a block of a list: its physical block when it is written and 0
  // when it is not, and a run of at most `max` blocks that follow it on the device in the same
  // state, which goes on to the end of its extent. Nothing for a hole.
  ghost predicate Answers(s: seq<Extent>, b: nat, max: nat, result: nat, count: nat) {
    && (forall p: nat :: Maps(s, b, p, false) ==> result == p)
    && (forall p: nat :: Maps(s, b, p, true) ==> result == 0)
    && (forall p: nat, u: bool :: Maps(s, b, p, u) ==> RunFrom(s, b, p, u, count))
    && (forall e :: e in s && e.Covers(b) ==> b + count <= e.End() && (count == max || b + count == e.End()))
    && count <= max
    && ((forall p: nat, u: bool :: !Maps(s, b, p, u)) ==> result == 0 && count == 0)
  }

  // Blocks from one on that follow each other on the device.
  ghost predicate RunFrom(s: seq<Extent>, b: nat, p: nat, u: bool, count: nat) {
    forall k: nat :: k < count ==> KthOf(s, b, p, u, k)
  }

  predicate KthOf(s: seq<Extent>, b: nat, p: nat, u: bool, k: nat) { Maps(s, b + k, p + k, u) }

  // The non-creating lookup of a logical block.
  method GetBlocks(t: Tree, height: nat, b: nat, max: nat, ghost lo: nat, ghost hi: nat)
    returns (result: nat, count: nat)
    requires Wf(t, height, lo, hi)
    ensures Answers(Flat(t), b, max, result, count)
  {
    var path := FindExtent(t, height, b, lo, hi);
    var leaf, pos := path[height].node, path[height].pos;
    result, count := 0, 0;
    LeafChain(path, t, height, lo, hi);
    if leaf.exts != [] && leaf.exts[pos].Covers(b) {
      var e := leaf.exts[pos];
      SearchComplete(path, t, height, lo, hi, b, e);
      count := e.End() - b;
      if !e.Unwritten() {
        result := b - e.first + e.start;
      }
      if count > max {
        count := max;
      }
    }
    forall e | e in Flat(t) && e.Covers(b)
      ensures leaf.exts != [] && e == leaf.exts[pos]
    {
      SearchComplete(path, t, height, lo, hi, b, e);
      OnlyExtent(leaf.exts, 0, hi, b, pos, e);
    }
    if leaf.exts != [] && leaf.exts[pos].Covers(b) {
      OneAnswers(Flat(t), leaf.exts[pos], b, max, result, count);
    }
  }

  // The answer that one extent gives, when no other one covers the block.
  lemma OneAnswers(s: seq<Extent>, e: Extent, b: nat, max: nat, result: nat, count: nat)
    requires e in s && e.Covers(b) && forall x :: x in s && x.Covers(b) ==> x == e
    requires result == if e.Unwritten() then 0 else e.start + (b - e.first)
    requires count == if e.End() - b > max then max else e.End() - b
    ensures Answers(s, b, max, result, count)
  {
    var i :| 0 <= i < |s| && s[i] == e;
    var q := e.start + (b - e.first);
    assert MapsOne(s[i], b, q, e.Unwritten()) && Maps(s, b, q, e.Unwritten());
    forall p: nat, u: bool | Maps(s, b, p, u) ensures MapsOne(e, b, p, u) && RunFrom(s, b, p, u, count) {
      var j :| 0 <= j < |s| && MapsOne(s[j], b, p, u);
      assert s[j] in s && s[j].Covers(b);
      forall k: nat | k < count ensures KthOf(s, b, p, u, k) {
        assert MapsOne(s[i], b + k, p + k, u);
      }
    }
  }

  // The leaf at the end of a path is in order.
  lemma {:induction false} LeafChain(path: seq<Frame>, t: Tree, height: nat, lo: nat, hi: nat)
    requires Wf(t, height, lo, hi) && IsPath(path, t, height)
    ensures Chain(path[height].node.exts, 0, hi)
    decreases height
  {
    if height > 0 {
      var kids, pos := t.kids, path[0].pos;
      var tail := path[1..];
      assert forall k :: 0 <= k < |tail| ==> tail[k] == path[k + 1];
      assert KidWf(kids, pos, height, hi);
      LeafChain(tail, kids[pos].tree, height - 1, kids[pos].first, KidEnd(kids, pos, hi));
      KidEndBound(kids, hi, pos);
      ChainWiden(path[height].node.exts, 0, KidEnd(kids, pos, hi), 0, hi);
    } else {
      ChainWiden(t.exts, lo, hi, 0, hi);
    }
  }

  lemma KidEndBound(kids: seq<Kid>, hi: nat, pos: nat)
    requires pos < |kids| && KeysOk(kids, hi)
    ensures KidEnd(kids, pos, hi) <= hi
  {
    KidsRise(kids, hi, pos, |kids| - 1);
    if pos + 1 < |kids| {
      KidsRise(kids, hi, pos + 1, |kids| - 1);
    }
  }
}
