// Splitting the nodes along a path, and growing the tree by a level.

module ExtentSplit {
  import Seqs
  import opened ExtentTree

  // ---------------------------------------------------------------- halves of one level

  function LeafLeft(leaf: Tree, p: nat): Tree
    requires leaf.Leaf? && p < |leaf.exts|
  {
    leaf.(exts := leaf.exts[..p + 1])
  }

  function LeafRight(leaf: Tree, p: nat, space: nat): Tree
    requires leaf.Leaf? && p < |leaf.exts|
  {
    Leaf(space, leaf.exts[p + 1..])
  }

  // An index node keeps its entries up to the position on the path, the last one with the
  // left half below it; the rest moves to a new node behind an entry for the right half.
  function IndexLeft(node: Tree, p: nat, left: Tree): Tree
    requires node.Index? && p < |node.kids|
  {
    node.(kids := node.kids[..p] + [node.kids[p].(tree := left)])
  }

  function IndexRight(node: Tree, p: nat, key: nat, block: nat, right: Tree, space: nat): Tree
    requires node.Index? && p < |node.kids|
  {
    Index(space, [Kid(key, block, right)] + node.kids[p + 1..])
  }

  // The entry for the right half, inserted behind the position on the path.
  function WithRight(node: Tree, p: nat, left: Tree, key: nat, block: nat, right: Tree): Tree
    requires node.Index? && p < |node.kids|
  {
    node.(kids := node.kids[..p] + [node.kids[p].(tree := left)] + [Kid(key, block, right)] + node.kids[p + 1..])
  }

  // ---------------------------------------------------------------- nothing moves

  lemma LeafHalves(leaf: Tree, p: nat, space: nat)
    requires leaf.Leaf? && p < |leaf.exts|
    ensures Flat(LeafLeft(leaf, p)) + Flat(LeafRight(leaf, p, space)) == Flat(leaf)
  {
  }

  lemma KidsSplit(node: Tree, p: nat, left: Tree, x: Kid)
    requires node.Index? && p < |node.kids| && Flat(left) + Flat(x.tree) == Flat(node.kids[p].tree)
    ensures KidsFlat(node.kids[..p] + [node.kids[p].(tree := left)]) + KidsFlat([x] + node.kids[p + 1..]) == Flat(node)
  {
    var a, k, z := node.kids[..p], node.kids[p].(tree := left), node.kids[p + 1..];
    KidsAround(node.kids, p);
    KidsConcat(a, [k]);
    KidsOne(k);
    KidsConcat([x], z);
    KidsOne(x);
    Halves(KidsFlat(a), Flat(left), Flat(x.tree), KidsFlat(z));
  }

  lemma Halves(a: seq<Extent>, l: seq<Extent>, r: seq<Extent>, z: seq<Extent>)
    ensures (a + l) + (r + z) == a + (l + r) + z
  {
  }

  lemma IndexHalves(node: Tree, p: nat, left: Tree, key: nat, block: nat, right: Tree, space: nat)
    requires node.Index? && p < |node.kids| && Flat(left) + Flat(right) == Flat(node.kids[p].tree)
    ensures Flat(IndexLeft(node, p, left)) + Flat(IndexRight(node, p, key, block, right, space)) == Flat(node)
  {
    KidsSplit(node, p, left, Kid(key, block, right));
  }

  lemma WithRightFlat(node: Tree, p: nat, left: Tree, key: nat, block: nat, right: Tree)
    requires node.Index? && p < |node.kids| && Flat(left) + Flat(right) == Flat(node.kids[p].tree)
    ensures Flat(WithRight(node, p, left, key, block, right)) == Flat(node)
  {
    var a, k, x, z := node.kids[..p], node.kids[p].(tree := left), Kid(key, block, right), node.kids[p + 1..];
    KidsSplit(node, p, left, x);
    Seqs.Assoc(a + [k], [x], z);
    KidsConcat(a + [k], [x] + z);
  }

  // ---------------------------------------------------------------- ranges

  lemma LeafHalvesWf(leaf: Tree, p: nat, key: nat, lo: nat, hi: nat, space: nat)
    requires Wf(leaf, 0, lo, hi) && p < |leaf.exts| <= space && key <= hi
    requires leaf.exts[p].End() <= key && (p + 1 < |leaf.exts| ==> key <= leaf.exts[p + 1].first)
    ensures Wf(LeafLeft(leaf, p), 0, lo, key) && Wf(LeafRight(leaf, p, space), 0, key, hi)
  {
    var exts := leaf.exts;
    forall i | 0 <= i <= p ensures exts[i].End() <= key {
      assert i < p ==> exts[i].End() <= exts[p].first;
    }
    forall i | p < i < |exts| ensures key <= exts[i].first {
      assert p + 1 < i ==> exts[p + 1].End() <= exts[i].first;
    }
  }

  lemma IndexLeftWf(node: Tree, p: nat, height: nat, lo: nat, hi: nat, key: nat, left: Tree)
    requires Wf(node, height, lo, hi) && height > 0 && p < |node.kids|
    requires node.kids[p].first <= key && Wf(left, height - 1, node.kids[p].first, key)
    ensures Wf(IndexLeft(node, p, left), height, lo, key)
  {
    var kids, out := node.kids, IndexLeft(node, p, left).kids;
    forall i | 0 <= i < |out|
      ensures out[i].first <= KidEnd(out, i, key) && KidWf(out, i, height, key)
    {
      assert KidWf(kids, i, height, hi);
      assert out[i].first == kids[i].first;
      assert i < p ==> out[i] == kids[i] && out[i + 1].first == kids[i + 1].first;
    }
  }

  // Two lists of entries agree at i and behind it, so the entry at i is as good as before.
  lemma SameKid(kids: seq<Kid>, i: nat, out: seq<Kid>, j: nat, height: nat, hi: nat)
    requires i < |kids| && j < |out| && height > 0
    requires kids[i] == out[j] && KidEnd(kids, i, hi) == KidEnd(out, j, hi)
    requires kids[i].first <= KidEnd(kids, i, hi) && KidWf(kids, i, height, hi)
    ensures out[j].first <= KidEnd(out, j, hi) && KidWf(out, j, height, hi)
  {
  }

  lemma IndexRightWf(node: Tree, p: nat, height: nat, lo: nat, hi: nat, key: nat, block: nat, right: Tree, space: nat)
    requires Wf(node, height, lo, hi) && height > 0 && p < |node.kids| <= space
    requires key <= KidEnd(node.kids, p, hi) && Wf(right, height - 1, key, KidEnd(node.kids, p, hi))
    ensures Wf(IndexRight(node, p, key, block, right, space), height, key, hi)
  {
    var kids, out := node.kids, IndexRight(node, p, key, block, right, space).kids;
    assert KidEnd(out, 0, hi) == KidEnd(kids, p, hi);
    forall i | 0 <= i < |out|
      ensures out[i].first <= KidEnd(out, i, hi) && KidWf(out, i, height, hi)
    {
      if i > 0 {
        assert out[i] == kids[p + i] && (i + 1 < |out| ==> out[i + 1] == kids[p + i + 1]);
        SameKid(kids, p + i, out, i, height, hi);
      }
    }
  }

  // Two index nodes side by side, the second starting where the first one ends.
  lemma JoinWf(x: Tree, y: Tree, height: nat, lo: nat, mid: nat, hi: nat, max: nat)
    requires x.Index? && y.Index? && Wf(x, height, lo, mid) && Wf(y, height, mid, hi)
    requires y.kids[0].first == mid && |x.kids| + |y.kids| <= max
    ensures Wf(Index(max, x.kids + y.kids), height, lo, hi)
  {
    var out := x.kids + y.kids;
    forall i | 0 <= i < |out| ensures out[i].first <= KidEnd(out, i, hi) && KidWf(out, i, height, hi) {
      if i < |x.kids| {
        assert out[i] == x.kids[i] && KidEnd(out, i, hi) == KidEnd(x.kids, i, mid);
        assert KidWf(x.kids, i, height, mid);
      } else {
        SameKid(y.kids, i - |x.kids|, out, i, height, hi);
      }
    }
  }

  lemma WithRightWf(node: Tree, p: nat, height: nat, lo: nat, hi: nat, left: Tree, key: nat, block: nat, right: Tree)
    requires Wf(node, height, lo, hi) && height > 0 && p < |node.kids| < node.max
    requires node.kids[p].first <= key <= KidEnd(node.kids, p, hi)
    requires Wf(left, height - 1, node.kids[p].first, key) && Wf(right, height - 1, key, KidEnd(node.kids, p, hi))
    ensures Wf(WithRight(node, p, left, key, block, right), height, lo, hi)
  {
    IndexLeftWf(node, p, height, lo, hi, key, left);
    IndexRightWf(node, p, height, lo, hi, key, block, right, node.max);
    var x, y := IndexLeft(node, p, left), IndexRight(node, p, key, block, right, node.max);
    JoinWf(x, y, height, lo, key, hi, node.max);
    Seqs.Assoc(x.kids, [Kid(key, block, right)], node.kids[p + 1..]);
  }
}
