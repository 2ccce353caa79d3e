// Splitting the full nodes at the lower end of a path.

module ExtentSplitPath {
  import opened ExtentTree
  import opened ExtentLookup
  import opened ExtentPath
  import opened ExtentSplit

  // ---------------------------------------------------------------- joining paths

  lemma LinkConcat(a: seq<Frame>, b: seq<Frame>)
    requires Linked(a) && Linked(b) && a != [] && b != []
    requires var f := a[|a| - 1];
             f.node.Index? && f.pos < |f.node.kids| && b[0].node == f.node.kids[f.pos].tree
    ensures Linked(a + b)
  {
    var s := a + b;
    forall k | 0 <= k < |s| - 1
      ensures s[k].node.Index? && s[k].pos < |s[k].node.kids| && s[k + 1].node == s[k].node.kids[s[k].pos].tree
    {
      assert s[k] == if k < |a| then a[k] else b[k - |a|];
      assert s[k + 1] == if k + 1 < |a| then a[k + 1] else b[k + 1 - |a|];
    }
  }

  // Where the range of a joined path ends.
  lemma {:induction false} HiConcat(a: seq<Frame>, b: seq<Frame>, k: nat, hi: nat)
    requires Linked(a) && Linked(b) && Linked(a + b) && a != [] && k < |b|
    requires var f := a[|a| - 1]; f.node.Index? && f.pos < |f.node.kids|
    ensures var f := a[|a| - 1];
            HiAt(a + b, |a| + k, hi) == HiAt(b, k, KidEnd(f.node.kids, f.pos, HiAt(a, |a| - 1, hi)))
  {
    var s := a + b;
    if k == 0 {
      HiPrefix(a, b, |a| - 1, hi);
      assert s[|a| - 1] == a[|a| - 1];
    } else {
      HiConcat(a, b, k - 1, hi);
      assert s[|a| + k - 1] == b[k - 1];
    }
  }

  lemma {:induction false} HiPrefix(a: seq<Frame>, b: seq<Frame>, k: nat, hi: nat)
    requires Linked(a) && Linked(a + b) && k < |a|
    ensures HiAt(a + b, k, hi) == HiAt(a, k, hi)
  {
    if k > 0 {
      HiPrefix(a, b, k - 1, hi);
      assert (a + b)[k - 1] == a[k - 1];
    }
  }

  // Above a changed node the positions of a search stay as they were.
  lemma {:induction false} RiseTaken(path: seq<Frame>, a: nat, node: Tree, pos: nat, b: nat)
    requires a < |path| && Linked(path) && Taken(path, b) && Chosen(Frame(node, pos), b)
    ensures Taken(Rise(path, a, node, pos, false, 0), b)
  {
    if a > 0 {
      var up := path[a - 1];
      var n := WithKid(up.node, up.pos, up.node.kids[up.pos].first, node);
      assert Keys(n.kids) == Keys(up.node.kids);
      assert Chosen(up, b);
      RiseTaken(path, a - 1, n, up.pos, b);
    }
  }

  // And so do the keys.
  lemma {:induction false} RiseKeys(path: seq<Frame>, a: nat, node: Tree, pos: nat, i: nat)
    requires i < a < |path| && Linked(path)
    ensures var r := Rise(path, a, node, pos, false, 0);
            && r[i].node.Index? && r[i].node.max == path[i].node.max
            && Keys(r[i].node.kids) == Keys(path[i].node.kids) && |r[i].node.kids| == |path[i].node.kids|
    decreases a
  {
    var up := path[a - 1];
    var n := WithKid(up.node, up.pos, up.node.kids[up.pos].first, node);
    if i < a - 1 {
      RiseKeys(path, a - 1, n, up.pos, i);
    } else {
      assert Rise(path, a, node, pos, false, 0)[i] == Frame(n, up.pos);
    }
  }

  // Paths with the same keys and positions have the same ranges.
  lemma {:induction false} SameHi(p: seq<Frame>, q: seq<Frame>, a: nat, hi: nat)
    requires a < |p| && a < |q| && Linked(p) && Linked(q)
    requires forall i :: 0 <= i < a ==> p[i].pos == q[i].pos && Keys(p[i].node.kids) == Keys(q[i].node.kids)
    ensures HiAt(p, a, hi) == HiAt(q, a, hi)
  {
    if a > 0 {
      SameHi(p, q, a - 1, hi);
      var x, y, k := p[a - 1].node.kids, q[a - 1].node.kids, p[a - 1].pos + 1;
      assert |x| == |Keys(x)| && |y| == |Keys(y)|;
      assert k < |x| ==> x[k].first == Keys(x)[k] == y[k].first;
    }
  }

  lemma RiseHi(path: seq<Frame>, a: nat, node: Tree, pos: nat, hi: nat)
    requires a < |path| && Linked(path)
    ensures var r := Rise(path, a, node, pos, false, 0);
            Linked(r) && HiAt(r, a, hi) == HiAt(path, a, hi) && LoAt(r, a, 0) == LoAt(path, a, 0)
  {
    var r := Rise(path, a, node, pos, false, 0);
    RiseLinked(path, a, node, pos, false, 0);
    forall i | 0 <= i < a ensures r[i].pos == path[i].pos && Keys(r[i].node.kids) == Keys(path[i].node.kids) {
      RiseKeys(path, a, node, pos, i);
    }
    SameHi(r, path, a, hi);
    if a > 0 {
      var p := path[a - 1].pos;
      assert r[a - 1].node.kids[p].first == Keys(r[a - 1].node.kids)[p] == path[a - 1].node.kids[p].first;
    }
  }

  // ---------------------------------------------------------------- bounds along a path

  lemma {:induction false} LoRises(path: seq<Frame>, t: Tree, height: nat, lo: nat, hi: nat, a: nat, b: nat)
    requires Wf(t, height, lo, hi) && IsPath(path, t, height) && a <= b <= height
    ensures LoAt(path, a, lo) <= LoAt(path, b, lo)
    decreases b - a
  {
    if a < b {
      LoRises(path, t, height, lo, hi, a, b - 1);
      NodeWf(path, t, height, lo, hi, b - 1);
      KidsRise(path[b - 1].node.kids, HiAt(path, b - 1, hi), 0, path[b - 1].pos);
    }
  }

  lemma {:induction false} HiFalls(path: seq<Frame>, t: Tree, height: nat, lo: nat, hi: nat, a: nat, b: nat)
    requires Wf(t, height, lo, hi) && IsPath(path, t, height) && a <= b <= height
    ensures HiAt(path, b, hi) <= HiAt(path, a, hi)
    decreases b - a
  {
    if a < b {
      HiShrinks(path, t, height, lo, hi, b);
      HiFalls(path, t, height, lo, hi, a, b - 1);
    }
  }

  // ---------------------------------------------------------------- the two halves

  // The lower end of a path below level i, cut off on one side of the split.
  predicate HalfPath(half: seq<Frame>, height: nat, i: nat, b: nat) {
    i <= height && |half| == height - i + 1 && Linked(half) && AtLeaf(half[height - i]) && Taken(half, b)
  }

  lemma HalfStep(f: Frame, half: seq<Frame>, height: nat, i: nat, b: nat, h: nat)
    requires 0 < i <= height && HalfPath(half, height, i, b) && Chosen(f, b)
    requires f.node.Index? && f.pos < |f.node.kids| && half[0].node == f.node.kids[f.pos].tree
    ensures HalfPath([f] + half, height, i - 1, b)
    ensures HiAt([f] + half, height - i + 1, h) == HiAt(half, height - i, KidEnd(f.node.kids, f.pos, h))
  {
    assert Linked([f]);
    LinkConcat([f], half);
    HiConcat([f], half, height - i, h);
    assert ([f] + half)[height - i + 1] == half[height - i];
  }

  lemma LeftChosen(node: Tree, pos: nat, left: Tree, b: nat)
    requires node.Index? && LastBelow(Keys(node.kids), b, pos)
    ensures Chosen(Frame(IndexLeft(node, pos, left), pos), b)
    ensures KidEnd(IndexLeft(node, pos, left).kids, pos, 0) == 0
  {
    var kids := IndexLeft(node, pos, left).kids;
    assert Keys(kids)[pos] == Keys(node.kids)[pos];
  }

  lemma RightChosen(node: Tree, pos: nat, key: nat, block: nat, right: Tree, space: nat, b: nat, h: nat)
    requires node.Index? && LastBelow(Keys(node.kids), b, pos)
    ensures Chosen(Frame(IndexRight(node, pos, key, block, right, space), 0), b)
    ensures KidEnd(IndexRight(node, pos, key, block, right, space).kids, 0, h) == KidEnd(node.kids, pos, h)
  {
    var kids := IndexRight(node, pos, key, block, right, space).kids;
    assert |kids| > 1 ==> kids[1] == node.kids[pos + 1];
  }

  // ---------------------------------------------------------------- capacities

  // No node holds more than a block can.
  predicate Caps(t: Tree, space: nat)
    decreases t
  {
    2 <= t.max <= space && (t.Index? ==> forall i :: 0 <= i < |t.kids| ==> KidCaps(t.kids[i], space))
  }

  predicate KidCaps(k: Kid, space: nat)
    decreases k
  {
    Caps(k.tree, space)
  }

  lemma {:induction false} CapsAt(path: seq<Frame>, t: Tree, height: nat, a: nat, space: nat)
    requires IsPath(path, t, height) && Caps(t, space) && a <= height
    ensures Caps(path[a].node, space)
  {
    if a > 0 {
      CapsAt(path, t, height, a - 1, space);
      assert KidCaps(path[a - 1].node.kids[path[a - 1].pos], space);
    }
  }

  lemma {:induction false} RiseCaps(path: seq<Frame>, t: Tree, height: nat, a: nat, node: Tree, pos: nat,
                                    touched: bool, border: nat, space: nat)
    requires IsPath(path, t, height) && Caps(t, space) && Caps(node, space) && a <= height
    ensures Caps(Rise(path, a, node, pos, touched, border)[0].node, space)
  {
    if a > 0 {
      var up := path[a - 1];
      var key := if touched then border else up.node.kids[up.pos].first;
      CapsAt(path, t, height, a - 1, space);
      RiseCaps(path, t, height, a - 1, WithKid(up.node, up.pos, key, node), up.pos, touched && up.pos == 0, border,
               space);
    }
  }

  // ---------------------------------------------------------------- the split

  // The nodes from level i down are cut behind the path; the halves meet at `key`.
  ghost predicate Halved(path: seq<Frame>, height: nat, i: nat, lo: nat, hi: nat, key: nat, b: nat, space: nat,
                         lefts: seq<Frame>, rights: seq<Frame>)
    requires Linked(path) && |path| == height + 1
  {
    && HalfPath(lefts, height, i, b) && HalfPath(rights, height, i, b)
    && Flat(lefts[0].node) + Flat(rights[0].node) == Flat(path[i].node)
    && Wf(lefts[0].node, height - i, LoAt(path, i, lo), key)
    && Wf(rights[0].node, height - i, key, HiAt(path, i, hi))
    && Caps(lefts[0].node, space) && Caps(rights[0].node, space)
    && HiAt(lefts, height - i, key) == key
    && HiAt(rights, height - i, HiAt(path, i, hi)) == HiAt(path, height, hi)
  }

  lemma HalvedLeaf(path: seq<Frame>, t: Tree, height: nat, lo: nat, hi: nat, key: nat, b: nat, space: nat)
    requires Wf(t, height, lo, hi) && IsPath(path, t, height) && Taken(path, b) && Caps(t, space)
    requires var leaf, p := path[height].node, path[height].pos;
             && leaf.exts != [] && leaf.exts[p].End() <= key <= HiAt(path, height, hi)
             && (p + 1 < |leaf.exts| ==> key <= leaf.exts[p + 1].first)
    ensures var leaf, p := path[height].node, path[height].pos;
            Halved(path, height, height, lo, hi, key, b, space,
                   [Frame(LeafLeft(leaf, p), p)], [Frame(LeafRight(leaf, p, space), 0)])
  {
    var leaf, p := path[height].node, path[height].pos;
    NodeWf(path, t, height, lo, hi, height);
    CapsAt(path, t, height, height, space);
    assert Wf(LeafLeft(leaf, p), 0, LoAt(path, height, lo), key)
           && Wf(LeafRight(leaf, p, space), 0, key, HiAt(path, height, hi)) by {
      LeafHalvesWf(leaf, p, key, LoAt(path, height, lo), HiAt(path, height, hi), space);
    }
    assert Flat(LeafLeft(leaf, p)) + Flat(LeafRight(leaf, p, space)) == Flat(leaf) by {
      LeafHalves(leaf, p, space);
    }
    assert Chosen(path[height], b);
    LeafPaths(leaf, p, b, space, height);
  }

  lemma LeafPaths(leaf: Tree, p: nat, b: nat, space: nat, height: nat)
    requires leaf.Leaf? && p < |leaf.exts| && LastBelow(Firsts(leaf.exts), b, p)
    requires forall i, j :: 0 <= i < j < |leaf.exts| ==> leaf.exts[i].End() <= leaf.exts[j].first
    ensures HalfPath([Frame(LeafLeft(leaf, p), p)], height, height, b)
    ensures HalfPath([Frame(LeafRight(leaf, p, space), 0)], height, height, b)
  {
    LeafChosen(leaf, p, b, space);
  }

  lemma LeafChosen(leaf: Tree, p: nat, b: nat, space: nat)
    requires leaf.Leaf? && p < |leaf.exts| && LastBelow(Firsts(leaf.exts), b, p)
    requires forall i, j :: 0 <= i < j < |leaf.exts| ==> leaf.exts[i].End() <= leaf.exts[j].first
    ensures Chosen(Frame(LeafLeft(leaf, p), p), b) && Chosen(Frame(LeafRight(leaf, p, space), 0), b)
  {
    var l, r := leaf.exts[..p + 1], leaf.exts[p + 1..];
    assert Firsts(l)[p] == Firsts(leaf.exts)[p];
    assert |r| > 1 ==> Firsts(r)[1] == leaf.exts[p + 2].first && leaf.exts[p + 1].End() <= leaf.exts[p + 2].first;
  }

  lemma HalvedStep(path: seq<Frame>, t: Tree, height: nat, lo: nat, hi: nat, key: nat, b: nat, space: nat,
                   i: nat, lefts: seq<Frame>, rights: seq<Frame>, block: nat)
    requires Wf(t, height, lo, hi) && IsPath(path, t, height) && Taken(path, b) && Caps(t, space)
    requires 0 < i <= height && Halved(path, height, i, lo, hi, key, b, space, lefts, rights)
    requires LoAt(path, i, lo) <= key <= HiAt(path, i, hi)
    ensures var node, p := path[i - 1].node, path[i - 1].pos;
            Halved(path, height, i - 1, lo, hi, key, b, space,
                   [Frame(IndexLeft(node, p, lefts[0].node), p)] + lefts,
                   [Frame(IndexRight(node, p, key, block, rights[0].node, space), 0)] + rights)
  {
    var node, p := path[i - 1].node, path[i - 1].pos;
    var left, right := lefts[0].node, rights[0].node;
    NodeWf(path, t, height, lo, hi, i - 1);
    CapsAt(path, t, height, i - 1, space);
    assert Chosen(path[i - 1], b);
    StepLeft(node, p, height, i, LoAt(path, i - 1, lo), HiAt(path, i - 1, hi), key, b, space, lefts);
    StepRight(node, p, height, i, LoAt(path, i - 1, lo), HiAt(path, i - 1, hi), key, b, space, rights, block);
    IndexHalves(node, p, left, key, block, right, space);
  }

  lemma StepLeft(node: Tree, p: nat, height: nat, i: nat, lo: nat, hi: nat, key: nat, b: nat, space: nat,
                 lefts: seq<Frame>)
    requires 0 < i <= height && node.Index? && Wf(node, height - i + 1, lo, hi) && p < |node.kids| && Caps(node, space)
    requires LastBelow(Keys(node.kids), b, p) && node.kids[p].first <= key
    requires HalfPath(lefts, height, i, b) && Wf(lefts[0].node, height - i, node.kids[p].first, key)
    requires Caps(lefts[0].node, space) && HiAt(lefts, height - i, key) == key
    ensures var n := IndexLeft(node, p, lefts[0].node);
            && HalfPath([Frame(n, p)] + lefts, height, i - 1, b)
            && Wf(n, height - i + 1, lo, key) && Caps(n, space)
            && HiAt([Frame(n, p)] + lefts, height - i + 1, key) == key
  {
    var n := IndexLeft(node, p, lefts[0].node);
    IndexLeftWf(node, p, height - i + 1, lo, hi, key, lefts[0].node);
    LeftChosen(node, p, lefts[0].node, b);
    HalfStep(Frame(n, p), lefts, height, i, b, key);
    forall k | 0 <= k < |n.kids| ensures KidCaps(n.kids[k], space) {
      assert k < p ==> n.kids[k] == node.kids[k];
    }
  }

  lemma StepRight(node: Tree, p: nat, height: nat, i: nat, lo: nat, hi: nat, key: nat, b: nat, space: nat,
                  rights: seq<Frame>, block: nat)
    requires 0 < i <= height && node.Index? && Wf(node, height - i + 1, lo, hi) && p < |node.kids| && Caps(node, space)
    requires LastBelow(Keys(node.kids), b, p) && key <= KidEnd(node.kids, p, hi)
    requires HalfPath(rights, height, i, b) && Wf(rights[0].node, height - i, key, KidEnd(node.kids, p, hi))
    requires Caps(rights[0].node, space)
    ensures var n := IndexRight(node, p, key, block, rights[0].node, space);
            && HalfPath([Frame(n, 0)] + rights, height, i - 1, b)
            && Wf(n, height - i + 1, key, hi) && Caps(n, space)
            && HiAt([Frame(n, 0)] + rights, height - i + 1, hi) == HiAt(rights, height - i, KidEnd(node.kids, p, hi))
  {
    var n := IndexRight(node, p, key, block, rights[0].node, space);
    IndexRightWf(node, p, height - i + 1, lo, hi, key, block, rights[0].node, space);
    RightChosen(node, p, key, block, rights[0].node, space, b, hi);
    HalfStep(Frame(n, 0), rights, height, i, b, hi);
    forall k | 0 <= k < |n.kids| ensures KidCaps(n.kids[k], space) {
      assert k > 0 ==> n.kids[k] == node.kids[p + k];
    }
  }
}
