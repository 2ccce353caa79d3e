// Inserting an extent into the tree, with splits and growth where nodes are full.

module ExtentInsert {
  import opened ExtentTree
  import opened ExtentLookup
  import opened ExtentPath
  import opened ExtentLeaf
  import opened ExtentSplit
  import opened ExtentSplitPath

  // ---------------------------------------------------------------- finishing a split

  // The parent with the right half entered behind the left one.
  lemma ParentChosen(node: Tree, p: nat, left: Tree, key: nat, block: nat, right: Tree, b: nat, goRight: bool, h: nat)
    requires node.Index? && LastBelow(Keys(node.kids), b, p) && (goRight <==> key <= b)
    ensures var n, q := WithRight(node, p, left, key, block, right), if goRight then p + 1 else p;
            && Chosen(Frame(n, q), b) && q < |n.kids|
            && n.kids[q].tree == (if goRight then right else left)
            && KidEnd(n.kids, q, h) == (if goRight then KidEnd(node.kids, p, h) else key)
  {
    var n := WithRight(node, p, left, key, block, right);
    assert n.kids[p].first == node.kids[p].first && n.kids[p].tree == left;
    assert n.kids[p + 1] == Kid(key, block, right);
    assert p + 2 < |n.kids| ==> n.kids[p + 2] == node.kids[p + 1];
  }

  lemma ParentCaps(node: Tree, p: nat, left: Tree, key: nat, block: nat, right: Tree, space: nat)
    requires node.Index? && p < |node.kids| && Caps(node, space) && Caps(left, space) && Caps(right, space)
    ensures Caps(WithRight(node, p, left, key, block, right), space)
  {
    var kids := WithRight(node, p, left, key, block, right).kids;
    forall k | 0 <= k < |kids| ensures KidCaps(kids[k], space) {
      assert kids[k] == if k < p then node.kids[k] else if k == p then node.kids[p].(tree := left)
                        else if k == p + 1 then Kid(key, block, right) else node.kids[k - 1];
    }
  }

  // A split leaves the same list, and the path on the chosen side is a path of the new tree.
  lemma SplitFinished(path: seq<Frame>, t: Tree, height: nat, lo: nat, hi: nat, key: nat, b: nat, space: nat,
                      at: nat, lefts: seq<Frame>, rights: seq<Frame>, block: nat, goRight: bool, out: seq<Frame>)
    requires Wf(t, height, lo, hi) && IsPath(path, t, height) && Taken(path, b) && Caps(t, space)
    requires 0 < at <= height && Halved(path, height, at, lo, hi, key, b, space, lefts, rights)
    requires LoAt(path, at, lo) <= key <= HiAt(path, at, hi) && (goRight <==> key <= b)
    requires |path[at - 1].node.kids| < path[at - 1].node.max
    requires var up := path[at - 1];
             var n := WithRight(up.node, up.pos, lefts[0].node, key, block, rights[0].node);
             out == Rise(path, at - 1, n, if goRight then up.pos + 1 else up.pos, false, 0)
                    + (if goRight then rights else lefts)
    ensures IsPath(out, out[0].node, height) && Taken(out, b)
    ensures HiAt(out, height, hi) == if goRight then HiAt(path, height, hi) else key
    ensures Wf(out[0].node, height, lo, hi) && Caps(out[0].node, space) && Flat(out[0].node) == Flat(t)
  {
    var up := path[at - 1];
    var left, right := lefts[0].node, rights[0].node;
    var n, q := WithRight(up.node, up.pos, left, key, block, right), if goRight then up.pos + 1 else up.pos;
    NodeWf(path, t, height, lo, hi, at - 1);
    CapsAt(path, t, height, at - 1, space);
    assert Chosen(path[at - 1], b);
    ParentChosen(up.node, up.pos, left, key, block, right, b, goRight, HiAt(path, at - 1, hi));
    SplitTree(path, t, height, lo, hi, key, space, at, left, right, block, q);
    SplitPathOk(path, height, hi, b, at - 1, n, q, if goRight then rights else lefts);
  }

  lemma SplitTree(path: seq<Frame>, t: Tree, height: nat, lo: nat, hi: nat, key: nat, space: nat,
                  at: nat, left: Tree, right: Tree, block: nat, q: nat)
    requires Wf(t, height, lo, hi) && IsPath(path, t, height) && Caps(t, space)
    requires 0 < at <= height && LoAt(path, at, lo) <= key <= HiAt(path, at, hi)
    requires |path[at - 1].node.kids| < path[at - 1].node.max
    requires Flat(left) + Flat(right) == Flat(path[at].node) && Caps(left, space) && Caps(right, space)
    requires Wf(left, height - at, LoAt(path, at, lo), key) && Wf(right, height - at, key, HiAt(path, at, hi))
    ensures var up := path[at - 1];
            var n := WithRight(up.node, up.pos, left, key, block, right);
            var root := Rise(path, at - 1, n, q, false, 0)[0].node;
            Wf(root, height, lo, hi) && Caps(root, space) && Flat(root) == Flat(t)
  {
    var up := path[at - 1];
    var n := WithRight(up.node, up.pos, left, key, block, right);
    SplitParentWf(path, t, height, lo, hi, key, at, left, right, block);
    RiseWf(path, t, height, lo, hi, at - 1, n, q, false, 0);
    CapsAt(path, t, height, at - 1, space);
    ParentCaps(up.node, up.pos, left, key, block, right, space);
    RiseCaps(path, t, height, at - 1, n, q, false, 0, space);
    SplitFlat(path, t, height, at, left, right, key, block, q);
  }

  lemma SplitParentWf(path: seq<Frame>, t: Tree, height: nat, lo: nat, hi: nat, key: nat,
                      at: nat, left: Tree, right: Tree, block: nat)
    requires Wf(t, height, lo, hi) && IsPath(path, t, height)
    requires 0 < at <= height && LoAt(path, at, lo) <= key <= HiAt(path, at, hi)
    requires |path[at - 1].node.kids| < path[at - 1].node.max
    requires Wf(left, height - at, LoAt(path, at, lo), key) && Wf(right, height - at, key, HiAt(path, at, hi))
    ensures Wf(WithRight(path[at - 1].node, path[at - 1].pos, left, key, block, right), height - at + 1,
               LoAt(path, at - 1, lo), HiAt(path, at - 1, hi))
  {
    NodeWf(path, t, height, lo, hi, at - 1);
    WithRightWf(path[at - 1].node, path[at - 1].pos, height - at + 1, LoAt(path, at - 1, lo), HiAt(path, at - 1, hi),
                left, key, block, right);
  }

  lemma SplitFlat(path: seq<Frame>, t: Tree, height: nat, at: nat, left: Tree, right: Tree, key: nat, block: nat,
                  q: nat)
    requires IsPath(path, t, height) && 0 < at <= height && Flat(left) + Flat(right) == Flat(path[at].node)
    ensures var up := path[at - 1];
            Flat(Rise(path, at - 1, WithRight(up.node, up.pos, left, key, block, right), q, false, 0)[0].node) ==
            Flat(t)
  {
    var up := path[at - 1];
    WithRightFlat(up.node, up.pos, left, key, block, right);
    RiseFlat(path, at - 1, WithRight(up.node, up.pos, left, key, block, right), q, false, 0);
    PathFlat(path, t, height, at - 1);
  }

  lemma SplitPathOk(path: seq<Frame>, height: nat, hi: nat, b: nat, a: nat, n: Tree, q: nat, half: seq<Frame>)
    requires Linked(path) && |path| == height + 1 && a < height && Taken(path, b) && Chosen(Frame(n, q), b)
    requires n.Index? && q < |n.kids| && HalfPath(half, height, a + 1, b) && half[0].node == n.kids[q].tree
    ensures var out := Rise(path, a, n, q, false, 0) + half;
            && IsPath(out, out[0].node, height) && Taken(out, b)
            && HiAt(out, height, hi) == HiAt(half, height - a - 1, KidEnd(n.kids, q, HiAt(path, a, hi)))
  {
    var r := Rise(path, a, n, q, false, 0);
    RiseHi(path, a, n, q, hi);
    RiseTaken(path, a, n, q, b);
    LinkConcat(r, half);
    HiConcat(r, half, height - a - 1, hi);
    TakenConcat(r, half, b);
    assert (r + half)[height] == half[height - a - 1];
  }

  lemma TakenConcat(r: seq<Frame>, half: seq<Frame>, b: nat)
    requires Taken(r, b) && Taken(half, b)
    ensures Taken(r + half, b)
  {
    var out := r + half;
    forall k | 0 <= k < |out| ensures Chosen(out[k], b) {
      assert out[k] == if k < |r| then r[k] else half[k - |r|];
    }
  }

  // ---------------------------------------------------------------- growing

  // The old root moves into a block of its own below a new root with one entry.
  function Deeper(t: Tree, block: nat, space: nat): (n: Tree)
    requires if t.Leaf? then t.exts != [] else t.kids != []
  {
    Index(t.max, [Kid(if t.Leaf? then t.exts[0].first else t.kids[0].first, block, t.(max := space))])
  }

  lemma GrownOk(t: Tree, height: nat, hi: nat, block: nat, space: nat)
    requires Wf(t, height, 0, hi) && Caps(t, space) && (t.Leaf? ==> t.exts != [])
    ensures var n := Deeper(t, block, space);
            Wf(n, height + 1, 0, hi) && Caps(n, space) && Flat(n) == Flat(t)
  {
    var n, s := Deeper(t, block, space), t.(max := space);
    KidsOne(n.kids[0]);
    if t.Leaf? {
      NoneBelow(t.exts, 0, t.exts[0].first, hi);
    } else {
      KidEndBound(t.kids, hi, 0);
    }
    assert Wf(s, height, n.kids[0].first, hi);
    assert KidWf(n.kids, 0, height + 1, hi);
    assert Caps(s, space) by {
      assert t.Index? ==> forall i :: 0 <= i < |t.kids| ==> KidCaps(t.kids[i], space);
    }
    assert KidCaps(n.kids[0], space);
    assert Flat(s) == Flat(t);
  }

  lemma SamePosition(keys: seq<nat>, b: nat, p: nat, q: nat)
    requires Rising(keys) && LastBelow(keys, b, p) && LastBelow(keys, b, q)
    ensures p == q
  {
  }

  lemma SameChoice(f: Frame, g: Frame, height: nat, lo: nat, hi: nat, b: nat)
    requires f.node == g.node && Chosen(f, b) && Chosen(g, b) && Wf(f.node, height, lo, hi)
    requires f.node.Leaf? ==> AtLeaf(f) && AtLeaf(g)
    ensures f == g
  {
    match f.node
    case Index(_, kids) =>
      KeysRise(kids, hi);
      SamePosition(Keys(kids), b, f.pos, g.pos);
    case Leaf(_, exts) =>
      if exts != [] {
        forall i, j | 0 <= i < j < |exts| ensures Firsts(exts)[i] <= Firsts(exts)[j] {
          assert exts[i].End() <= exts[j].first;
        }
        SamePosition(Firsts(exts), b, f.pos, g.pos);
      }
  }

  // A search takes one path only.
  lemma {:induction false} TakenOnce(p: seq<Frame>, q: seq<Frame>, t: Tree, height: nat, lo: nat, hi: nat, b: nat,
                                     k: nat)
    requires Wf(t, height, lo, hi) && IsPath(p, t, height) && IsPath(q, t, height) && Taken(p, b) && Taken(q, b)
    requires k <= height
    ensures p[k] == q[k]
  {
    if k > 0 {
      TakenOnce(p, q, t, height, lo, hi, b, k - 1);
    }
    NodeWf(p, t, height, lo, hi, k);
    assert Chosen(p[k], b) && Chosen(q[k], b);
    SameChoice(p[k], q[k], height - k, LoAt(p, k, lo), HiAt(p, k, hi), b);
  }

  // A path with its first node moved to a larger block.
  function Moved(path: seq<Frame>, space: nat): (q: seq<Frame>)
    requires path != []
  {
    [Frame(path[0].node.(max := space), path[0].pos)] + path[1..]
  }

  lemma MovedOk(path: seq<Frame>, t: Tree, height: nat, hi: nat, b: nat, space: nat)
    requires IsPath(path, t, height) && Taken(path, b)
    ensures IsPath(Moved(path, space), t.(max := space), height) && Taken(Moved(path, space), b)
    ensures HiAt(Moved(path, space), height, hi) == HiAt(path, height, hi)
  {
    var q := Moved(path, space);
    assert Chosen(path[0], b);
    forall k | 0 < k < |path| ensures q[k] == path[k] && Chosen(path[k], b) {
    }
    MovedHi(path, q, height, hi);
  }

  // The path below the new root goes on as before.
  lemma GrownStep(path: seq<Frame>, t: Tree, height: nat, hi: nat, b: nat, block: nat, space: nat)
    requires IsPath(path, t, height) && Taken(path, b) && (if t.Leaf? then t.exts != [] else t.kids != [])
    ensures var n := Deeper(t, block, space);
            var q := [Frame(n, 0)] + Moved(path, space);
            IsPath(q, n, height + 1) && Taken(q, b) && HiAt(q, height + 1, hi) == HiAt(path, height, hi)
  {
    var n, moved := Deeper(t, block, space), Moved(path, space);
    MovedOk(path, t, height, hi, b, space);
    assert Linked([Frame(n, 0)]);
    LinkConcat([Frame(n, 0)], moved);
    HiConcat([Frame(n, 0)], moved, height, hi);
    assert ([Frame(n, 0)] + moved)[height + 1] == moved[height];
  }

  // The search in a grown tree passes the new root and then takes the old path.
  lemma GrownPath(path: seq<Frame>, t: Tree, height: nat, hi: nat, b: nat, block: nat, space: nat, out: seq<Frame>)
    requires Wf(t, height, 0, hi) && Caps(t, space) && (t.Leaf? ==> t.exts != [])
    requires IsPath(path, t, height) && Taken(path, b)
    requires IsPath(out, Deeper(t, block, space), height + 1) && Taken(out, b)
    ensures out == [Frame(Deeper(t, block, space), 0)] + Moved(path, space)
    ensures HiAt(out, height + 1, hi) == HiAt(path, height, hi)
  {
    var n := Deeper(t, block, space);
    var q := [Frame(n, 0)] + Moved(path, space);
    GrownStep(path, t, height, hi, b, block, space);
    GrownOk(t, height, hi, block, space);
    forall k | 0 <= k <= height + 1 ensures out[k] == q[k] {
      TakenOnce(out, q, n, height + 1, 0, hi, b, k);
    }
    assert out == q;
  }

  lemma {:induction false} MovedHi(p: seq<Frame>, q: seq<Frame>, k: nat, hi: nat)
    requires Linked(p) && Linked(q) && |p| == |q| && k < |p|
    requires forall i :: 0 < i < |p| ==> p[i] == q[i]
    requires p[0].pos == q[0].pos && (|p| > 1 ==> p[0].node.kids == q[0].node.kids)
    ensures HiAt(p, k, hi) == HiAt(q, k, hi)
  {
    if k > 0 {
      MovedHi(p, q, k - 1, hi);
    }
  }
}
