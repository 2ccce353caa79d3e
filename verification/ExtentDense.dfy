// No node below the root is ever left empty by an insertion.

module ExtentDense {
  import opened ExtentTree
  import opened ExtentLookup
  import opened ExtentPath
  import opened ExtentSplit
  import S = ExtentStack

  // Beside the path all nodes are within their capacity and not empty.
  predicate Beside(path: seq<Frame>, space: nat) {
    forall k :: 0 <= k < |path| - 1 ==> S.SiteFine(path[k].node, path[k].pos, space)
  }

  lemma {:induction false} NodeFine(path: seq<Frame>, t: Tree, height: nat, space: nat, k: nat)
    requires IsPath(path, t, height) && S.Fine(t, space) && k <= height
    ensures S.Fine(path[k].node, space)
  {
    if k > 0 {
      NodeFine(path, t, height, space, k - 1);
      assert S.KidFine(path[k - 1].node.kids[path[k - 1].pos], space);
    }
  }

  lemma FineBeside(path: seq<Frame>, t: Tree, height: nat, space: nat)
    requires IsPath(path, t, height) && S.Fine(t, space)
    ensures Beside(path, space)
  {
    forall k | 0 <= k < |path| - 1 ensures S.SiteFine(path[k].node, path[k].pos, space) {
      NodeFine(path, t, height, space, k);
    }
  }

  // A path with a leaf that is not empty leads through a tree without empty nodes.
  lemma {:induction false} BesideFine(path: seq<Frame>, t: Tree, height: nat, space: nat, a: nat)
    requires IsPath(path, t, height) && Beside(path, space) && a <= height
    requires S.Fine(path[height].node, space) && !S.Empty(path[height].node)
    ensures S.Fine(path[a].node, space) && !S.Empty(path[a].node)
    decreases height - a
  {
    if a < height {
      BesideFine(path, t, height, space, a + 1);
      var n, p := path[a].node, path[a].pos;
      assert S.SiteFine(n, p, space) && S.KidFine(n.kids[p], space);
    }
  }

  lemma {:induction false} RiseBeside(path: seq<Frame>, a: nat, node: Tree, pos: nat, touched: bool, border: nat,
                                      space: nat)
    requires a < |path| && Linked(path) && Beside(path, space)
    ensures Beside(Rise(path, a, node, pos, touched, border), space)
  {
    if a > 0 {
      var up := path[a - 1];
      var key := if touched then border else up.node.kids[up.pos].first;
      var n := WithKid(up.node, up.pos, key, node);
      RiseBeside(path, a - 1, n, up.pos, touched && up.pos == 0, border, space);
      var r := Rise(path, a - 1, n, up.pos, touched && up.pos == 0, border);
      assert S.SiteFine(up.node, up.pos, space);
      assert S.SiteFine(n, up.pos, space);
      BesideConcat(r, [Frame(node, pos)], space);
    }
  }

  // Exchanging a node for another that is not empty leaves no node empty.
  lemma {:induction false} RiseFine(path: seq<Frame>, a: nat, node: Tree, pos: nat, touched: bool, border: nat,
                                    space: nat)
    requires a < |path| && Linked(path) && Beside(path, space) && S.Fine(node, space) && !S.Empty(node)
    ensures S.Fine(Rise(path, a, node, pos, touched, border)[0].node, space)
  {
    if a > 0 {
      var up := path[a - 1];
      var key := if touched then border else up.node.kids[up.pos].first;
      var n := WithKid(up.node, up.pos, key, node);
      assert S.SiteFine(up.node, up.pos, space);
      assert forall i :: 0 <= i < |n.kids| && i != up.pos ==> n.kids[i] == up.node.kids[i];
      assert S.KidFine(n.kids[up.pos], space);
      RiseFine(path, a - 1, n, up.pos, touched && up.pos == 0, border, space);
    }
  }

  lemma BesideConcat(a: seq<Frame>, b: seq<Frame>, space: nat)
    requires a != [] && Beside(a, space) && Beside(b, space)
    requires S.SiteFine(a[|a| - 1].node, a[|a| - 1].pos, space)
    ensures Beside(a + b, space)
  {
    var s := a + b;
    forall k | 0 <= k < |s| - 1 ensures S.SiteFine(s[k].node, s[k].pos, space) {
      assert s[k] == if k < |a| then a[k] else b[k - |a|];
    }
  }

  // ---------------------------------------------------------------- halves

  lemma LeftFine(node: Tree, p: nat, left: Tree, space: nat)
    requires S.SiteFine(node, p, space) && p < |node.kids| && S.Fine(left, space) && !S.Empty(left)
    ensures var n := IndexLeft(node, p, left);
            S.SiteFine(n, p, space) && S.Fine(n, space) && !S.Empty(n)
  {
    var n := IndexLeft(node, p, left);
    forall i | 0 <= i < |n.kids| ensures S.KidFine(n.kids[i], space) {
      assert i < p ==> n.kids[i] == node.kids[i];
    }
  }

  lemma RightFine(node: Tree, p: nat, key: nat, block: nat, right: Tree, space: nat)
    requires S.SiteFine(node, p, space) && p < |node.kids|
    ensures var n := IndexRight(node, p, key, block, right, space);
            && S.SiteFine(n, 0, space)
            && (S.Fine(right, space) && !S.Empty(right) ==> S.Fine(n, space) && !S.Empty(n))
  {
    var n := IndexRight(node, p, key, block, right, space);
    forall i | 0 < i < |n.kids| ensures S.KidFine(n.kids[i], space) {
      assert n.kids[i] == node.kids[p + i];
    }
    assert S.Fine(right, space) && !S.Empty(right) ==> S.KidFine(n.kids[0], space);
  }

  // The node above the cut, seen from the half that is taken.
  lemma JoinFine(node: Tree, p: nat, left: Tree, key: nat, block: nat, right: Tree, goRight: bool, space: nat)
    requires S.SiteFine(node, p, space) && p < |node.kids| && S.Fine(left, space) && !S.Empty(left)
    requires !goRight ==> S.Fine(right, space) && !S.Empty(right)
    ensures S.SiteFine(WithRight(node, p, left, key, block, right), if goRight then p + 1 else p, space)
  {
    var n, q := WithRight(node, p, left, key, block, right), if goRight then p + 1 else p;
    forall i | 0 <= i < |n.kids| && i != q ensures S.KidFine(n.kids[i], space) {
      assert n.kids[i] == if i < p then node.kids[i] else if i == p then node.kids[p].(tree := left)
                          else if i == p + 1 then Kid(key, block, right) else node.kids[i - 1];
    }
  }

  // What the halves of a cut keep.
  predicate HalvesFine(lefts: seq<Frame>, rights: seq<Frame>, goRight: bool, space: nat) {
    && lefts != [] && rights != [] && Beside(lefts, space) && Beside(rights, space)
    && S.Fine(lefts[0].node, space) && !S.Empty(lefts[0].node)
    && (!goRight ==> S.Fine(rights[0].node, space) && !S.Empty(rights[0].node))
  }

  lemma HalvesStep(f: Frame, lefts: seq<Frame>, rights: seq<Frame>, key: nat, block: nat, goRight: bool, space: nat)
    requires HalvesFine(lefts, rights, goRight, space) && S.SiteFine(f.node, f.pos, space) && f.pos < |f.node.kids|
    ensures HalvesFine([Frame(IndexLeft(f.node, f.pos, lefts[0].node), f.pos)] + lefts,
                       [Frame(IndexRight(f.node, f.pos, key, block, rights[0].node, space), 0)] + rights,
                       goRight, space)
  {
    LeftFine(f.node, f.pos, lefts[0].node, space);
    RightFine(f.node, f.pos, key, block, rights[0].node, space);
    BesideConcat([Frame(IndexLeft(f.node, f.pos, lefts[0].node), f.pos)], lefts, space);
    BesideConcat([Frame(IndexRight(f.node, f.pos, key, block, rights[0].node, space), 0)], rights, space);
  }
}
