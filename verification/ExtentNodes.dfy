// The blocks that hold the nodes of a tree, and what splitting and growing do to them.

module ExtentNodes {
  import opened ExtentTree
  import opened ExtentLookup
  import opened ExtentPath
  import opened ExtentSplit
  import opened ExtentStack

  // The blocks of a node around one child: what stays when the child is exchanged.
  function Around(node: Tree, p: nat): multiset<nat>
    requires node.Index? && p < |node.kids|
  {
    KidsBlocks(node.kids[..p]) + multiset{node.kids[p].block} + KidsBlocks(node.kids[p + 1..])
  }

  lemma NodeBlocks(node: Tree, p: nat)
    requires node.Index? && p < |node.kids|
    ensures Blocks(node) == Around(node, p) + Blocks(node.kids[p].tree)
  {
    var kids := node.kids;
    assert kids == kids[..p] + [kids[p]] + kids[p + 1..];
    BlocksAround(kids[..p], kids[p], kids[p + 1..]);
  }

  lemma WithKidBlocks(node: Tree, p: nat, key: nat, child: Tree)
    requires node.Index? && p < |node.kids|
    ensures Blocks(WithKid(node, p, key, child)) == Around(node, p) + Blocks(child)
  {
    var n := WithKid(node, p, key, child);
    NodeBlocks(n, p);
    assert n.kids[..p] == node.kids[..p] && n.kids[p + 1..] == node.kids[p + 1..];
  }

  lemma Cancel(a: multiset<nat>, b: multiset<nat>, c: multiset<nat>, r: multiset<nat>, root: multiset<nat>,
               x: multiset<nat>, y: multiset<nat>)
    requires r + b == root + c && b == a + x && c == a + y
    ensures r + x == root + y
  {
    assert r + x + a == r + b && root + y + a == root + c;
    assert (r + x + a) - a == r + x && (root + y + a) - a == root + y;
  }

  // Exchanging one node exchanges its blocks in the whole tree.
  lemma {:induction false} RiseBlocks(path: seq<Frame>, a: nat, node: Tree, pos: nat, touched: bool, border: nat)
    requires a < |path| && Linked(path)
    ensures Blocks(Rise(path, a, node, pos, touched, border)[0].node) + Blocks(path[a].node) ==
            Blocks(path[0].node) + Blocks(node)
  {
    if a > 0 {
      var up := path[a - 1];
      var key := if touched then border else up.node.kids[up.pos].first;
      var n, top := WithKid(up.node, up.pos, key, node), touched && up.pos == 0;
      RiseBlocks(path, a - 1, n, up.pos, top, border);
      NodeBlocks(up.node, up.pos);
      WithKidBlocks(up.node, up.pos, key, node);
      Cancel(Around(up.node, up.pos), Blocks(up.node), Blocks(n),
             Blocks(Rise(path, a - 1, n, up.pos, top, border)[0].node), Blocks(path[0].node), Blocks(path[a].node),
             Blocks(node));
    }
  }

  lemma LeftBlocks(node: Tree, p: nat, left: Tree)
    requires node.Index? && p < |node.kids|
    ensures Blocks(IndexLeft(node, p, left)) + KidsBlocks(node.kids[p + 1..]) == Around(node, p) + Blocks(left)
  {
    var k := node.kids[p].(tree := left);
    BlocksConcat(node.kids[..p], [k]);
    OneKid(k);
  }

  lemma OneKid(k: Kid)
    ensures KidsBlocks([k]) == multiset{k.block} + Blocks(k.tree)
  {
    assert [k][1..] == [];
  }

  lemma RightBlocks(node: Tree, p: nat, key: nat, block: nat, right: Tree, space: nat)
    requires node.Index? && p < |node.kids|
    ensures Blocks(IndexRight(node, p, key, block, right, space)) ==
            multiset{block} + Blocks(right) + KidsBlocks(node.kids[p + 1..])
  {
    BlocksConcat([Kid(key, block, right)], node.kids[p + 1..]);
    OneKid(Kid(key, block, right));
  }

  // The halves of a node have its blocks and that of the new half below.
  lemma HalvesBlocks(node: Tree, p: nat, left: Tree, key: nat, block: nat, right: Tree, space: nat)
    requires node.Index? && p < |node.kids|
    ensures Blocks(IndexLeft(node, p, left)) + Blocks(IndexRight(node, p, key, block, right, space)) ==
            Around(node, p) + (Blocks(left) + Blocks(right)) + multiset{block}
  {
    LeftBlocks(node, p, left);
    RightBlocks(node, p, key, block, right, space);
    Shuffled(Blocks(IndexLeft(node, p, left)), multiset{block}, Blocks(right), KidsBlocks(node.kids[p + 1..]));
  }

  lemma Shuffled(a: multiset<nat>, b: multiset<nat>, c: multiset<nat>, d: multiset<nat>)
    ensures a + (b + c + d) == (a + d) + c + b
  {
  }

  lemma WithRightBlocks(node: Tree, p: nat, left: Tree, key: nat, block: nat, right: Tree)
    requires node.Index? && p < |node.kids|
    ensures Blocks(WithRight(node, p, left, key, block, right)) ==
            Around(node, p) + (Blocks(left) + Blocks(right)) + multiset{block}
  {
    var a, k, x, z := node.kids[..p], node.kids[p].(tree := left), Kid(key, block, right), node.kids[p + 1..];
    BlocksConcat(a + [k] + [x], z);
    BlocksConcat(a + [k], [x]);
    BlocksConcat(a, [k]);
    OneKid(k);
    OneKid(x);
    Shuffled(KidsBlocks(a) + (multiset{k.block} + Blocks(left)), multiset{block}, Blocks(right), KidsBlocks(z));
  }

  lemma FirstOnes(supply: seq<nat>, k: nat)
    requires k < |supply|
    ensures multiset(supply[..k + 1]) == multiset(supply[..k]) + multiset{supply[k]}
  {
    assert supply[..k + 1] == supply[..k] + [supply[k]];
  }
}
