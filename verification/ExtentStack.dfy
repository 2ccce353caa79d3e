// The way from the root to a node in hand, while the tree below and beside it changes.

module ExtentStack {
  import Seqs
  import opened ExtentTree
  import opened ExtentLookup
  import P = ExtentPath

  // The nodes above the one in hand, the nearest first, each with the entry that leads down.
  // What that entry pointed at is in hand and out of date here.
  datatype Above = Top | Under(node: Tree, pos: nat, up: Above)

  predicate Sited(n: Tree, pos: nat) { n.Index? && pos < |n.kids| }

  function Depth(s: Above): nat { if s.Top? then 0 else 1 + Depth(s.up) }

  // The range of logical blocks of the node in hand.
  function Lo(s: Above): nat {
    if s.Under? && Sited(s.node, s.pos) then s.node.kids[s.pos].first else 0
  }

  function Hi(s: Above): nat {
    if s.Under? && Sited(s.node, s.pos) then KidEnd(s.node.kids, s.pos, Hi(s.up)) else LIMIT
  }

  // A well-formed node but for the child at pos.
  predicate SiteWf(n: Tree, pos: nat, height: nat, lo: nat, hi: nat) {
    && Sited(n, pos) && height > 0 && |n.kids| <= n.max && lo <= n.kids[0].first && KeysOk(n.kids, hi)
    && (forall i :: 0 <= i < |n.kids| && i != pos ==> KidWf(n.kids, i, height, hi))
  }

  // The nodes above a node of this height are well formed beside the way down.
  predicate Ok(s: Above, height: nat, space: nat) {
    s.Under? ==>
      && SiteWf(s.node, s.pos, height + 1, Lo(s.up), Hi(s.up)) && SiteFine(s.node, s.pos, space)
      && Ok(s.up, height + 1, space)
  }

  // ---------------------------------------------------------------- what lies beside

  function Before(s: Above): seq<Extent> {
    if s.Under? && Sited(s.node, s.pos) then Before(s.up) + KidsFlat(s.node.kids[..s.pos]) else []
  }

  function After(s: Above): seq<Extent> {
    if s.Under? && Sited(s.node, s.pos) then KidsFlat(s.node.kids[s.pos + 1..]) + After(s.up) else []
  }

  // The block numbers of all nodes below the root of a tree.
  function Blocks(t: Tree): multiset<nat>
    decreases t, 0
  {
    match t
    case Leaf(_, _) => multiset{}
    case Index(_, kids) => KidsBlocks(kids)
  }

  function KidsBlocks(kids: seq<Kid>): multiset<nat>
    decreases kids, 1
  {
    if kids == [] then multiset{} else KidBlocks(kids[0]) + KidsBlocks(kids[1..])
  }

  function KidBlocks(k: Kid): multiset<nat>
    decreases k, 1
  {
    multiset{k.block} + Blocks(k.tree)
  }

  lemma {:induction false} BlocksConcat(a: seq<Kid>, b: seq<Kid>)
    ensures KidsBlocks(a + b) == KidsBlocks(a) + KidsBlocks(b)
  {
    if a == [] {
      assert a + b == b;
    } else {
      assert (a + b)[1..] == a[1..] + b;
      BlocksConcat(a[1..], b);
    }
  }

  lemma BlocksAround(a: seq<Kid>, k: Kid, b: seq<Kid>)
    ensures KidsBlocks(a + [k] + b) == KidsBlocks(a) + KidBlocks(k) + KidsBlocks(b)
  {
    BlocksConcat(a + [k], b);
    BlocksConcat(a, [k]);
    assert [k][1..] == [];
  }

  // The block numbers of the node in hand and of everything beside the way to it.
  function Held(s: Above): multiset<nat> {
    if s.Under? && Sited(s.node, s.pos) then
      KidsBlocks(s.node.kids[..s.pos]) + multiset{s.node.kids[s.pos].block}
      + KidsBlocks(s.node.kids[s.pos + 1..]) + Held(s.up)
    else multiset{}
  }

  // Number of nodes, for termination.
  function Size(t: Tree): nat
    decreases t, 0
  {
    match t
    case Leaf(_, _) => 1
    case Index(_, kids) => 1 + KidsSize(kids)
  }

  function KidsSize(kids: seq<Kid>): nat
    decreases kids, 1
  {
    if kids == [] then 0 else KidSize(kids[0]) + KidsSize(kids[1..])
  }

  function KidSize(k: Kid): nat
    decreases k, 1
  {
    Size(k.tree)
  }

  // Nodes that are still to come behind the way down.
  function ToCome(s: Above): nat {
    if s.Under? && Sited(s.node, s.pos) then KidsSize(s.node.kids[s.pos + 1..]) + ToCome(s.up) else 0
  }

  // ---------------------------------------------------------------- capacity and emptiness

  predicate Empty(t: Tree) {
    match t
    case Leaf(_, exts) => exts == []
    case Index(_, kids) => kids == []
  }

  // Nodes are no larger than a block, and none below the root is empty.
  predicate Fine(t: Tree, space: nat)
    decreases t
  {
    2 <= t.max <= space && (t.Index? ==> forall i :: 0 <= i < |t.kids| ==> KidFine(t.kids[i], space))
  }

  predicate KidFine(k: Kid, space: nat)
    decreases k
  {
    !Empty(k.tree) && Fine(k.tree, space)
  }

  // The same but for the child at pos.
  predicate SiteFine(n: Tree, pos: nat, space: nat) {
    n.Index? && 2 <= n.max <= space && forall i :: 0 <= i < |n.kids| && i != pos ==> KidFine(n.kids[i], space)
  }

  // The root of the tree keeps its capacity.
  function RootMax(s: Above, cur: Tree): nat {
    match s
    case Top => cur.max
    case Under(n, _, up) => RootMax(up, n)
  }

  // ---------------------------------------------------------------- moving keys up

  function WithKey(n: Tree, pos: nat, key: nat): (m: Tree)
    requires Sited(n, pos)
    ensures Sited(m, pos)
  {
    n.(kids := n.kids[pos := n.kids[pos].(first := key)])
  }

  // The entry on the way down gets a new key, and so do those above as long as the way goes
  // through the first entry of a node.
  function Raise(s: Above, key: nat): (r: Above)
    ensures Depth(r) == Depth(s)
  {
    if s.Under? && Sited(s.node, s.pos) then
      Under(WithKey(s.node, s.pos, key), s.pos, if s.pos == 0 then Raise(s.up, key) else s.up)
    else s
  }

  lemma {:induction false} RaiseBeside(s: Above, key: nat)
    ensures var r := Raise(s, key);
            Before(r) == Before(s) && After(r) == After(s) && Held(r) == Held(s) && ToCome(r) == ToCome(s)
  {
    if s.Under? && Sited(s.node, s.pos) {
      var kids, out := s.node.kids, WithKey(s.node, s.pos, key).kids;
      assert out[..s.pos] == kids[..s.pos] && out[s.pos + 1..] == kids[s.pos + 1..];
      assert out[s.pos].block == kids[s.pos].block;
      RaiseBeside(s.up, key);
    }
  }

  lemma {:induction false} RaiseRoot(s: Above, key: nat, cur: Tree)
    ensures RootMax(Raise(s, key), cur) == RootMax(s, cur)
  {
    if s.Under? && Sited(s.node, s.pos) {
      RaiseRoot(s.up, key, s.node);
      RootOfMax(s.up, s.node, WithKey(s.node, s.pos, key));
      RootOfMax(Raise(s.up, key), s.node, WithKey(s.node, s.pos, key));
    }
  }

  lemma RootOfMax(s: Above, x: Tree, y: Tree)
    requires x.max == y.max
    ensures RootMax(s, x) == RootMax(s, y)
  {
  }

  lemma WithKeyWf(n: Tree, pos: nat, key: nat, height: nat, lo: nat, hi: nat, lo': nat)
    requires SiteWf(n, pos, height, lo, hi) && n.kids[pos].first <= key <= KidEnd(n.kids, pos, hi)
    requires if pos == 0 then lo' <= key else lo' <= lo
    ensures SiteWf(WithKey(n, pos, key), pos, height, lo', hi)
  {
    var kids, out := n.kids, WithKey(n, pos, key).kids;
    forall i | 0 <= i < |out| ensures out[i].first <= KidEnd(out, i, hi) && (i != pos ==> KidWf(out, i, height, hi)) {
      assert i != pos ==> KidWf(kids, i, height, hi) && out[i] == kids[i];
      assert i + 1 < |out| && i + 1 != pos ==> out[i + 1] == kids[i + 1];
      if i + 1 == pos {
        P.WfWiden(kids[i].tree, height - 1, kids[i].first, kids[pos].first, kids[i].first, key);
      }
    }
  }

  lemma {:induction false} RaiseOk(s: Above, height: nat, key: nat, space: nat)
    requires Ok(s, height, space) && Lo(s) <= key <= Hi(s)
    ensures Ok(Raise(s, key), height, space) && Hi(Raise(s, key)) == Hi(s)
    ensures Lo(Raise(s, key)) == if s.Top? then 0 else key
  {
    if s.Under? {
      KidEndBound(s.node.kids, Hi(s.up), s.pos);
      if s.pos == 0 {
        RaiseOk(s.up, height + 1, key, space);
      }
      var r := Raise(s, key);
      WithKeyWf(s.node, s.pos, key, height + 1, Lo(s.up), Hi(s.up), Lo(r.up));
      assert SiteFine(r.node, r.pos, space) by {
        assert forall i :: 0 <= i < |r.node.kids| && i != s.pos ==> r.node.kids[i] == s.node.kids[i];
      }
    }
  }

  // ---------------------------------------------------------------- going down and up

  // A well-formed node can be entered at any entry.
  lemma Enter(s: Above, n: Tree, pos: nat, height: nat, space: nat)
    requires height > 0 && Ok(s, height, space) && Wf(n, height, Lo(s), Hi(s)) && pos < |n.kids| && Fine(n, space)
    ensures var t := Under(n, pos, s);
            && Ok(t, height - 1, space) && Wf(n.kids[pos].tree, height - 1, Lo(t), Hi(t))
            && Fine(n.kids[pos].tree, space) && !Empty(n.kids[pos].tree)
  {
    assert KidWf(n.kids, pos, height, Hi(s)) && KidFine(n.kids[pos], space);
    assert SiteWf(n, pos, height, Lo(s), Hi(s)) && SiteFine(n, pos, space);
  }

  // Leaving a node that is not empty: it goes back below its entry.
  function Back(s: Above, cur: Tree): (n: Tree)
    requires s.Under? && Sited(s.node, s.pos)
  {
    P.WithKid(s.node, s.pos, s.node.kids[s.pos].first, cur)
  }

  lemma FilledWf(n: Tree, pos: nat, height: nat, lo: nat, hi: nat, cur: Tree)
    requires SiteWf(n, pos, height, lo, hi) && Wf(cur, height - 1, n.kids[pos].first, KidEnd(n.kids, pos, hi))
    ensures Wf(P.WithKid(n, pos, n.kids[pos].first, cur), height, lo, hi)
  {
    var kids, out := n.kids, P.WithKid(n, pos, n.kids[pos].first, cur).kids;
    forall i | 0 <= i < |out| ensures out[i].first <= KidEnd(out, i, hi) && KidWf(out, i, height, hi) {
      assert i != pos ==> KidWf(kids, i, height, hi) && out[i] == kids[i];
      assert i + 1 < |out| ==> out[i + 1].first == kids[i + 1].first;
    }
  }

  lemma BackWf(s: Above, cur: Tree, height: nat, space: nat)
    requires Ok(s, height, space) && s.Under? && Wf(cur, height, Lo(s), Hi(s)) && Fine(cur, space) && !Empty(cur)
    ensures Wf(Back(s, cur), height + 1, Lo(s.up), Hi(s.up)) && Fine(Back(s, cur), space)
  {
    FilledWf(s.node, s.pos, height + 1, Lo(s.up), Hi(s.up), cur);
    var kids, out := s.node.kids, Back(s, cur).kids;
    forall i | 0 <= i < |out| ensures KidFine(out[i], space) {
      assert i != s.pos ==> out[i] == kids[i];
    }
  }

  lemma BackParts(s: Above, cur: Tree)
    requires s.Under? && Sited(s.node, s.pos)
    ensures var kids := Back(s, cur).kids;
            && KidsFlat(kids[..s.pos + 1]) == KidsFlat(s.node.kids[..s.pos]) + Flat(cur)
            && kids[s.pos + 1..] == s.node.kids[s.pos + 1..]
            && KidsBlocks(kids) + Held(s.up) == Blocks(cur) + Held(s)
  {
    var kids, k := Back(s, cur).kids, Kid(s.node.kids[s.pos].first, s.node.kids[s.pos].block, cur);
    var a, b := s.node.kids[..s.pos], s.node.kids[s.pos + 1..];
    assert kids[..s.pos + 1] == a + [k] && kids[s.pos + 1..] == b;
    Seqs.Halves(kids, s.pos + 1);
    KidsConcat(a, [k]);
    KidsOne(k);
    BlocksAround(a, k, b);
    assert KidsBlocks(kids) == KidsBlocks(a) + KidBlocks(k) + KidsBlocks(b);
    assert KidBlocks(k) == multiset{s.node.kids[s.pos].block} + Blocks(cur);
    Shuffle(KidsBlocks(a), multiset{s.node.kids[s.pos].block}, Blocks(cur), KidsBlocks(b), Held(s.up));
  }

  lemma Shuffle(a: multiset<nat>, k: multiset<nat>, c: multiset<nat>, b: multiset<nat>, u: multiset<nat>)
    ensures a + (k + c) + b + u == c + (a + k + b + u)
  {
  }

  // Leaving an empty node: its entry is removed.
  function Without(n: Tree, pos: nat): (m: Tree)
    requires Sited(n, pos)
  {
    n.(kids := n.kids[..pos] + n.kids[pos + 1..])
  }

  // The keys above follow when the first entry was removed. When it was the only one, what
  // is copied is the old key that still stands in its place.
  function KeyAfter(n: Tree, pos: nat): nat
    requires Sited(n, pos)
  {
    if pos + 1 < |n.kids| then n.kids[pos + 1].first else n.kids[pos].first
  }

  function UpAfter(s: Above): (r: Above)
    requires s.Under? && Sited(s.node, s.pos)
  {
    if s.pos == 0 then Raise(s.up, KeyAfter(s.node, s.pos)) else s.up
  }

  lemma WithoutWf(n: Tree, pos: nat, height: nat, lo: nat, hi: nat, lo': nat, space: nat)
    requires SiteWf(n, pos, height, lo, hi) && |n.kids| > 1
    requires if pos == 0 then lo' <= n.kids[1].first else lo' <= lo
    requires SiteFine(n, pos, space)
    ensures Wf(Without(n, pos), height, lo', hi)
    ensures Fine(Without(n, pos), space)
  {
    var kids, out := n.kids, Without(n, pos).kids;
    assert forall i :: 0 <= i < |out| ==> out[i] == kids[if i < pos then i else i + 1];
    forall i | 0 <= i < |out|
      ensures out[i].first <= KidEnd(out, i, hi) && KidWf(out, i, height, hi) && KidFine(out[i], space)
    {
      var j := if i < pos then i else i + 1;
      assert KidWf(kids, j, height, hi);
      if i + 1 == pos {
        assert kids[pos].first <= KidEnd(kids, pos, hi);
        P.WfWiden(kids[i].tree, height - 1, kids[i].first, kids[pos].first, kids[i].first, KidEnd(out, i, hi));
      } else {
        assert KidEnd(out, i, hi) == KidEnd(kids, j, hi);
      }
    }
  }

  lemma WithoutParts(s: Above)
    requires s.Under? && Sited(s.node, s.pos)
    ensures var kids := Without(s.node, s.pos).kids;
            && kids[..s.pos] == s.node.kids[..s.pos] && kids[s.pos..] == s.node.kids[s.pos + 1..]
            && KidsBlocks(kids) + multiset{s.node.kids[s.pos].block} + Held(s.up) == Held(s)
  {
    BlocksConcat(s.node.kids[..s.pos], s.node.kids[s.pos + 1..]);
  }

  // After an entry was removed, the nodes above are well formed again, and the node that
  // held the entry is, unless it is empty now.
  lemma RemovedOk(s: Above, height: nat, space: nat)
    requires Ok(s, height, space) && s.Under?
    ensures Ok(UpAfter(s), height + 1, space)
    ensures Fine(Without(s.node, s.pos), space)
    ensures |s.node.kids| > 1 ==> Wf(Without(s.node, s.pos), height + 1, Lo(UpAfter(s)), Hi(UpAfter(s)))
  {
    var n, p, key := s.node, s.pos, KeyAfter(s.node, s.pos);
    if p == 0 {
      KidEndBound(n.kids, Hi(s.up), 0);
      assert n.kids[0].first <= KidEnd(n.kids, 0, Hi(s.up));
      if |n.kids| > 1 {
        KidEndBound(n.kids, Hi(s.up), 1);
      }
      RaiseOk(s.up, height + 1, key, space);
    }
    if |n.kids| > 1 {
      WithoutWf(n, p, height + 1, Lo(s.up), Hi(s.up), Lo(UpAfter(s)), space);
    }
  }
}
