// Changing a node in place: what this does to the nodes above it, level by level.

module ExtentPath {
  import opened ExtentTree
  import opened ExtentLookup

  // The range of logical blocks that the node at level a may hold.
  function LoAt(path: seq<Frame>, a: nat, lo: nat): nat
    requires a < |path| && Linked(path)
  {
    if a == 0 then lo else path[a - 1].node.kids[path[a - 1].pos].first
  }

  function HiAt(path: seq<Frame>, a: nat, hi: nat): nat
    requires a < |path| && Linked(path)
  {
    if a == 0 then hi else KidEnd(path[a - 1].node.kids, path[a - 1].pos, HiAt(path, a - 1, hi))
  }

  // Every node on a path is well formed within its range.
  lemma {:induction false} NodeWf(path: seq<Frame>, t: Tree, height: nat, lo: nat, hi: nat, a: nat)
    requires Wf(t, height, lo, hi) && IsPath(path, t, height) && a <= height
    ensures Wf(path[a].node, height - a, LoAt(path, a, lo), HiAt(path, a, hi))
  {
    if a > 0 {
      NodeWf(path, t, height, lo, hi, a - 1);
      assert KidWf(path[a - 1].node.kids, path[a - 1].pos, height - a + 1, HiAt(path, a - 1, hi));
    }
  }

  // What lies before and behind the node at level a in the flattened list.
  function Before(path: seq<Frame>, a: nat): seq<Extent>
    requires a < |path| && Linked(path)
  {
    if a == 0 then [] else Before(path, a - 1) + KidsFlat(path[a - 1].node.kids[..path[a - 1].pos])
  }

  function After(path: seq<Frame>, a: nat): seq<Extent>
    requires a < |path| && Linked(path)
  {
    if a == 0 then [] else KidsFlat(path[a - 1].node.kids[path[a - 1].pos + 1..]) + After(path, a - 1)
  }

  // A node with one child exchanged and given a key.
  function WithKid(node: Tree, pos: nat, key: nat, child: Tree): (n: Tree)
    requires node.Index? && pos < |node.kids|
  {
    node.(kids := node.kids[pos := Kid(key, node.kids[pos].block, child)])
  }

  lemma WithKidFlat(node: Tree, pos: nat, key: nat, child: Tree)
    requires node.Index? && pos < |node.kids|
    ensures Flat(WithKid(node, pos, key, child)) ==
            KidsFlat(node.kids[..pos]) + Flat(child) + KidsFlat(node.kids[pos + 1..])
  {
    var kids := WithKid(node, pos, key, child).kids;
    KidsAround(kids, pos);
    assert kids[..pos] == node.kids[..pos] && kids[pos + 1..] == node.kids[pos + 1..];
  }

  lemma Regroup(a: seq<Extent>, b: seq<Extent>, m: seq<Extent>, c: seq<Extent>, d: seq<Extent>)
    ensures a + (b + m + c) + d == (a + b) + m + (c + d)
  {
  }

  // One level further down in the flattened list.
  lemma Inwards(whole: seq<Extent>, a: seq<Extent>, n: seq<Extent>, d: seq<Extent>,
                b: seq<Extent>, m: seq<Extent>, c: seq<Extent>, before: seq<Extent>, after: seq<Extent>)
    requires whole == a + n + d && n == b + m + c && before == a + b && after == c + d
    ensures whole == before + m + after
  {
    Regroup(a, b, m, c, d);
  }

  // The path after the node at level a was changed: the change shows in all nodes above.
  // While `touched` holds, the keys above are set to `border` as well; this stops above the
  // first level whose position is not the first one.
  function Rise(path: seq<Frame>, a: nat, node: Tree, pos: nat, touched: bool, border: nat): (r: seq<Frame>)
    requires a < |path| && Linked(path)
    ensures |r| == a + 1 && r[a] == Frame(node, pos)
    ensures forall i :: 0 <= i < a ==> r[i].pos == path[i].pos
  {
    if a == 0 then [Frame(node, pos)]
    else
      var up := path[a - 1];
      var key := if touched then border else up.node.kids[up.pos].first;
      Rise(path, a - 1, WithKid(up.node, up.pos, key, node), up.pos, touched && up.pos == 0, border)
      + [Frame(node, pos)]
  }

  lemma {:induction false} RiseLinked(path: seq<Frame>, a: nat, node: Tree, pos: nat, touched: bool, border: nat)
    requires a < |path| && Linked(path)
    ensures Linked(Rise(path, a, node, pos, touched, border))
  {
    if a > 0 {
      var up := path[a - 1];
      var key := if touched then border else up.node.kids[up.pos].first;
      var n := WithKid(up.node, up.pos, key, node);
      RiseLinked(path, a - 1, n, up.pos, touched && up.pos == 0, border);
      var r := Rise(path, a - 1, n, up.pos, touched && up.pos == 0, border);
      var s := r + [Frame(node, pos)];
      forall k | 0 <= k < |s| - 1
        ensures s[k].node.Index? && s[k].pos < |s[k].node.kids| && s[k + 1].node == s[k].node.kids[s[k].pos].tree
      {
        assert s[k] == r[k];
        assert k < a - 1 ==> s[k + 1] == r[k + 1];
      }
    }
  }

  // Changing one node changes its own stretch of the flattened list and nothing else.
  lemma {:induction false} RiseFlat(path: seq<Frame>, a: nat, node: Tree, pos: nat, touched: bool, border: nat)
    requires a < |path| && Linked(path)
    ensures Flat(Rise(path, a, node, pos, touched, border)[0].node) == Before(path, a) + Flat(node) + After(path, a)
  {
    if a > 0 {
      var up := path[a - 1];
      var key := if touched then border else up.node.kids[up.pos].first;
      var n, top := WithKid(up.node, up.pos, key, node), touched && up.pos == 0;
      RiseFlat(path, a - 1, n, up.pos, top, border);
      WithKidFlat(up.node, up.pos, key, node);
      Inwards(Flat(Rise(path, a - 1, n, up.pos, top, border)[0].node), Before(path, a - 1), Flat(n), After(path, a - 1),
              KidsFlat(up.node.kids[..up.pos]), Flat(node), KidsFlat(up.node.kids[up.pos + 1..]),
              Before(path, a), After(path, a));
    }
  }

  lemma {:induction false} PathFlat(path: seq<Frame>, t: Tree, height: nat, a: nat)
    requires IsPath(path, t, height) && a <= height
    ensures Flat(t) == Before(path, a) + Flat(path[a].node) + After(path, a)
  {
    if a > 0 {
      PathFlat(path, t, height, a - 1);
      var up := path[a - 1];
      KidsAround(up.node.kids, up.pos);
      Inwards(Flat(t), Before(path, a - 1), Flat(up.node), After(path, a - 1), KidsFlat(up.node.kids[..up.pos]),
              Flat(path[a].node), KidsFlat(up.node.kids[up.pos + 1..]), Before(path, a), After(path, a));
    }
  }

  // What lies before and behind a node does not change with it.
  lemma RiseAround(path: seq<Frame>, a: nat, node: Tree, pos: nat, touched: bool, border: nat, k: nat)
    requires k <= a < |path| && Linked(path)
    ensures var r := Rise(path, a, node, pos, touched, border);
            Linked(r) && Before(r, k) == Before(path, k) && After(r, k) == After(path, k)
  {
    var r := Rise(path, a, node, pos, touched, border);
    RiseLinked(path, a, node, pos, touched, border);
    forall i | 0 <= i < k ensures SameBesides(r[i], path[i]) {
      RiseBesides(path, a, node, pos, touched, border, i);
    }
    SameAround(r, path, k);
  }

  // Two frames agree but for the child at their position.
  predicate SameBesides(f: Frame, g: Frame) {
    && f.node.Index? && g.node.Index? && f.pos == g.pos < |f.node.kids| && f.pos < |g.node.kids|
    && f.node.kids[..f.pos] == g.node.kids[..f.pos] && f.node.kids[f.pos + 1..] == g.node.kids[f.pos + 1..]
  }

  lemma {:induction false} SameAround(p: seq<Frame>, q: seq<Frame>, k: nat)
    requires k < |p| && k < |q| && Linked(p) && Linked(q) && forall i :: 0 <= i < k ==> SameBesides(p[i], q[i])
    ensures Before(p, k) == Before(q, k) && After(p, k) == After(q, k)
  {
    if k > 0 {
      SameAround(p, q, k - 1);
      assert SameBesides(p[k - 1], q[k - 1]);
    }
  }

  lemma {:induction false} RiseBesides(path: seq<Frame>, a: nat, node: Tree, pos: nat, touched: bool, border: nat,
                                       i: nat)
    requires i < a < |path| && Linked(path)
    ensures SameBesides(Rise(path, a, node, pos, touched, border)[i], path[i])
    decreases a
  {
    var up := path[a - 1];
    var key := if touched then border else up.node.kids[up.pos].first;
    var n, top := WithKid(up.node, up.pos, key, node), touched && up.pos == 0;
    if i < a - 1 {
      RiseBesides(path, a - 1, n, up.pos, top, border, i);
    } else {
      assert Rise(path, a, node, pos, touched, border)[i] == Frame(n, up.pos);
    }
  }

  // ---------------------------------------------------------------- ranges and keys

  // A larger range is no harm.
  lemma {:induction false} WfWiden(t: Tree, height: nat, lo: nat, hi: nat, lo': nat, hi': nat)
    requires Wf(t, height, lo, hi) && lo' <= lo && hi <= hi'
    ensures Wf(t, height, lo', hi')
    decreases height
  {
    if t.Index? {
      var kids := t.kids;
      forall i | 0 <= i < |kids| ensures KidWf(kids, i, height, hi') {
        assert KidWf(kids, i, height, hi);
        WfWiden(kids[i].tree, height - 1, kids[i].first, KidEnd(kids, i, hi), kids[i].first, KidEnd(kids, i, hi'));
      }
    }
  }

  // A child may be exchanged for another of the same range, and its key may be moved up to
  // its first block or, at the first position, anywhere not below the node's range.
  lemma WithKidWf(node: Tree, pos: nat, height: nat, lo: nat, hi: nat, key: nat, child: Tree, lo': nat)
    requires Wf(node, height, lo, hi) && height > 0 && pos < |node.kids|
    requires key <= KidEnd(node.kids, pos, hi) && Wf(child, height - 1, key, KidEnd(node.kids, pos, hi))
    requires if pos == 0 then lo' <= key else lo' <= lo && node.kids[pos].first <= key
    ensures Wf(WithKid(node, pos, key, child), height, lo', hi)
  {
    var kids, out := node.kids, WithKid(node, pos, key, child).kids;
    forall i | 0 <= i < |out| ensures out[i].first <= KidEnd(out, i, hi) && KidWf(out, i, height, hi) {
      assert KidWf(kids, i, height, hi);
      assert i != pos ==> out[i] == kids[i];
      assert i + 1 < |out| && i + 1 != pos ==> out[i + 1] == kids[i + 1];
      if i + 1 == pos {
        WfWiden(kids[i].tree, height - 1, kids[i].first, kids[pos].first, kids[i].first, key);
      }
    }
  }

  // One level of Rise.
  lemma RiseStepWf(path: seq<Frame>, t: Tree, height: nat, lo: nat, hi: nat,
                   a: nat, node: Tree, touched: bool, border: nat, key: nat)
    requires Wf(t, height, lo, hi) && IsPath(path, t, height) && 0 < a <= height
    requires Wf(node, height - a, if touched then border else LoAt(path, a, lo), HiAt(path, a, hi))
    requires touched ==> border <= HiAt(path, a, hi)
    requires var up := path[a - 1];
             && key == (if touched then border else up.node.kids[up.pos].first)
             && (touched && up.pos > 0 ==> up.node.kids[up.pos].first <= border)
    ensures var up := path[a - 1];
            Wf(WithKid(up.node, up.pos, key, node), height - a + 1,
               if touched && up.pos == 0 then border else LoAt(path, a - 1, lo), HiAt(path, a - 1, hi))
  {
    var up, low := path[a - 1], LoAt(path, a - 1, lo);
    NodeWf(path, t, height, lo, hi, a - 1);
    WithKidWf(up.node, up.pos, height - a + 1, low, HiAt(path, a - 1, hi), key, node,
              if touched && up.pos == 0 then border else low);
  }

  // The whole tree is well formed again when the changed node is well formed in its range
  // and a border that moves keys is not below any key it replaces.
  lemma {:induction false} RiseWf(path: seq<Frame>, t: Tree, height: nat, lo: nat, hi: nat,
                                  a: nat, node: Tree, pos: nat, touched: bool, border: nat)
    requires Wf(t, height, lo, hi) && IsPath(path, t, height) && a <= height
    requires Wf(node, height - a, if touched then border else LoAt(path, a, lo), HiAt(path, a, hi))
    requires touched ==> lo <= border <= HiAt(path, a, hi)
    requires touched ==> forall i :: 0 <= i < a && path[i].pos > 0 ==> path[i].node.kids[path[i].pos].first <= border
    ensures Wf(Rise(path, a, node, pos, touched, border)[0].node, height, lo, hi)
  {
    if a > 0 {
      var up := path[a - 1];
      var key := if touched then border else up.node.kids[up.pos].first;
      RiseStepWf(path, t, height, lo, hi, a, node, touched, border, key);
      HiShrinks(path, t, height, lo, hi, a);
      var n, top := WithKid(up.node, up.pos, key, node), touched && up.pos == 0;
      RiseWf(path, t, height, lo, hi, a - 1, n, up.pos, top, border);
      assert Rise(path, a, node, pos, touched, border)[0] == Rise(path, a - 1, n, up.pos, top, border)[0];
    } else if touched {
      WfWiden(node, height, border, hi, lo, hi);
    }
  }

  lemma HiShrinks(path: seq<Frame>, t: Tree, height: nat, lo: nat, hi: nat, a: nat)
    requires Wf(t, height, lo, hi) && IsPath(path, t, height) && 0 < a <= height
    ensures HiAt(path, a, hi) <= HiAt(path, a - 1, hi)
  {
    NodeWf(path, t, height, lo, hi, a - 1);
    KidEndBound(path[a - 1].node.kids, HiAt(path, a - 1, hi), path[a - 1].pos);
  }

  predicate EndsBy(s: seq<Extent>, b: nat) {
    forall i :: 0 <= i < |s| ==> s[i].End() <= b
  }

  predicate StartsAt(s: seq<Extent>, b: nat) {
    forall i :: 0 <= i < |s| ==> b <= s[i].first
  }

  lemma EndsConcat(x: seq<Extent>, y: seq<Extent>, b: nat)
    requires EndsBy(x, b) && EndsBy(y, b)
    ensures EndsBy(x + y, b)
  {
  }

  lemma StartsConcat(x: seq<Extent>, y: seq<Extent>, b: nat)
    requires StartsAt(x, b) && StartsAt(y, b)
    ensures StartsAt(x + y, b)
  {
  }

  // The children before one end at or before its key.
  lemma {:induction false} KidsBelow(kids: seq<Kid>, height: nat, hi: nat, pos: nat)
    requires height > 0 && pos < |kids| && KeysOk(kids, hi)
    requires forall k :: 0 <= k < |kids| ==> KidWf(kids, k, height, hi)
    ensures EndsBy(KidsFlat(kids[..pos]), kids[pos].first)
  {
    if pos > 0 {
      KidsBelow(kids, height, hi, pos - 1);
      assert kids[..pos] == kids[..pos - 1] + [kids[pos - 1]];
      KidsConcat(kids[..pos - 1], [kids[pos - 1]]);
      KidsOne(kids[pos - 1]);
      assert KidWf(kids, pos - 1, height, hi);
      FlatChain(kids[pos - 1].tree, height - 1, kids[pos - 1].first, KidEnd(kids, pos - 1, hi));
      EndsConcat(KidsFlat(kids[..pos - 1]), Flat(kids[pos - 1].tree), kids[pos].first);
    }
  }

  // Everything before the path of a search ends at or before the block searched for.
  lemma {:induction false} BeforeBelow(path: seq<Frame>, t: Tree, height: nat, lo: nat, hi: nat, a: nat, b: nat)
    requires Wf(t, height, lo, hi) && IsPath(path, t, height) && Taken(path, b) && a <= height
    ensures EndsBy(Before(path, a), b)
  {
    if a > 0 {
      BeforeBelow(path, t, height, lo, hi, a - 1, b);
      NodeWf(path, t, height, lo, hi, a - 1);
      var kids, pos := path[a - 1].node.kids, path[a - 1].pos;
      assert Chosen(path[a - 1], b);
      if pos > 0 {
        KidsBelow(kids, height - a + 1, HiAt(path, a - 1, hi), pos);
      }
      EndsConcat(Before(path, a - 1), KidsFlat(kids[..pos]), b);
    }
  }

  // Everything behind a path starts at or behind the end of the leaf's range.
  lemma {:induction false} AfterAbove(path: seq<Frame>, t: Tree, height: nat, lo: nat, hi: nat, a: nat)
    requires Wf(t, height, lo, hi) && IsPath(path, t, height) && a <= height
    ensures StartsAt(After(path, a), HiAt(path, a, hi))
  {
    if a > 0 {
      AfterAbove(path, t, height, lo, hi, a - 1);
      HiShrinks(path, t, height, lo, hi, a);
      NodeWf(path, t, height, lo, hi, a - 1);
      var kids, pos := path[a - 1].node.kids, path[a - 1].pos;
      KidsChain(kids, height - a + 1, HiAt(path, a - 1, hi), pos + 1);
      StartsConcat(KidsFlat(kids[pos + 1..]), After(path, a - 1), HiAt(path, a, hi));
    }
  }
}
