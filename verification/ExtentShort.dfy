// Shortening the extent at the end of a path, to make place for another one behind it.

module ExtentShort {
  import Seqs
  import opened ExtentTree
  import opened ExtentLookup
  import opened ExtentLeaf
  import opened ExtentCut
  import opened ExtentInode
  import P = ExtentPath
  import S = ExtentStack
  import SP = ExtentSplitPath
  import ExtentSplit
  import ExtentDense

  // What every operation keeps.
  predicate Sane(t: Tree, height: nat, space: nat) {
    Good(t, height, space) && S.Fine(t, space)
  }

  // A shorter extent with the same start, and another one in the place that this leaves.
  predicate Shorter(e: Extent, x: Extent) { x.first == e.first && 0 < x.Len() && x.End() <= e.End() }

  predicate TailOf(e: Extent, x: Extent, y: Extent) { x.End() <= y.first && 0 < y.Len() && y.End() <= e.End() }

  // A path with the extent at its end exchanged.
  function WithLast(path: seq<Frame>, height: nat, x: Extent): (r: seq<Frame>)
    requires |path| == height + 1 && Linked(path) && AtLeaf(path[height]) && path[height].node.exts != []
    ensures |r| == height + 1
  {
    var leaf, pos := path[height].node, path[height].pos;
    P.Rise(path, height, leaf.(exts := leaf.exts[pos := x]), pos, false, 0)
  }

  // A path leads a search to its leaf for every block from the one searched for up to the
  // end of the leaf's range, as long as the leaf has no extent between them.
  lemma TakenOn(path: seq<Frame>, t: Tree, height: nat, b: nat, c: nat)
    requires Wf(t, height, 0, LIMIT) && IsPath(path, t, height) && Taken(path, b)
    requires b <= c < P.HiAt(path, height, LIMIT) && path[height].node.exts != []
    requires path[height].pos + 1 < |path[height].node.exts| ==> c < path[height].node.exts[path[height].pos + 1].first
    ensures Taken(path, c)
  {
    forall k | 0 <= k < |path| ensures Chosen(path[k], c) {
      assert Chosen(path[k], b);
      if k < height {
        SP.HiFalls(path, t, height, 0, LIMIT, k + 1, height);
      }
    }
  }

  // Shortening the extent at the end of a path.
  lemma Shortened(path: seq<Frame>, t: Tree, height: nat, space: nat, x: Extent, r: seq<Frame>)
    requires Sane(t, height, space) && IsPath(path, t, height) && path[height].node.exts != []
    requires Shorter(path[height].node.exts[path[height].pos], x) && r == WithLast(path, height, x)
    ensures Sane(r[0].node, height, space) && IsPath(r, r[0].node, height)
    ensures P.HiAt(r, height, LIMIT) == P.HiAt(path, height, LIMIT)
    ensures Flat(r[0].node) ==
            P.Before(path, height) + path[height].node.exts[path[height].pos := x] + P.After(path, height)
  {
    var leaf, pos := path[height].node, path[height].pos;
    var n := leaf.(exts := leaf.exts[pos := x]);
    P.NodeWf(path, t, height, 0, LIMIT, height);
    GrownChain(leaf.exts, pos, x, P.LoAt(path, height, 0), P.HiAt(path, height, LIMIT));
    P.RiseWf(path, t, height, 0, LIMIT, height, n, pos, false, 0);
    P.RiseFlat(path, height, n, pos, false, 0);
    SP.RiseHi(path, height, n, pos, LIMIT);
    RiseMax(path, height, n, pos, false, 0);
    SP.CapsAt(path, t, height, height, space);
    SP.RiseCaps(path, t, height, height, n, pos, false, 0, space);
    ShortenedFine(path, t, height, space, n, pos);
  }

  lemma ShortenedFine(path: seq<Frame>, t: Tree, height: nat, space: nat, n: Tree, pos: nat)
    requires IsPath(path, t, height) && S.Fine(t, space) && S.Fine(n, space) && n.Leaf? && pos < |n.exts|
    ensures var r := P.Rise(path, height, n, pos, false, 0); IsPath(r, r[0].node, height) && S.Fine(r[0].node, space)
  {
    var r := P.Rise(path, height, n, pos, false, 0);
    ExtentDense.FineBeside(path, t, height, space);
    ExtentDense.RiseBeside(path, height, n, pos, false, 0, space);
    P.RiseLinked(path, height, n, pos, false, 0);
    ExtentDense.BesideFine(r, r[0].node, height, space, 0);
  }

  lemma TailTaken(path: seq<Frame>, t: Tree, height: nat, b: nat, x: Extent, c: nat)
    requires Wf(t, height, 0, LIMIT) && IsPath(path, t, height) && Taken(path, b) && path[height].node.exts != []
    requires x.first == path[height].node.exts[path[height].pos].first
    requires b <= c < path[height].node.exts[path[height].pos].End()
    ensures Taken(WithLast(path, height, x), c)
  {
    var leaf, pos := path[height].node, path[height].pos;
    assert b <= c < P.HiAt(path, height, LIMIT) && (pos + 1 < |leaf.exts| ==> c < leaf.exts[pos + 1].first) by {
      P.NodeWf(path, t, height, 0, LIMIT, height);
    }
    TakenOn(path, t, height, b, c);
    assert Chosen(path[height], c);
    assert Firsts(leaf.exts[pos := x]) == Firsts(leaf.exts);
    SP.RiseTaken(path, height, leaf.(exts := leaf.exts[pos := x]), pos, c);
  }

  // The place for the second extent is right behind the first.
  lemma TailTarget(path: seq<Frame>, t: Tree, height: nat, space: nat, b: nat, x: Extent, y: Extent, r: seq<Frame>)
    requires Sane(t, height, space) && IsPath(path, t, height) && Taken(path, b) && path[height].node.exts != []
    requires var e := path[height].node.exts[path[height].pos]; Shorter(e, x) && TailOf(e, x, y) && b <= y.first
    requires r == WithLast(path, height, x)
    ensures Target(r, r[0].node, height, y) && !Occupied(r, height, y)
  {
    var leaf, pos := path[height].node, path[height].pos;
    Shortened(path, t, height, space, x, r);
    P.NodeWf(path, t, height, 0, LIMIT, height);
    TailTaken(path, t, height, b, x, y.first);
    assert pos + 1 < |leaf.exts| ==> leaf.exts[pos].End() <= leaf.exts[pos + 1].first;
  }

  // A shortened extent changes no count of entries.
  lemma {:induction false} SameFull(path: seq<Frame>, r: seq<Frame>, height: nat, x: Extent, k: nat)
    requires |path| == height + 1 && Linked(path) && AtLeaf(path[height]) && path[height].node.exts != [] && k <= height
    requires r == WithLast(path, height, x)
    ensures FullTail(r, k) == FullTail(path, k)
  {
    var leaf, pos := path[height].node, path[height].pos;
    assert Full(r[k].node) == Full(path[k].node) by {
      if k < height {
        SP.RiseKeys(path, height, leaf.(exts := leaf.exts[pos := x]), pos, k);
      }
    }
    if k > 0 {
      SameFull(path, r, height, x, k - 1);
    }
  }

  // ---------------------------------------------------------------- around the extent

  // What lies behind a position in the node at level i stays below the end of that node.
  lemma BehindBounds(path: seq<Frame>, t: Tree, height: nat, i: nat)
    requires Wf(t, height, 0, LIMIT) && IsPath(path, t, height) && path[height].node.exts != [] && i <= height
    ensures var e := path[height].node.exts[path[height].pos];
            && P.EndsBy(Behind(path, height, i), P.HiAt(path, i, LIMIT)) && P.StartsAt(Behind(path, height, i), e.End())
            && NonEmpty(Behind(path, height, i)) && e.End() <= P.HiAt(path, i, LIMIT)
  {
    P.NodeWf(path, t, height, 0, LIMIT, i);
    FlatChain(path[i].node, height - i, P.LoAt(path, i, 0), P.HiAt(path, i, LIMIT));
    var left := LeftsOf(path, height, i)[0].node;
    NodeHalves(path, height, i);
    ChainBehind(Flat(left), path[height].node.exts[path[height].pos], Behind(path, height, i),
                P.LoAt(path, i, 0), P.HiAt(path, i, LIMIT));
  }

  // In an ordered list, what follows an extent starts at its end.
  lemma ChainBehind(x: seq<Extent>, e: Extent, m: seq<Extent>, lo: nat, hi: nat)
    requires Chain(x + m, lo, hi) && x != [] && x[|x| - 1] == e
    ensures P.EndsBy(m, hi) && P.StartsAt(m, e.End()) && NonEmpty(m) && e.End() <= hi
  {
    var s := x + m;
    assert s[|x| - 1] == e;
    forall i | 0 <= i < |m| ensures m[i].End() <= hi && e.End() <= m[i].first && 0 < m[i].Len() {
      assert s[|x| + i] == m[i];
    }
  }

  // A node is what the cut leaves of it and what lies behind the position.
  lemma NodeHalves(path: seq<Frame>, height: nat, i: nat)
    requires |path| == height + 1 && Linked(path) && AtLeaf(path[height]) && path[height].node.exts != [] && i <= height
    ensures var left := Flat(LeftsOf(path, height, i)[0].node);
            && Flat(path[i].node) == left + Behind(path, height, i)
            && left != [] && left[|left| - 1] == path[height].node.exts[path[height].pos]
    decreases height - i
  {
    var f := path[i];
    if i == height {
      Seqs.Halves(f.node.exts, f.pos + 1);
    } else {
      NodeHalves(path, height, i + 1);
      var x, k := LeftsOf(path, height, i + 1)[0].node, f.node.kids[f.pos];
      var a, z := KidsFlat(f.node.kids[..f.pos]), KidsFlat(f.node.kids[f.pos + 1..]);
      KidsAround(f.node.kids, f.pos);
      KidsConcat(f.node.kids[..f.pos], [k.(tree := x)]);
      KidsOne(k.(tree := x));
      ExtentSplit.Halves(a, Flat(x), Behind(path, height, i + 1), z);
      assert Flat(LeftsOf(path, height, i)[0].node) == a + Flat(x);
    }
  }

  // What lies before the extent at the end of a path ends at its start.
  lemma EndBefore(path: seq<Frame>, t: Tree, height: nat)
    requires Wf(t, height, 0, LIMIT) && IsPath(path, t, height) && path[height].node.exts != []
    ensures var exts, pos := path[height].node.exts, path[height].pos;
            P.EndsBy(P.Before(path, height) + exts[..pos], exts[pos].first)
  {
    var exts, pos := path[height].node.exts, path[height].pos;
    var before := P.Before(path, height) + exts[..pos];
    FlatChain(t, height, 0, LIMIT);
    P.PathFlat(path, t, height, height);
    var s := Flat(t);
    forall i | 0 <= i < |before| ensures before[i].End() <= exts[pos].first {
      assert before[i] == s[i] && s[|before|] == exts[pos];
    }
  }

  lemma AfterBounds(path: seq<Frame>, t: Tree, height: nat, i: nat)
    requires Wf(t, height, 0, LIMIT) && IsPath(path, t, height) && path[height].node.exts != [] && i <= height
    ensures P.StartsAt(P.After(path, i), path[height].node.exts[path[height].pos].End())
  {
    P.AfterAbove(path, t, height, 0, LIMIT, i);
    BehindBounds(path, t, height, i);
  }

  lemma RestStarts(path: seq<Frame>, t: Tree, height: nat)
    requires Wf(t, height, 0, LIMIT) && IsPath(path, t, height) && path[height].node.exts != []
    ensures var exts, pos := path[height].node.exts, path[height].pos;
            P.StartsAt(exts[pos + 1..] + P.After(path, height), exts[pos].End())
  {
    BehindBounds(path, t, height, height);
    AfterBounds(path, t, height, height);
    P.StartsConcat(path[height].node.exts[path[height].pos + 1..], P.After(path, height),
                   path[height].node.exts[path[height].pos].End());
  }

  lemma ListShort(b: seq<Extent>, exts: seq<Extent>, pos: nat, x: Extent, z: seq<Extent>)
    requires pos < |exts|
    ensures b + exts[pos := x] + z == (b + exts[..pos]) + [x] + (exts[pos + 1..] + z)
    ensures b + exts[..pos + 1] + exts[pos + 1..] + z == (b + exts[..pos]) + [exts[pos]] + (exts[pos + 1..] + z)
  {
    assert exts[pos := x] == exts[..pos] + [x] + exts[pos + 1..];
    assert exts[..pos + 1] == exts[..pos] + [exts[pos]];
  }
}
