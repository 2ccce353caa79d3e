// Removing a range of logical blocks from the whole tree.

module ExtentRemove {
  import Seqs
  import opened ExtentTree
  import opened ExtentLookup
  import opened ExtentLeaf
  import opened ExtentCut
  import opened ExtentStack
  import P = ExtentPath
  import SP = ExtentSplitPath
  import I = ExtentInode

  // The index node in hand and its next entry to look at.
  datatype Cursor = Cursor(above: Above, cur: Tree, pos: nat)

  ghost predicate Sound(c: Cursor, height: nat, space: nat) {
    && height > 0 && Ok(c.above, height, space)
    && c.cur.Index? && c.pos <= |c.cur.kids| && Fine(c.cur, space)
    && (Empty(c.cur) || Wf(c.cur, height, Lo(c.above), Hi(c.above)))
  }

  function Rest(c: Cursor): seq<Extent>
    requires c.cur.Index? && c.pos <= |c.cur.kids|
  {
    KidsFlat(c.cur.kids[c.pos..]) + After(c.above)
  }

  function Done(c: Cursor): seq<Extent>
    requires c.cur.Index? && c.pos <= |c.cur.kids|
  {
    Before(c.above) + KidsFlat(c.cur.kids[..c.pos])
  }

  // Nodes that the walk has still to look at.
  function Remaining(c: Cursor): nat
    requires c.cur.Index? && c.pos <= |c.cur.kids|
  {
    ToCome(c.above) + KidsSize(c.cur.kids[c.pos..])
  }

  // What the removal is to achieve, and what it has freed so far.
  datatype Job = Job(from: nat, to: nat, flat: seq<Extent>, blocks: multiset<nat>)
  datatype Log = Log(runs: seq<Run>, nodes: seq<nat>)

  // With `done` in its final form and `rest` still untouched, the job is on its way.
  ghost predicate OnWay(j: Job, done: seq<Extent>, rest: seq<Extent>, log: Log) {
    && done + Cut(rest, j.from, j.to) == Cut(j.flat, j.from, j.to)
    && log.runs + Runs(rest, j.from, j.to) == Runs(j.flat, j.from, j.to)
  }

  // An index node with entries still to look at.
  ghost predicate Open(j: Job, c: Cursor, height: nat, space: nat, log: Log) {
    && Sound(c, height, space)
    && OnWay(j, Done(c), Rest(c), log) && P.StartsAt(Rest(c), j.from)
    && KidsBlocks(c.cur.kids) + Held(c.above) + multiset(log.nodes) == j.blocks
  }

  // A node that is in its final form. (Where a contract compares one of these two predicates
  // with true, the verifier keeps it folded, which makes proofs about several steps short.)
  ghost predicate Finished(j: Job, s: Above, cur: Tree, height: nat, space: nat, log: Log) {
    && Ok(s, height, space) && Fine(cur, space)
    && (Empty(cur) || Wf(cur, height, Lo(s), Hi(s)))
    && OnWay(j, Before(s) + Flat(cur), After(s), log) && P.StartsAt(After(s), j.from)
    && Blocks(cur) + Held(s) + multiset(log.nodes) == j.blocks
  }

  // ---------------------------------------------------------------- leaving a node

  lemma AscendKept(j: Job, s: Above, cur: Tree, height: nat, space: nat, log: Log)
    requires Finished(j, s, cur, height, space, log) && s.Under? && !Empty(cur)
    ensures Open(j, Cursor(s.up, Back(s, cur), s.pos + 1), height + 1, space, log)
  {
    var c := Cursor(s.up, Back(s, cur), s.pos + 1);
    BackWf(s, cur, height, space);
    BackParts(s, cur);
    Seqs.Assoc(Before(s.up), KidsFlat(s.node.kids[..s.pos]), Flat(cur));
    assert Done(c) == Before(s) + Flat(cur) && Rest(c) == After(s);
    assert Sound(c, height + 1, space);
  }

  lemma UpBeside(s: Above)
    requires s.Under? && Sited(s.node, s.pos)
    ensures var r := UpAfter(s);
            && Before(r) == Before(s.up) && After(r) == After(s.up) && Held(r) == Held(s.up)
            && ToCome(r) == ToCome(s.up)
            && RootMax(r, s.node) == RootMax(s.up, s.node) && Depth(r) == Depth(s.up)
  {
    if s.pos == 0 {
      RaiseBeside(s.up, KeyAfter(s.node, s.pos));
      RaiseRoot(s.up, KeyAfter(s.node, s.pos), s.node);
    }
  }

  lemma RemovedParts(s: Above, cur: Tree)
    requires s.Under? && Sited(s.node, s.pos) && Empty(cur)
    ensures var c := Cursor(UpAfter(s), Without(s.node, s.pos), s.pos);
            && c.pos <= |c.cur.kids| && Done(c) == Before(s) + Flat(cur) && Rest(c) == After(s)
            && KidsBlocks(c.cur.kids) + multiset{s.node.kids[s.pos].block} + Held(c.above) == Blocks(cur) + Held(s)
            && KidsSize(c.cur.kids[c.pos..]) + ToCome(c.above) == ToCome(s)
            && RootMax(c.above, c.cur) == RootMax(s, cur) && Depth(c.above) == Depth(s.up)
  {
    UpBeside(s);
    WithoutParts(s);
    assert RootMax(UpAfter(s), Without(s.node, s.pos)) == RootMax(UpAfter(s), s.node) by {
      RootOfMax(UpAfter(s), s.node, Without(s.node, s.pos));
    }
    assert Before(s) + Flat(cur) == Before(s);
  }

  lemma Moved(a: multiset<nat>, k: nat, u: multiset<nat>, x: multiset<nat>, nodes: seq<nat>)
    requires a + multiset{k} + u == x
    ensures a + u + multiset(nodes + [k]) == x + multiset(nodes)
  {
  }

  lemma AscendRemoved(j: Job, s: Above, cur: Tree, height: nat, space: nat, log: Log)
    requires Finished(j, s, cur, height, space, log) && s.Under? && Empty(cur)
    ensures Open(j, Cursor(UpAfter(s), Without(s.node, s.pos), s.pos), height + 1, space,
                 log.(nodes := log.nodes + [s.node.kids[s.pos].block]))
  {
    var c := Cursor(UpAfter(s), Without(s.node, s.pos), s.pos);
    RemovedOk(s, height, space);
    RemovedParts(s, cur);
    Moved(KidsBlocks(c.cur.kids), s.node.kids[s.pos].block, Held(c.above), Blocks(cur) + Held(s), log.nodes);
    assert Sound(c, height + 1, space);
  }

  // Goes back to the node above and past its entry, or removes the entry of an empty node.
  method Ascend(ghost j: Job, s: Above, cur: Tree, ghost height: nat, ghost space: nat, log: Log)
    returns (c: Cursor, log': Log)
    requires Finished(j, s, cur, height, space, log) == true && s.Under?
    ensures Open(j, c, height + 1, space, log') == true
    ensures Depth(c.above) + 1 == Depth(s) && RootMax(c.above, c.cur) == RootMax(s, cur)
    ensures c.cur.Index? && c.pos <= |c.cur.kids| && Remaining(c) == ToCome(s)
  {
    if Empty(cur) {
      AscendRemoved(j, s, cur, height, space, log);
      RemovedParts(s, cur);
      c := Cursor(UpAfter(s), Without(s.node, s.pos), s.pos);
      log' := log.(nodes := log.nodes + [s.node.kids[s.pos].block]);
    } else {
      AscendKept(j, s, cur, height, space, log);
      BackParts(s, cur);
      RootOfMax(s.up, s.node, Back(s, cur));
      c, log' := Cursor(s.up, Back(s, cur), s.pos + 1), log;
    }
  }

  // ---------------------------------------------------------------- one leaf

  // The extent at pos is the first one that reaches the range, and it does not reach over
  // the range on both sides.
  predicate FirstHit(exts: seq<Extent>, pos: nat, from: nat, to: nat) {
    && pos < |exts| && from <= to
    && (forall i :: 0 <= i < pos ==> exts[i].End() <= from)
    && from < exts[pos].End() && (pos > 0 ==> exts[0].first <= from)
    && !(exts[pos].first < from && to + 1 < exts[pos].End())
  }

  // Removes the range from a leaf after narrowing it to the blocks of the leaf.
  method CutLeaf(exts: seq<Extent>, pos: nat, from: nat, to: nat, ghost lo: nat, ghost hi: nat)
    returns (out: seq<Extent>, runs: seq<Run>)
    requires Chain(exts, lo, hi) && FirstHit(exts, pos, from, to)
    ensures out == Cut(exts, from, to) && runs == Runs(exts, from, to) && |out| <= |exts|
  {
    var n := |exts|;
    var first, last := exts[0].first, exts[n - 1].End();
    forall i | 0 <= i < n ensures first <= exts[i].first && exts[i].End() <= last {
      assert 0 < i ==> exts[0].End() <= exts[i].first;
      assert i < n - 1 ==> exts[i].End() <= exts[n - 1].first;
    }
    var leafFrom := if first < from then from else first;
    var leafTo := if last - 1 > to then to else last - 1;
    CutClamped(exts, first, last, from, to, leafFrom, leafTo);
    out, runs := RemoveLeaf(exts, pos, leafFrom, leafTo, lo, hi);
  }

  // The nodes above after a leaf was cut: their keys follow when its first entry changed.
  function AboveAfter(s: Above, pos: nat, out: seq<Extent>): (r: Above) {
    if pos == 0 && out != [] then Raise(s, out[0].first) else s
  }

  // A stretch of the list that was cut belongs to what is done.
  lemma CutOn(j: Job, done: seq<Extent>, x: seq<Extent>, y: seq<Extent>, log: Log)
    requires OnWay(j, done, x + y, log)
    ensures OnWay(j, done + Cut(x, j.from, j.to), y, log.(runs := log.runs + Runs(x, j.from, j.to)))
  {
    CutConcat(x, y, j.from, j.to);
    Seqs.Assoc(done, Cut(x, j.from, j.to), Cut(y, j.from, j.to));
    Seqs.Assoc(log.runs, Runs(x, j.from, j.to), Runs(y, j.from, j.to));
  }

  lemma CutLeafOk(s: Above, leaf: Tree, pos: nat, height: nat, space: nat, out: seq<Extent>)
    requires Ok(s, height, space) && leaf.Leaf? && height == 0 && Chain(out, Lo(s), Hi(s)) && |out| <= leaf.max
    ensures var r := AboveAfter(s, pos, out);
            Ok(r, height, space) && Wf(leaf.(exts := out), height, Lo(r), Hi(r))
  {
    if pos == 0 && out != [] {
      RaiseOk(s, height, out[0].first, space);
      NoneBelow(out, Lo(s), out[0].first, Hi(s));
    }
  }

  lemma LeafDone(j: Job, s: Above, leaf: Tree, pos: nat, height: nat, space: nat, log: Log, runs: seq<Run>,
                 out: seq<Extent>)
    requires height == 0 && Ok(s, height, space) && Fine(leaf, space) && leaf.Leaf?
    requires Wf(leaf, height, Lo(s), Hi(s)) && j.from <= j.to
    requires OnWay(j, Before(s), leaf.exts + After(s), log)
    requires P.StartsAt(After(s), j.from)
    requires Held(s) + multiset(log.nodes) == j.blocks
    requires out == Cut(leaf.exts, j.from, j.to) && runs == Runs(leaf.exts, j.from, j.to)
    requires |out| <= leaf.max
    ensures Finished(j, AboveAfter(s, pos, out), leaf.(exts := out), height, space, log.(runs := log.runs + runs))
    ensures ToCome(AboveAfter(s, pos, out)) == ToCome(s)
    ensures RootMax(AboveAfter(s, pos, out), leaf.(exts := out)) == RootMax(s, leaf)
  {
    var r, cut := AboveAfter(s, pos, out), leaf.(exts := out);
    AboveBeside(s, pos, out, leaf);
    assert OnWay(j, Before(r) + Flat(cut), After(r), log.(runs := log.runs + runs)) by {
      CutOn(j, Before(s), leaf.exts, After(s), log);
    }
    assert Ok(r, height, space) && Wf(cut, height, Lo(r), Hi(r)) by {
      CutChain(leaf.exts, j.from, j.to, Lo(s), Hi(s));
      CutLeafOk(s, leaf, pos, height, space, out);
    }
    assert RootMax(r, cut) == RootMax(s, leaf) by {
      RootOfMax(r, leaf, cut);
    }
    assert Blocks(cut) + Held(r) == Held(s);
  }

  lemma AboveBeside(s: Above, pos: nat, out: seq<Extent>, leaf: Tree)
    ensures var r := AboveAfter(s, pos, out);
            && Before(r) == Before(s) && After(r) == After(s) && Held(r) == Held(s) && ToCome(r) == ToCome(s)
            && RootMax(r, leaf) == RootMax(s, leaf)
  {
    if pos == 0 && out != [] {
      RaiseBeside(s, out[0].first);
      RaiseRoot(s, out[0].first, leaf);
    }
  }

  // ---------------------------------------------------------------- entering a node

  lemma FromEntry(kids: seq<Kid>, p: nat)
    requires p < |kids|
    ensures KidsFlat(kids[p..]) == Flat(kids[p].tree) + KidsFlat(kids[p + 1..])
    ensures KidsSize(kids[p..]) == Size(kids[p].tree) + KidsSize(kids[p + 1..])
  {
    assert kids[p..][1..] == kids[p + 1..] && kids[p..][0] == kids[p];
  }

  lemma EnterParts(c: Cursor)
    requires c.cur.Index? && c.pos < |c.cur.kids|
    ensures var s, child := Under(c.cur, c.pos, c.above), c.cur.kids[c.pos].tree;
            && Before(s) == Done(c) && Flat(child) + After(s) == Rest(c)
            && KidsSize(c.cur.kids[c.pos..]) == Size(child) + KidsSize(c.cur.kids[c.pos + 1..])
  {
    FromEntry(c.cur.kids, c.pos);
    Seqs.Assoc(Flat(c.cur.kids[c.pos].tree), KidsFlat(c.cur.kids[c.pos + 1..]), After(c.above));
  }

  lemma EnterBlocks(c: Cursor)
    requires c.cur.Index? && c.pos < |c.cur.kids|
    ensures Blocks(c.cur.kids[c.pos].tree) + Held(Under(c.cur, c.pos, c.above)) ==
            KidsBlocks(c.cur.kids) + Held(c.above)
  {
    var kids, p := c.cur.kids, c.pos;
    Seqs.Cut(kids, p);
    BlocksAround(kids[..p], kids[p], kids[p + 1..]);
    Shuffle(KidsBlocks(kids[..p]), multiset{kids[p].block}, Blocks(kids[p].tree), KidsBlocks(kids[p + 1..]),
            Held(c.above));
  }

  lemma EnterIndex(j: Job, c: Cursor, height: nat, space: nat, log: Log)
    requires Open(j, c, height, space, log) && c.pos < |c.cur.kids| && height > 1
    ensures Open(j, Cursor(Under(c.cur, c.pos, c.above), c.cur.kids[c.pos].tree, 0), height - 1, space, log)
  {
    var s, child := Under(c.cur, c.pos, c.above), c.cur.kids[c.pos].tree;
    var d := Cursor(s, child, 0);
    assert Sound(d, height - 1, space) by {
      Enter(c.above, c.cur, c.pos, height, space);
    }
    assert Done(d) == Done(c) && Rest(d) == Rest(c) by {
      EnterParts(c);
      assert child.kids[0..] == child.kids && child.kids[..0] == [];
      assert Done(d) == Before(s) + [];
    }
    assert KidsBlocks(child.kids) + Held(s) == KidsBlocks(c.cur.kids) + Held(c.above) by {
      EnterBlocks(c);
    }
  }

  lemma EnterLeaf(j: Job, c: Cursor, space: nat, log: Log)
    requires Open(j, c, 1, space, log) && c.pos < |c.cur.kids| && j.from <= j.to
    ensures var s, leaf := Under(c.cur, c.pos, c.above), c.cur.kids[c.pos].tree;
            && Ok(s, 0, space) && Fine(leaf, space) && Wf(leaf, 0, Lo(s), Hi(s))
            && OnWay(j, Before(s), leaf.exts + After(s), log) && P.StartsAt(After(s), j.from)
            && Held(s) + multiset(log.nodes) == j.blocks && FirstHit(leaf.exts, 0, j.from, j.to)
  {
    var s, leaf := Under(c.cur, c.pos, c.above), c.cur.kids[c.pos].tree;
    Enter(c.above, c.cur, c.pos, 1, space);
    EnterParts(c);
    EnterBlocks(c);
    StartsParts(leaf.exts, After(s), j.from);
  }

  lemma StartsParts(x: seq<Extent>, y: seq<Extent>, b: nat)
    requires P.StartsAt(x + y, b)
    ensures P.StartsAt(x, b) && P.StartsAt(y, b)
  {
    assert forall i :: 0 <= i < |x| ==> x[i] == (x + y)[i];
    assert forall i :: 0 <= i < |y| ==> y[i] == (x + y)[|x| + i];
  }

  // ---------------------------------------------------------------- the walk

  // Whether an index node has another entry that may reach into the range.
  predicate MoreToRemove(c: Cursor, to: nat)
    requires c.cur.Index?
  {
    c.cur.kids != [] && c.pos < |c.cur.kids| && c.cur.kids[c.pos].first <= to
  }

  lemma RestLater(c: Cursor, height: nat, space: nat, from: nat, to: nat)
    requires Sound(c, height, space) && !MoreToRemove(c, to)
    ensures var x := KidsFlat(c.cur.kids[c.pos..]); Cut(x, from, to) == x && Runs(x, from, to) == []
  {
    if c.pos < |c.cur.kids| {
      KidsChain(c.cur.kids, height, Hi(c.above), c.pos);
    }
    CutNothing(KidsFlat(c.cur.kids[c.pos..]), from, to);
  }

  lemma WayOn(j: Job, done: seq<Extent>, x: seq<Extent>, y: seq<Extent>, log: Log)
    requires OnWay(j, done, x + y, log)
    requires Cut(x, j.from, j.to) == x && Runs(x, j.from, j.to) == []
    ensures OnWay(j, done + x, y, log)
  {
    CutOn(j, done, x, y, log);
    assert log.runs + [] == log.runs;
  }

  // When it has none, the node is in its final form.
  lemma NodeDone(j: Job, c: Cursor, height: nat, space: nat, log: Log)
    requires Open(j, c, height, space, log) && !MoreToRemove(c, j.to)
    ensures Finished(j, c.above, c.cur, height, space, log)
  {
    var kids, p := c.cur.kids, c.pos;
    RestLater(c, height, space, j.from, j.to);
    WayOn(j, Done(c), KidsFlat(kids[p..]), After(c.above), log);
    StartsParts(KidsFlat(kids[p..]), After(c.above), j.from);
    Seqs.Assoc(Before(c.above), KidsFlat(kids[..p]), KidsFlat(kids[p..]));
    KidsConcat(kids[..p], kids[p..]);
    Seqs.Halves(kids, p);
  }

  lemma LeafReady(j: Job, c: Cursor, space: nat, log: Log)
    requires Open(j, c, 1, space, log) && c.pos < |c.cur.kids| && j.from <= j.to
    ensures var s, leaf := Under(c.cur, c.pos, c.above), c.cur.kids[c.pos].tree;
            && leaf.Leaf? && Chain(leaf.exts, Lo(s), Hi(s)) && FirstHit(leaf.exts, 0, j.from, j.to)
            && |leaf.exts| <= leaf.max
  {
    EnterLeaf(j, c, space, log);
  }

  lemma LeafVisited(j: Job, c: Cursor, space: nat, log: Log, runs: seq<Run>, out: seq<Extent>)
    requires Open(j, c, 1, space, log) && c.pos < |c.cur.kids| && j.from <= j.to && c.cur.kids[c.pos].tree.Leaf?
    requires var leaf := c.cur.kids[c.pos].tree;
             && out == Cut(leaf.exts, j.from, j.to) && runs == Runs(leaf.exts, j.from, j.to) && |out| <= leaf.max
    ensures var leaf := c.cur.kids[c.pos].tree;
            var r := AboveAfter(Under(c.cur, c.pos, c.above), 0, out);
            && Finished(j, r, leaf.(exts := out), 0, space, log.(runs := log.runs + runs))
            && r.Under? && Depth(r.up) == Depth(c.above) && ToCome(r) < Remaining(c)
            && RootMax(r, leaf.(exts := out)) == RootMax(c.above, c.cur)
  {
    var s, leaf := Under(c.cur, c.pos, c.above), c.cur.kids[c.pos].tree;
    EnterParts(c);
    EnterLeaf(j, c, space, log);
    LeafDone(j, s, leaf, 0, 0, space, log, runs, out);
  }

  // Cuts the leaf below the next entry.
  method CutBelow(ghost j: Job, from: nat, to: nat, c: Cursor, ghost space: nat, log: Log)
    returns (s: Above, leaf: Tree, log': Log)
    requires j.from == from <= to == j.to && Open(j, c, 1, space, log) && MoreToRemove(c, to)
    ensures Finished(j, s, leaf, 0, space, log') && s.Under? && Depth(s.up) == Depth(c.above)
    ensures ToCome(s) < Remaining(c) && RootMax(s, leaf) == RootMax(c.above, c.cur)
  {
    LeafReady(j, c, space, log);
    s, leaf := Under(c.cur, c.pos, c.above), c.cur.kids[c.pos].tree;
    var out, runs := CutLeaf(leaf.exts, 0, from, to, Lo(s), Hi(s));
    LeafVisited(j, c, space, log, runs, out);
    s, leaf, log' := AboveAfter(s, 0, out), leaf.(exts := out), log.(runs := log.runs + runs);
  }

  // The next node that is in its final form: a leaf, once it is cut, or the node in hand.
  method NextFinished(ghost j: Job, from: nat, to: nat, c: Cursor, h: nat, ghost space: nat, log: Log)
    returns (s: Above, node: Tree, k: nat, log': Log)
    requires j.from == from <= to == j.to && Open(j, c, h, space, log) == true
    requires c.cur.Index? && c.pos <= |c.cur.kids| && if MoreToRemove(c, to) then h == 1 else c.above.Under?
    ensures Finished(j, s, node, k, space, log') == true && s.Under? && k + Depth(s) == h + Depth(c.above)
    ensures RootMax(s, node) == RootMax(c.above, c.cur)
    ensures ToCome(s) < Remaining(c) || (ToCome(s) <= Remaining(c) && Depth(s) == Depth(c.above))
  {
    if MoreToRemove(c, to) {
      k := 0;
      s, node, log' := CutBelow(j, from, to, c, space, log);
    } else {
      NodeDone(j, c, h, space, log);
      s, node, k, log' := c.above, c.cur, h, log;
    }
  }

  // Finishes a node and goes back to the one above it.
  method Leave(ghost j: Job, from: nat, to: nat, c: Cursor, h: nat, ghost space: nat, log: Log)
    returns (c': Cursor, h': nat, log': Log)
    requires j.from == from <= to == j.to && Open(j, c, h, space, log) == true
    requires c.cur.Index? && c.pos <= |c.cur.kids| && if MoreToRemove(c, to) then h == 1 else c.above.Under?
    ensures Open(j, c', h', space, log') == true && h' + Depth(c'.above) == h + Depth(c.above)
    ensures RootMax(c'.above, c'.cur) == RootMax(c.above, c.cur)
    ensures Remaining(c') < Remaining(c) || (Remaining(c') <= Remaining(c) && Depth(c'.above) < Depth(c.above))
  {
    var s, node, k, log1 := NextFinished(j, from, to, c, h, space, log);
    h' := k + 1;
    c', log' := Ascend(j, s, node, k, space, log1);
  }

  // One round of the walk: into the next child, or back to the node above.
  method Step(ghost j: Job, from: nat, to: nat, c: Cursor, h: nat, ghost space: nat, log: Log)
    returns (c': Cursor, h': nat, log': Log)
    requires j.from == from <= to == j.to && Open(j, c, h, space, log) && (c.above.Under? || MoreToRemove(c, to))
    ensures Open(j, c', h', space, log') && h' + Depth(c'.above) == h + Depth(c.above)
    ensures RootMax(c'.above, c'.cur) == RootMax(c.above, c.cur)
    ensures Remaining(c') < Remaining(c) || (Remaining(c') <= Remaining(c) && Depth(c'.above) < Depth(c.above))
  {
    if MoreToRemove(c, to) && h > 1 {
      c', h', log' := Cursor(Under(c.cur, c.pos, c.above), c.cur.kids[c.pos].tree, 0), h - 1, log;
      EnterIndex(j, c, h, space, log);
      assert Remaining(c') < Remaining(c) by {
        EnterParts(c);
        assert c'.cur.kids[0..] == c'.cur.kids;
      }
    } else {
      c', h', log' := Leave(j, from, to, c, h, space, log);
    }
  }

  // Walks over the rest of the tree, leaf by leaf, up to the end of the range.
  method Walk(ghost j: Job, from: nat, to: nat, start: Cursor, height: nat, ghost H: nat, ghost space: nat, log0: Log)
    returns (root: Tree, log: Log)
    requires j.from == from <= to == j.to && H == height + Depth(start.above)
    requires Open(j, start, height, space, log0)
    ensures Finished(j, Top, root, H, space, log)
    ensures root.Index? && root.max == RootMax(start.above, start.cur)
  {
    var c, h: nat := start, height;
    log := log0;
    while c.above.Under? || MoreToRemove(c, to)
      invariant Open(j, c, h, space, log) && H == h + Depth(c.above)
      invariant RootMax(c.above, c.cur) == RootMax(start.above, start.cur)
      decreases Remaining(c), Depth(c.above)
    {
      c, h, log := Step(j, from, to, c, h, space, log);
    }
    NodeDone(j, c, h, space, log);
    root := c.cur;
  }

  // ---------------------------------------------------------------- the first leaf

  // The nodes above level k of a path.
  function StackOf(path: seq<Frame>, k: nat): (s: Above)
    requires k < |path| && Linked(path)
    ensures Depth(s) == k && (k > 0 ==> Sited(s.node, s.pos))
  {
    if k == 0 then Top else Under(path[k - 1].node, path[k - 1].pos, StackOf(path, k - 1))
  }

  lemma {:induction false} StackParts(path: seq<Frame>, k: nat)
    requires k < |path| && Linked(path)
    ensures var s := StackOf(path, k);
            && Before(s) == P.Before(path, k) && After(s) == P.After(path, k)
            && Lo(s) == P.LoAt(path, k, 0) && Hi(s) == P.HiAt(path, k, LIMIT)
            && RootMax(s, path[k].node) == path[0].node.max
  {
    if k > 0 {
      StackParts(path, k - 1);
    }
  }

  lemma {:induction false} StackOk(path: seq<Frame>, t: Tree, height: nat, space: nat, k: nat)
    requires Wf(t, height, 0, LIMIT) && IsPath(path, t, height) && Fine(t, space) && k <= height
    ensures var s := StackOf(path, k);
            Ok(s, height - k, space) && Wf(path[k].node, height - k, Lo(s), Hi(s)) && Fine(path[k].node, space)
  {
    if k > 0 {
      StackOk(path, t, height, space, k - 1);
      var f := path[k - 1];
      Enter(StackOf(path, k - 1), f.node, f.pos, height - k + 1, space);
    }
  }

  lemma {:induction false} StackBlocks(path: seq<Frame>, t: Tree, height: nat, k: nat)
    requires IsPath(path, t, height) && k <= height
    ensures Blocks(path[k].node) + Held(StackOf(path, k)) == Blocks(t)
  {
    if k > 0 {
      StackBlocks(path, t, height, k - 1);
      EnterBlocks(Cursor(StackOf(path, k - 1), path[k - 1].node, path[k - 1].pos));
    }
  }

  // Before the leaf that holds the start of the range nothing changes.
  lemma StartsOnWay(path: seq<Frame>, t: Tree, height: nat, j: Job)
    requires Wf(t, height, 0, LIMIT) && IsPath(path, t, height) && Taken(path, j.from) && j.flat == Flat(t)
    requires j.from < LIMIT
    ensures var s := StackOf(path, height);
            OnWay(j, Before(s), path[height].node.exts + After(s), Log([], [])) && P.StartsAt(After(s), j.from)
  {
    var s, exts := StackOf(path, height), path[height].node.exts;
    StackParts(path, height);
    P.PathFlat(path, t, height, height);
    P.BeforeBelow(path, t, height, 0, LIMIT, height, j.from);
    P.AfterAbove(path, t, height, 0, LIMIT, height);
    I.HiAbove(path, j.from, height, LIMIT);
    CutNothing(Before(s), j.from, j.to);
    Seqs.Assoc(Before(s), exts, After(s));
    CutConcat(Before(s), exts + After(s), j.from, j.to);
  }

  // What a removal leaves when it starts inside an extent and is not interior to it.
  ghost predicate Removed(t: Tree, from: nat, to: nat, space: nat, root: Tree, height: nat, log: Log) {
    && I.Good(root, height, space) && Fine(root, space)
    && Flat(root) == Cut(Flat(t), from, to)
    && log.runs == Runs(Flat(t), from, to)
    && Blocks(root) + multiset(log.nodes) == Blocks(t)
  }

  lemma {:induction false} FineCaps(t: Tree, space: nat)
    requires Fine(t, space)
    ensures SP.Caps(t, space)
    decreases t
  {
    if t.Index? {
      forall i | 0 <= i < |t.kids| ensures SP.KidCaps(t.kids[i], space) {
        assert KidFine(t.kids[i], space);
        FineCaps(t.kids[i].tree, space);
      }
    }
  }

  lemma WayEnd(j: Job, flat: seq<Extent>, log: Log)
    requires OnWay(j, [] + flat, [], log)
    ensures flat == Cut(j.flat, j.from, j.to) && log.runs == Runs(j.flat, j.from, j.to)
  {
    assert [] + flat + [] == flat && log.runs + [] == log.runs;
  }

  // The root is in its final form. An empty root becomes a leaf again.
  lemma RootDone(j: Job, t: Tree, root: Tree, height: nat, space: nat, log: Log)
    requires Finished(j, Top, root, height, space, log) == true && j.flat == Flat(t) && j.blocks == Blocks(t)
    requires root.max == I.ROOT_MAX < space
    ensures var empty := Empty(root);
            Removed(t, j.from, j.to, space, if empty then Leaf(I.ROOT_MAX, []) else root, if empty then 0 else height,
                    log)
  {
    WayEnd(j, Flat(root), log);
    var r, h := if Empty(root) then Leaf(I.ROOT_MAX, []) else root, if Empty(root) then 0 else height;
    assert Flat(r) == Flat(root) && Blocks(r) == Blocks(root);
    RootGood(root, height, space);
  }

  lemma RootGood(root: Tree, height: nat, space: nat)
    requires Fine(root, space) && root.max == I.ROOT_MAX < space && (!Empty(root) ==> Wf(root, height, 0, LIMIT))
    ensures var empty := Empty(root);
            var r := if empty then Leaf(I.ROOT_MAX, []) else root;
            I.Good(r, if empty then 0 else height, space) && Fine(r, space)
  {
    FineCaps(root, space);
  }

  // Cuts the leaf at the end of the path.
  method CutFirst(ghost j: Job, path: seq<Frame>, height: nat, from: nat, to: nat, ghost space: nat)
    returns (s: Above, leaf: Tree, k: nat, log: Log)
    requires |path| == height + 1 && Wf(path[0].node, height, 0, LIMIT) && Fine(path[0].node, space)
    requires IsPath(path, path[0].node, height) && Taken(path, from) && from < LIMIT
    requires FirstHit(path[height].node.exts, path[height].pos, from, to)
    requires j == Job(from, to, Flat(path[0].node), Blocks(path[0].node))
    ensures Finished(j, s, leaf, k, space, log) == true && k == 0 && Depth(s) == height
    ensures RootMax(s, leaf) == path[0].node.max
  {
    k, s, leaf := 0, StackOf(path, height), path[height].node;
    var pos := path[height].pos;
    StartsOnWay(path, path[0].node, height, j);
    StackOk(path, path[0].node, height, space, height);
    StackBlocks(path, path[0].node, height, height);
    StackParts(path, height);
    var out, runs := CutLeaf(leaf.exts, pos, from, to, Lo(s), Hi(s));
    LeafDone(j, s, leaf, pos, k, space, Log([], []), runs, out);
    s, leaf, log := AboveAfter(s, pos, out), leaf.(exts := out), Log([] + runs, []);
  }

  // Removes a range that starts in the extent at the end of the path.
  method RemoveFrom(path: seq<Frame>, height: nat, from: nat, to: nat, space: nat)
    returns (root: Tree, height': nat, log: Log)
    requires |path| == height + 1 && I.Good(path[0].node, height, space) && Fine(path[0].node, space)
    requires IsPath(path, path[0].node, height) && Taken(path, from) && from < LIMIT
    requires FirstHit(path[height].node.exts, path[height].pos, from, to)
    ensures Removed(path[0].node, from, to, space, root, height', log)
  {
    ghost var j := Job(from, to, Flat(path[0].node), Blocks(path[0].node));
    var s, leaf, k, log1 := CutFirst(j, path, height, from, to, space);
    root, log := leaf, log1;
    if height > 0 {
      var c, log2 := Ascend(j, s, leaf, k, space, log1);
      root, log := Walk(j, from, to, c, k + 1, height, space, log2);
    }
    RootDone(j, path[0].node, root, height, space, log);
    height' := height;
    if Empty(root) {
      root, height' := Leaf(I.ROOT_MAX, []), 0;
    }
  }
}
