// Whole runs of additions to a directory.

module HTreeRuns {
  import opened Bytes
  import opened HTreeFlat
  import opened HTreeView
  import D = DirBlock
  import H = HTree
  import Limits = HTreeLimits

  lemma {:induction false} ContentsHas(flat: seq<IndexEntry>, leaves: map<int, seq<D.Rec>>, e: D.Entry)
    requires Covers(flat, leaves)
    ensures e in Contents(flat, leaves) <==> exists p :: 0 <= p < |flat| && e in D.Live(leaves[flat[p].block])
  {
    if flat != [] {
      var rest := flat[1..];
      ContentsHas(rest, leaves, e);
      if e in Contents(rest, leaves) {
        var p :| 0 <= p < |rest| && e in D.Live(leaves[rest[p].block]);
        assert flat[p + 1] == rest[p];
      }
      forall p | 0 < p < |flat| ensures flat[p] == rest[p - 1] {
      }
    }
  }

  // Some leaf holds a name exactly when the directory has an entry of that name.
  lemma HoldsEntry(flat: seq<IndexEntry>, leaves: map<int, seq<D.Rec>>, name: seq<byte>)
    requires Covers(flat, leaves)
    ensures Holds(flat, leaves, name) <==> exists e :: e in Contents(flat, leaves) && e.name == name
  {
    if Holds(flat, leaves, name) {
      var p :| 0 <= p < |flat| && flat[p].block in leaves && D.Has(leaves[flat[p].block], name);
      var rs := leaves[flat[p].block];
      var i :| 0 <= i < |rs| && rs[i].Named(name);
      var e := D.Entry(rs[i].name, rs[i].inode, rs[i].itype);
      D.LiveHas(rs, e);
      ContentsHas(flat, leaves, e);
      assert e in Contents(flat, leaves) && e.name == name;
    }
    if e :| e in Contents(flat, leaves) && e.name == name {
      ContentsHas(flat, leaves, e);
      var p :| 0 <= p < |flat| && e in D.Live(leaves[flat[p].block]);
      var rs := leaves[flat[p].block];
      D.LiveHas(rs, e);
      var i :| 0 <= i < |rs| && rs[i].Live() && D.Entry(rs[i].name, rs[i].inode, rs[i].itype) == e;
      assert rs[i].Named(name);
      assert D.Has(rs, name);
    }
  }

  predicate Proper(e: D.Entry) {
    1 <= |e.name| <= 255 && 0 < e.inode < 0x1_0000_0000
  }

  // What a directory is at one moment of a run.
  datatype State = State(levels: nat, nodes: map<int, Node>, leaves: map<int, seq<D.Rec>>, blocks: nat)

  // The first entries for which a flag is set.
  function Picked(es: seq<D.Entry>, flags: seq<bool>, n: nat): (m: multiset<D.Entry>)
    requires n <= |es| && n <= |flags|
  {
    if n == 0 then multiset{}
    else Picked(es, flags, n - 1) + if flags[n - 1] then multiset{es[n - 1]} else multiset{}
  }

  predicate Fine(s: State, hash: NameHash, size: nat) { H.ValidDir(s.levels, s.nodes, s.leaves, s.blocks, hash, size) }

  // Every entry that the directory has.
  function Held(s: State): (m: multiset<D.Entry>) {
    if WellLinked(s.levels, s.nodes) && Covers(Flat(s.levels, s.nodes), s.leaves) then
      Contents(Flat(s.levels, s.nodes), s.leaves)
    else multiset{}
  }

  // One addition of a run: what was reported, whether the entry was stored, and the blocks.
  predicate Addition(s: State, t: State, hash: NameHash, size: nat, capacity: nat, e: D.Entry, ok: bool, kept: bool) {
    && Fine(s, hash, size) && Fine(t, hash, size)
    && (ok <==> !H.Refused(s.levels, s.nodes, s.leaves, s.blocks, capacity, hash(e.name), |e.name|))
    && (kept ==> ok)
    && (ok && H.SureToFit(size, |e.name|) ==> kept)
    && (ok && H.RoomAtHome(s.levels, s.nodes, s.leaves, hash(e.name), |e.name|) ==> kept)
    && t.blocks == s.blocks + H.Growth(s.levels, s.nodes, s.leaves, s.blocks, capacity, hash(e.name), |e.name|)
    && Held(t) == Held(s) + (if kept then multiset{e} else multiset{})
    && (!ok ==> Flat(t.levels, t.nodes) == Flat(s.levels, s.nodes) && t.leaves == s.leaves)
  }

  // A run of the first n additions with the states it goes through.
  predicate Ran(trace: seq<State>, hash: NameHash, size: nat, capacity: nat, es: seq<D.Entry>, ok: seq<bool>,
                kept: seq<bool>, n: nat)
  {
    && |ok| == |kept| == n <= |es| && |trace| == n + 1
    && forall i {:trigger ok[i]} :: 0 <= i < n ==>
         Addition(trace[i], trace[i + 1], hash, size, capacity, es[i], ok[i], kept[i])
  }

  lemma RanStep(trace: seq<State>, hash: NameHash, size: nat, capacity: nat, es: seq<D.Entry>, ok: seq<bool>,
                kept: seq<bool>, n: nat, added: bool, stored: bool, now: State)
    requires Ran(trace, hash, size, capacity, es, ok, kept, n) && n < |es|
    requires Addition(trace[n], now, hash, size, capacity, es[n], added, stored)
    ensures Ran(trace + [now], hash, size, capacity, es, ok + [added], kept + [stored], n + 1)
  {
    var t, o := trace + [now], ok + [added];
    forall i | 0 <= i <= n
      ensures Addition(t[i], t[i + 1], hash, size, capacity, es[i], o[i], (kept + [stored])[i])
    {
      assert i < n ==> o[i] == ok[i];
    }
  }

  lemma RanAt(trace: seq<State>, hash: NameHash, size: nat, capacity: nat, es: seq<D.Entry>, ok: seq<bool>,
              kept: seq<bool>, n: nat, i: nat)
    requires Ran(trace, hash, size, capacity, es, ok, kept, n) && i < n
    ensures Held(trace[i + 1]) == Held(trace[i]) + if kept[i] then multiset{es[i]} else multiset{}
  {
    var flag := ok[i];
  }

  // A run adds exactly what was stored.
  lemma RunAdds(trace: seq<State>, hash: NameHash, size: nat, capacity: nat, es: seq<D.Entry>, ok: seq<bool>,
                kept: seq<bool>, n: nat)
    requires Ran(trace, hash, size, capacity, es, ok, kept, n)
    ensures Held(trace[n]) == Held(trace[0]) + Picked(es, kept, n)
  {
    var held := seq(n + 1, i requires 0 <= i <= n => Held(trace[i]));
    forall i | 0 <= i < n ensures held[i + 1] == held[i] + if kept[i] then multiset{es[i]} else multiset{} {
      RanAt(trace, hash, size, capacity, es, ok, kept, n, i);
    }
    SumAdds(held, es, kept, n);
  }

  lemma {:induction false} SumAdds(held: seq<multiset<D.Entry>>, es: seq<D.Entry>, kept: seq<bool>, n: nat)
    requires n < |held| && n <= |es| && n <= |kept|
    requires forall i {:trigger kept[i]} :: 0 <= i < n ==>
             held[i + 1] == held[i] + if kept[i] then multiset{es[i]} else multiset{}
    ensures held[n] == held[0] + Picked(es, kept, n)
  {
    if n > 0 {
      SumAdds(held, es, kept, n - 1);
      var flag := kept[n - 1];
    }
  }

  method AddOne(dir: H.Directory, e: D.Entry) returns (ok: bool, ghost kept: bool, ghost s: State, ghost t: State)
    requires dir.Valid() && H.AllPacked(dir.leaves) && Proper(e)
    modifies dir
    ensures dir.Valid() && H.AllPacked(dir.leaves)
    ensures s == old(State(dir.levels, dir.nodes, dir.leaves, dir.blocks))
    ensures t == State(dir.levels, dir.nodes, dir.leaves, dir.blocks)
    ensures Addition(s, t, dir.hash, dir.size, dir.capacity, e, ok, kept)
  {
    s := State(dir.levels, dir.nodes, dir.leaves, dir.blocks);
    assert Held(s) == dir.Everything();
    H.PackedCanAdd(dir.levels, dir.nodes, dir.leaves, dir.blocks, dir.hash, dir.size, e.name);
    var r;
    ghost var sort;
    r, kept, sort := dir.AddEntry(e.name, e.inode, e.itype);
    t := State(dir.levels, dir.nodes, dir.leaves, dir.blocks);
    assert Held(t) == dir.Everything();
    ok := r == H.Ok;
  }

  // Adds entries one after the other to a directory that only ever had entries added. Each
  // is refused exactly for want of space; those stored are among those reported as added.
  method AddAll(dir: H.Directory, es: seq<D.Entry>)
    returns (ok: seq<bool>, ghost kept: seq<bool>, ghost trace: seq<State>)
    requires dir.Valid() && H.AllPacked(dir.leaves) && forall i :: 0 <= i < |es| ==> Proper(es[i])
    modifies dir
    ensures dir.Valid() && H.AllPacked(dir.leaves)
    ensures Ran(trace, dir.hash, dir.size, dir.capacity, es, ok, kept, |es|)
    ensures trace[0] == old(State(dir.levels, dir.nodes, dir.leaves, dir.blocks))
    ensures trace[|es|] == State(dir.levels, dir.nodes, dir.leaves, dir.blocks)
    ensures dir.Everything() == old(dir.Everything()) + Picked(es, kept, |es|)
  {
    ok, kept, trace := [], [], [State(dir.levels, dir.nodes, dir.leaves, dir.blocks)];
    for i := 0 to |es|
      invariant dir.Valid() && H.AllPacked(dir.leaves)
      invariant Ran(trace, dir.hash, dir.size, dir.capacity, es, ok, kept, i)
      invariant trace[0] == old(State(dir.levels, dir.nodes, dir.leaves, dir.blocks))
      invariant trace[i] == State(dir.levels, dir.nodes, dir.leaves, dir.blocks)
    {
      assert Proper(es[i]);
      var added;
      ghost var stored, was, now;
      added, stored, was, now := AddOne(dir, es[i]);
      RanStep(trace, dir.hash, dir.size, dir.capacity, es, ok, kept, i, added, stored, now);
      ok, kept, trace := ok + [added], kept + [stored], trace + [now];
    }
    RunAdds(trace, dir.hash, dir.size, dir.capacity, es, ok, kept, |es|);
  }

  // With blocks of 2048 bytes or more exactly the entries reported as added are stored.
  lemma LargeBlocksKeep(trace: seq<State>, hash: NameHash, size: nat, capacity: nat, es: seq<D.Entry>, ok: seq<bool>,
                        kept: seq<bool>)
    requires Ran(trace, hash, size, capacity, es, ok, kept, |es|) && 2048 <= size
    requires forall i :: 0 <= i < |es| ==> Proper(es[i])
    ensures kept == ok
  {
    forall i | 0 <= i < |es| ensures kept[i] == ok[i] {
      assert Proper(es[i]);
      Limits.LargeBlocksFit(size, |es[i].name|);
    }
  }

  // Looking a name up through the index of such a directory.
  method Finds(dir: H.Directory, name: seq<byte>) returns (found: bool)
    requires dir.Valid()
    ensures found <==> exists e :: e in dir.Everything() && e.name == name
  {
    var block;
    ghost var p;
    found, block, p := dir.FindEntry(name);
    HoldsEntry(dir.Keys(), dir.leaves, name);
  }
}
