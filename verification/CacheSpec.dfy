// The block cache as a value: buffers, their reference counts and flags, and the disk.

module CacheSpec {
  import opened Bytes

  type Data = seq<byte>

  datatype Buf = Buf(data: Data, refs: nat, id: nat, uptodate: bool, dirty: bool, flush: bool, temp: bool, listed: bool)

  // `bufs` is the tree of all buffers by block address, `idle` the tree of those without
  // references, `list` the dirty list, `count` the number of buffers, `clock` the source of
  // LRU ids and `delay` the nesting of write-back mode.
  datatype Cache = Cache(bufs: map<int, Buf>, idle: set<int>, list: seq<int>, count: nat, clock: nat,
                         delay: nat, disk: seq<Data>, capacity: nat)

  // ---------------------------------------------------------------- invariant

  predicate BufOk(c: Cache, a: int)
    requires a in c.bufs
  {
    var b := c.bufs[a];
    && 0 <= a < |c.disk| && b.id <= c.clock
    && (a in c.idle <==> b.refs == 0)
    && (a in c.list <==> b.listed)
    && (b.dirty ==> b.uptodate) && (b.uptodate && !b.dirty ==> b.data == c.disk[a])
    && (b.listed ==> b.refs == 0 && b.dirty)
  }

  predicate Inv(c: Cache) {
    && (forall a :: a in c.bufs ==> BufOk(c, a))
    && (forall a :: a in c.idle ==> a in c.bufs)
    && (forall a :: a in c.list ==> a in c.bufs)
    && Distinct(c.list)
    && (forall x, y :: x in c.bufs && y in c.bufs && x != y ==> c.bufs[x].id != c.bufs[y].id)
    && c.count == |c.bufs|
  }

  // The contents of a block as a client sees them.
  function Logical(c: Cache, a: int): Data
    requires 0 <= a < |c.disk|
  {
    if a in c.bufs && c.bufs[a].uptodate then c.bufs[a].data else c.disk[a]
  }

  // Two states show the same contents.
  predicate SameView(c: Cache, d: Cache) {
    |c.disk| == |d.disk| && forall a :: 0 <= a < |c.disk| ==> Logical(d, a) == Logical(c, a)
  }

  function Refs(c: Cache, a: int): nat { if a in c.bufs then c.bufs[a].refs else 0 }

  // Every dirty buffer without references waits on the dirty list, and only in write-back
  // mode. Device errors can break this.
  ghost predicate Tidy(c: Cache) {
    && (forall a :: a in c.bufs && c.bufs[a].refs == 0 && c.bufs[a].dirty ==> c.bufs[a].listed)
    && (c.delay == 0 ==> forall a :: a !in c.list)
  }

  // ---------------------------------------------------------------- one buffer

  predicate Distinct(list: seq<int>) {
    forall i, j :: 0 <= i < j < |list| ==> list[i] != list[j]
  }

  function Unlisted(list: seq<int>, a: int): (r: seq<int>)
    ensures forall x :: x in r <==> x in list && x != a
    ensures |r| <= |list| && (a in list ==> |r| < |list|)
  {
    if list == [] then [] else
      var rest := Unlisted(list[1..], a);
      assert list == [list[0]] + list[1..];
      if list[0] == a then rest else [list[0]] + rest
  }

  lemma {:induction false} UnlistedDistinct(list: seq<int>, a: int)
    requires Distinct(list)
    ensures Distinct(Unlisted(list, a))
  {
    if list != [] {
      var rest := Unlisted(list[1..], a);
      UnlistedDistinct(list[1..], a);
      assert forall x :: x in rest ==> x in list[1..];
      forall i | 0 <= i < |rest| ensures rest[i] != list[0] {
        assert rest[i] in list[1..];
      }
    }
  }

  lemma {:induction false} UnlistedAbsent(list: seq<int>, a: int)
    requires a !in list
    ensures Unlisted(list, a) == list
  {
    if list != [] {
      UnlistedAbsent(list[1..], a);
      assert list == [list[0]] + list[1..];
    }
  }

  lemma UnlistedHead(list: seq<int>)
    requires list != [] && Distinct(list)
    ensures Unlisted(list, list[0]) == list[1..]
  {
    UnlistedAbsent(list[1..], list[0]);
  }

  // Exchanges a buffer that stays without or with references.
  function With(c: Cache, a: int, b: Buf): Cache {
    c.(bufs := c.bufs[a := b])
  }

  // Removes a buffer from the dirty list.
  function Unlist(c: Cache, a: int): Cache
    requires a in c.bufs
  {
    if c.bufs[a].listed then With(c.(list := Unlisted(c.list, a)), a, c.bufs[a].(listed := false)) else c
  }

  // Writes a dirty buffer to the disk, if the device does not fail.
  function Flush(c: Cache, a: int, bad: set<int>): (r: (Cache, bool))
    requires a in c.bufs && 0 <= a < |c.disk|
  {
    if !c.bufs[a].dirty || !c.bufs[a].uptodate then (c, true)
    else if a in bad then (c, false)
    else
      var d := Unlist(c.(disk := c.disk[a := c.bufs[a].data]), a);
      (With(d, a, d.bufs[a].(dirty := false)), true)
  }

  // Forgets a buffer.
  function Drop(c: Cache, a: int): Cache
    requires a in c.bufs && c.count > 0
  {
    c.(bufs := c.bufs - {a}, idle := c.idle - {a}, count := c.count - 1,
       list := if c.bufs[a].dirty && c.bufs[a].listed then Unlisted(c.list, a) else c.list)
  }

  // Takes a reference to a buffer that is in the cache.
  function Take(c: Cache, a: int): Cache
    requires a in c.bufs
  {
    if c.bufs[a].refs == 0 then
      var d := c.(clock := c.clock + 1, idle := c.idle - {a});
      var e := With(d, a, d.bufs[a].(id := d.clock));
      var f := if e.bufs[a].dirty then Unlist(e, a) else e;
      With(f, a, f.bufs[a].(refs := 1))
    else With(c, a, c.bufs[a].(refs := c.bufs[a].refs + 1))
  }

  // Takes a reference to a buffer, making it if need be. Its memory holds anything.
  function Alloc(c: Cache, a: int, junk: Data): Cache {
    if a in c.bufs then Take(c, a)
    else c.(bufs := c.bufs[a := Buf(junk, 1, c.clock + 1, false, false, false, false, false)],
            count := c.count + 1, clock := c.clock + 1)
  }

  // The last reference is gone.
  function Idle(c: Cache, a: int): Cache
    requires a in c.bufs
  {
    With(c, a, c.bufs[a].(refs := 0)).(idle := c.idle + {a})
  }

  // Puts a buffer on the dirty list.
  function Enlist(c: Cache, a: int): Cache
    requires a in c.bufs
  {
    if c.bufs[a].listed then c else With(c.(list := [a] + c.list), a, c.bufs[a].(listed := true))
  }

  function FlushNow(c: Cache, a: int, bad: set<int>): Cache
    requires a in c.bufs && 0 <= a < |c.disk|
  {
    var d := Flush(c, a, bad).0;
    With(d, a, d.bufs[a].(flush := false))
  }

  // A dirty buffer without references is written or put on the list.
  function Settle(c: Cache, a: int, bad: set<int>): Cache
    requires a in c.bufs && 0 <= a < |c.disk|
  {
    var b := c.bufs[a];
    if !(b.dirty && b.uptodate) then c
    else if c.delay > 0 && !b.flush && !b.temp then Enlist(c, a)
    else FlushNow(c, a, bad)
  }

  // Gives a reference back. A buffer without valid data or a temporary one is forgotten with
  // the last reference.
  function Release(c: Cache, a: int, bad: set<int>): Cache
    requires a in c.bufs && 0 <= a < |c.disk| && c.bufs[a].refs > 0 && c.count > 0
  {
    if c.bufs[a].refs > 1 then With(c, a, c.bufs[a].(refs := c.bufs[a].refs - 1))
    else
      var d := Settle(Idle(c, a), a, bad);
      if !d.bufs[a].uptodate || d.bufs[a].temp then Drop(d, a) else d
  }

  // ---------------------------------------------------------------- what one step keeps

  // Only the buffer of one block changed.
  ghost predicate Local(c: Cache, d: Cache, a: int) {
    && |c.disk| == |d.disk| && c.clock <= d.clock
    && (forall x :: x in d.bufs && x != a ==> x in c.bufs && d.bufs[x] == c.bufs[x])
    && (forall x :: x in c.bufs && x != a ==> x in d.bufs)
    && (forall x :: x != a ==> (x in d.idle <==> x in c.idle))
    && (forall x :: x != a ==> (x in d.list <==> x in c.list))
    && (forall x :: 0 <= x < |c.disk| && x != a ==> d.disk[x] == c.disk[x])
  }

  // A change at one block keeps the invariant if that block is in order.
  lemma LocalInv(c: Cache, d: Cache, a: int)
    requires Inv(c) && Local(c, d, a) && d.count == |d.bufs| && Distinct(d.list)
    requires if a in d.bufs then BufOk(d, a) else a !in d.idle && a !in d.list
    requires a in d.bufs ==> (a in c.bufs && d.bufs[a].id == c.bufs[a].id) || d.bufs[a].id > c.clock
    ensures Inv(d)
  {
    forall x | x in d.bufs && x != a ensures BufOk(d, x) {
      assert BufOk(c, x);
    }
    forall x, y | x in d.bufs && y in d.bufs && x != y ensures d.bufs[x].id != d.bufs[y].id {
      assert x != a ==> BufOk(c, x);
      assert y != a ==> BufOk(c, y);
    }
  }

  lemma LocalView(c: Cache, d: Cache, a: int)
    requires Local(c, d, a) && (0 <= a < |c.disk| ==> Logical(d, a) == Logical(c, a))
    ensures SameView(c, d)
  {
  }

  lemma LocalTidy(c: Cache, d: Cache, a: int)
    requires Inv(c) && Tidy(c) && Local(c, d, a) && d.delay == c.delay
    requires a in d.bufs && d.bufs[a].refs == 0 && d.bufs[a].dirty ==> d.bufs[a].listed
    requires d.delay == 0 ==> a !in d.list
    ensures Tidy(d)
  {
  }

  lemma FlushOk(c: Cache, a: int, bad: set<int>)
    requires Inv(c) && a in c.bufs && 0 <= a < |c.disk|
    ensures var d := Flush(c, a, bad).0;
            && Inv(d) && Local(c, d, a) && SameView(c, d) && d.delay == c.delay && d.capacity == c.capacity
            && d.count == c.count
            && a in d.bufs && d.idle == c.idle
            && d.bufs[a].(dirty := c.bufs[a].dirty, listed := c.bufs[a].listed) == c.bufs[a]
    ensures Flush(c, a, bad).1 ==> !Flush(c, a, bad).0.bufs[a].dirty
    ensures !Flush(c, a, bad).1 <==> a in bad && c.bufs[a].dirty
    ensures !Flush(c, a, bad).1 ==> Flush(c, a, bad).0 == c
  {
    var d := Flush(c, a, bad).0;
    assert BufOk(c, a);
    UnlistedDistinct(c.list, a);
    assert d.bufs.Keys == c.bufs.Keys;
    SameCount(c.bufs, d.bufs);
    LocalInv(c, d, a);
    LocalView(c, d, a);
  }

  lemma SameCount(x: map<int, Buf>, y: map<int, Buf>)
    requires x.Keys == y.Keys
    ensures |x| == |y|
  {
    assert |x| == |x.Keys| && |y| == |y.Keys|;
  }

  lemma OneLess(x: map<int, Buf>, a: int)
    requires a in x
    ensures |x - {a}| == |x| - 1
  {
    assert |x| == |x.Keys| && |x - {a}| == |(x - {a}).Keys|;
    assert (x - {a}).Keys == x.Keys - {a};
  }

  lemma OneMore(x: map<int, Buf>, a: int, b: Buf)
    requires a !in x
    ensures |x[a := b]| == |x| + 1
  {
    assert |x| == |x.Keys| && |x[a := b]| == |x[a := b].Keys|;
    assert x[a := b].Keys == x.Keys + {a};
  }

  lemma SomeCount(x: map<int, Buf>, a: int)
    requires a in x
    ensures |x| > 0
  {
    assert a in x.Keys && |x| == |x.Keys|;
  }

  // Forgetting a clean buffer loses nothing.
  lemma DropOk(c: Cache, a: int)
    requires Inv(c) && a in c.bufs
    ensures c.count > 0
    ensures var d := Drop(c, a);
            && Inv(d) && Local(c, d, a) && d.delay == c.delay && d.capacity == c.capacity && d.disk == c.disk
            && a !in d.bufs && d.idle == c.idle - {a} && d.count == c.count - 1
            && (!c.bufs[a].dirty ==> SameView(c, d))
  {
    SomeCount(c.bufs, a);
    var d := Drop(c, a);
    assert BufOk(c, a);
    UnlistedDistinct(c.list, a);
    OneLess(c.bufs, a);
    LocalInv(c, d, a);
  }

  lemma TakeOk(c: Cache, a: int)
    requires Inv(c) && a in c.bufs
    ensures var d := Take(c, a);
            && Inv(d) && Local(c, d, a) && SameView(c, d) && d.disk == c.disk && d.delay == c.delay
            && d.capacity == c.capacity
            && a in d.bufs && d.bufs[a].refs == c.bufs[a].refs + 1 && d.bufs[a].data == c.bufs[a].data
            && d.bufs[a].uptodate == c.bufs[a].uptodate
  {
    var d := Take(c, a);
    assert BufOk(c, a);
    UnlistedDistinct(c.list, a);
    assert d.bufs.Keys == c.bufs.Keys;
    SameCount(c.bufs, d.bufs);
    LocalInv(c, d, a);
    LocalView(c, d, a);
  }

  lemma AllocOk(c: Cache, a: int, junk: Data)
    requires Inv(c) && 0 <= a < |c.disk|
    ensures var d := Alloc(c, a, junk);
            && Inv(d) && Local(c, d, a) && SameView(c, d) && d.disk == c.disk && d.delay == c.delay
            && d.capacity == c.capacity
            && a in d.bufs && Refs(d, a) == Refs(c, a) + 1
  {
    if a in c.bufs {
      TakeOk(c, a);
    } else {
      var d := Alloc(c, a, junk);
      OneMore(c.bufs, a, d.bufs[a]);
      LocalInv(c, d, a);
      LocalView(c, d, a);
    }
  }

  lemma IdleOk(c: Cache, a: int)
    requires Inv(c) && a in c.bufs && c.bufs[a].refs == 1
    ensures var d := Idle(c, a); Inv(d) && Local(c, d, a) && SameView(c, d) && d.count == c.count
  {
    var d := Idle(c, a);
    assert BufOk(c, a);
    SameCount(c.bufs, d.bufs);
    LocalInv(c, d, a);
    LocalView(c, d, a);
  }

  lemma EnlistOk(c: Cache, a: int)
    requires Inv(c) && a in c.bufs && c.bufs[a].refs == 0 && c.bufs[a].dirty
    ensures var d := Enlist(c, a); Inv(d) && Local(c, d, a) && SameView(c, d) && d.count == c.count
  {
    var d := Enlist(c, a);
    assert BufOk(c, a);
    SameCount(c.bufs, d.bufs);
    LocalInv(c, d, a);
    LocalView(c, d, a);
  }

  lemma FlushNowOk(c: Cache, a: int, bad: set<int>)
    requires Inv(c) && a in c.bufs && 0 <= a < |c.disk|
    ensures var d := FlushNow(c, a, bad); Inv(d) && Local(c, d, a) && SameView(c, d) && d.count == c.count
  {
    var d, e := Flush(c, a, bad).0, FlushNow(c, a, bad);
    FlushOk(c, a, bad);
    assert BufOk(d, a);
    SameCount(d.bufs, e.bufs);
    LocalInv(d, e, a);
    LocalView(d, e, a);
  }

  lemma SettleOk(c: Cache, a: int, bad: set<int>)
    requires Inv(c) && a in c.bufs && c.bufs[a].refs == 0 && !c.bufs[a].listed
    ensures 0 <= a < |c.disk|
    ensures var d := Settle(c, a, bad);
            && Inv(d) && Local(c, d, a) && SameView(c, d) && d.delay == c.delay && d.capacity == c.capacity
            && d.count == c.count
            && a in d.bufs && d.bufs[a].refs == 0 && d.bufs[a].temp == c.bufs[a].temp
            && (d.bufs[a].dirty && !d.bufs[a].listed ==> a in bad)
            && (a in d.list ==> c.delay > 0)
            && (c.bufs[a].temp && a !in bad ==> !d.bufs[a].dirty)
            && (d.bufs[a].dirty ==> c.bufs[a].dirty)
  {
    assert BufOk(c, a);
    if c.bufs[a].dirty {
      EnlistOk(c, a);
      FlushNowOk(c, a, bad);
      FlushOk(c, a, bad);
    }
    assert BufOk(Settle(c, a, bad), a);
  }

  lemma LocalTrans(c: Cache, d: Cache, e: Cache, a: int)
    requires Local(c, d, a) && Local(d, e, a)
    ensures Local(c, e, a)
  {
  }

  // Giving the last reference back forgets a temporary buffer that the device did not take.
  predicate Forfeits(c: Cache, a: int, bad: set<int>)
    requires a in c.bufs
  {
    c.bufs[a].refs == 1 && c.bufs[a].temp && c.bufs[a].dirty && a in bad
  }

  lemma ReleaseOk(c: Cache, a: int, bad: set<int>)
    requires Inv(c) && a in c.bufs && c.bufs[a].refs > 0
    ensures c.count > 0 && 0 <= a < |c.disk|
    ensures var d := Release(c, a, bad);
            && Inv(d) && Local(c, d, a) && d.delay == c.delay && d.capacity == c.capacity
            && Refs(d, a) == c.bufs[a].refs - 1
            && (!Forfeits(c, a, bad) ==> SameView(c, d))
            && (a !in bad && Tidy(c) ==> Tidy(d))
  {
    SomeCount(c.bufs, a);
    assert BufOk(c, a);
    var r := Release(c, a, bad);
    if c.bufs[a].refs > 1 {
      SameCount(c.bufs, r.bufs);
      LocalInv(c, r, a);
      LocalView(c, r, a);
    } else {
      var d := Settle(Idle(c, a), a, bad);
      IdleOk(c, a);
      SettleOk(Idle(c, a), a, bad);
      LocalTrans(c, Idle(c, a), d, a);
      if !d.bufs[a].uptodate || d.bufs[a].temp {
        DropOk(d, a);
        LocalTrans(c, d, r, a);
      }
    }
    if a !in bad && Tidy(c) {
      LocalTidy(c, r, a);
    }
  }

  // The contents of a forfeited buffer are those of the disk again.
  lemma ForfeitReverts(c: Cache, a: int, bad: set<int>)
    requires Inv(c) && a in c.bufs && c.bufs[a].refs > 0 && c.count > 0 && 0 <= a < |c.disk| && Forfeits(c, a, bad)
    ensures var d := Release(c, a, bad);
            d.disk == c.disk && Logical(d, a) == c.disk[a] && Logical(c, a) == c.bufs[a].data
  {
    assert BufOk(c, a);
    IdleOk(c, a);
    FlushOk(Idle(c, a), a, bad);
    var d := Release(c, a, bad);
    assert a !in d.bufs && d.disk == c.disk;
  }

  // Exactly then are contents lost.
  lemma ReleaseKeeps(c: Cache, a: int, bad: set<int>)
    requires Inv(c) && a in c.bufs && c.bufs[a].refs > 0 && c.count > 0 && 0 <= a < |c.disk|
    ensures SameView(c, Release(c, a, bad)) <==> !(Forfeits(c, a, bad) && c.bufs[a].data != c.disk[a])
  {
    ReleaseOk(c, a, bad);
    if Forfeits(c, a, bad) {
      ForfeitReverts(c, a, bad);
      if c.bufs[a].data == c.disk[a] {
        LocalView(c, Release(c, a, bad), a);
      }
    }
  }

  // The last reference to a dirty buffer in write-back mode: it waits at the head of the dirty
  // list, and the disk is not touched, whatever the device would do.
  lemma ReleaseDelays(c: Cache, a: int, bad: set<int>)
    requires Inv(c) && a in c.bufs && c.bufs[a].refs == 1 && c.bufs[a].dirty && c.count > 0 && 0 <= a < |c.disk|
    requires c.delay > 0 && !c.bufs[a].flush && !c.bufs[a].temp
    ensures var d := Release(c, a, bad);
            && d.disk == c.disk && d.list == [a] + c.list && a in d.idle
            && a in d.bufs && d.bufs[a] == c.bufs[a].(refs := 0, listed := true)
  {
    assert BufOk(c, a);
  }

  // Without write-back mode, or when it is marked, it is written at once. A temporary buffer is
  // then forgotten, any other stays, clean.
  lemma ReleaseWrites(c: Cache, a: int, bad: set<int>)
    requires Inv(c) && a in c.bufs && c.bufs[a].refs == 1 && c.bufs[a].dirty && c.count > 0 && 0 <= a < |c.disk|
    requires c.delay == 0 || c.bufs[a].flush || c.bufs[a].temp
    ensures var d := Release(c, a, bad);
            && d.disk == (if a in bad then c.disk else c.disk[a := c.bufs[a].data]) && d.list == c.list
            && (if c.bufs[a].temp then a !in d.bufs
                else a in d.bufs && d.bufs[a] == c.bufs[a].(refs := 0, flush := false, dirty := a in bad))
  {
    assert BufOk(c, a);
  }

  // A clean buffer stays, unless it is temporary or has no valid data, and nothing is written.
  lemma ReleaseClean(c: Cache, a: int, bad: set<int>)
    requires Inv(c) && a in c.bufs && c.bufs[a].refs == 1 && !c.bufs[a].dirty && c.count > 0 && 0 <= a < |c.disk|
    ensures var d := Release(c, a, bad);
            && d.disk == c.disk && d.list == c.list
            && (if c.bufs[a].temp || !c.bufs[a].uptodate then a !in d.bufs
                else a in d.bufs && d.bufs[a] == c.bufs[a].(refs := 0))
  {
    assert BufOk(c, a);
  }

  // A buffer that is taken out of the LRU tree, or made, becomes the most recent one; taking
  // another reference changes nothing else.
  lemma AllocNewest(c: Cache, a: int, junk: Data)
    requires Inv(c)
    ensures var d := Alloc(c, a, junk);
            && a in d.bufs && a !in d.idle
            && (Refs(c, a) == 0 ==> forall x :: x in d.bufs && x != a ==> d.bufs[x].id < d.bufs[a].id)
            && (Refs(c, a) > 0 ==> d.bufs[a] == c.bufs[a].(refs := c.bufs[a].refs + 1) && d.list == c.list)
  {
    assert a in c.bufs ==> BufOk(c, a);
    var d := Alloc(c, a, junk);
    forall x | x in d.bufs && x != a ensures d.bufs[x].id <= c.clock {
      assert BufOk(c, x);
    }
  }

  // A dirty temporary buffer of block 1, held once.
  function Temporary(): Cache {
    Cache(map[1 := Buf([7], 1, 1, true, true, false, true, false)], {}, [], 1, 1, 0, [[0], [0]], 8)
  }

  // When the device fails, giving it back loses what was written.
  lemma TemporaryLost()
    ensures var c := Temporary();
            && Inv(c) && Forfeits(c, 1, {1}) && Logical(c, 1) == [7]
            && Logical(Release(c, 1, {1}), 1) == [0] && !SameView(c, Release(c, 1, {1}))
  {
    var c := Temporary();
    assert |c.bufs| == |c.bufs.Keys| && c.bufs.Keys == {1};
    assert BufOk(c, 1);
    ForfeitReverts(c, 1, {1});
  }
}
