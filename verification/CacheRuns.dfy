// The operations of the block cache, and whole runs of them.

module CacheRuns {
  import opened CacheSpec

  datatype Status = Fine | IoError | NoSuchBlock

  // ---------------------------------------------------------------- eviction

  // A buffer without references that was taken longest ago.
  predicate Oldest(c: Cache, a: int)
    requires Inv(c)
  {
    a in c.idle && forall x :: x in c.idle ==> c.bufs[a].id <= c.bufs[x].id
  }

  lemma {:induction false} OldestIn(bufs: map<int, Buf>, s: set<int>) returns (a: int)
    requires s != {} && forall x :: x in s ==> x in bufs
    ensures a in s && forall x :: x in s ==> bufs[a].id <= bufs[x].id
    decreases |s|
  {
    assert (forall x :: x !in s) ==> s == {};
    a :| a in s;
    var rest := s - {a};
    if rest != {} {
      var b := OldestIn(bufs, rest);
      assert forall x :: x in s ==> x == a || x in rest;
      if bufs[b].id < bufs[a].id {
        a := b;
      }
    } else {
      assert forall x :: x in s ==> x == a || x in rest;
    }
  }

  ghost function Lowest(c: Cache): (a: int)
    requires Inv(c) && c.idle != {}
    ensures Oldest(c, a)
  {
    assert exists a :: Oldest(c, a) by {
      var a := OldestIn(c.bufs, c.idle);
      assert Oldest(c, a);
    }
    var a :| Oldest(c, a);
    a
  }

  // LRU ids differ, so there is only one.
  lemma OneOldest(c: Cache, a: int)
    requires Inv(c) && c.idle != {} && Oldest(c, a)
    ensures a == Lowest(c)
  {
  }

  predicate IsFull(c: Cache) { c.capacity <= c.count }

  // Writes and forgets the oldest buffers until the cache is no longer full.
  ghost function Shake(c: Cache, bad: set<int>): (r: (Cache, bool))
    requires Inv(c)
    decreases |c.idle|
  {
    if c.idle == {} || !IsFull(c) then (c, true)
    else
      var a := Lowest(c);
      var f := Flush(c, a, bad);
      if !f.1 then f
      else
        EvictOk(c, a, bad);
        Shake(Drop(f.0, a), bad)
  }

  // Nothing is lost and no reference is touched.
  ghost predicate Quiet(c: Cache, d: Cache) {
    && SameView(c, d) && d.delay == c.delay && d.capacity == c.capacity
    && (forall a :: Refs(d, a) == Refs(c, a))
    && (forall a :: a in c.bufs && c.bufs[a].refs > 0 ==> a in d.bufs && d.bufs[a] == c.bufs[a])
  }

  lemma EvictOk(c: Cache, a: int, bad: set<int>)
    requires Inv(c) && a in c.idle && Flush(c, a, bad).1
    ensures var d := Flush(c, a, bad).0;
            && d.count > 0 && a in d.bufs && Inv(Drop(d, a)) && |Drop(d, a).idle| < |c.idle| && Quiet(c, Drop(d, a))
            && (Tidy(c) ==> Tidy(Drop(d, a)))
  {
    var d := Flush(c, a, bad).0;
    assert BufOk(c, a);
    FlushOk(c, a, bad);
    DropOk(d, a);
    var e := Drop(d, a);
    assert e.idle == c.idle - {a};
    LocalTrans(c, d, e, a);
    if Tidy(c) {
      LocalTidy(c, e, a);
    }
  }

  lemma QuietTrans(c: Cache, d: Cache, e: Cache)
    requires Quiet(c, d) && Quiet(d, e)
    ensures Quiet(c, e)
  {
  }

  lemma {:induction false} ShakeOk(c: Cache, bad: set<int>)
    requires Inv(c)
    ensures var (d, ok) := Shake(c, bad);
            && Inv(d) && Quiet(c, d) && (Tidy(c) ==> Tidy(d))
            && (ok ==> d.idle == {} || !IsFull(d)) && (!ok ==> bad != {})
    decreases |c.idle|
  {
    if c.idle != {} && IsFull(c) {
      var a := Lowest(c);
      var f := Flush(c, a, bad);
      assert BufOk(c, a);
      FlushOk(c, a, bad);
      if f.1 {
        EvictOk(c, a, bad);
        ShakeOk(Drop(f.0, a), bad);
        QuietTrans(c, Drop(f.0, a), Shake(Drop(f.0, a), bad).0);
      }
    }
  }

  // Eviction takes only what it must, and the oldest first: a cache with room stays as it is,
  // at most one place is gained, and whatever is forgotten was taken before whatever stays.
  lemma {:induction false} ShakeLeast(c: Cache, bad: set<int>)
    requires Inv(c)
    ensures var (d, ok) := Shake(c, bad);
            && (!IsFull(c) ==> d == c && ok)
            && (IsFull(c) ==> d.capacity <= d.count + 1)
            && d.idle <= c.idle && (forall x :: x in d.bufs ==> x in c.bufs)
            && (forall x, y :: x in c.bufs && x !in d.bufs && y in d.idle ==>
                  y in c.bufs && c.bufs[x].id < c.bufs[y].id)
    decreases |c.idle|
  {
    if c.idle != {} && IsFull(c) {
      var a := Lowest(c);
      var f := Flush(c, a, bad);
      assert BufOk(c, a);
      FlushOk(c, a, bad);
      if f.1 {
        EvictOk(c, a, bad);
        DropOk(f.0, a);
        ShakeLeast(Drop(f.0, a), bad);
      }
    }
  }

  // Eviction fails exactly when it comes to a dirty buffer that the device refuses while there
  // is still no room.
  lemma {:induction false} ShakeStops(c: Cache, bad: set<int>)
    requires Inv(c)
    ensures var (d, ok) := Shake(c, bad);
            && Inv(d) && (ok <==> d.idle == {} || !IsFull(d))
            && (!ok ==> Lowest(d) in bad && Lowest(d) in d.bufs && d.bufs[Lowest(d)].dirty)
    decreases |c.idle|
  {
    if c.idle != {} && IsFull(c) {
      var a := Lowest(c);
      var f := Flush(c, a, bad);
      assert BufOk(c, a);
      FlushOk(c, a, bad);
      if f.1 {
        EvictOk(c, a, bad);
        ShakeStops(Drop(f.0, a), bad);
      }
    }
  }

  // ---------------------------------------------------------------- getting a block

  // Takes a reference to a block whose contents the caller will overwrite.
  ghost function GetNoRead(c: Cache, a: nat, junk: Data, bad: set<int>): (r: (Cache, Status))
    requires Inv(c)
  {
    if a >= |c.disk| then (c, NoSuchBlock)
    else
      var (d, ok) := Shake(c, bad);
      if !ok then (d, IoError)
      else
        ShakeOk(c, bad);
        (Alloc(d, a, junk), Fine)
  }

  // Fills a buffer from the disk.
  function Load(c: Cache, a: int): Cache
    requires a in c.bufs && 0 <= a < |c.disk|
  {
    With(c, a, c.bufs[a].(data := c.disk[a], uptodate := true))
  }

  // Takes a reference to a block and makes sure that its contents are valid.
  ghost function Get(c: Cache, a: nat, junk: Data, bad: set<int>): (r: (Cache, Status))
    requires Inv(c)
  {
    var (d, status) := GetNoRead(c, a, junk, bad);
    if status != Fine then (d, status)
    else
      GetNoReadOk(c, a, junk, bad);
      if d.bufs[a].uptodate then (d, Fine)
      else if a in bad then
        SomeCount(d.bufs, a);
        (Release(d, a, bad), IoError)
      else (Load(d, a), Fine)
  }

  // References change at one block only, and the contents do not change at all.
  ghost predicate Refd(c: Cache, d: Cache, a: int, delta: int) {
    && SameView(c, d) && d.delay == c.delay && d.capacity == c.capacity
    && (forall x :: Refs(d, x) == Refs(c, x) + if x == a then delta else 0)
  }

  lemma GetNoReadOk(c: Cache, a: nat, junk: Data, bad: set<int>)
    requires Inv(c)
    ensures var (d, status) := GetNoRead(c, a, junk, bad);
            && Inv(d) && Refd(c, d, a, if status == Fine then 1 else 0) && (Tidy(c) ==> Tidy(d))
            && (status == NoSuchBlock <==> a >= |c.disk|) && (status == IoError ==> bad != {})
            && (status == Fine ==> a in d.bufs && d.bufs[a].refs > 0)
  {
    if a < |c.disk| {
      ShakeOk(c, bad);
      var (d, ok) := Shake(c, bad);
      AllocOk(d, a, junk);
      if Tidy(d) {
        LocalTidy(d, Alloc(d, a, junk), a);
      }
    }
  }

  lemma LoadOk(c: Cache, a: int)
    requires Inv(c) && a in c.bufs && !c.bufs[a].uptodate && 0 <= a < |c.disk|
    ensures var d := Load(c, a); Inv(d) && Refd(c, d, a, 0) && d.bufs[a].data == Logical(c, a) && (Tidy(c) ==> Tidy(d))
  {
    var d := Load(c, a);
    assert BufOk(c, a);
    SameCount(c.bufs, d.bufs);
    LocalInv(c, d, a);
    LocalView(c, d, a);
    if Tidy(c) {
      LocalTidy(c, d, a);
    }
  }

  // A successful get returns the contents of the block; a failed one changes nothing that
  // a client can see.
  lemma GetOk(c: Cache, a: nat, junk: Data, bad: set<int>)
    requires Inv(c)
    ensures var (d, status) := Get(c, a, junk, bad);
            && Inv(d) && Refd(c, d, a, if status == Fine then 1 else 0) && (Tidy(c) ==> Tidy(d))
            && (status == NoSuchBlock <==> a >= |c.disk|) && (status == IoError ==> bad != {})
            && (status == Fine ==> a in d.bufs && d.bufs[a].uptodate && d.bufs[a].data == Logical(c, a))
  {
    GetNoReadOk(c, a, junk, bad);
    var (d, status) := GetNoRead(c, a, junk, bad);
    if status == Fine && !d.bufs[a].uptodate {
      assert BufOk(d, a);
      if a in bad {
        FailedRead(d, a, bad);
        RefdTrans(c, d, Release(d, a, bad), a, 1, -1);
      } else {
        LoadOk(d, a);
        RefdTrans(c, d, Load(d, a), a, 1, 0);
      }
    } else if status == Fine {
      assert BufOk(d, a) && Logical(d, a) == Logical(c, a);
    }
  }

  // A get of a block that exists fails exactly when eviction fails, or when the block has no
  // valid buffer and the device cannot read it.
  lemma GetFails(c: Cache, a: nat, junk: Data, bad: set<int>)
    requires Inv(c) && a < |c.disk|
    ensures var (d, ok) := Shake(c, bad);
            Get(c, a, junk, bad).1 == IoError <==> !ok || (a in bad && !(a in d.bufs && d.bufs[a].uptodate))
  {
    var (d, ok) := Shake(c, bad);
    ShakeOk(c, bad);
    GetNoReadOk(c, a, junk, bad);
    if ok {
      AllocOk(d, a, junk);
      if a in d.bufs {
        TakeOk(d, a);
      }
    }
  }

  lemma RefdTrans(c: Cache, d: Cache, e: Cache, a: int, x: int, y: int)
    requires Refd(c, d, a, x) && Refd(d, e, a, y)
    ensures Refd(c, e, a, x + y)
  {
  }

  // A buffer without valid data is not dirty, so giving it back loses nothing and never fails
  // to write.
  lemma FailedRead(c: Cache, a: int, bad: set<int>)
    requires Inv(c) && a in c.bufs && c.bufs[a].refs > 0 && !c.bufs[a].uptodate
    ensures c.count > 0 && 0 <= a < |c.disk|
    ensures var d := Release(c, a, bad); Inv(d) && Refd(c, d, a, -1) && (Tidy(c) ==> Tidy(d))
  {
    assert BufOk(c, a);
    ReleaseOk(c, a, bad);
    if Tidy(c) {
      LocalTidy(c, Release(c, a, bad), a);
    }
  }

  // ---------------------------------------------------------------- changing a block

  // A client that holds a reference changes the contents and marks the buffer dirty.
  function Write(c: Cache, a: int, v: Data): Cache
    requires a in c.bufs
  {
    With(c, a, c.bufs[a].(data := v, uptodate := true, dirty := true))
  }

  lemma WriteOk(c: Cache, a: int, v: Data)
    requires Inv(c) && a in c.bufs && c.bufs[a].refs > 0
    ensures var d := Write(c, a, v);
            && Inv(d) && Local(c, d, a) && Logical(d, a) == v && d.delay == c.delay && (Tidy(c) ==> Tidy(d))
            && (forall x :: Refs(d, x) == Refs(c, x))
  {
    var d := Write(c, a, v);
    assert BufOk(c, a);
    SameCount(c.bufs, d.bufs);
    LocalInv(c, d, a);
    if Tidy(c) {
      LocalTidy(c, d, a);
    }
  }

  // Asks for a buffer to be written, or to be forgotten, with its last reference.
  function Mark(c: Cache, a: int, flush: bool, temp: bool): Cache
    requires a in c.bufs
  {
    With(c, a, c.bufs[a].(flush := c.bufs[a].flush || flush, temp := c.bufs[a].temp || temp))
  }

  lemma MarkOk(c: Cache, a: int, flush: bool, temp: bool)
    requires Inv(c) && a in c.bufs && c.bufs[a].refs > 0
    ensures var d := Mark(c, a, flush, temp);
            && Inv(d) && Refd(c, d, a, 0) && (Tidy(c) ==> Tidy(d))
            && (d.bufs[a].flush <==> flush || c.bufs[a].flush) && (d.bufs[a].temp <==> temp || c.bufs[a].temp)
  {
    var d := Mark(c, a, flush, temp);
    assert BufOk(c, a);
    SameCount(c.bufs, d.bufs);
    LocalInv(c, d, a);
    LocalView(c, d, a);
    if Tidy(c) {
      LocalTidy(c, d, a);
    }
  }

  // ---------------------------------------------------------------- writing back

  // Writes one block if it is cached.
  ghost function FlushBlock(c: Cache, a: int, bad: set<int>): (d: Cache)
    requires Inv(c)
  {
    if a !in c.bufs then c
    else
      var d := Take(c, a);
      TakeOk(c, a);
      assert BufOk(d, a);
      var e := Flush(d, a, bad).0;
      FlushOk(d, a, bad);
      SomeCount(e.bufs, a);
      Release(e, a, bad)
  }

  // A temporary buffer without references is forgotten behind a write that fails.
  predicate FlushForfeits(c: Cache, a: int, bad: set<int>) {
    a in c.bufs && c.bufs[a].refs == 0 && c.bufs[a].temp && c.bufs[a].dirty && a in bad
  }

  lemma FlushBlockOk(c: Cache, a: int, bad: set<int>)
    requires Inv(c)
    ensures var d := FlushBlock(c, a, bad);
            && Inv(d) && (forall x :: Refs(d, x) == Refs(c, x)) && d.delay == c.delay && d.capacity == c.capacity
            && (a !in bad && Tidy(c) ==> Tidy(d))
            && (if FlushForfeits(c, a, bad) then
                  0 <= a < |c.disk| && Local(c, d, a) && Logical(d, a) == c.disk[a]
                else SameView(c, d))
    ensures var d := FlushBlock(c, a, bad);
            && (a in bad ==> d.disk == c.disk)
            && (a in c.bufs && a !in bad ==>
                  && 0 <= a < |c.disk| && d.disk == c.disk[a := Logical(c, a)]
                  && a !in d.list && (a in d.bufs ==> !d.bufs[a].dirty))
  {
    FlushBlockKeeps(c, a, bad);
    FlushBlockWrites(c, a, bad);
  }

  lemma FlushBlockKeeps(c: Cache, a: int, bad: set<int>)
    requires Inv(c)
    ensures var d := FlushBlock(c, a, bad);
            && Inv(d) && (forall x :: Refs(d, x) == Refs(c, x)) && d.delay == c.delay && d.capacity == c.capacity
            && (a !in bad && Tidy(c) ==> Tidy(d))
            && (if FlushForfeits(c, a, bad) then
                  0 <= a < |c.disk| && Local(c, d, a) && Logical(d, a) == c.disk[a]
                else SameView(c, d))
  {
    if a in c.bufs {
      var d := Take(c, a);
      TakeOk(c, a);
      assert BufOk(c, a) && BufOk(d, a);
      FlushTaken(d, a, bad);
      var e := Flush(d, a, bad).0;
      var f := Release(e, a, bad);
      LocalTrans(c, d, f, a);
      assert e.disk == d.disk || !Forfeits(e, a, bad);
      if a !in bad && Tidy(c) {
        LocalTidy(c, d, a);
      }
    }
  }

  // Writing and giving back a buffer that was taken.
  lemma FlushTaken(d: Cache, a: int, bad: set<int>)
    requires Inv(d) && a in d.bufs && d.bufs[a].refs > 0
    ensures 0 <= a < |d.disk|
    ensures var e := Flush(d, a, bad).0;
            && a in e.bufs && e.count > 0 && e.bufs[a].refs == d.bufs[a].refs
            && var f := Release(e, a, bad);
               && Inv(f) && Local(d, f, a) && f.delay == d.delay && f.capacity == d.capacity
               && Refs(f, a) == d.bufs[a].refs - 1
               && (a !in bad && Tidy(d) ==> Tidy(f))
               && (if Forfeits(d, a, bad) then Logical(f, a) == d.disk[a] else SameView(d, f))
  {
    assert BufOk(d, a);
    var e := Flush(d, a, bad).0;
    FlushOk(d, a, bad);
    ReleaseOk(e, a, bad);
    LocalTrans(d, e, Release(e, a, bad), a);
    if Forfeits(d, a, bad) {
      ForfeitReverts(d, a, bad);
    }
    if a !in bad && Tidy(d) {
      LocalTidy(d, e, a);
    }
  }

  // A flush reaches the disk unless the device fails, and then changes nothing there.
  lemma FlushBlockWrites(c: Cache, a: int, bad: set<int>)
    requires Inv(c)
    ensures var d := FlushBlock(c, a, bad);
            && (a !in c.bufs ==> d == c)
            && (a in bad ==> d.disk == c.disk)
            && (a in c.bufs && a !in bad ==>
                  && 0 <= a < |c.disk| && d.disk == c.disk[a := Logical(c, a)]
                  && a !in d.list && (a in d.bufs ==> !d.bufs[a].dirty))
  {
    if a in c.bufs {
      var d := Take(c, a);
      TakeOk(c, a);
      assert BufOk(c, a) && BufOk(d, a);
      TakenWritten(d, a, bad);
    }
  }

  lemma TakenWritten(d: Cache, a: int, bad: set<int>)
    requires Inv(d) && a in d.bufs && d.bufs[a].refs > 0
    ensures 0 <= a < |d.disk|
    ensures var e := Flush(d, a, bad).0;
            && a in e.bufs && e.count > 0 && e.bufs[a].refs == d.bufs[a].refs
            && var f := Release(e, a, bad);
               if a in bad then f.disk == d.disk
               else f.disk == d.disk[a := Logical(d, a)] && a !in f.list && (a in f.bufs ==> !f.bufs[a].dirty)
  {
    assert BufOk(d, a);
    FlushOk(d, a, bad);
    var e := Flush(d, a, bad).0;
    SomeCount(e.bufs, a);
    assert BufOk(e, a);
    if e.bufs[a].refs > 1 {
    } else if !e.bufs[a].dirty {
      ReleaseClean(e, a, bad);
    } else if e.delay > 0 && !e.bufs[a].flush && !e.bufs[a].temp {
      ReleaseDelays(e, a, bad);
    } else {
      ReleaseWrites(e, a, bad);
    }
  }

  // Writes every block on the dirty list, the newest first, until one fails.
  ghost function FlushAll(c: Cache, bad: set<int>): (r: (Cache, bool))
    requires Inv(c)
    decreases |c.list|
  {
    if c.list == [] then (c, true)
    else
      var a := c.list[0];
      FlushHead(c, bad);
      var (d, ok) := Flush(c, a, bad);
      if !ok then (d, false) else FlushAll(d, bad)
  }

  // Every dirty buffer without references is on the list.
  predicate NoneStuck(c: Cache) {
    forall a :: a in c.bufs && c.bufs[a].refs == 0 && c.bufs[a].dirty ==> c.bufs[a].listed
  }

  lemma FlushHead(c: Cache, bad: set<int>)
    requires Inv(c) && c.list != []
    ensures var a := c.list[0];
            && a in c.bufs && 0 <= a < |c.disk|
            && var (d, ok) := Flush(c, a, bad);
               && Inv(d) && Quiet(c, d) && (NoneStuck(c) ==> NoneStuck(d))
               && (ok <==> a !in bad) && d.list == if ok then c.list[1..] else c.list
  {
    var a := c.list[0];
    assert a in c.list;
    assert BufOk(c, a);
    FlushOk(c, a, bad);
    UnlistedHead(c.list);
  }

  // How many blocks of a list come before the first one that the device fails for.
  function Writable(list: seq<int>, bad: set<int>): (n: nat)
    ensures n <= |list|
  {
    if list == [] || list[0] in bad then 0 else 1 + Writable(list[1..], bad)
  }

  lemma {:induction false} FlushAllOk(c: Cache, bad: set<int>)
    requires Inv(c)
    ensures var (d, ok) := FlushAll(c, bad);
            && Inv(d) && Quiet(c, d) && (NoneStuck(c) ==> NoneStuck(d))
            && d.list == c.list[Writable(c.list, bad)..] && (ok <==> d.list == [])
    decreases |c.list|
  {
    if c.list != [] {
      FlushHead(c, bad);
      var (d, ok) := Flush(c, c.list[0], bad);
      if ok {
        FlushAllOk(d, bad);
        QuietTrans(c, d, FlushAll(d, bad).0);
      }
    }
  }

  // Exactly the blocks of the list before the first failure are written.
  lemma {:induction false} FlushAllWrites(c: Cache, bad: set<int>)
    requires Inv(c)
    ensures var d := FlushAll(c, bad).0;
            && |d.disk| == |c.disk|
            && forall x :: 0 <= x < |c.disk| ==>
                 d.disk[x] == if x in c.list[..Writable(c.list, bad)] then Logical(c, x) else c.disk[x]
    decreases |c.list|
  {
    if c.list != [] && c.list[0] !in bad {
      var a := c.list[0];
      FlushHead(c, bad);
      FlushOk(c, a, bad);
      var d := Flush(c, a, bad).0;
      FlushAllWrites(d, bad);
      assert BufOk(c, a);
      WritableStep(c.list, bad);
    } else {
      FlushAllOk(c, bad);
      if c.list != [] {
        FlushHead(c, bad);
      }
    }
  }

  lemma WritableStep(list: seq<int>, bad: set<int>)
    requires list != [] && list[0] !in bad
    ensures list[..Writable(list, bad)] == [list[0]] + list[1..][..Writable(list[1..], bad)]
  {
  }

  lemma {:induction false} AllWritable(list: seq<int>)
    ensures Writable(list, {}) == |list|
  {
    if list != [] {
      AllWritable(list[1..]);
    }
  }

  // The next nesting level of write-back mode.
  function Nest(c: Cache, on: bool): Cache {
    c.(delay := if on then c.delay + 1 else if c.delay > 0 then c.delay - 1 else 0)
  }

  lemma NestOk(c: Cache, on: bool)
    requires Inv(c)
    ensures var d := Nest(c, on); Inv(d) && SameView(c, d) && (NoneStuck(c) ==> NoneStuck(d))
  {
    var d := Nest(c, on);
    forall a | a in d.bufs ensures BufOk(d, a) {
      assert BufOk(c, a);
    }
  }

  // Turns write-back mode on or off by one level; at level 0 the dirty list is written.
  ghost function WriteBack(c: Cache, on: bool, bad: set<int>): (r: (Cache, bool))
    requires Inv(c)
  {
    var d := Nest(c, on);
    NestOk(c, on);
    if d.delay > 0 then (d, true) else FlushAll(d, bad)
  }

  lemma WriteBackOk(c: Cache, on: bool, bad: set<int>)
    requires Inv(c)
    ensures var (d, ok) := WriteBack(c, on, bad);
            && Inv(d) && SameView(c, d) && (forall a :: Refs(d, a) == Refs(c, a))
            && d.delay == (if on then c.delay + 1 else if c.delay > 0 then c.delay - 1 else 0)
            && d.list == (if d.delay > 0 then c.list else c.list[Writable(c.list, bad)..])
            && (ok <==> d.delay > 0 || d.list == [])
            && (bad == {} && Tidy(c) ==> Tidy(d))
  {
    var d := Nest(c, on);
    NestOk(c, on);
    if d.delay == 0 {
      FlushAllOk(d, bad);
      if bad == {} {
        AllWritable(c.list);
      }
    }
  }

  // ---------------------------------------------------------------- invalidating

  // Clears a buffer: its contents are given up.
  function Clear(c: Cache, a: int): Cache
    requires a in c.bufs
  {
    var d := if c.bufs[a].dirty then Unlist(c, a) else c;
    With(d, a, d.bufs[a].(uptodate := false, dirty := false))
  }

  lemma ClearOk(c: Cache, a: int)
    requires Inv(c) && a in c.bufs
    ensures 0 <= a < |c.disk|
    ensures var d := Clear(c, a);
            && Inv(d) && Local(c, d, a) && Logical(d, a) == c.disk[a] && d.disk == c.disk && d.delay == c.delay
            && d.bufs.Keys == c.bufs.Keys && (forall x :: Refs(d, x) == Refs(c, x)) && (Tidy(c) ==> Tidy(d))
  {
    var d := Clear(c, a);
    assert BufOk(c, a);
    UnlistedDistinct(c.list, a);
    assert d.bufs.Keys == c.bufs.Keys;
    SameCount(c.bufs, d.bufs);
    LocalInv(c, d, a);
    if Tidy(c) {
      LocalTidy(c, d, a);
    }
  }

  // The last block of a range of cnt blocks, in 64-bit arithmetic.
  function LastOf(first: nat, cnt: nat): int { (first + cnt - 1) % 0x1_0000_0000_0000_0000 }

  // The walk over a range starts at the buffer of its first block. When that block is not
  // cached there is nothing to start from.
  predicate Reached(c: Cache, first: nat, cnt: nat, x: int) {
    first in c.bufs && first <= x <= LastOf(first, cnt)
  }

  // The contents of the blocks reached are those of the disk again, all others are kept.
  ghost predicate Invalidated(c: Cache, first: nat, cnt: nat, d: Cache) {
    && |d.disk| == |c.disk| && d.disk == c.disk
    && forall x :: 0 <= x < |c.disk| ==> Logical(d, x) == if Reached(c, first, cnt, x) then c.disk[x] else Logical(c, x)
  }

  // On the way there: the blocks in `todo` are still to be cleared.
  ghost predicate Clearing(c: Cache, d: Cache, first: nat, cnt: nat, todo: set<int>) {
    && Inv(d) && d.disk == c.disk && d.bufs.Keys == c.bufs.Keys
    && (forall a :: a in todo ==> a in c.bufs && Reached(c, first, cnt, a))
    && (forall a :: 0 <= a < |c.disk| ==>
          Logical(d, a) == if Reached(c, first, cnt, a) && a !in todo then c.disk[a] else Logical(c, a))
    && (forall a :: Refs(d, a) == Refs(c, a))
    && (Tidy(c) ==> Tidy(d))
  }

  lemma ClearStep(c: Cache, d: Cache, first: nat, cnt: nat, todo: set<int>, a: int)
    requires Clearing(c, d, first, cnt, todo) && a in todo
    ensures a in d.bufs && Clearing(c, Clear(d, a), first, cnt, todo - {a})
  {
    assert a in d.bufs.Keys;
    ClearOk(d, a);
    var e := Clear(d, a);
    forall x | 0 <= x < |c.disk|
      ensures Logical(e, x) == if Reached(c, first, cnt, x) && x !in todo - {a} then c.disk[x] else Logical(c, x)
    {
      assert x != a ==> Logical(e, x) == Logical(d, x);
    }
  }

  lemma {:induction false} LeastIn(s: set<int>) returns (a: int)
    requires s != {}
    ensures a in s && forall x :: x in s ==> a <= x
    decreases |s|
  {
    assert (forall x :: x !in s) ==> s == {};
    a :| a in s;
    var rest := s - {a};
    assert forall x :: x in s ==> x == a || x in rest;
    if rest != {} {
      var b := LeastIn(rest);
      a := if b < a then b else a;
    }
  }

  ghost function Least(s: set<int>): (a: int)
    requires s != {}
    ensures a in s && forall x :: x in s ==> a <= x
  {
    assert exists a :: a in s && forall x :: x in s ==> a <= x by {
      var a := LeastIn(s);
    }
    var a :| a in s && forall x :: x in s ==> a <= x;
    a
  }

  // Clears buffers in the order of their addresses.
  ghost function ClearAll(c: Cache, todo: set<int>): (d: Cache)
    requires forall a :: a in todo ==> a in c.bufs
    ensures d.bufs.Keys == c.bufs.Keys
    decreases |todo|
  {
    if todo == {} then c
    else
      var a := Least(todo);
      ClearAll(Clear(c, a), todo - {a})
  }

  ghost function InRange(c: Cache, first: nat, cnt: nat): set<int> {
    set a | a in c.bufs && Reached(c, first, cnt, a)
  }

  ghost function Invalidate(c: Cache, first: nat, cnt: nat): (d: Cache) {
    ClearAll(c, InRange(c, first, cnt))
  }

  lemma {:induction false} ClearAllOk(c: Cache, d: Cache, first: nat, cnt: nat, todo: set<int>)
    requires Clearing(c, d, first, cnt, todo)
    ensures forall a :: a in todo ==> a in d.bufs
    ensures Clearing(c, ClearAll(d, todo), first, cnt, {})
    decreases |todo|
  {
    assert forall a :: a in todo ==> a in d.bufs.Keys;
    if todo != {} {
      var a := Least(todo);
      ClearStep(c, d, first, cnt, todo, a);
      ClearAllOk(c, Clear(d, a), first, cnt, todo - {a});
    }
  }

  lemma InvalidateOk(c: Cache, first: nat, cnt: nat)
    requires Inv(c)
    ensures var d := Invalidate(c, first, cnt);
            && Inv(d) && Invalidated(c, first, cnt, d) && d.bufs.Keys == c.bufs.Keys
            && (forall a :: Refs(d, a) == Refs(c, a)) && (Tidy(c) ==> Tidy(d))
  {
    ClearAllOk(c, c, first, cnt, InRange(c, first, cnt));
  }

  // All blocks of a range are given up if and only if its first block is cached, or the
  // cache holds nothing new for them.
  lemma InvalidateExact(c: Cache, first: nat, cnt: nat, d: Cache)
    requires Invalidated(c, first, cnt, d) && 0 < cnt && first + cnt <= |c.disk| < 0x1_0000_0000_0000_0000
    ensures (forall x :: first <= x < first + cnt ==> Logical(d, x) == c.disk[x]) <==>
            first in c.bufs || forall x :: first <= x < first + cnt ==> Logical(c, x) == c.disk[x]
  {
    assert LastOf(first, cnt) == first + cnt - 1;
    forall x | first <= x < first + cnt
      ensures Logical(d, x) == if first in c.bufs then c.disk[x] else Logical(c, x)
    {
      assert Reached(c, first, cnt, x) <==> first in c.bufs;
    }
  }

  // A dirty buffer of block 2 in a cache that does not hold block 1.
  function Scattered(): Cache {
    Cache(map[2 := Buf([7], 0, 1, true, true, false, false, true)], {2}, [2], 1, 1, 1, [[0], [0], [0]], 8)
  }

  // Invalidating blocks 1 and 2 then leaves block 2 as it was.
  lemma StartNotCached()
    ensures var c := Scattered();
            Inv(c) && Invalidate(c, 1, 2) == c && Logical(c, 2) != c.disk[2] && Reached(c, 2, 1, 2)
  {
    var c := Scattered();
    assert |c.bufs| == |c.bufs.Keys| && c.bufs.Keys == {2};
    assert BufOk(c, 2);
    assert InRange(c, 1, 2) == {};
  }

  // ---------------------------------------------------------------- runs

  datatype Op =
    | DoGet(a: nat, junk: Data)
    | DoGetNoRead(a: nat, junk: Data)
    | DoWrite(at: int, v: Data)
    | DoPut(at: int)
    | DoMark(at: int, flush: bool, temp: bool)
    | DoFlush(at: int)
    | DoFlushAll
    | DoWriteBack(on: bool)
    | DoInvalidate(first: nat, cnt: nat)

  // An operation and the blocks for which the device fails while it runs.
  datatype Event = Event(op: Op, bad: set<int>)

  // Clients change and give back only blocks they hold, and block 0 is never given back.
  predicate Allowed(c: Cache, e: Event) {
    match e.op
    case DoWrite(a, _) => a in c.bufs && c.bufs[a].refs > 0
    case DoMark(a, _, _) => a in c.bufs && c.bufs[a].refs > 0
    case DoPut(a) => a in c.bufs && c.bufs[a].refs > 0 && a != 0
    case _ => true
  }

  ghost function Step(c: Cache, e: Event): (d: Cache)
    requires Inv(c) && Allowed(c, e)
  {
    match e.op
    case DoGet(a, junk) => Get(c, a, junk, e.bad).0
    case DoGetNoRead(a, junk) => GetNoRead(c, a, junk, e.bad).0
    case DoWrite(a, v) => Write(c, a, v)
    case DoPut(a) => ReleaseOk(c, a, e.bad); Release(c, a, e.bad)
    case DoMark(a, flush, temp) => Mark(c, a, flush, temp)
    case DoFlush(a) => FlushBlock(c, a, e.bad)
    case DoFlushAll => FlushAll(c, e.bad).0
    case DoWriteBack(on) => WriteBack(c, on, e.bad).0
    case DoInvalidate(first, cnt) => Invalidate(c, first, cnt)
  }

  // How the references to a block change.
  ghost function Gain(c: Cache, e: Event, x: int): int
    requires Inv(c)
  {
    match e.op
    case DoGet(a, junk) => if a == x && Get(c, a, junk, e.bad).1 == Fine then 1 else 0
    case DoGetNoRead(a, junk) => if a == x && GetNoRead(c, a, junk, e.bad).1 == Fine then 1 else 0
    case DoPut(a) => if a == x then -1 else 0
    case _ => 0
  }

  // The contents of all blocks, and what an operation does to a plain disk.
  ghost function View(c: Cache): (v: seq<Data>)
    ensures |v| == |c.disk| && forall i :: 0 <= i < |v| ==> v[i] == Logical(c, i)
  {
    seq(|c.disk|, i requires 0 <= i < |c.disk| => Logical(c, i))
  }

  // What an operation makes the contents of blocks: a write stores a value, an invalidation
  // and a forfeited temporary buffer bring back what the disk holds.
  ghost function Changes(c: Cache, e: Event): (m: map<int, Data>)
    requires Inv(c) && Allowed(c, e)
  {
    match e.op
    case DoWrite(a, v) => map[a := v]
    case DoPut(a) =>
      assert BufOk(c, a);
      if Forfeits(c, a, e.bad) then map[a := c.disk[a]] else map[]
    case DoFlush(a) =>
      assert a in c.bufs ==> BufOk(c, a);
      if FlushForfeits(c, a, e.bad) then map[a := c.disk[a]] else map[]
    case DoInvalidate(first, cnt) => map x | 0 <= x < |c.disk| && Reached(c, first, cnt, x) :: c.disk[x]
    case _ => map[]
  }

  ghost function PlainStep(v: seq<Data>, m: map<int, Data>): (w: seq<Data>)
    ensures |w| == |v|
  {
    seq(|v|, i requires 0 <= i < |v| => if i in m then m[i] else v[i])
  }

  lemma SameSeq(c: Cache, d: Cache)
    requires SameView(c, d)
    ensures View(d) == PlainStep(View(c), map[])
  {
  }

  // A change of one block only.
  lemma OneSeq(c: Cache, d: Cache, a: int, v: Data)
    requires Local(c, d, a) && 0 <= a < |c.disk| && Logical(d, a) == v
    ensures View(d) == PlainStep(View(c), map[a := v])
  {
  }

  ghost predicate Refines(c: Cache, e: Event, d: Cache)
    requires Inv(c) && Allowed(c, e)
  {
    && Inv(d) && View(d) == PlainStep(View(c), Changes(c, e))
    && (forall x :: Refs(d, x) == Refs(c, x) + Gain(c, e, x))
    && (e.bad == {} && Tidy(c) ==> Tidy(d))
  }

  lemma GetStep(c: Cache, e: Event)
    requires Inv(c) && (e.op.DoGet? || e.op.DoGetNoRead?)
    ensures Refines(c, e, Step(c, e))
  {
    if e.op.DoGet? {
      GetOk(c, e.op.a, e.op.junk, e.bad);
    } else {
      GetNoReadOk(c, e.op.a, e.op.junk, e.bad);
    }
    SameSeq(c, Step(c, e));
  }

  lemma PutStep(c: Cache, e: Event)
    requires Inv(c) && Allowed(c, e) && e.op.DoPut?
    ensures Refines(c, e, Step(c, e))
  {
    var a := e.op.at;
    ReleaseOk(c, a, e.bad);
    if Forfeits(c, a, e.bad) {
      ForfeitReverts(c, a, e.bad);
      OneSeq(c, Step(c, e), a, c.disk[a]);
    } else {
      SameSeq(c, Step(c, e));
    }
  }

  lemma FlushStep(c: Cache, e: Event)
    requires Inv(c) && Allowed(c, e) && e.op.DoFlush?
    ensures Refines(c, e, Step(c, e))
  {
    var a := e.op.at;
    FlushBlockOk(c, a, e.bad);
    if FlushForfeits(c, a, e.bad) {
      OneSeq(c, Step(c, e), a, c.disk[a]);
    } else {
      SameSeq(c, Step(c, e));
    }
  }

  lemma WriteStep(c: Cache, e: Event)
    requires Inv(c) && Allowed(c, e) && e.op.DoWrite?
    ensures Refines(c, e, Step(c, e))
  {
    assert BufOk(c, e.op.at);
    WriteOk(c, e.op.at, e.op.v);
    OneSeq(c, Step(c, e), e.op.at, e.op.v);
  }

  lemma MarkStep(c: Cache, e: Event)
    requires Inv(c) && Allowed(c, e) && e.op.DoMark?
    ensures Refines(c, e, Step(c, e))
  {
    MarkOk(c, e.op.at, e.op.flush, e.op.temp);
    SameSeq(c, Step(c, e));
  }

  lemma ListStep(c: Cache, e: Event)
    requires Inv(c) && (e.op.DoFlushAll? || e.op.DoWriteBack?)
    ensures Refines(c, e, Step(c, e))
  {
    if e.op.DoFlushAll? {
      FlushAllOk(c, e.bad);
      if e.bad == {} {
        AllWritable(c.list);
      }
    } else {
      WriteBackOk(c, e.op.on, e.bad);
    }
    SameSeq(c, Step(c, e));
  }

  lemma InvalidateStep(c: Cache, e: Event)
    requires Inv(c) && e.op.DoInvalidate?
    ensures Refines(c, e, Step(c, e))
  {
    InvalidateOk(c, e.op.first, e.op.cnt);
    var d, m := Step(c, e), Changes(c, e);
    forall i | 0 <= i < |c.disk| ensures View(d)[i] == PlainStep(View(c), m)[i] {
    }
  }

  lemma StepOk(c: Cache, e: Event)
    requires Inv(c) && Allowed(c, e)
    ensures Refines(c, e, Step(c, e))
  {
    match e.op
    case DoGet(_, _) => GetStep(c, e);
    case DoGetNoRead(_, _) => GetStep(c, e);
    case DoWrite(_, _) => WriteStep(c, e);
    case DoPut(_) => PutStep(c, e);
    case DoMark(_, _, _) => MarkStep(c, e);
    case DoFlush(_) => FlushStep(c, e);
    case DoFlushAll => ListStep(c, e);
    case DoWriteBack(_) => ListStep(c, e);
    case DoInvalidate(_, _) => InvalidateStep(c, e);
  }

  ghost predicate CanRun(c: Cache, events: seq<Event>)
    requires Inv(c)
    decreases |events|
  {
    events == [] ||
    (Allowed(c, events[0]) && (StepOk(c, events[0]); CanRun(Step(c, events[0]), events[1..])))
  }

  ghost function Run(c: Cache, events: seq<Event>): (d: Cache)
    requires Inv(c) && CanRun(c, events)
    decreases |events|
  {
    if events == [] then c else StepOk(c, events[0]); Run(Step(c, events[0]), events[1..])
  }

  // A plain disk, on which each operation just makes its changes.
  ghost function PlainRun(v: seq<Data>, c: Cache, events: seq<Event>): seq<Data>
    requires Inv(c) && CanRun(c, events)
    decreases |events|
  {
    if events == [] then v
    else
      StepOk(c, events[0]);
      PlainRun(PlainStep(v, Changes(c, events[0])), Step(c, events[0]), events[1..])
  }

  ghost function Gains(c: Cache, events: seq<Event>, x: int): int
    requires Inv(c) && CanRun(c, events)
    decreases |events|
  {
    if events == [] then 0
    else StepOk(c, events[0]); Gain(c, events[0], x) + Gains(Step(c, events[0]), events[1..], x)
  }

  // Over any run, whatever the device does, the cache shows the contents of a plain disk,
  // and each buffer stays as long as it is referenced.
  lemma {:induction false} RunRefines(c: Cache, events: seq<Event>)
    requires Inv(c) && CanRun(c, events)
    ensures var d := Run(c, events);
            && Inv(d) && View(d) == PlainRun(View(c), c, events)
            && forall x :: Refs(d, x) == Refs(c, x) + Gains(c, events, x)
    decreases |events|
  {
    if events != [] {
      StepOk(c, events[0]);
      RunRefines(Step(c, events[0]), events[1..]);
    }
  }

  // ---------------------------------------------------------------- runs that give nothing up

  // An operation that invalidates nothing and forfeits no temporary buffer.
  predicate Careful(c: Cache, e: Event)
    requires Allowed(c, e)
  {
    match e.op
    case DoPut(a) => !Forfeits(c, a, e.bad)
    case DoFlush(a) => !FlushForfeits(c, a, e.bad)
    case DoInvalidate(_, _) => false
    case _ => true
  }

  ghost predicate CarefulRun(c: Cache, events: seq<Event>)
    requires Inv(c) && CanRun(c, events)
    decreases |events|
  {
    events == [] || (Careful(c, events[0]) && (StepOk(c, events[0]); CarefulRun(Step(c, events[0]), events[1..])))
  }

  // The writes of a run, one after the other.
  function Writes(v: seq<Data>, events: seq<Event>): seq<Data>
    decreases |events|
  {
    if events == [] then v
    else
      var op := events[0].op;
      Writes(if op.DoWrite? && 0 <= op.at < |v| then v[op.at := op.v] else v, events[1..])
  }

  // Then the cache shows what was written last, and nothing else.
  lemma {:induction false} CarefulWrites(v: seq<Data>, c: Cache, events: seq<Event>)
    requires Inv(c) && CanRun(c, events) && CarefulRun(c, events)
    ensures PlainRun(v, c, events) == Writes(v, events)
    decreases |events|
  {
    if events != [] {
      var e := events[0];
      StepOk(c, e);
      assert PlainStep(v, Changes(c, e)) == if e.op.DoWrite? && 0 <= e.op.at < |v| then v[e.op.at := e.op.v] else v;
      CarefulWrites(PlainStep(v, Changes(c, e)), Step(c, e), events[1..]);
    }
  }

  // ---------------------------------------------------------------- what reaches the disk

  // Without device errors, once write-back mode is off and nothing is referenced, the disk
  // holds what the cache shows.
  lemma {:induction false} RunTidy(c: Cache, events: seq<Event>)
    requires Inv(c) && CanRun(c, events) && Tidy(c)
    requires forall i :: 0 <= i < |events| ==> events[i].bad == {}
    ensures Tidy(Run(c, events))
    decreases |events|
  {
    if events != [] {
      StepOk(c, events[0]);
      RunTidy(Step(c, events[0]), events[1..]);
    }
  }

  lemma DiskIsView(c: Cache)
    requires Inv(c) && Tidy(c) && c.delay == 0 && forall a :: Refs(c, a) == 0
    ensures c.disk == View(c)
  {
    forall a | 0 <= a < |c.disk| ensures c.disk[a] == Logical(c, a) {
      if a in c.bufs {
        assert BufOk(c, a) && Refs(c, a) == 0;
      }
    }
  }

  lemma RunSettles(c: Cache, events: seq<Event>)
    requires Inv(c) && CanRun(c, events) && Tidy(c)
    requires forall i :: 0 <= i < |events| ==> events[i].bad == {}
    requires var d := Run(c, events); d.delay == 0 && forall a :: Refs(d, a) == 0
    ensures Run(c, events).disk == PlainRun(View(c), c, events)
  {
    RunRefines(c, events);
    RunTidy(c, events);
    DiskIsView(Run(c, events));
  }
}
