// The block cache in place.

module BlockCache {
  import opened CacheSpec
  import opened CacheRuns

  class Device {
    var bufs: map<int, Buf>
    var idle: set<int>
    var list: seq<int>
    var count: nat
    var clock: nat
    var delay: nat
    var disk: seq<Data>
    const capacity: nat

    ghost function State(): Cache
      reads this
    {
      Cache(bufs, idle, list, count, clock, delay, disk, capacity)
    }

    constructor (disk: seq<Data>, capacity: nat)
      ensures Inv(State()) && Tidy(State()) && View(State()) == disk && forall a :: Refs(State(), a) == 0
    {
      this.disk, this.capacity := disk, capacity;
      bufs, idle, list, count, clock, delay := map[], {}, [], 0, 0, 0;
    }

    // Takes a buffer off the dirty list.
    method RemoveDirtyNode(a: int)
      requires a in bufs
      modifies this`list, this`bufs
      ensures State() == Unlist(old(State()), a)
    {
      if bufs[a].listed {
        list := Unlisted(list, a);
        bufs := bufs[a := bufs[a].(listed := false)];
      }
    }

    // Writes a dirty buffer.
    method FlushBuf(a: int, bad: set<int>) returns (ok: bool)
      requires a in bufs && 0 <= a < |disk|
      modifies this`list, this`bufs, this`disk
      ensures (State(), ok) == Flush(old(State()), a, bad)
    {
      ok := true;
      if bufs[a].dirty && bufs[a].uptodate {
        if a in bad {
          return false;
        }
        disk := disk[a := bufs[a].data];
        RemoveDirtyNode(a);
        bufs := bufs[a := bufs[a].(dirty := false)];
      }
    }

    method DropBuf(a: int)
      requires Inv(State()) && a in bufs && count > 0
      modifies this`list, this`bufs, this`idle, this`count
      ensures State() == Drop(old(State()), a)
    {
      assert BufOk(State(), a);
      if bufs[a].refs == 0 {
        idle := idle - {a};
      }
      if bufs[a].dirty && bufs[a].listed {
        list := Unlisted(list, a);
      }
      bufs := bufs - {a};
      count := count - 1;
    }

    // Takes a reference to a cached buffer, which leaves the LRU tree and the dirty list.
    method FindGet(a: int) returns (found: bool)
      modifies this`list, this`bufs, this`idle, this`clock
      ensures found <==> a in old(bufs)
      ensures State() == if found then Take(old(State()), a) else old(State())
    {
      found := a in bufs;
      if found {
        if bufs[a].refs == 0 {
          clock := clock + 1;
          idle := idle - {a};
          bufs := bufs[a := bufs[a].(id := clock)];
          if bufs[a].dirty {
            RemoveDirtyNode(a);
          }
        }
        bufs := bufs[a := bufs[a].(refs := bufs[a].refs + 1)];
      }
    }

    method AllocBuf(a: int, junk: Data)
      modifies this`list, this`bufs, this`idle, this`clock, this`count
      ensures State() == Alloc(old(State()), a, junk)
    {
      var found := FindGet(a);
      if !found {
        clock, count := clock + 1, count + 1;
        bufs := bufs[a := Buf(junk, 1, clock, false, false, false, false, false)];
      }
    }

    // Writes a dirty buffer without references, or puts it on the dirty list.
    method SettleBuf(a: int, bad: set<int>)
      requires a in bufs && 0 <= a < |disk|
      modifies this`list, this`bufs, this`disk
      ensures State() == Settle(old(State()), a, bad)
    {
      if bufs[a].dirty && bufs[a].uptodate {
        if delay > 0 && !bufs[a].flush && !bufs[a].temp {
          if !bufs[a].listed {
            list := [a] + list;
            bufs := bufs[a := bufs[a].(listed := true)];
          }
        } else {
          var _ := FlushBuf(a, bad);
          bufs := bufs[a := bufs[a].(flush := false)];
        }
      }
    }

    // Gives a reference back.
    method Free(a: int, bad: set<int>)
      requires Inv(State()) && a in bufs && bufs[a].refs > 0
      modifies this`list, this`bufs, this`disk, this`idle, this`count
      ensures old(count) > 0 && 0 <= a < |old(disk)| && State() == Release(old(State()), a, bad)
    {
      ghost var c := State();
      ReleaseOk(c, a, bad);
      bufs := bufs[a := bufs[a].(refs := bufs[a].refs - 1)];
      if bufs[a].refs == 0 {
        IdleOk(c, a);
        assert BufOk(c, a);
        SettleOk(Idle(c, a), a, bad);
        idle := idle + {a};
        SettleBuf(a, bad);
        if !bufs[a].uptodate || bufs[a].temp {
          DropBuf(a);
        }
      }
    }

    // The buffer without references that was taken longest ago.
    method LowestLru() returns (a: int)
      requires Inv(State()) && idle != {}
      ensures a == Lowest(State())
    {
      assert (forall x :: x !in idle) ==> idle == {};
      a :| a in idle;
      var rest := idle - {a};
      while rest != {}
        invariant rest <= idle && a in idle && a !in rest
        invariant forall x :: x in idle && x !in rest ==> bufs[a].id <= bufs[x].id
        decreases |rest|
      {
        assert (forall x :: x !in rest) ==> rest == {};
        var b :| b in rest;
        rest := rest - {b};
        if bufs[b].id < bufs[a].id {
          a := b;
        }
      }
      OneOldest(State(), a);
    }

    // Makes room.
    method ShakeCache(bad: set<int>) returns (ok: bool)
      requires Inv(State())
      modifies this`list, this`bufs, this`disk, this`idle, this`count
      ensures (State(), ok) == Shake(old(State()), bad)
    {
      ok := true;
      while idle != {} && capacity <= count
        invariant Inv(State()) && ok && Shake(State(), bad) == Shake(old(State()), bad)
        decreases |idle|
      {
        var a := LowestLru();
        assert BufOk(State(), a);
        FlushOk(State(), a, bad);
        ghost var c := State();
        if bufs[a].dirty {
          ok := FlushBuf(a, bad);
          if !ok {
            return;
          }
        }
        EvictOk(c, a, bad);
        DropBuf(a);
      }
    }

    method GetNoReadBlock(a: nat, junk: Data, bad: set<int>) returns (status: Status)
      requires Inv(State())
      modifies this
      ensures (State(), status) == GetNoRead(old(State()), a, junk, bad)
    {
      if a >= |disk| {
        return NoSuchBlock;
      }
      var ok := ShakeCache(bad);
      if !ok {
        return IoError;
      }
      AllocBuf(a, junk);
      return Fine;
    }

    // A successful get returns what was last written to the block, or what the disk holds.
    method GetBlock(a: nat, junk: Data, bad: set<int>) returns (status: Status)
      requires Inv(State())
      modifies this
      ensures (State(), status) == Get(old(State()), a, junk, bad)
      ensures status == Fine ==> a < |old(disk)| && a in bufs && bufs[a].data == Logical(old(State()), a)
    {
      GetOk(State(), a, junk, bad);
      GetNoReadOk(State(), a, junk, bad);
      status := GetNoReadBlock(a, junk, bad);
      if status == Fine && !bufs[a].uptodate {
        if a in bad {
          Free(a, bad);
          return IoError;
        }
        bufs := bufs[a := bufs[a].(data := disk[a], uptodate := true)];
      }
    }

    method FlushLba(a: int, bad: set<int>)
      requires Inv(State())
      modifies this
      ensures State() == FlushBlock(old(State()), a, bad)
      ensures a in old(bufs) && a !in bad ==>
                0 <= a < |old(disk)| && disk == old(disk)[a := Logical(old(State()), a)] && a !in list
    {
      ghost var c := State();
      FlushBlockWrites(c, a, bad);
      var found := FindGet(a);
      if found {
        TakeOk(c, a);
        assert BufOk(State(), a);
        FlushOk(State(), a, bad);
        var _ := FlushBuf(a, bad);
        Free(a, bad);
      }
    }

    // Writes all buffers on the dirty list.
    method CacheFlush(bad: set<int>) returns (ok: bool)
      requires Inv(State())
      modifies this`list, this`bufs, this`disk
      ensures (State(), ok) == FlushAll(old(State()), bad)
    {
      while list != []
        invariant Inv(State()) && FlushAll(State(), bad) == FlushAll(old(State()), bad)
        decreases |list|
      {
        FlushHead(State(), bad);
        ok := FlushBuf(list[0], bad);
        if !ok {
          return;
        }
      }
      ok := true;
    }

    method CacheWriteBack(on: bool, bad: set<int>) returns (ok: bool)
      requires Inv(State())
      modifies this
      ensures (State(), ok) == WriteBack(old(State()), on, bad)
    {
      WriteBackOk(State(), on, bad);
      ghost var c := State();
      if on {
        delay := delay + 1;
      } else if delay > 0 {
        delay := delay - 1;
      }
      NestOk(c, on);
      if delay > 0 {
        return true;
      }
      ok := CacheFlush(bad);
    }

    method InvalidateBuf(a: int)
      requires a in bufs
      modifies this`list, this`bufs
      ensures State() == Clear(old(State()), a)
    {
      if bufs[a].dirty {
        RemoveDirtyNode(a);
      }
      bufs := bufs[a := bufs[a].(uptodate := false, dirty := false)];
    }

    // Gives up the cached contents of a range of blocks, in the order of their addresses.
    method InvalidateLba(first: nat, cnt: nat)
      requires Inv(State())
      modifies this`list, this`bufs
      ensures State() == Invalidate(old(State()), first, cnt)
      ensures Inv(State()) && Invalidated(old(State()), first, cnt, State())
    {
      InvalidateOk(State(), first, cnt);
      var end := LastOf(first, cnt);
      var todo := set a | a in bufs && first in bufs && first <= a <= end;
      assert todo == InRange(State(), first, cnt);
      while todo != {}
        invariant forall a :: a in todo ==> a in bufs
        invariant ClearAll(State(), todo) == Invalidate(old(State()), first, cnt)
        decreases |todo|
      {
        var a := LowestOf(todo);
        InvalidateBuf(a);
        todo := todo - {a};
      }
    }
  }

  method LowestOf(s: set<int>) returns (a: int)
    requires s != {}
    ensures a == Least(s)
  {
    assert (forall x :: x !in s) ==> s == {};
    a :| a in s;
    var rest := s - {a};
    while rest != {}
      invariant rest <= s && a in s && a !in rest
      invariant forall x :: x in s && x !in rest ==> a <= x
      decreases |rest|
    {
      assert (forall x :: x !in rest) ==> rest == {};
      var b :| b in rest;
      rest := rest - {b};
      a := if b < a then b else a;
    }
  }
}
