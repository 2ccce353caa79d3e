// Allocation of blocks: group bitmaps and the counters that go with them.

module Allocator {
  import opened Arith
  import opened Bitmap
  import CR = CacheRuns
  import CS = CacheSpec

  // ---------------------------------------------------------------- geometry

  // `skip` is 1 when the first data block is not block 0, and 0 otherwise.
  datatype Geometry = Geometry(total: nat, perGroup: nat, skip: nat, blockSize: nat) {
    predicate Valid() {
      0 < total && 0 < perGroup <= 8 * blockSize && skip <= 1
    }

    function GroupCount(): nat
      requires perGroup > 0
    {
      total / perGroup + if total % perGroup != 0 then 1 else 0
    }

    function InGroup(g: nat): int
      requires perGroup > 0
    {
      if g < GroupCount() - 1 then perGroup else total - (GroupCount() - 1) * perGroup
    }

    function Shifted(addr: nat): nat { if skip > 0 && addr > 0 then addr - 1 else addr }

    function GroupOf(addr: nat): nat
      requires perGroup > 0
    {
      Shifted(addr) / perGroup
    }

    function IndexOf(addr: nat): nat
      requires perGroup > 0
    {
      Shifted(addr) % perGroup
    }

    function AddrOf(index: nat, g: nat): nat { perGroup * g + (if skip > 0 then index + 1 else index) }

    function FirstOf(g: nat): nat { (if skip > 0 then 1 else 0) + g * perGroup }
  }

  // Group and index name a block and the other way round.
  lemma AddrRoundTrip(geo: Geometry, index: nat, g: nat)
    requires geo.Valid() && index < geo.perGroup
    ensures geo.GroupOf(geo.AddrOf(index, g)) == g && geo.IndexOf(geo.AddrOf(index, g)) == index
  {
    DivUnique(geo.perGroup, g, index);
  }

  lemma IndexRoundTrip(geo: Geometry, addr: nat)
    requires geo.Valid() && (geo.skip > 0 ==> addr > 0)
    ensures geo.AddrOf(geo.IndexOf(addr), geo.GroupOf(addr)) == addr
  {
  }

  // Blocks are numbered through the groups, from the first data block on.
  lemma AddrCounts(geo: Geometry, index: nat, g: nat)
    requires geo.Valid() && index + 1 < geo.perGroup
    ensures geo.AddrOf(0, 0) == geo.skip && geo.AddrOf(index + 1, g) == geo.AddrOf(index, g) + 1
    ensures geo.AddrOf(0, g + 1) == geo.AddrOf(geo.perGroup - 1, g) + 1
  {
    assert geo.perGroup * (g + 1) == geo.perGroup * g + geo.perGroup;
  }

  lemma FirstIndex(geo: Geometry, g: nat)
    requires geo.Valid()
    ensures geo.IndexOf(geo.FirstOf(g)) == 0
  {
    DivUnique(geo.perGroup, g, 0);
  }

  // The last group holds what is left.
  lemma GroupSizes(geo: Geometry, g: nat)
    requires geo.Valid() && g < geo.GroupCount()
    ensures 0 < geo.InGroup(g) <= geo.perGroup && geo.perGroup * g + geo.InGroup(g) <= geo.total
    ensures g == geo.GroupCount() - 1 ==> geo.perGroup * g + geo.InGroup(g) == geo.total
  {
    var p, n := geo.perGroup, geo.GroupCount();
    assert geo.total == p * (geo.total / p) + geo.total % p;
    if g < n - 1 {
      assert p * (g + 1) <= p * (n - 1);
      assert p * (n - 1) <= geo.total;
    }
  }

  // The one block of the groups that has no place on the volume: with a first data block of 1
  // every address is one higher than its position, and so the last position leads behind it.
  predicate Beyond(geo: Geometry, index: nat, g: nat)
    requires geo.Valid()
  {
    geo.skip > 0 && g == geo.GroupCount() - 1 && index == geo.InGroup(g) - 1
  }

  // Every other block of a group lies on the volume.
  lemma AddrInside(geo: Geometry, index: nat, g: nat)
    requires geo.Valid() && g < geo.GroupCount() && index < geo.InGroup(g)
    ensures geo.AddrOf(index, g) < geo.total <==> !Beyond(geo, index, g)
    ensures geo.AddrOf(index, g) <= geo.total
  {
    var p, n := geo.perGroup, geo.GroupCount();
    GroupSizes(geo, g);
    GroupSizes(geo, n - 1);
    if g < n - 1 {
      MulMono(p, g + 1, n - 1);
      assert p * (g + 1) == p * g + p;
    }
  }

  // A volume of 8193 blocks has a second group, and its only block would be block 8193.
  lemma OneBeyond()
    ensures var geo := Geometry(8193, 8192, 1, 1024);
            && geo.Valid() && geo.GroupCount() == 2 && geo.InGroup(1) == 1
            && geo.AddrOf(0, 1) == geo.total && Beyond(geo, 0, 1)
  {
  }

  // ---------------------------------------------------------------- state

  datatype Group = Group(bitmap: seq<bv8>, free: nat)

  predicate Shaped(geo: Geometry, groups: seq<Group>) {
    geo.Valid() && |groups| == geo.GroupCount() && forall g :: 0 <= g < |groups| ==> |groups[g].bitmap| == geo.blockSize
  }

  // The counter of a group tells its clear bits.
  predicate Counted(geo: Geometry, groups: seq<Group>, g: nat)
    requires Shaped(geo, groups) && g < |groups|
  {
    GroupSizes(geo, g);
    groups[g].free == ClearCount(groups[g].bitmap, geo.InGroup(g))
  }

  function SumFree(groups: seq<Group>): nat {
    if groups == [] then 0 else groups[0].free + SumFree(groups[1..])
  }

  // All counters agree with the bitmaps.
  predicate Consistent(geo: Geometry, groups: seq<Group>, free: nat)
    requires Shaped(geo, groups)
  {
    (forall g: nat :: g < |groups| ==> Counted(geo, groups, g)) && free == SumFree(groups)
  }

  predicate IsFull(geo: Geometry, groups: seq<Group>, g: nat)
    requires Shaped(geo, groups) && g < |groups|
  {
    GroupSizes(geo, g);
    AllBits(groups[g].bitmap, 0, geo.InGroup(g))
  }

  lemma {:induction false} SumUpdate(groups: seq<Group>, g: nat, x: Group)
    requires g < |groups|
    ensures SumFree(groups[g := x]) == SumFree(groups) - groups[g].free + x.free
    ensures groups[g].free <= SumFree(groups)
  {
    if g > 0 {
      SumUpdate(groups[1..], g - 1, x);
      assert groups[g := x][1..] == groups[1..][g - 1 := x];
    } else {
      assert groups[g := x][1..] == groups[1..];
    }
  }

  // ---------------------------------------------------------------- searching

  function Up64(i: nat): nat { (i + 63) / 64 * 64 }

  lemma UpBounds(i: nat)
    ensures i <= Up8(i) <= Up64(i) && (Up64(i) == i ==> Up8(i) == i)
  {
  }

  // Looks for a clear bit in the group of the goal: the goal itself, then the rest of its
  // 64 blocks, then from the goal to the end of the group. The last search could misreport a
  // bit before the first byte boundary, but those were looked at before.
  method FindNear(bitmap: seq<bv8>, goal: nat, size: nat) returns (found: bool, i: nat)
    requires goal < size <= 8 * |bitmap|
    ensures found ==> goal <= i < size && !Bit(bitmap, i) && AllBits(bitmap, goal, i)
    ensures !found ==> AllBits(bitmap, goal, size)
  {
    if !Bit(bitmap, goal) {
      return true, goal;
    }
    UpBounds(goal);
    var end := if Up64(goal) > size then size else Up64(goal);
    var k := goal + 1;
    while k < end
      invariant goal < k <= size && AllBits(bitmap, goal, k) && (k <= end || end == goal)
    {
      if !Bit(bitmap, k) {
        return true, k;
      }
      k := k + 1;
    }
    found, i := FindClear(bitmap, goal, size);
    AfterScan(bitmap, goal, k, size);
  }

  // Behind the scan of the near blocks the search reports right.
  lemma AfterScan(bitmap: seq<bv8>, goal: nat, k: nat, size: nat)
    requires goal < k <= size <= 8 * |bitmap| && AllBits(bitmap, goal, k)
    requires k >= Up64(goal) || k == size
    ensures var f := FirstClear(bitmap, goal, size);
            (f < size ==> Reported(bitmap, goal, size) == f) && (f == size ==> AllBits(bitmap, goal, size))
  {
    UpBounds(goal);
    var f := FirstClear(bitmap, goal, size);
    assert f < size ==> !Bit(bitmap, f);
  }

  // The k-th group behind one, going round.
  function Nth(start: nat, k: nat, n: nat): (g: nat)
    requires n > 0
    ensures g < n
  {
    (start + 1 + k) % n
  }

  lemma NextNth(start: nat, k: nat, n: nat)
    requires start < n && k < n
    ensures (Nth(start, k, n) + 1) % n == Nth(start, k + 1, n)
  {
    var x := start + 1 + k;
    if x < n {
      SmallMod(x, n);
    } else {
      DivUnique(n, 1, x - n);
      SmallMod(x - n + 1, n);
      if x - n + 1 == n {
        DivUnique(n, 2, 0);
      } else {
        DivUnique(n, 1, x - n + 1);
      }
    }
  }

  // Every group comes up within one round, the one started from at the end.
  lemma EveryNth(start: nat, x: nat, n: nat) returns (k: nat)
    requires start < n && x < n
    ensures k < n && Nth(start, k, n) == x
  {
    if x > start {
      k := x - start - 1;
      SmallMod(x, n);
    } else {
      k := x + n - start - 1;
      DivUnique(n, 1, x);
    }
  }

  lemma SmallMod(k: nat, n: nat)
    requires 0 < n && k <= n
    ensures k % n == if k == n then 0 else k
  {
    if k < n {
      DivUnique(n, 0, k);
    } else {
      DivUnique(n, 1, 0);
    }
  }

  // The first clear bit of a group from one on.
  predicate FirstFrom(geo: Geometry, groups: seq<Group>, g: nat, lo: nat, i: nat)
    requires geo.perGroup > 0
  {
    && g < |groups| && lo <= i < geo.InGroup(g) <= 8 * |groups[g].bitmap|
    && !Bit(groups[g].bitmap, i) && AllBits(groups[g].bitmap, lo, i)
  }

  // A group has no clear bit from one on.
  predicate FullFrom(geo: Geometry, groups: seq<Group>, g: nat, lo: nat)
    requires Shaped(geo, groups) && g < |groups|
  {
    GroupSizes(geo, g);
    AllBits(groups[g].bitmap, lo, geo.InGroup(g))
  }

  // The free block that belongs to a goal: the first one in its group from it on, or else the
  // first one of the first group behind that has one, its own group coming last.
  ghost predicate Nearest(geo: Geometry, groups: seq<Group>, goal: nat, g: nat, i: nat)
    requires Shaped(geo, groups) && geo.GroupOf(goal) < |groups|
  {
    var start, at, n := geo.GroupOf(goal), geo.IndexOf(goal), |groups|;
    if !FullFrom(geo, groups, start, at) then g == start && FirstFrom(geo, groups, g, at, i)
    else
      && FirstFrom(geo, groups, g, 0, i)
      && exists d: nat :: d < n && g == Nth(start, d, n) && AllFull(geo, groups, start, d)
  }

  // The first d groups behind one are full.
  predicate AllFull(geo: Geometry, groups: seq<Group>, start: nat, d: nat)
    requires Shaped(geo, groups) && groups != []
  {
    forall k: nat :: k < d ==> IsFull(geo, groups, Nth(start, k, |groups|))
  }

  // Searches a group from its beginning.
  method SearchGroup(geo: Geometry, groups: seq<Group>, g: nat) returns (found: bool, i: nat)
    requires Shaped(geo, groups) && g < |groups| && Counted(geo, groups, g)
    ensures if found then FirstFrom(geo, groups, g, 0, i) else IsFull(geo, groups, g)
  {
    GroupSizes(geo, g);
    NoneClear(groups[g].bitmap, geo.InGroup(g));
    if groups[g].free == 0 {
      return false, 0;
    }
    FirstIndex(geo, g);
    found, i := FindClear(groups[g].bitmap, geo.IndexOf(geo.FirstOf(g)), geo.InGroup(g));
  }

  // Searches the group of the goal from the goal on.
  method SearchGoal(geo: Geometry, groups: seq<Group>, goal: nat) returns (found: bool, i: nat)
    requires Shaped(geo, groups) && geo.GroupOf(goal) < |groups| && Counted(geo, groups, geo.GroupOf(goal))
    requires geo.IndexOf(goal) < geo.InGroup(geo.GroupOf(goal))
    ensures var g, at := geo.GroupOf(goal), geo.IndexOf(goal);
            if found then FirstFrom(geo, groups, g, at, i) else FullFrom(geo, groups, g, at)
  {
    var g := geo.GroupOf(goal);
    GroupSizes(geo, g);
    NoneClear(groups[g].bitmap, geo.InGroup(g));
    if groups[g].free == 0 {
      return false, 0;
    }
    var index, first := geo.IndexOf(goal), geo.IndexOf(geo.FirstOf(g));
    FirstIndex(geo, g);
    if index < first {
      index := first;
    }
    found, i := FindNear(groups[g].bitmap, index, geo.InGroup(g));
  }

  // Picks the free block that belongs to a goal.
  method Pick(geo: Geometry, groups: seq<Group>, goal: nat) returns (found: bool, g: nat, i: nat)
    requires Shaped(geo, groups) && forall x: nat :: x < |groups| ==> Counted(geo, groups, x)
    requires geo.GroupOf(goal) < |groups| && geo.IndexOf(goal) < geo.InGroup(geo.GroupOf(goal))
    ensures found ==> Nearest(geo, groups, goal, g, i)
    ensures var start, at := geo.GroupOf(goal), geo.IndexOf(goal);
            FirstFrom(geo, groups, start, at, at) ==> found && g == start && i == at
    ensures !found ==> forall x: nat :: x < |groups| ==> IsFull(geo, groups, x)
  {
    var start, n := geo.GroupOf(goal), |groups|;
    assert Counted(geo, groups, start);
    found, i := SearchGoal(geo, groups, goal);
    if found {
      return true, start, i;
    }
    assert !FirstFrom(geo, groups, start, geo.IndexOf(goal), geo.IndexOf(goal));
    var left := n;
    ghost var d: nat := 0;
    g := (start + 1) % n;
    while left > 0
      invariant 0 <= left <= n && d == n - left && g == Nth(start, d, n) && AllFull(geo, groups, start, d)
    {
      assert Counted(geo, groups, g);
      found, i := SearchGroup(geo, groups, g);
      if found {
        return;
      }
      NextNth(start, d, n);
      g, left, d := (g + 1) % n, left - 1, d + 1;
    }
    found := false;
    forall x: nat | x < n ensures IsFull(geo, groups, x) {
      var k := EveryNth(start, x, n);
    }
  }

  // ---------------------------------------------------------------- allocating

  // One block was taken: its bit is set and every counter is one less.
  ghost predicate Taken(geo: Geometry, was: seq<Group>, now: seq<Group>, g: nat, i: nat)
    requires Shaped(geo, was)
  {
    && g < |was| && i < geo.InGroup(g) <= 8 * |was[g].bitmap| && !Bit(was[g].bitmap, i)
    && |now| == |was| && (forall x :: 0 <= x < |was| && x != g ==> now[x] == was[x])
    && OneSet(was[g].bitmap, now[g].bitmap, i) && now[g].free == was[g].free - 1
  }

  lemma TakenOk(geo: Geometry, was: seq<Group>, free: nat, now: seq<Group>, g: nat, i: nat)
    requires Shaped(geo, was) && Consistent(geo, was, free) && Taken(geo, was, now, g, i)
    ensures Shaped(geo, now) && free > 0 && Consistent(geo, now, free - 1)
  {
    SumUpdate(was, g, now[g]);
    assert now == was[g := now[g]];
    forall x: nat | x < |now| ensures Counted(geo, now, x) {
      assert Counted(geo, was, x);
      GroupSizes(geo, x);
      if x == g {
        CountOneSet(was[g].bitmap, now[g].bitmap, i, geo.InGroup(g));
      }
    }
  }

  lemma SomeFree(geo: Geometry, groups: seq<Group>, g: nat, i: nat)
    requires Shaped(geo, groups) && g < |groups| && Counted(geo, groups, g)
    requires i < geo.InGroup(g) <= 8 * |groups[g].bitmap| && !Bit(groups[g].bitmap, i)
    ensures groups[g].free > 0
  {
    NoneClear(groups[g].bitmap, geo.InGroup(g));
  }

  method SetInBitmap(bitmap: seq<bv8>, i: nat) returns (r: seq<bv8>)
    requires i < 8 * |bitmap|
    ensures OneSet(bitmap, r, i)
  {
    var buf := new bv8[|bitmap|](k requires 0 <= k < |bitmap| => bitmap[k]);
    assert buf[..] == bitmap;
    BitSet(buf, i);
    r := buf[..];
  }

  method ClearInBitmap(bitmap: seq<bv8>, start: nat, count: nat) returns (r: seq<bv8>)
    requires start + count <= 8 * |bitmap|
    ensures ClearedRun(bitmap, r, start, start + count)
  {
    var buf := new bv8[|bitmap|](k requires 0 <= k < |bitmap| => bitmap[k]);
    assert buf[..] == bitmap;
    BitsFree(buf, start, count);
    r := buf[..];
  }

  // ---------------------------------------------------------------- freeing

  // Where a position in the volume falls within a group.
  function Clip(p: nat, g: nat, x: nat): nat {
    if x <= p * g then 0 else if x - p * g > p then p else x - p * g
  }

  // The blocks between two positions that lie in a group were freed and counted.
  ghost predicate GroupFreed(p: nat, g: nat, was: Group, now: Group, a: nat, b: nat) {
    && ClearedRun(was.bitmap, now.bitmap, Clip(p, g, a), Clip(p, g, b))
    && now.free == was.free + (Clip(p, g, b) - Clip(p, g, a))
  }

  ghost predicate Freed(p: nat, was: seq<Group>, now: seq<Group>, a: nat, b: nat) {
    && a <= b && |now| == |was| && SumFree(now) == SumFree(was) + (b - a)
    && (forall g: nat :: g < |was| ==> GroupFreed(p, g, was[g], now[g], a, b))
  }

  lemma ClearedJoin(x: seq<bv8>, y: seq<bv8>, z: seq<bv8>, lo: nat, mid: nat, hi: nat)
    requires lo <= mid <= hi && ClearedRun(x, y, lo, mid) && ClearedRun(y, z, mid, hi)
    ensures ClearedRun(x, z, lo, hi)
  {
    forall j: nat | j < 8 * |z| ensures Bit(z, j) == (Bit(x, j) && !(lo <= j < hi)) {
      assert Bit(z, j) == (Bit(y, j) && !(mid <= j < hi));
      assert Bit(y, j) == (Bit(x, j) && !(lo <= j < mid));
    }
  }

  // Positions in one group do not show in the others.
  lemma ClipElsewhere(p: nat, g: nat, h: nat, x: nat, y: nat)
    requires p > 0 && g != h && p * g <= x <= y <= p * g + p
    ensures Clip(p, h, x) == Clip(p, h, y)
  {
    assert p * (h + 1) == p * h + p && p * (g + 1) == p * g + p;
    if h < g {
      MulMono(p, h + 1, g);
    } else {
      MulMono(p, g + 1, h);
    }
  }

  lemma FreedStep(p: nat, was: seq<Group>, now: seq<Group>, a: nat, at: nat, n: nat, g: nat, bitmap: seq<bv8>)
    requires p > 0 && g < |was| && Freed(p, was, now, a, at) && p * g <= at && at + n <= p * g + p
    requires ClearedRun(now[g].bitmap, bitmap, at - p * g, at - p * g + n)
    ensures Freed(p, was, now[g := Group(bitmap, now[g].free + n)], a, at + n)
  {
    var x := Group(bitmap, now[g].free + n);
    SumUpdate(now, g, x);
    forall h: nat | h < |was| ensures GroupFreed(p, h, was[h], now[g := x][h], a, at + n) {
      assert GroupFreed(p, h, was[h], now[h], a, at);
      if h == g {
        ClearedJoin(was[g].bitmap, now[g].bitmap, bitmap, Clip(p, g, a), at - p * g, at - p * g + n);
      } else {
        ClipElsewhere(p, g, h, at, at + n);
      }
    }
  }

  lemma FreedNothing(p: nat, was: seq<Group>, a: nat)
    ensures Freed(p, was, was, a, a)
  {
  }

  lemma BelowLast(p: nat, x: nat, y: nat)
    requires p > 0 && x <= y
    ensures x / p <= y / p && p * (x / p) <= x < p * (x / p) + p && x - p * (x / p) == x % p
  {
    assert x == p * (x / p) + x % p && y == p * (y / p) + y % p;
    MulMono(p, y / p + 1, if x / p > y / p then x / p else y / p + 1);
  }

  lemma GroupInRange(geo: Geometry, x: nat)
    requires geo.Valid() && x < geo.total
    ensures x / geo.perGroup < geo.GroupCount()
  {
    var p, n, q := geo.perGroup, geo.GroupCount(), x / geo.perGroup;
    BelowLast(p, x, x);
    GroupsCover(geo);
    MulMono(p, n, if q >= n then q else n);
  }

  lemma GroupsCover(geo: Geometry)
    requires geo.Valid()
    ensures geo.perGroup * geo.GroupCount() >= geo.total
  {
    var p, d := geo.perGroup, geo.total / geo.perGroup;
    assert geo.total == p * d + geo.total % p;
    assert p * (d + 1) == p * d + p;
  }

  // The loop over the groups has come to the block `next` in group bg.
  ghost predicate Freeing(geo: Geometry, was: seq<Group>, now: seq<Group>, first: nat, count: nat,
                          next: nat, left: nat, bg: nat)
  {
    && Shaped(geo, now) && |now| == |was| && first <= next && next + left == first + count
    && (geo.skip > 0 ==> first > 0) && count > 0 && geo.Shifted(first) + count <= geo.total
    && Freed(geo.perGroup, was, now, geo.Shifted(first), geo.Shifted(next))
    && bg == (if left > 0 then geo.GroupOf(next) else geo.GroupOf(first + count - 1) + 1)
  }

  lemma FreeingInRange(geo: Geometry, was: seq<Group>, now: seq<Group>, first: nat, count: nat, next: nat, left: nat,
                       bg: nat)
    requires Freeing(geo, was, now, first, count, next, left, bg) && left > 0
    ensures bg <= geo.GroupOf(first + count - 1) && bg < |now|
  {
    BelowLast(geo.perGroup, geo.Shifted(next), geo.Shifted(first + count - 1));
    GroupInRange(geo, geo.Shifted(next));
  }

  lemma FreeingStep(geo: Geometry, was: seq<Group>, now: seq<Group>, first: nat, count: nat, next: nat, left: nat,
                    bg: nat, n: nat, bitmap: seq<bv8>)
    requires Freeing(geo, was, now, first, count, next, left, bg) && left > 0 && bg < |now|
    requires n == if left > geo.perGroup - geo.IndexOf(next) then geo.perGroup - geo.IndexOf(next) else left
    requires ClearedRun(now[bg].bitmap, bitmap, geo.IndexOf(next), geo.IndexOf(next) + n)
    ensures 0 < n <= left
    ensures Freeing(geo, was, now[bg := Group(bitmap, now[bg].free + n)], first, count, next + n, left - n, bg + 1)
  {
    var p, at, end := geo.perGroup, geo.Shifted(next), geo.Shifted(first + count - 1);
    BelowLast(p, at, at);
    assert geo.Shifted(next + n) == at + n && geo.IndexOf(next) == at - p * bg;
    FreedStep(p, was, now, geo.Shifted(first), at, n, bg, bitmap);
    NextBg(p, at, n, bg, end, left - n);
  }

  // Frees the part of a run that lies in one group and adjusts the counter of the group.
  method FreeInGroup(geo: Geometry, ghost was: seq<Group>, groups: seq<Group>, ghost first: nat, ghost count: nat,
                     bg: nat, next: nat, left: nat)
    returns (out: seq<Group>, n: nat)
    requires Freeing(geo, was, groups, first, count, next, left, bg) && left > 0 && geo.perGroup == 8 * geo.blockSize
    ensures 0 < n <= left && Freeing(geo, was, out, first, count, next + n, left - n, bg + 1)
  {
    var index := geo.IndexOf(next);
    FreeingInRange(geo, was, groups, first, count, next, left, bg);
    n := if left > geo.blockSize * 8 - index then geo.blockSize * 8 - index else left;
    var bitmap := ClearInBitmap(groups[bg].bitmap, index, n);
    FreeingStep(geo, was, groups, first, count, next, left, bg, n, bitmap);
    out := groups[bg := Group(bitmap, groups[bg].free + n)];
  }

  // Frees a run of blocks group by group.
  method FreeRun(geo: Geometry, groups: seq<Group>, first: nat, count: nat)
    returns (out: seq<Group>, next: nat, left: nat)
    requires Shaped(geo, groups) && geo.perGroup == 8 * geo.blockSize
    requires count > 0 && (geo.skip > 0 ==> first > 0) && geo.Shifted(first) + count <= geo.total
    ensures Shaped(geo, out) && Freed(geo.perGroup, groups, out, geo.Shifted(first), geo.Shifted(first) + count)
    ensures left == 0 && next == first + count
  {
    var bg, last := geo.GroupOf(first), geo.GroupOf(first + count - 1);
    out, next, left := groups, first, count;
    FreedNothing(geo.perGroup, groups, geo.Shifted(first));
    FreeingInRange(geo, groups, out, first, count, next, left, bg);
    while bg <= last
      invariant Freeing(geo, groups, out, first, count, next, left, bg)
    {
      var n;
      out, n := FreeInGroup(geo, groups, out, first, count, bg, next, left);
      left, next, bg := left - n, next + n, bg + 1;
    }
    if left > 0 {
      FreeingInRange(geo, groups, out, first, count, next, left, bg);
    }
  }

  lemma NextBg(p: nat, at: nat, n: nat, bg: nat, end: nat, left: nat)
    requires p > 0 && bg == at / p && 0 < n && at + n + left == end + 1
    requires n <= p - at % p && (left > 0 ==> n == p - at % p)
    ensures left > 0 ==> (at + n) / p == bg + 1 && bg + 1 <= end / p
    ensures left == 0 ==> end / p == bg
  {
    BelowLast(p, at, at);
    assert p * (bg + 1) == p * bg + p;
    if left > 0 {
      DivUnique(p, bg + 1, 0);
      BelowLast(p, at + n, end);
    } else {
      DivUnique(p, bg, at % p + n - 1);
    }
  }

  // ---------------------------------------------------------------- what freeing keeps

  // Every block between two positions was allocated.
  predicate AllTaken(geo: Geometry, groups: seq<Group>, a: nat, b: nat)
    requires Shaped(geo, groups) && a <= b
  {
    forall g: nat :: g < |groups| ==> AllBits(groups[g].bitmap, Clip(geo.perGroup, g, a), Clip(geo.perGroup, g, b))
  }

  lemma ClipInGroup(geo: Geometry, g: nat, x: nat)
    requires geo.Valid() && g < geo.GroupCount() && x <= geo.total
    ensures Clip(geo.perGroup, g, x) <= geo.InGroup(g) <= geo.perGroup
  {
    GroupSizes(geo, g);
  }

  lemma FreedCounted(geo: Geometry, was: seq<Group>, now: seq<Group>, a: nat, b: nat, g: nat)
    requires Shaped(geo, was) && Shaped(geo, now) && g < |was| && Counted(geo, was, g)
    requires Freed(geo.perGroup, was, now, a, b) && b <= geo.total
    ensures Counted(geo, now, g) <==> AllBits(was[g].bitmap, Clip(geo.perGroup, g, a), Clip(geo.perGroup, g, b))
  {
    var lo, hi := Clip(geo.perGroup, g, a), Clip(geo.perGroup, g, b);
    ClipInGroup(geo, g, b);
    assert GroupFreed(geo.perGroup, g, was[g], now[g], a, b);
    CountRun(was[g].bitmap, now[g].bitmap, lo, hi, geo.InGroup(g));
    AllCounted(was[g].bitmap, lo, hi);
  }

  // Freeing keeps the counters consistent if and only if all blocks of the run were
  // allocated.
  lemma FreedConsistent(geo: Geometry, was: seq<Group>, free: nat, now: seq<Group>, a: nat, b: nat)
    requires Shaped(geo, was) && Shaped(geo, now) && Consistent(geo, was, free)
    requires Freed(geo.perGroup, was, now, a, b) && b <= geo.total
    ensures Consistent(geo, now, free + (b - a)) <==> AllTaken(geo, was, a, b)
  {
    forall g: nat | g < |was|
      ensures Counted(geo, now, g) <==> AllBits(was[g].bitmap, Clip(geo.perGroup, g, a), Clip(geo.perGroup, g, b))
    {
      assert Counted(geo, was, g);
      FreedCounted(geo, was, now, a, b, g);
    }
  }

  // The cached contents of the run are then invalidated from the block behind it for a count
  // of zero: this reaches no block at all.
  lemma NothingInvalidated(c: CS.Cache, next: nat, x: int)
    requires 0 < next < 0x1_0000_0000_0000_0000
    ensures !CR.Reached(c, next, 0, x)
  {
    assert CR.LastOf(next, 0) == next - 1;
  }

  // ---------------------------------------------------------------- the volume

  datatype Result = Block(addr: nat) | NoSpace

  // Inode block counts are in units of this many bytes.
  const INODE_UNIT := 512

  class Volume {
    const geo: Geometry
    var groups: seq<Group>
    var free: nat
    // Blocks of the inode in hand, in units of 512 bytes.
    var inodeBlocks: int

    ghost predicate Valid()
      reads this
    {
      Shaped(geo, groups) && Consistent(geo, groups, free)
    }

    constructor (geo: Geometry, groups: seq<Group>, free: nat, inodeBlocks: int)
      requires Shaped(geo, groups) && Consistent(geo, groups, free)
      ensures Valid() && this.geo == geo && this.groups == groups && this.free == free
      ensures this.inodeBlocks == inodeBlocks
    {
      this.geo, this.groups, this.free, this.inodeBlocks := geo, groups, free, inodeBlocks;
    }

    // Allocates the free block that belongs to a goal, the goal itself if it is free. There is
    // no space only if every block is taken.
    method AllocBlock(goal: nat) returns (r: Result)
      requires Valid() && geo.GroupOf(goal) < |groups| && geo.IndexOf(goal) < geo.InGroup(geo.GroupOf(goal))
      modifies this
      ensures Valid()
      ensures r.Block? ==>
                && Taken(geo, old(groups), groups, geo.GroupOf(r.addr), geo.IndexOf(r.addr))
                && Nearest(geo, old(groups), goal, geo.GroupOf(r.addr), geo.IndexOf(r.addr))
                && free == old(free) - 1 && inodeBlocks == old(inodeBlocks) + geo.blockSize / INODE_UNIT
                && (r.addr < geo.total <==> !Beyond(geo, geo.IndexOf(r.addr), geo.GroupOf(r.addr)))
      ensures var g, at := geo.GroupOf(goal), geo.IndexOf(goal);
              (geo.skip > 0 ==> goal > 0) && FirstFrom(geo, old(groups), g, at, at) ==> r == Block(goal)
      ensures r.NoSpace? ==>
                && groups == old(groups) && free == old(free) && inodeBlocks == old(inodeBlocks)
                && forall g: nat :: g < |groups| ==> IsFull(geo, groups, g)
    {
      var found, g, i := Pick(geo, groups, goal);
      if !found {
        return NoSpace;
      }
      if geo.skip > 0 ==> goal > 0 {
        IndexRoundTrip(geo, goal);
      }
      var addr := TakeBlock(g, i);
      return Block(addr);
    }

    // Sets the bit of a free block and adjusts all counters.
    method TakeBlock(g: nat, i: nat) returns (addr: nat)
      requires Valid() && g < |groups| && i < geo.InGroup(g) <= 8 * |groups[g].bitmap| && !Bit(groups[g].bitmap, i)
      modifies this
      ensures Valid() && Taken(geo, old(groups), groups, g, i)
      ensures free == old(free) - 1 && inodeBlocks == old(inodeBlocks) + geo.blockSize / INODE_UNIT
      ensures addr == geo.AddrOf(i, g) && geo.GroupOf(addr) == g && geo.IndexOf(addr) == i
      ensures addr < geo.total <==> !Beyond(geo, i, g)
    {
      assert Counted(geo, groups, g);
      SomeFree(geo, groups, g, i);
      GroupSizes(geo, g);
      AddrRoundTrip(geo, i, g);
      AddrInside(geo, i, g);
      var bitmap := SetInBitmap(groups[g].bitmap, i);
      ghost var was, sum := groups, free;
      groups := groups[g := Group(bitmap, groups[g].free - 1)];
      TakenOk(geo, was, sum, groups, g, i);
      free := free - 1;
      inodeBlocks := inodeBlocks + geo.blockSize / INODE_UNIT;
      addr := geo.AddrOf(i, g);
    }

    // Frees a run of blocks.
    method FreeBlocks(first: nat, count: nat)
      requires Valid() && geo.perGroup == 8 * geo.blockSize
      requires count > 0 && (geo.skip > 0 ==> first > 0) && geo.Shifted(first) + count <= geo.total
      modifies this
      ensures Shaped(geo, groups)
      ensures Freed(geo.perGroup, old(groups), groups, geo.Shifted(first), geo.Shifted(first) + count)
      ensures free == old(free) + count && inodeBlocks == old(inodeBlocks) - count * (geo.blockSize / INODE_UNIT)
      ensures Valid() <==> AllTaken(geo, old(groups), geo.Shifted(first), geo.Shifted(first) + count)
    {
      var out, _, _ := FreeRun(geo, groups, first, count);
      FreedConsistent(geo, groups, free, out, geo.Shifted(first), geo.Shifted(first) + count);
      groups := out;
      free := free + count;
      inodeBlocks := inodeBlocks - count * (geo.blockSize / INODE_UNIT);
    }

    // Allocates a given block if it is free.
    method TryAllocBlock(addr: nat) returns (taken: bool)
      requires Valid() && geo.GroupOf(addr) < |groups| && geo.IndexOf(addr) < geo.InGroup(geo.GroupOf(addr))
      modifies this
      ensures Valid()
      ensures taken ==>
                && Taken(geo, old(groups), groups, geo.GroupOf(addr), geo.IndexOf(addr))
                && free == old(free) - 1 && inodeBlocks == old(inodeBlocks) + geo.blockSize / INODE_UNIT
      ensures !taken ==>
                && groups == old(groups) && free == old(free) && inodeBlocks == old(inodeBlocks)
                && geo.IndexOf(addr) < 8 * |groups[geo.GroupOf(addr)].bitmap|
                && Bit(groups[geo.GroupOf(addr)].bitmap, geo.IndexOf(addr))
    {
      var g, i := geo.GroupOf(addr), geo.IndexOf(addr);
      GroupSizes(geo, g);
      taken := !Bit(groups[g].bitmap, i);
      if taken {
        assert Counted(geo, groups, g);
        SomeFree(geo, groups, g, i);
        var bitmap := SetInBitmap(groups[g].bitmap, i);
        ghost var was, sum := groups, free;
        groups := groups[g := Group(bitmap, groups[g].free - 1)];
        TakenOk(geo, was, sum, groups, g, i);
        free := free - 1;
        inodeBlocks := inodeBlocks + geo.blockSize / INODE_UNIT;
      }
    }

    // Frees one block.
    method FreeBlock(addr: nat)
      requires Valid() && (geo.skip > 0 ==> addr > 0) && geo.Shifted(addr) < geo.total
      modifies this
      ensures Shaped(geo, groups)
      ensures Freed(geo.perGroup, old(groups), groups, geo.Shifted(addr), geo.Shifted(addr) + 1)
      ensures free == old(free) + 1 && inodeBlocks == old(inodeBlocks) - geo.blockSize / INODE_UNIT
      ensures Valid() <==> AllTaken(geo, old(groups), geo.Shifted(addr), geo.Shifted(addr) + 1)
    {
      ghost var a := geo.Shifted(addr);
      var out := FreeOne(geo, groups, addr);
      FreedConsistent(geo, groups, free, out, a, a + 1);
      groups := out;
      free := free + 1;
      inodeBlocks := inodeBlocks - geo.blockSize / INODE_UNIT;
    }
  }

  method FreeOne(geo: Geometry, groups: seq<Group>, addr: nat) returns (out: seq<Group>)
    requires Shaped(geo, groups) && (geo.skip > 0 ==> addr > 0) && geo.Shifted(addr) < geo.total
    ensures Shaped(geo, out) && Freed(geo.perGroup, groups, out, geo.Shifted(addr), geo.Shifted(addr) + 1)
  {
    var g, i := geo.GroupOf(addr), geo.IndexOf(addr);
    ghost var a := geo.Shifted(addr);
    BelowLast(geo.perGroup, a, a);
    GroupInRange(geo, a);
    FreedNothing(geo.perGroup, groups, a);
    var bitmap := ClearInBitmap(groups[g].bitmap, i, 1);
    FreedStep(geo.perGroup, groups, groups, a, a, 1, g, bitmap);
    out := groups[g := Group(bitmap, groups[g].free + 1)];
  }
}
