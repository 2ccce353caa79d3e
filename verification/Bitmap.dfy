// Bitmaps: one bit for each block of a group.

module Bitmap {

  function Mask(k: nat): bv8
    requires k < 8
  {
    match k case 0 => 0x01 case 1 => 0x02 case 2 => 0x04 case 3 => 0x08
            case 4 => 0x10 case 5 => 0x20 case 6 => 0x40 case 7 => 0x80
  }

  predicate BitOf(x: bv8, k: nat)
    requires k < 8
  {
    x & Mask(k) != 0
  }

  predicate Bit(b: seq<bv8>, i: nat)
    requires i < 8 * |b|
  {
    BitOf(b[i / 8], i % 8)
  }

  // Bit 0 is the lowest binary digit of a byte, and each next bit is the one before it of half
  // the byte.
  lemma BitsAreDigits(x: bv8, k: nat)
    requires k < 7
    ensures BitOf(x, 0) <==> x % 2 == 1
    ensures BitOf(x, k + 1) <==> BitOf(x / 2, k)
  {
    match k
    case 0 => assert x & 0x02 != 0 <==> (x / 2) & 0x01 != 0;
    case 1 => assert x & 0x04 != 0 <==> (x / 2) & 0x02 != 0;
    case 2 => assert x & 0x08 != 0 <==> (x / 2) & 0x04 != 0;
    case 3 => assert x & 0x10 != 0 <==> (x / 2) & 0x08 != 0;
    case 4 => assert x & 0x20 != 0 <==> (x / 2) & 0x10 != 0;
    case 5 => assert x & 0x40 != 0 <==> (x / 2) & 0x20 != 0;
    case 6 => assert x & 0x80 != 0 <==> (x / 2) & 0x40 != 0;
  }

  lemma SetOther(x: bv8, k: nat, j: nat)
    requires k < 8 && j < 8
    ensures BitOf(x | Mask(k), j) == (j == k || BitOf(x, j))
  {
  }

  lemma ClearOther(x: bv8, k: nat, j: nat)
    requires k < 8 && j < 8
    ensures BitOf(x & !Mask(k), j) == (j != k && BitOf(x, j))
  {
  }

  lemma AllSet(x: bv8)
    ensures x == 0xFF <==> forall k: nat :: k < 8 ==> BitOf(x, k)
  {
    assert x != 0xFF ==> !(BitOf(x, 0) && BitOf(x, 1) && BitOf(x, 2) && BitOf(x, 3)
                           && BitOf(x, 4) && BitOf(x, 5) && BitOf(x, 6) && BitOf(x, 7));
  }

  // The first bit from lo on and before hi that is clear, or hi.
  function FirstClear(b: seq<bv8>, lo: nat, hi: nat): (f: nat)
    requires lo <= hi <= 8 * |b|
    ensures lo <= f <= hi && AllBits(b, lo, f) && (f < hi ==> !Bit(b, f))
    decreases hi - lo
  {
    if lo == hi || !Bit(b, lo) then lo else FirstClear(b, lo + 1, hi)
  }

  lemma IsFirstClear(b: seq<bv8>, lo: nat, hi: nat, f: nat)
    requires lo <= f <= hi <= 8 * |b| && AllBits(b, lo, f) && (f < hi ==> !Bit(b, f))
    ensures FirstClear(b, lo, hi) == f
  {
  }

  method BitSet(a: array<bv8>, i: nat)
    requires i < 8 * a.Length
    modifies a
    ensures forall j: nat :: j < 8 * a.Length ==> Bit(a[..], j) == (j == i || Bit(old(a[..]), j))
  {
    ghost var was := a[..];
    a[i / 8] := a[i / 8] | Mask(i % 8);
    forall j: nat | j < 8 * a.Length ensures Bit(a[..], j) == (j == i || Bit(was, j)) {
      SetOther(was[i / 8], i % 8, j % 8);
    }
  }

  method BitClear(a: array<bv8>, i: nat)
    requires i < 8 * a.Length
    modifies a
    ensures forall j: nat :: j < 8 * a.Length ==> Bit(a[..], j) == (j != i && Bit(old(a[..]), j))
  {
    ghost var was := a[..];
    a[i / 8] := a[i / 8] & !Mask(i % 8);
    forall j: nat | j < 8 * a.Length ensures Bit(a[..], j) == (j != i && Bit(was, j)) {
      ClearOther(was[i / 8], i % 8, j % 8);
    }
  }

  // Bits of b cleared from lo up to hi.
  ghost predicate ClearedRun(was: seq<bv8>, b: seq<bv8>, lo: nat, hi: nat) {
    |b| == |was| && forall j: nat :: j < 8 * |b| ==> Bit(b, j) == (Bit(was, j) && !(lo <= j < hi))
  }

  // Clears a run of bits: single bits up to a byte boundary, then whole bytes, then the rest.
  method BitsFree(a: array<bv8>, start: nat, count: nat)
    requires start + count <= 8 * a.Length
    modifies a
    ensures ClearedRun(old(a[..]), a[..], start, start + count)
  {
    ghost var was := a[..];
    var i, left := start, count;
    while i % 8 != 0
      invariant start <= i && i + left == start + count
      invariant ClearedRun(was, a[..], start, i)
      decreases left
    {
      if left == 0 {
        return;
      }
      BitClear(a, i);
      i, left := i + 1, left - 1;
    }
    while left >= 8
      invariant start <= i && i + left == start + count && i % 8 == 0
      invariant ClearedRun(was, a[..], start, i)
    {
      ghost var here := a[..];
      a[i / 8] := 0;
      ByteCleared(was, here, a[..], start, i);
      i, left := i + 8, left - 8;
    }
    var k := 0;
    while k < left
      invariant k <= left && ClearedRun(was, a[..], start, i + k)
    {
      BitClear(a, i + k);
      k := k + 1;
    }
  }

  lemma ByteCleared(was: seq<bv8>, here: seq<bv8>, b: seq<bv8>, lo: nat, i: nat)
    requires ClearedRun(was, here, lo, i) && i % 8 == 0 && i / 8 < |here| && lo <= i
    requires b == here[i / 8 := 0]
    ensures ClearedRun(was, b, lo, i + 8)
  {
    forall j: nat | j < 8 * |b| ensures Bit(b, j) == (Bit(was, j) && !(lo <= j < i + 8)) {
      assert Bit(here, j) == (Bit(was, j) && !(lo <= j < i));
      assert j / 8 == i / 8 <==> i <= j < i + 8;
    }
  }

  // Start rounded up to a byte boundary.
  function Up8(i: nat): nat { (i + 7) / 8 * 8 }

  // Searches a clear bit. A bit found before the first byte boundary is reported as the
  // start of the search.
  function Reported(b: seq<bv8>, lo: nat, hi: nat): (id: nat)
    requires lo <= hi <= 8 * |b|
  {
    var f := FirstClear(b, lo, hi);
    if f < Up8(lo) then lo else f
  }

  predicate AllBits(b: seq<bv8>, lo: nat, hi: nat)
    requires hi <= 8 * |b|
  {
    forall j: nat :: lo <= j < hi ==> Bit(b, j)
  }

  lemma ByteFull(b: seq<bv8>, i: nat)
    requires i % 8 == 0 && i + 8 <= 8 * |b| && b[i / 8] == 0xFF
    ensures AllBits(b, i, i + 8)
  {
    AllSet(b[i / 8]);
    forall j: nat | i <= j < i + 8 ensures Bit(b, j) {
      assert j / 8 == i / 8;
    }
  }

  // Looks at the bits from i up to hi one by one; all from lo to i are set.
  method FindFrom(b: seq<bv8>, lo: nat, i: nat, hi: nat) returns (f: nat)
    requires lo <= i <= hi <= 8 * |b| && AllBits(b, lo, i)
    ensures i <= f <= hi && AllBits(b, lo, f) && (f < hi ==> !Bit(b, f))
  {
    f := i;
    while f < hi && Bit(b, f)
      invariant i <= f <= hi && AllBits(b, lo, f)
    {
      f := f + 1;
    }
  }

  // Looks at whole bytes from i on as long as they are full.
  method SkipFull(b: seq<bv8>, lo: nat, start: nat, hi: nat) returns (i: nat)
    requires lo <= start <= hi <= 8 * |b| && start % 8 == 0 && AllBits(b, lo, start)
    ensures start <= i <= hi && i % 8 == 0 && AllBits(b, lo, i) && (i + 8 <= hi ==> b[i / 8] != 0xFF)
  {
    i := start;
    while i + 8 <= hi && b[i / 8] == 0xFF
      invariant start <= i <= hi && i % 8 == 0 && AllBits(b, lo, i)
    {
      ByteFull(b, i);
      i := i + 8;
    }
  }

  method FindClear(b: seq<bv8>, lo: nat, hi: nat) returns (found: bool, id: nat)
    requires lo <= hi <= 8 * |b|
    ensures found <==> FirstClear(b, lo, hi) < hi
    ensures found ==> id == Reported(b, lo, hi)
  {
    var edge := if Up8(lo) < hi then Up8(lo) else hi;
    var f := FindFrom(b, lo, lo, edge);
    if f < edge {
      IsFirstClear(b, lo, hi, f);
      return true, lo;
    }
    if edge < hi {
      var i := SkipFull(b, lo, edge, hi);
      f := FindFrom(b, lo, i, hi);
    }
    IsFirstClear(b, lo, hi, f);
    return f < hi, f;
  }

  // The search reports a clear bit if and only if the first clear bit is its start or does
  // not lie before the first byte boundary behind it.
  lemma ReportedRight(b: seq<bv8>, lo: nat, hi: nat)
    requires lo <= hi <= 8 * |b| && FirstClear(b, lo, hi) < hi
    ensures !Bit(b, Reported(b, lo, hi)) <==> FirstClear(b, lo, hi) == lo || FirstClear(b, lo, hi) >= Up8(lo)
  {
  }

  // With bit 1 set and bit 2 clear a search from bit 1 reports bit 1.
  lemma SetBitReported()
    ensures var b := [0x02 as bv8];
            FirstClear(b, 1, 8) == 2 && Reported(b, 1, 8) == 1 && Bit(b, Reported(b, 1, 8))
  {
    var b := [0x02 as bv8];
    assert Bit(b, 1) && !Bit(b, 2);
    IsFirstClear(b, 1, 8, 2);
  }

  // ---------------------------------------------------------------- counting

  // Number of clear bits among the first n.
  function ClearCount(b: seq<bv8>, n: nat): (c: nat)
    requires n <= 8 * |b|
    ensures c <= n
  {
    if n == 0 then 0 else ClearCount(b, n - 1) + if Bit(b, n - 1) then 0 else 1
  }

  // Number of set bits from lo up to hi.
  function SetCount(b: seq<bv8>, lo: nat, hi: nat): (c: nat)
    requires lo <= hi <= 8 * |b|
    ensures c <= hi - lo
    decreases hi
  {
    if lo == hi then 0 else SetCount(b, lo, hi - 1) + if Bit(b, hi - 1) then 1 else 0
  }

  lemma {:induction false} NoneClear(b: seq<bv8>, n: nat)
    requires n <= 8 * |b|
    ensures ClearCount(b, n) == 0 <==> AllBits(b, 0, n)
  {
    if n > 0 {
      NoneClear(b, n - 1);
    }
  }

  lemma {:induction false} AllCounted(b: seq<bv8>, lo: nat, hi: nat)
    requires lo <= hi <= 8 * |b|
    ensures SetCount(b, lo, hi) == hi - lo <==> AllBits(b, lo, hi)
    decreases hi
  {
    if lo < hi {
      AllCounted(b, lo, hi - 1);
    }
  }

  // Only bit i was set.
  ghost predicate OneSet(was: seq<bv8>, b: seq<bv8>, i: nat) {
    |b| == |was| && forall j: nat :: j < 8 * |b| ==> Bit(b, j) == (j == i || Bit(was, j))
  }

  lemma {:induction false} CountOneSet(was: seq<bv8>, b: seq<bv8>, i: nat, n: nat)
    requires n <= 8 * |was| && i < 8 * |was| && OneSet(was, b, i) && !Bit(was, i)
    ensures ClearCount(b, n) == ClearCount(was, n) - if i < n then 1 else 0
  {
    if n > 0 {
      CountOneSet(was, b, i, n - 1);
    }
  }

  lemma {:induction false} CountRun(was: seq<bv8>, b: seq<bv8>, lo: nat, hi: nat, n: nat)
    requires lo <= hi && n <= 8 * |was| && hi <= 8 * |was| && ClearedRun(was, b, lo, hi)
    ensures ClearCount(b, n) == ClearCount(was, n) + if n <= lo then 0 else SetCount(was, lo, if n < hi then n else hi)
  {
    if n > 0 {
      CountRun(was, b, lo, hi, n - 1);
      assert Bit(b, n - 1) == (Bit(was, n - 1) && !(lo <= n - 1 < hi));
    }
  }
}
