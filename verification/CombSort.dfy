// The comb sort that orders directory entries by hash before a leaf is split.

module CombSort {
  import DirBlock

  datatype Item = Item(hash: nat, rec: DirBlock.Rec)

  predicate Sorted(s: seq<Item>) {
    forall i, j :: 0 <= i < j < |s| ==> s[i].hash <= s[j].hash
  }

  method Swap(a: array<Item>, i: nat, j: nat)
    requires i < a.Length && j < a.Length
    modifies a
    ensures a[i] == old(a[j]) && a[j] == old(a[i])
    ensures forall k :: 0 <= k < a.Length && k != i && k != j ==> a[k] == old(a[k])
    ensures multiset(a[..]) == old(multiset(a[..]))
  {
    a[i], a[j] := a[j], a[i];
  }

  // One pass with a fixed gap, from the top down.
  method CombPass(a: array<Item>, gap: nat)
    requires 0 < gap
    modifies a
    ensures multiset(a[..]) == old(multiset(a[..]))
  {
    var p, q := a.Length - 1, a.Length - 1 - gap;
    while q >= 0
      invariant p == q + gap < a.Length
      invariant multiset(a[..]) == old(multiset(a[..]))
      decreases q + 1
    {
      if a[p].hash < a[q].hash {
        Swap(a, p, q);
      }
      p, q := p - 1, q - 1;
    }
  }

  // The item at i is not above any item behind it.
  ghost predicate Settled(a: array<Item>, i: int)
    reads a
  {
    0 <= i < a.Length ==> forall j :: i < j < a.Length ==> a[i].hash <= a[j].hash
  }

  // One bubble pass from the top down settles one more item. Items below `done` are
  // settled already, so the pass can only move something when two others are left.
  method BubblePass(a: array<Item>, ghost done: nat) returns (more: bool)
    requires forall i :: 0 <= i < done ==> Settled(a, i)
    modifies a
    ensures multiset(a[..]) == old(multiset(a[..]))
    ensures forall i :: 0 <= i < done + 1 ==> Settled(a, i)
    ensures more ==> done + 1 < a.Length
    ensures !more ==> forall i :: 0 <= i < a.Length ==> Settled(a, i)
  {
    more := false;
    var q := a.Length - 1;
    while q > 0
      invariant -1 <= q < a.Length && (a.Length > 0 ==> 0 <= q)
      invariant multiset(a[..]) == old(multiset(a[..]))
      invariant forall i :: 0 <= i < done ==> Settled(a, i)
      invariant Settled(a, q) && (q <= done ==> Settled(a, done))
      invariant !more ==> forall i :: q <= i < a.Length ==> Settled(a, i)
      invariant more ==> done + 1 < a.Length
    {
      q := q - 1;
      assert q < done ==> Settled(a, q);
      if a[q + 1].hash < a[q].hash {
        label Before:
        Swap(a, q + 1, q);
        forall i | 0 <= i < done ensures Settled(a, i) {
          assert old@Before(Settled(a, i));
        }
        more := true;
      }
    }
  }

  // Comb passes with shrinking gaps, then bubble passes until nothing moves.
  method Sort(a: array<Item>)
    modifies a
    ensures multiset(a[..]) == old(multiset(a[..]))
    ensures Sorted(a[..])
  {
    var count := a.Length;
    while count > 2
      invariant multiset(a[..]) == old(multiset(a[..]))
      decreases count
    {
      count := count * 10 / 13;
      // The source tests count - 9 < 2 on an unsigned value.
      if count == 9 || count == 10 {
        count := 11;
      }
      CombPass(a, count);
    }
    var more := true;
    ghost var done := 0;
    while more
      invariant multiset(a[..]) == old(multiset(a[..]))
      invariant done <= a.Length && forall i :: 0 <= i < done ==> Settled(a, i)
      invariant !more ==> forall i :: 0 <= i < a.Length ==> Settled(a, i)
      decreases more, a.Length - done
    {
      more := BubblePass(a, done);
      if more {
        done := done + 1;
      }
    }
    forall i, j | 0 <= i < j < a.Length ensures a[i].hash <= a[j].hash {
      assert Settled(a, i);
    }
  }
}
