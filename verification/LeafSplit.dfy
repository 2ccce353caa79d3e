// Splitting a full leaf block of an indexed directory: its live records are sorted by hash
// and distributed over two blocks.

module LeafSplit {
  import opened Bytes
  import opened CombSort
  import D = DirBlock
  import Seqs

  type NameHash = seq<byte> -> nat

  // ---------------------------------------------------------------- the live records

  predicate Kept(r: D.Rec) { r.Live() && r.name != [] }

  function ItemOf(r: D.Rec, hash: NameHash): Item { Item(hash(r.name), r) }

  // The records that the split copies, in block order.
  function LiveItems(rs: seq<D.Rec>, hash: NameHash): (s: seq<Item>) {
    if rs == [] then []
    else if Kept(rs[0]) then [ItemOf(rs[0], hash)] + LiveItems(rs[1..], hash)
    else LiveItems(rs[1..], hash)
  }

  lemma {:induction false} LiveItemsConcat(a: seq<D.Rec>, b: seq<D.Rec>, hash: NameHash)
    ensures LiveItems(a + b, hash) == LiveItems(a, hash) + LiveItems(b, hash)
  {
    if a == [] {
      assert a + b == b;
    } else {
      assert (a + b)[1..] == a[1..] + b;
      LiveItemsConcat(a[1..], b, hash);
      if Kept(a[0]) {
        Seqs.Assoc([ItemOf(a[0], hash)], LiveItems(a[1..], hash), LiveItems(b, hash));
      }
    }
  }

  // An item stands for a live record and carries the hash of its name.
  predicate Faithful(x: Item, hash: NameHash) {
    Kept(x.rec) && |x.rec.name| <= 255 && x.hash == hash(x.rec.name)
  }

  function EntryOf(x: Item): D.Entry { D.Entry(x.rec.name, x.rec.inode, x.rec.itype) }

  function Entries(s: seq<Item>): (m: multiset<D.Entry>) {
    if s == [] then multiset{} else multiset{EntryOf(s[0])} + Entries(s[1..])
  }

  function Space(s: seq<Item>): (n: nat) {
    if s == [] then 0 else D.Used(s[0].rec) + Space(s[1..])
  }

  lemma {:induction false} Sums(a: seq<Item>, b: seq<Item>)
    ensures Space(a + b) == Space(a) + Space(b)
    ensures Entries(a + b) == Entries(a) + Entries(b)
  {
    if a == [] {
      assert a + b == b;
    } else {
      assert (a + b)[1..] == a[1..] + b;
      Sums(a[1..], b);
    }
  }

  // Every live record is copied once.
  lemma {:induction false} LiveItemsAll(rs: seq<D.Rec>, hash: NameHash)
    requires forall k :: 0 <= k < |rs| ==> D.WellSized(rs[k]) && (rs[k].Live() ==> rs[k].name != [])
    ensures Entries(LiveItems(rs, hash)) == D.Live(rs)
    ensures Space(LiveItems(rs, hash)) <= D.SumLen(rs)
    ensures forall i :: 0 <= i < |LiveItems(rs, hash)| ==> Faithful(LiveItems(rs, hash)[i], hash)
  {
    if rs != [] {
      LiveItemsAll(rs[1..], hash);
      if Kept(rs[0]) {
        D.UsedFits(rs[0]);
        assert LiveItems(rs, hash)[1..] == LiveItems(rs[1..], hash);
      }
    }
  }

  // Only records of the block are copied.
  lemma {:induction false} LiveItemsFrom(rs: seq<D.Rec>, hash: NameHash, i: nat) returns (k: nat)
    requires i < |LiveItems(rs, hash)|
    ensures k < |rs| && rs[k] == LiveItems(rs, hash)[i].rec && Kept(rs[k])
  {
    if Kept(rs[0]) {
      if i == 0 {
        k := 0;
      } else {
        k := LiveItemsFrom(rs[1..], hash, i - 1);
        k := k + 1;
      }
    } else {
      k := LiveItemsFrom(rs[1..], hash, i);
      k := k + 1;
    }
  }

  // Reordering items changes neither the entries nor the space they take.
  lemma {:induction false} Reordered(s: seq<Item>, t: seq<Item>)
    requires multiset(s) == multiset(t)
    ensures Space(s) == Space(t) && Entries(s) == Entries(t) && |s| == |t|
    decreases |s|
  {
    assert |multiset(s)| == |s| && |multiset(t)| == |t|;
    if s != [] {
      assert s[0] in multiset(t);
      var k :| 0 <= k < |t| && t[k] == s[0];
      var rest := t[..k] + t[k + 1..];
      assert t == t[..k] + [t[k]] + t[k + 1..];
      assert s == [s[0]] + s[1..];
      assert multiset(rest) == multiset(t) - multiset{s[0]} == multiset(s[1..]);
      Reordered(s[1..], rest);
      TakeOut(t[..k], t[k], t[k + 1..]);
    }
  }

  lemma TakeOut(a: seq<Item>, x: Item, b: seq<Item>)
    ensures Space(a + [x] + b) == D.Used(x.rec) + Space(a + b)
    ensures Entries(a + [x] + b) == multiset{EntryOf(x)} + Entries(a + b)
  {
    Sums(a + [x], b);
    Sums(a, [x]);
    Sums(a, b);
    assert [x][1..] == [];
    assert Entries([x]) == multiset{EntryOf(x)};
  }

  // ---------------------------------------------------------------- the halves

  // How many leading items fit into half a block.
  function Fitting(s: seq<Item>, half: nat): (n: nat)
    ensures n <= |s|
  {
    if s == [] || D.Used(s[0].rec) > half then 0
    else 1 + Fitting(s[1..], half - D.Used(s[0].rec))
  }

  lemma {:induction false} FittingSums(s: seq<Item>, half: nat)
    ensures var n := Fitting(s, half);
            && Space(s[..n]) <= half
            && (n < |s| ==> half < Space(s[..n]) + D.Used(s[n].rec))
            && (n == |s| ==> Space(s) <= half)
  {
    if s != [] && D.Used(s[0].rec) <= half {
      var n := Fitting(s[1..], half - D.Used(s[0].rec));
      FittingSums(s[1..], half - D.Used(s[0].rec));
      assert s[..n + 1][1..] == s[1..][..n];
    }
  }

  // The items written back to back; the last record takes the rest of the block.
  function Pack(s: seq<Item>, size: nat): (rs: seq<D.Rec>)
    requires s != [] && Space(s) <= size
    ensures |rs| == |s|
  {
    if |s| == 1 then [s[0].rec.(recLen := size)]
    else [s[0].rec.(recLen := D.Used(s[0].rec))] + Pack(s[1..], size - D.Used(s[0].rec))
  }

  predicate AllFaithful(s: seq<Item>, hash: NameHash) {
    forall i :: 0 <= i < |s| ==> Faithful(s[i], hash)
  }

  lemma {:induction false} PackGood(s: seq<Item>, size: nat, hash: NameHash)
    requires s != [] && Space(s) <= size && AllFaithful(s, hash) && size % 4 == 0
    ensures D.SumLen(Pack(s, size)) == size
    ensures D.Live(Pack(s, size)) == Entries(s)
    ensures forall k :: 0 <= k < |s| ==>
              && D.WellSized(Pack(s, size)[k])
              && Kept(Pack(s, size)[k])
              && Pack(s, size)[k].name == s[k].rec.name
  {
    if |s| > 1 {
      assert Faithful(s[0], hash);
      PackGood(s[1..], size - D.Used(s[0].rec), hash);
      assert Pack(s, size)[1..] == Pack(s[1..], size - D.Used(s[0].rec));
    } else {
      assert s[1..] == [] && Pack(s, size)[1..] == [];
      assert Faithful(s[0], hash);
    }
  }

  // ---------------------------------------------------------------- packed leaves

  // Slack lies only behind the last record; a lone free record fills an empty leaf.
  predicate Packed(rs: seq<D.Rec>) {
    && rs != []
    && (forall k :: 0 <= k < |rs| - 1 ==> rs[k].Live() && rs[k].recLen == D.Used(rs[k]))
    && (rs[|rs| - 1].Live() || (|rs| == 1 && rs[0].itype != D.CSUM_TYPE))
  }

  function Slack(rs: seq<D.Rec>): (n: int)
    requires rs != []
  {
    var r := rs[|rs| - 1];
    r.recLen - if r.Live() then D.Used(r) else 0
  }

  lemma {:induction false} PackPacked(s: seq<Item>, size: nat, hash: NameHash)
    requires s != [] && Space(s) <= size && AllFaithful(s, hash)
    ensures Packed(Pack(s, size)) && Slack(Pack(s, size)) == size - Space(s)
  {
    assert Faithful(s[0], hash);
    if |s| > 1 {
      var u := D.Used(s[0].rec);
      PackPacked(s[1..], size - u, hash);
      var rs, tail := Pack(s, size), Pack(s[1..], size - u);
      assert rs == [s[0].rec.(recLen := u)] + tail;
      assert rs[|rs| - 1] == tail[|tail| - 1];
      forall k | 0 <= k < |rs| - 1 ensures rs[k].Live() && rs[k].recLen == D.Used(rs[k]) {
        assert k > 0 ==> rs[k] == tail[k - 1];
      }
    } else {
      assert s[1..] == [];
    }
  }

  // In a packed leaf an insert succeeds exactly when the slack is large enough, and keeps
  // the leaf packed.
  lemma PackedInsert(rs: seq<D.Rec>, inode: nat, itype: byte, name: seq<byte>)
    requires Packed(rs) && inode != 0
    ensures var res := D.Insert(rs, inode, itype, name);
            && (res.Some? <==> Slack(rs) >= D.Needed(|name|))
            && (res.Some? ==> Packed(res.value))
  {
    var last := |rs| - 1;
    assert forall k :: 0 <= k < last ==> !D.Takes(rs[k], |name|);
    assert D.Takes(rs[last], |name|) <==> Slack(rs) >= D.Needed(|name|);
    if D.Takes(rs[last], |name|) {
      assert D.Slot(rs, |name|) == last;
      var out := D.Insert(rs, inode, itype, name).value;
      assert rs[last + 1..] == [];
      assert out == rs[..last] + D.Place(rs[last], inode, itype, name);
    }
  }

  // A packed leaf is full up to its slack.
  lemma {:induction false} PackedSpace(rs: seq<D.Rec>, hash: NameHash)
    requires Packed(rs) && forall k :: 0 <= k < |rs| && rs[k].Live() ==> rs[k].name != []
    ensures Space(LiveItems(rs, hash)) == D.SumLen(rs) - Slack(rs)
  {
    if |rs| > 1 {
      assert rs[0].Live();
      PackedSpace(rs[1..], hash);
      assert LiveItems(rs, hash)[1..] == LiveItems(rs[1..], hash);
    } else {
      assert rs[1..] == [];
      assert LiveItems(rs[1..], hash) == [];
      if rs[0].Live() {
        assert LiveItems(rs, hash) == [ItemOf(rs[0], hash)];
        assert [ItemOf(rs[0], hash)][1..] == [];
      }
    }
  }

  // ---------------------------------------------------------------- the split itself

  // Copies the live records of a block and hashes their names.
  method Gather(rs: seq<D.Rec>, hash: NameHash) returns (sort: array<Item>)
    ensures fresh(sort) && sort[..] == LiveItems(rs, hash)
  {
    var items: seq<Item> := [];
    for i := 0 to |rs|
      invariant items == LiveItems(rs[..i], hash)
    {
      assert rs[..i + 1] == rs[..i] + [rs[i]];
      LiveItemsConcat(rs[..i], [rs[i]], hash);
      assert [rs[i]][1..] == [];
      if Kept(rs[i]) {
        items := items + [ItemOf(rs[i], hash)];
      }
    }
    assert rs[..|rs|] == rs;
    sort := new Item[|items|](i requires 0 <= i < |items| => items[i]);
  }

  // Finds the first item that no longer fits into half a block; 0 when all of them fit.
  method FindMiddle(sort: seq<Item>, half: nat) returns (mid: nat)
    ensures mid == if Fitting(sort, half) < |sort| then Fitting(sort, half) else 0
  {
    var current := 0;
    for i := 0 to |sort|
      invariant current <= half
      invariant Fitting(sort, half) == i + Fitting(sort[i..], half - current)
    {
      if current + D.Used(sort[i].rec) > half {
        return i;
      }
      assert sort[i..][1..] == sort[i + 1..];
      current := current + D.Used(sort[i].rec);
    }
    return 0;
  }

  // Writes a run of sorted items into one block.
  method WriteHalf(sort: seq<Item>, size: nat) returns (rs: seq<D.Rec>)
    requires sort != [] && Space(sort) <= size
    ensures rs == Pack(sort, size)
  {
    rs := [];
    var off := 0;
    for i := 0 to |sort|
      invariant i < |sort| ==> off + Space(sort[i..]) <= size
      invariant i < |sort| ==> Pack(sort, size) == rs + Pack(sort[i..], size - off)
      invariant i == |sort| ==> Pack(sort, size) == rs
    {
      var used := D.Used(sort[i].rec);
      ghost var rest := sort[i..];
      assert rest[0] == sort[i] && rest[1..] == sort[i + 1..];
      if i < |sort| - 1 {
        PackStep(rs, rest, size - off);
        rs := rs + [sort[i].rec.(recLen := used)];
      } else {
        rs := rs + [sort[i].rec.(recLen := size - off)];
      }
      off := off + used;
    }
  }

  lemma PackStep(rs: seq<D.Rec>, rest: seq<Item>, size: nat)
    requires |rest| > 1 && Space(rest) <= size
    ensures rs + Pack(rest, size) ==
            rs + [rest[0].rec.(recLen := D.Used(rest[0].rec))] + Pack(rest[1..], size - D.Used(rest[0].rec))
  {
  }

  // What a split of sorted items at `mid` leaves behind.
  predicate SplitOf(sort: seq<Item>, mid: nat, size: nat, left: seq<D.Rec>, right: seq<D.Rec>, key: nat) {
    && 0 < mid < |sort|
    && Space(sort[..mid]) <= size && Space(sort[mid..]) <= size
    && left == Pack(sort[..mid], size)
    && right == Pack(sort[mid..], size)
    && key == sort[mid].hash + if sort[mid].hash == sort[mid - 1].hash then 1 else 0
  }

  predicate Splittable(rs: seq<D.Rec>, hash: NameHash, size: nat) {
    Space(LiveItems(rs, hash)) > size / 2
  }

  // Sorts the live records of a leaf and distributes them by size. The source takes for
  // granted that they fill more than half a block.
  method Split(rs: seq<D.Rec>, hash: NameHash, size: nat)
    returns (left: seq<D.Rec>, right: seq<D.Rec>, key: nat, ghost sort: seq<Item>, ghost mid: nat)
    requires 1024 <= size && Splittable(rs, hash, size) && Space(LiveItems(rs, hash)) <= size
    requires AllFaithful(LiveItems(rs, hash), hash)
    ensures multiset(sort) == multiset(LiveItems(rs, hash)) && Sorted(sort)
    ensures mid == Fitting(sort, size / 2) && SplitOf(sort, mid, size, left, right, key)
  {
    var buffer := Gather(rs, hash);
    Sort(buffer);
    var items := buffer[..];
    Reordered(LiveItems(rs, hash), items);
    FittingSums(items, size / 2);
    var m := FindMiddle(items, size / 2);
    assert 0 < m && Space(items) == Space(items[..m]) + Space(items[m..]) by {
      FirstFits(rs, hash, items, size);
      Seqs.Halves(items, m);
      Sums(items[..m], items[m..]);
    }
    left := WriteHalf(items[..m], size);
    right := WriteHalf(items[m..], size);
    var continued := if items[m].hash == items[m - 1].hash then 1 else 0;
    key := items[m].hash + continued;
    sort, mid := items, m;
  }

  lemma FirstFits(rs: seq<D.Rec>, hash: NameHash, items: seq<Item>, size: nat)
    requires 1024 <= size && items != [] && multiset(items) == multiset(LiveItems(rs, hash))
    requires AllFaithful(LiveItems(rs, hash), hash)
    ensures Fitting(items, size / 2) > 0
  {
    assert items[0] in multiset(LiveItems(rs, hash));
    var i :| 0 <= i < |LiveItems(rs, hash)| && LiveItems(rs, hash)[i] == items[0];
  }
}
