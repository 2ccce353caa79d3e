// What the steps of an insertion into an indexed directory keep.

module HTreeSteps {
  import Seqs
  import opened Bytes
  import opened HTreeFlat
  import opened HTreeView
  import D = DirBlock
  import L = LeafSplit
  import C = CombSort

  // ---------------------------------------------------------------- inserting into a leaf

  lemma InsertKeepsLeaf(flat: seq<IndexEntry>, p: nat, rs: seq<D.Rec>, hash: NameHash, size: nat,
                        inode: nat, itype: byte, name: seq<byte>)
    requires p < |flat| && GoodLeaf(rs, size) && Within(flat, p, rs, hash) && InBounds(flat, p, hash(name))
    requires inode != 0 && 1 <= |name| <= 255 && D.Insert(rs, inode, itype, name).Some?
    ensures var out := D.Insert(rs, inode, itype, name).value;
            && GoodLeaf(out, size) && Within(flat, p, out, hash)
            && D.Live(out) == D.Live(rs) + multiset{D.Entry(name, inode, itype)}
  {
    assert D.AllSized(rs) by {
      assert forall k :: 0 <= k < |rs| ==> GoodRecord(rs[k]);
    }
    D.InsertAdds(rs, inode, itype, name);
    D.InsertSized(rs, inode, itype, name);
    var out := D.Insert(rs, inode, itype, name).value;
    forall i | 0 <= i < |out|
      ensures GoodRecord(out[i]) && (out[i].Live() ==> InBounds(flat, p, hash(out[i].name)))
    {
      assert D.WellSized(out[i]);
      var o := RecordFrom(rs, inode, itype, name, i);
      assert GoodRecord(rs[o]);
    }
  }

  // A record behind an insertion is named like one before it, or it is the new one.
  lemma RecordFrom(rs: seq<D.Rec>, inode: nat, itype: byte, name: seq<byte>, i: nat) returns (o: nat)
    requires D.Insert(rs, inode, itype, name).Some? && i < |D.Insert(rs, inode, itype, name).value|
    ensures o < |rs|
    ensures var r := D.Insert(rs, inode, itype, name).value[i];
            r.name == name || (r.name == rs[o].name && r.inode == rs[o].inode)
  {
    var k := D.Slot(rs, |name|);
    var m := D.Place(rs[k], inode, itype, name);
    var out := rs[..k] + m + rs[k + 1..];
    o := if i < k then i else if i < k + |m| then k else i - |m| + 1;
    if i < k {
      assert out[i] == rs[i];
    } else if i < k + |m| {
      assert out[i] == m[i - k];
    } else {
      assert out[i] == rs[i - |m| + 1];
    }
  }

  lemma RemoveKeepsLeaf(flat: seq<IndexEntry>, p: nat, rs: seq<D.Rec>, hash: NameHash, size: nat, k: nat)
    requires p < |flat| && GoodLeaf(rs, size) && Within(flat, p, rs, hash) && k < |rs|
    ensures GoodLeaf(D.RemoveAt(rs, k), size) && Within(flat, p, D.RemoveAt(rs, k), hash)
  {
    assert D.AllSized(rs) by {
      assert forall i :: 0 <= i < |rs| ==> GoodRecord(rs[i]);
    }
    D.RemoveSized(rs, k);
    var c := if k == 0 then 0 else k - 1;
    var out := D.RemoveAt(rs, k);
    forall i | 0 <= i < |out|
      ensures GoodRecord(out[i]) && (out[i].Live() ==> InBounds(flat, p, hash(out[i].name)))
    {
      assert D.WellSized(out[i]);
      var o := if i <= c then i else i - c + k;
      assert GoodRecord(rs[o]);
      assert out[i] == if i == c then D.Merged(rs, k) else rs[o];
    }
  }

  // ---------------------------------------------------------------- the halves of a split

  // Items of a leaf, in any order, keep the leaf's bounds.
  lemma ItemsWithin(flat: seq<IndexEntry>, p: nat, rs: seq<D.Rec>, hash: NameHash, size: nat, sort: seq<C.Item>, i: nat)
    requires p < |flat| && GoodLeaf(rs, size) && Within(flat, p, rs, hash)
    requires multiset(sort) == multiset(L.LiveItems(rs, hash)) && i < |sort|
    ensures L.Faithful(sort[i], hash) && InBounds(flat, p, sort[i].hash)
  {
    var items := L.LiveItems(rs, hash);
    assert sort[i] in multiset(items);
    var t :| 0 <= t < |items| && items[t] == sort[i];
    assert forall k :: 0 <= k < |rs| ==> GoodRecord(rs[k]);
    L.LiveItemsAll(rs, hash);
    var k := L.LiveItemsFrom(rs, hash, t);
  }

  // A packed half is a good leaf with the entries of its items.
  lemma HalfGood(s: seq<C.Item>, size: nat, hash: NameHash)
    requires s != [] && L.Space(s) <= size && L.AllFaithful(s, hash) && size % 4 == 0
    ensures GoodLeaf(L.Pack(s, size), size) && D.Live(L.Pack(s, size)) == L.Entries(s)
    ensures forall k :: 0 <= k < |s| ==> hash(L.Pack(s, size)[k].name) == s[k].hash
  {
    L.PackGood(s, size, hash);
    forall k | 0 <= k < |s| ensures hash(L.Pack(s, size)[k].name) == s[k].hash {
      assert L.Faithful(s[k], hash);
    }
  }

  // A key between the last hash of one half and the first of the other.
  lemma KeyFits(low: nat, last: nat, first: nat, key: nat)
    requires Low(low) <= last <= first && last % 2 == 0 && first % 2 == 0
    requires key == first + if first == last then 1 else 0
    ensures low <= key && last < key && Low(key) == first && key <= first + 1
  {
  }

  lemma HalvesGood(hash: NameHash, size: nat, sort: seq<C.Item>, mid: nat,
                   left: seq<D.Rec>, right: seq<D.Rec>, key: nat)
    requires size % 4 == 0 && L.SplitOf(sort, mid, size, left, right, key) && L.AllFaithful(sort, hash)
    ensures GoodLeaf(left, size) && GoodLeaf(right, size)
    ensures D.Live(left) + D.Live(right) == L.Entries(sort)
  {
    HalfGood(sort[..mid], size, hash);
    HalfGood(sort[mid..], size, hash);
    assert L.Entries(sort) == L.Entries(sort[..mid]) + L.Entries(sort[mid..]) by {
      Seqs.Halves(sort, mid);
      L.Sums(sort[..mid], sort[mid..]);
    }
  }

  lemma HalvesHashes(hash: NameHash, size: nat, sort: seq<C.Item>, mid: nat,
                     left: seq<D.Rec>, right: seq<D.Rec>, key: nat)
    requires size % 4 == 0 && L.SplitOf(sort, mid, size, left, right, key) && L.AllFaithful(sort, hash)
    ensures |left| == mid && |right| == |sort| - mid
    ensures forall k :: 0 <= k < mid ==> hash(left[k].name) == sort[k].hash
    ensures forall k :: 0 <= k < |right| ==> hash(right[k].name) == sort[mid + k].hash
  {
    assert |left| == mid && forall k :: 0 <= k < mid ==> hash(left[k].name) == sort[k].hash by {
      HalfGood(sort[..mid], size, hash);
    }
    HalfGood(sort[mid..], size, hash);
    forall k | 0 <= k < |right| ensures hash(right[k].name) == sort[mid + k].hash {
      assert sort[mid..][k] == sort[mid + k];
    }
  }

  // The key of a split separates the halves and fits between the neighbouring keys.
  lemma SplitSeparates(flat: seq<IndexEntry>, p: nat, hash: NameHash, size: nat,
                       sort: seq<C.Item>, mid: nat, left: seq<D.Rec>, right: seq<D.Rec>, key: nat)
    requires p < |flat| && Even(hash) && C.Sorted(sort) && size % 4 == 0
    requires L.SplitOf(sort, mid, size, left, right, key) && L.AllFaithful(sort, hash)
    requires forall i :: 0 <= i < |sort| ==> InBounds(flat, p, sort[i].hash)
    ensures Separates(flat, p, key, left, right, hash)
  {
    HalvesHashes(hash, size, sort, mid, left, right, key);
    assert L.Faithful(sort[mid], hash) && L.Faithful(sort[mid - 1], hash);
    assert InBounds(flat, p, sort[mid].hash) && InBounds(flat, p, sort[mid - 1].hash);
    KeyFits(flat[p].hash, sort[mid - 1].hash, sort[mid].hash, key);
    forall k | 0 <= k < |left| ensures Low(flat[p].hash) <= hash(left[k].name) < key {
      assert InBounds(flat, p, sort[k].hash);
      assert k < mid - 1 ==> sort[k].hash <= sort[mid - 1].hash;
    }
    forall k | 0 <= k < |right|
      ensures Low(key) <= hash(right[k].name) && (p + 1 < |flat| ==> hash(right[k].name) < flat[p + 1].hash)
    {
      assert InBounds(flat, p, sort[mid + k].hash);
      assert k > 0 ==> sort[mid].hash <= sort[mid + k].hash;
    }
  }

  // Largest record, and the space that the upper half of a split is sure to keep free.
  const MAX_RECORD := 264

  function SureRoom(size: nat): int { size / 2 - MAX_RECORD + 4 }

  lemma Quarters(a: nat, b: nat)
    requires a % 4 == 0 && b % 4 == 0
    ensures (a + b) % 4 == 0
  {
    assert a + b == 4 * (a / 4 + b / 4);
  }

  lemma {:induction false} SpaceAligned(s: seq<C.Item>)
    ensures L.Space(s) % 4 == 0
  {
    if s != [] {
      SpaceAligned(s[1..]);
      Quarters(D.Used(s[0].rec), L.Space(s[1..]));
    }
  }

  // After a split the lower half keeps at least half a block free and the upper half at
  // least half a block less one record.
  lemma SplitRoom(sort: seq<C.Item>, size: nat, hash: NameHash)
    requires size % 8 == 0 && L.AllFaithful(sort, hash) && L.Space(sort) <= size
    requires 0 < L.Fitting(sort, size / 2) < |sort|
    ensures var mid := L.Fitting(sort, size / 2);
            && L.Space(sort[..mid]) <= size / 2
            && L.Space(sort[mid..]) <= size - SureRoom(size)
  {
    var mid := L.Fitting(sort, size / 2);
    L.FittingSums(sort, size / 2);
    assert L.Space(sort) == L.Space(sort[..mid]) + L.Space(sort[mid..]) by {
      Seqs.Halves(sort, mid);
      L.Sums(sort[..mid], sort[mid..]);
    }
    SpaceAligned(sort[..mid]);
    assert L.Faithful(sort[mid], hash);
    RoomArithmetic(size, L.Space(sort[..mid]), D.Used(sort[mid].rec));
  }

  lemma RoomArithmetic(size: nat, lower: nat, used: nat)
    requires size % 8 == 0 && lower % 4 == 0 && used <= MAX_RECORD && size / 2 < lower + used
    ensures SureRoom(size) <= lower
  {
  }
}
