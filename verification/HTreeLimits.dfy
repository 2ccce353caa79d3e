// Where the split of a leaf stops being safe: the exact name length that small blocks can
// take, and a leaf that the source does not expect to split.

module HTreeLimits {
  import opened Bytes
  import opened HTreeView
  import D = DirBlock
  import L = LeafSplit
  import C = CombSort
  import H = HTree

  // With blocks of 2048 bytes or more the second insert after a split always succeeds.
  lemma LargeBlocksFit(size: nat, len: nat)
    requires 2048 <= size && len <= 255
    ensures H.SureToFit(size, len)
  {
  }

  function Name(len: nat, b: byte): (n: seq<byte>) { seq(len, _ => b) }

  function FirstByteHash(n: seq<byte>): nat {
    var first: int := if n == [] then 0 else n[0];
    2 * first
  }

  // Four records that fill a block of 1024 bytes exactly.
  function FullLeaf(): seq<D.Rec> {
    [D.Rec(1, 252, 1, Name(244, 1)), D.Rec(2, 264, 1, Name(255, 2)),
     D.Rec(3, 264, 1, Name(255, 3)), D.Rec(4, 244, 1, Name(236, 4))]
  }

  function FullItems(): seq<C.Item> {
    [C.Item(2, FullLeaf()[0]), C.Item(4, FullLeaf()[1]), C.Item(6, FullLeaf()[2]), C.Item(8, FullLeaf()[3])]
  }

  lemma FullLeafFacts()
    ensures GoodLeaf(FullLeaf(), 1024) && L.Packed(FullLeaf()) && L.Slack(FullLeaf()) == 0
    ensures L.LiveItems(FullLeaf(), FirstByteHash) == FullItems()
  {
    var rs, items := FullLeaf(), FullItems();
    assert rs[1..] == [rs[1], rs[2], rs[3]] && rs[1..][1..] == [rs[2], rs[3]];
    assert [rs[2], rs[3]][1..] == [rs[3]] && [rs[3]][1..] == [];
    assert D.SumLen([rs[3]]) == 244;
    assert D.SumLen([rs[2], rs[3]]) == 508;
    assert D.SumLen(rs[1..]) == 772;
    assert L.LiveItems([rs[3]], FirstByteHash) == [items[3]];
    assert L.LiveItems([rs[2], rs[3]], FirstByteHash) == [items[2], items[3]];
    assert L.LiveItems(rs[1..], FirstByteHash) == [items[1], items[2], items[3]];
  }

  lemma FullItemsFacts()
    ensures C.Sorted(FullItems()) && L.Fitting(FullItems(), 512) == 1
    ensures L.Space(FullItems()[..1]) == 252 && L.Space(FullItems()[1..]) == 772
    ensures L.AllFaithful(FullItems(), FirstByteHash)
  {
    var s := FullItems();
    assert s[..1] == [s[0]] && [s[0]][1..] == [];
    assert s[1..] == [s[1], s[2], s[3]] && s[1..][1..] == [s[2], s[3]];
    assert [s[2], s[3]][1..] == [s[3]] && [s[3]][1..] == [];
    assert L.Space([s[3]]) == 244;
    assert L.Space([s[2], s[3]]) == 508;
    assert L.Fitting(s[1..], 512 - 252) == 0;
  }

  // In blocks of 1024 bytes a name is safe in every state of its leaf exactly when it has
  // at most 244 bytes. For any longer one there is a packed leaf that has no room for it,
  // whose split sends it to the upper half, and the upper half has no room either: the
  // source then reports success without having stored the name.
  lemma SmallBlocksLose(len: nat)
    requires 1 <= len <= 255
    ensures H.SureToFit(1024, len) <==> len <= 244
    ensures len > 244 ==>
              var rs, sort, name := FullLeaf(), FullItems(), Name(len, 9);
              && GoodLeaf(rs, 1024) && L.Packed(rs)
              && D.Insert(rs, 1, 1, name).None?
              && sort == L.LiveItems(rs, FirstByteHash) && C.Sorted(sort)
              && L.Fitting(sort, 512) == 1
              && FirstByteHash(name) >= sort[1].hash
              && L.Space(sort[1..]) <= 1024
              && D.Insert(L.Pack(sort[1..], 1024), 1, 1, name).None?
  {
    FullLeafFacts();
    FullItemsFacts();
    if len > 244 {
      var sort, name := FullItems(), Name(len, 9);
      L.PackedInsert(FullLeaf(), 1, 1, name);
      forall i | 0 <= i < |sort[1..]| ensures L.Faithful(sort[1..][i], FirstByteHash) {
        assert L.Faithful(sort[i + 1], FirstByteHash);
      }
      L.PackPacked(sort[1..], 1024, FirstByteHash);
      L.PackedInsert(L.Pack(sort[1..], 1024), 1, 1, name);
    }
  }

  // The items of a leaf all fit into half a block exactly when their space does; then the
  // source finds no middle.
  lemma NoMiddle(s: seq<C.Item>, half: nat)
    ensures L.Fitting(s, half) == |s| <==> L.Space(s) <= half
  {
    var n := L.Fitting(s, half);
    L.FittingSums(s, half);
    if n < |s| {
      assert s == s[..n] + ([s[n]] + s[n + 1..]);
      L.Sums(s[..n], [s[n]] + s[n + 1..]);
      L.Sums([s[n]], s[n + 1..]);
    }
  }

  // Four records that fill a block of 1024 bytes exactly, and what is left of them when the
  // fourth and the second are removed.
  function DenseLeaf(): seq<D.Rec> {
    [D.Rec(1, 252, 1, Name(244, 1)), D.Rec(3, 260, 1, Name(252, 3)),
     D.Rec(2, 252, 1, Name(244, 2)), D.Rec(4, 260, 1, Name(252, 4))]
  }

  function SparseLeaf(): seq<D.Rec> {
    [D.Rec(1, 512, 1, Name(244, 1)), D.Rec(2, 512, 1, Name(244, 2))]
  }

  // Removals leave slack between records, and then a leaf can be without room for a name
  // and still be at most half full: the case that the split takes for impossible.
  lemma SparseLeafHasNoMiddle()
    ensures L.Packed(DenseLeaf()) && D.RemoveAt(D.RemoveAt(DenseLeaf(), 3), 1) == SparseLeaf()
    ensures GoodLeaf(DenseLeaf(), 1024) && GoodLeaf(SparseLeaf(), 1024)
    ensures D.Insert(SparseLeaf(), 3, 1, Name(255, 3)).None?
    ensures !L.Splittable(SparseLeaf(), FirstByteHash, 1024)
  {
    DenseLeafFills();
    var rs := SparseLeaf();
    assert rs[1..] == [rs[1]] && [rs[1]][1..] == [];
    assert D.SumLen([rs[1]]) == 512;
    var x, y := L.ItemOf(rs[0], FirstByteHash), L.ItemOf(rs[1], FirstByteHash);
    assert L.LiveItems([rs[1]], FirstByteHash) == [y];
    assert L.LiveItems(rs, FirstByteHash) == [x, y];
    assert [x, y][1..] == [y] && [y][1..] == [];
    assert L.Space([y]) == 252;
  }

  lemma DenseLeafFills()
    ensures L.Packed(DenseLeaf()) && GoodLeaf(DenseLeaf(), 1024)
    ensures D.RemoveAt(D.RemoveAt(DenseLeaf(), 3), 1) == SparseLeaf()
  {
    var rs := DenseLeaf();
    assert rs[1..] == [rs[1], rs[2], rs[3]] && rs[1..][1..] == [rs[2], rs[3]];
    assert [rs[2], rs[3]][1..] == [rs[3]] && [rs[3]][1..] == [];
    assert D.SumLen([rs[3]]) == 260;
    assert D.SumLen([rs[2], rs[3]]) == 512;
  }
}
