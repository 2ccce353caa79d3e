// The leaves of an indexed directory and the hash range that each of them may hold.

module HTreeView {
  import opened Bytes
  import opened HTreeFlat
  import D = DirBlock

  // The name hash is a parameter; the source clears its lowest bit.
  type NameHash = seq<byte> -> nat

  ghost predicate Even(hash: NameHash) {
    forall n: seq<byte> :: hash(n) % 2 == 0
  }

  // An odd key says that its leaf continues a hash that began in an earlier leaf.
  function Low(key: nat): nat { key - key % 2 }

  predicate Ordered(flat: seq<IndexEntry>) {
    forall i, j :: 0 <= i < j < |flat| ==> flat[i].hash <= flat[j].hash
  }

  predicate Distinct(flat: seq<IndexEntry>) {
    forall i, j :: 0 <= i < j < |flat| ==> flat[i].block != flat[j].block
  }

  predicate InBounds(flat: seq<IndexEntry>, i: nat, h: nat)
    requires i < |flat|
  {
    Low(flat[i].hash) <= h && (i + 1 < |flat| ==> h < flat[i + 1].hash)
  }

  predicate GoodRecord(r: D.Rec) { D.WellSized(r) && (r.Live() ==> r.name != []) }

  // A leaf block is tiled by records, and live records have names.
  predicate GoodLeaf(rs: seq<D.Rec>, size: nat) {
    D.SumLen(rs) == size && forall k :: 0 <= k < |rs| ==> GoodRecord(rs[k])
  }

  predicate Within(flat: seq<IndexEntry>, i: nat, rs: seq<D.Rec>, hash: NameHash)
    requires i < |flat|
  {
    forall k :: 0 <= k < |rs| && rs[k].Live() ==> InBounds(flat, i, hash(rs[k].name))
  }

  predicate ValidView(flat: seq<IndexEntry>, leaves: map<int, seq<D.Rec>>, hash: NameHash, size: nat) {
    && flat != [] && flat[0].hash == 0
    && Ordered(flat)
    && Distinct(flat)
    && (forall i :: 0 <= i < |flat| ==> flat[i].block in leaves)
    && (forall i :: 0 <= i < |flat| ==> GoodLeaf(leaves[flat[i].block], size))
    && (forall i :: 0 <= i < |flat| ==> Within(flat, i, leaves[flat[i].block], hash))
  }

  // ---------------------------------------------------------------- lookup

  // The leaf where the search for a hash starts: the last one whose key is not above it.
  predicate Home(flat: seq<IndexEntry>, h: nat, p: nat) {
    p < |flat| && flat[p].hash <= h && (p + 1 < |flat| ==> h < flat[p + 1].hash)
  }

  // A leaf that may hold a hash is the home leaf, or is reached from it through keys that
  // all continue this hash.
  lemma BoundsNearHome(flat: seq<IndexEntry>, h: nat, p: nat, i: nat)
    requires Ordered(flat) && h % 2 == 0 && Home(flat, h, p) && i < |flat| && InBounds(flat, i, h)
    ensures p <= i && forall t :: p < t <= i ==> flat[t].hash == h + 1
  {
    forall t | p < t <= i ensures flat[t].hash == h + 1 {
      assert flat[p + 1].hash <= flat[t].hash <= flat[i].hash;
    }
  }

  // Some leaf has a live record with this name: the answer of a plain scan.
  predicate Holds(flat: seq<IndexEntry>, leaves: map<int, seq<D.Rec>>, name: seq<byte>)
    requires forall i :: 0 <= i < |flat| ==> flat[i].block in leaves
  {
    exists i :: 0 <= i < |flat| && D.Has(leaves[flat[i].block], name)
  }

  lemma HolderNearHome(flat: seq<IndexEntry>, leaves: map<int, seq<D.Rec>>, hash: NameHash, size: nat,
                       name: seq<byte>, p: nat, i: nat)
    requires ValidView(flat, leaves, hash, size) && hash(name) % 2 == 0 && Home(flat, hash(name), p)
    requires i < |flat| && D.Has(leaves[flat[i].block], name)
    ensures p <= i && forall t :: p < t <= i ==> flat[t].hash == hash(name) + 1
  {
    var rs := leaves[flat[i].block];
    var k :| 0 <= k < |rs| && rs[k].Named(name);
    assert Within(flat, i, rs, hash);
    BoundsNearHome(flat, hash(name), p, i);
  }

  // No leaf in this range has the name.
  predicate Missing(flat: seq<IndexEntry>, leaves: map<int, seq<D.Rec>>, name: seq<byte>, a: nat, b: nat)
    requires forall i :: 0 <= i < |flat| ==> flat[i].block in leaves
  {
    forall i :: a <= i < b && i < |flat| ==> !D.Has(leaves[flat[i].block], name)
  }

  lemma MissingStep(flat: seq<IndexEntry>, leaves: map<int, seq<D.Rec>>, name: seq<byte>, a: nat, b: nat)
    requires forall i :: 0 <= i < |flat| ==> flat[i].block in leaves
    requires Missing(flat, leaves, name, a, b) && b < |flat| && !D.Has(leaves[flat[b].block], name)
    ensures Missing(flat, leaves, name, a, b + 1)
  {
  }

  // The leaves from the home leaf up to the first key that does not continue the hash are
  // all that can hold a name, so searching them agrees with a scan of every leaf.
  lemma SearchIsScan(flat: seq<IndexEntry>, leaves: map<int, seq<D.Rec>>, hash: NameHash, size: nat,
                     name: seq<byte>, p: nat, q: nat)
    requires ValidView(flat, leaves, hash, size) && hash(name) % 2 == 0 && Home(flat, hash(name), p)
    requires p <= q < |flat| && (q + 1 < |flat| ==> Low(flat[q + 1].hash) != hash(name))
    requires Missing(flat, leaves, name, p, q + 1)
    ensures !Holds(flat, leaves, name)
  {
    forall i | 0 <= i < |flat| ensures !D.Has(leaves[flat[i].block], name) {
      if D.Has(leaves[flat[i].block], name) {
        HolderNearHome(flat, leaves, hash, size, name, p, i);
      }
    }
  }

  // ---------------------------------------------------------------- contents

  // Every live entry of the directory, with repetitions.
  function Contents(flat: seq<IndexEntry>, leaves: map<int, seq<D.Rec>>): (m: multiset<D.Entry>)
    requires forall i :: 0 <= i < |flat| ==> flat[i].block in leaves
  {
    if flat == [] then multiset{} else D.Live(leaves[flat[0].block]) + Contents(flat[1..], leaves)
  }

  predicate Covers(flat: seq<IndexEntry>, leaves: map<int, seq<D.Rec>>) {
    forall i :: 0 <= i < |flat| ==> flat[i].block in leaves
  }

  lemma {:induction false} ContentsConcat(a: seq<IndexEntry>, b: seq<IndexEntry>, leaves: map<int, seq<D.Rec>>)
    requires Covers(a, leaves) && Covers(b, leaves)
    ensures Covers(a + b, leaves)
    ensures Contents(a + b, leaves) == Contents(a, leaves) + Contents(b, leaves)
  {
    if a == [] {
      assert a + b == b;
    } else {
      assert (a + b)[1..] == a[1..] + b;
      ContentsConcat(a[1..], b, leaves);
    }
  }

  lemma {:induction false} ContentsFrame(flat: seq<IndexEntry>, m: map<int, seq<D.Rec>>, n: map<int, seq<D.Rec>>)
    requires Covers(flat, m)
    requires forall i :: 0 <= i < |flat| ==> flat[i].block in n && n[flat[i].block] == m[flat[i].block]
    ensures Contents(flat, n) == Contents(flat, m)
  {
    if flat != [] {
      ContentsFrame(flat[1..], m, n);
    }
  }

  lemma ContentsAround(flat: seq<IndexEntry>, p: nat, leaves: map<int, seq<D.Rec>>)
    requires p < |flat| && Covers(flat, leaves)
    ensures Covers(flat[..p], leaves) && Covers(flat[p + 1..], leaves)
    ensures Contents(flat, leaves) ==
            Contents(flat[..p], leaves) + D.Live(leaves[flat[p].block]) + Contents(flat[p + 1..], leaves)
  {
    assert flat == flat[..p] + [flat[p]] + flat[p + 1..];
    assert [flat[p]][1..] == [];
    assert Contents([flat[p]], leaves) == D.Live(leaves[flat[p].block]) + multiset{};
    ContentsConcat(flat[..p], [flat[p]], leaves);
    ContentsConcat(flat[..p] + [flat[p]], flat[p + 1..], leaves);
  }

  // ---------------------------------------------------------------- changing one leaf

  lemma LeafReplaced(flat: seq<IndexEntry>, leaves: map<int, seq<D.Rec>>, hash: NameHash, size: nat,
                     p: nat, rs: seq<D.Rec>)
    requires ValidView(flat, leaves, hash, size) && p < |flat|
    requires GoodLeaf(rs, size) && Within(flat, p, rs, hash)
    ensures ValidView(flat, leaves[flat[p].block := rs], hash, size)
  {
  }

  lemma ContentsReplaced(flat: seq<IndexEntry>, leaves: map<int, seq<D.Rec>>, p: nat, rs: seq<D.Rec>)
    requires p < |flat| && Covers(flat, leaves) && Distinct(flat)
    ensures Covers(flat[..p], leaves) && Covers(flat[p + 1..], leaves)
    ensures Contents(flat, leaves[flat[p].block := rs]) ==
            Contents(flat[..p], leaves) + D.Live(rs) + Contents(flat[p + 1..], leaves)
  {
    var n := leaves[flat[p].block := rs];
    ContentsAround(flat, p, n);
    ContentsFrame(flat[..p], leaves, n);
    ContentsFrame(flat[p + 1..], leaves, n);
  }

  lemma EntryAdded(flat: seq<IndexEntry>, leaves: map<int, seq<D.Rec>>, p: nat, rs: seq<D.Rec>, e: D.Entry)
    requires p < |flat| && Covers(flat, leaves) && Distinct(flat)
    requires D.Live(rs) == D.Live(leaves[flat[p].block]) + multiset{e}
    ensures Contents(flat, leaves[flat[p].block := rs]) == Contents(flat, leaves) + multiset{e}
  {
    ContentsReplaced(flat, leaves, p, rs);
    ContentsAround(flat, p, leaves);
    D.Shuffle(Contents(flat[..p], leaves), D.Live(leaves[flat[p].block]), Contents(flat[p + 1..], leaves), multiset{e});
  }

  lemma EntryRemoved(flat: seq<IndexEntry>, leaves: map<int, seq<D.Rec>>, p: nat, rs: seq<D.Rec>, e: D.Entry)
    requires p < |flat| && Covers(flat, leaves) && Distinct(flat)
    requires D.Live(leaves[flat[p].block]) == D.Live(rs) + multiset{e}
    ensures Contents(flat, leaves) == Contents(flat, leaves[flat[p].block := rs]) + multiset{e}
  {
    ContentsReplaced(flat, leaves, p, rs);
    ContentsAround(flat, p, leaves);
    D.Shuffle(Contents(flat[..p], leaves), D.Live(rs), Contents(flat[p + 1..], leaves), multiset{e});
  }

  // ---------------------------------------------------------------- splitting one leaf

  // The key of the right half separates the halves and fits between its neighbours.
  predicate Separates(flat: seq<IndexEntry>, p: nat, key: nat, left: seq<D.Rec>, right: seq<D.Rec>, hash: NameHash)
    requires p < |flat|
  {
    && flat[p].hash <= key
    && (p + 1 < |flat| ==> key <= flat[p + 1].hash)
    && (forall k :: 0 <= k < |left| && left[k].Live() ==> Low(flat[p].hash) <= hash(left[k].name) < key)
    && (forall k :: 0 <= k < |right| && right[k].Live() ==>
          Low(key) <= hash(right[k].name) && (p + 1 < |flat| ==> hash(right[k].name) < flat[p + 1].hash))
  }

  lemma OrderedInsert(flat: seq<IndexEntry>, p: nat, e: IndexEntry)
    requires Ordered(flat) && Distinct(flat) && p < |flat| && flat[p].hash <= e.hash
    requires p + 1 < |flat| ==> e.hash <= flat[p + 1].hash
    requires forall i :: 0 <= i < |flat| ==> flat[i].block != e.block
    ensures Ordered(InsertAt(flat, p + 1, e)) && Distinct(InsertAt(flat, p + 1, e))
  {
    var out := InsertAt(flat, p + 1, e);
    forall i | 0 <= i < |out|
      ensures out[i] == if i <= p then flat[i] else if i == p + 1 then e else flat[i - 1]
    {
    }
    forall i | 0 <= i <= p ensures flat[i].hash <= e.hash {
      assert i < p ==> flat[i].hash <= flat[p].hash;
    }
    forall i | p + 1 <= i < |flat| ensures e.hash <= flat[i].hash {
      assert p + 1 < i ==> flat[p + 1].hash <= flat[i].hash;
    }
  }

  lemma Inserted(flat: seq<IndexEntry>, p: nat, e: IndexEntry, i: nat)
    requires p < |flat| && i <= |flat|
    ensures InsertAt(flat, p + 1, e)[i] == if i <= p then flat[i] else if i == p + 1 then e else flat[i - 1]
  {
  }

  lemma LeafSplit(flat: seq<IndexEntry>, leaves: map<int, seq<D.Rec>>, hash: NameHash, size: nat,
                  p: nat, key: nat, added: int, left: seq<D.Rec>, right: seq<D.Rec>)
    requires ValidView(flat, leaves, hash, size) && p < |flat| && added !in leaves
    requires GoodLeaf(left, size) && GoodLeaf(right, size) && Separates(flat, p, key, left, right, hash)
    ensures ValidView(InsertAt(flat, p + 1, IndexEntry(key, added)),
                      leaves[flat[p].block := left][added := right], hash, size)
  {
    var e, n := IndexEntry(key, added), leaves[flat[p].block := left][added := right];
    var out := InsertAt(flat, p + 1, e);
    OrderedInsert(flat, p, e);
    Inserted(flat, p, e, 0);
    forall i | 0 <= i < |out|
      ensures out[i].block in n && GoodLeaf(n[out[i].block], size) && Within(out, i, n[out[i].block], hash)
    {
      Inserted(flat, p, e, i);
      if i + 1 < |out| {
        Inserted(flat, p, e, i + 1);
      }
      if i < p || p + 1 < i {
        OtherBounds(flat, leaves, hash, size, p, e, if i < p then i else i - 1, i);
      }
    }
  }

  // A leaf that was not split keeps its block and its bounds still hold its records.
  lemma OtherBounds(flat: seq<IndexEntry>, leaves: map<int, seq<D.Rec>>, hash: NameHash, size: nat,
                    p: nat, e: IndexEntry, o: nat, i: nat)
    requires ValidView(flat, leaves, hash, size) && p < |flat| && o < |flat| && o != p
    requires i == if o < p then o else o + 1
    ensures flat[o].block != flat[p].block
    ensures InsertAt(flat, p + 1, e)[i] == flat[o]
    ensures Within(InsertAt(flat, p + 1, e), i, leaves[flat[o].block], hash)
  {
    Inserted(flat, p, e, i);
    if o + 1 < |flat| {
      Inserted(flat, p, e, i + 1);
    }
    assert Within(flat, o, leaves[flat[o].block], hash);
  }

  // Distributing the entries of one leaf over two keeps the contents of the directory.
  lemma ContentsSplit(flat: seq<IndexEntry>, m: map<int, seq<D.Rec>>, n: map<int, seq<D.Rec>>, p: nat, e: IndexEntry)
    requires p < |flat| && Covers(flat, m) && flat[p].block in n && e.block in n
    requires forall i :: 0 <= i < |flat| && i != p ==> flat[i].block in n && n[flat[i].block] == m[flat[i].block]
    requires D.Live(m[flat[p].block]) == D.Live(n[flat[p].block]) + D.Live(n[e.block])
    ensures Covers(InsertAt(flat, p + 1, e), n)
    ensures Contents(InsertAt(flat, p + 1, e), n) == Contents(flat, m)
  {
    var pre, post := flat[..p], flat[p + 1..];
    ContentsAround(flat, p, m);
    ContentsFrame(pre, m, n);
    ContentsFrame(post, m, n);
    assert InsertAt(flat, p + 1, e) == pre + [flat[p], e] + post;
    ContentsTwo(flat[p], e, n);
    ContentsConcat(pre, [flat[p], e], n);
    ContentsConcat(pre + [flat[p], e], post, n);
  }

  lemma ContentsTwo(d: IndexEntry, e: IndexEntry, n: map<int, seq<D.Rec>>)
    requires d.block in n && e.block in n
    ensures Contents([d, e], n) == D.Live(n[d.block]) + D.Live(n[e.block])
  {
    assert [d, e][1..] == [e] && [e][1..] == [];
    assert Contents([e], n) == D.Live(n[e.block]) + multiset{};
  }
}
