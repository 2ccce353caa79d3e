// The two-level hash index of a directory, seen as one sequence of (key, leaf) pairs.

module HTreeFlat {
  import Seqs

  // An index entry: the lowest hash of a child block and the child's number. In the source
  // the hash field of the first entry of a node is overlaid by the node's limit and count;
  // its key is the one that the parent holds, and 0 for the root.
  datatype IndexEntry = IndexEntry(hash: nat, block: int)

  datatype Node = Node(limit: nat, entries: seq<IndexEntry>)

  // Entries of a node with the key of the first one filled in.
  function Headed(key: nat, es: seq<IndexEntry>): (r: seq<IndexEntry>)
    requires es != []
    ensures |r| == |es|
    ensures forall i :: 0 <= i < |es| ==> r[i].block == es[i].block
  {
    [IndexEntry(key, es[0].block)] + es[1..]
  }

  predicate Linked(top: seq<IndexEntry>, nodes: map<int, Node>) {
    forall i :: 0 <= i < |top| ==> top[i].block in nodes && nodes[top[i].block].entries != []
  }

  function Expand(top: seq<IndexEntry>, nodes: map<int, Node>): (r: seq<IndexEntry>)
    requires Linked(top, nodes)
  {
    if top == [] then []
    else Headed(top[0].hash, nodes[top[0].block].entries) + Expand(top[1..], nodes)
  }

  function Top(nodes: map<int, Node>): (r: seq<IndexEntry>)
    requires 0 in nodes && nodes[0].entries != []
  {
    Headed(0, nodes[0].entries)
  }

  predicate WellLinked(levels: nat, nodes: map<int, Node>) {
    && levels <= 1
    && 0 in nodes
    && nodes[0].entries != []
    && (levels == 1 ==> Linked(nodes[0].entries, nodes))
  }

  // The keys and leaf blocks of the whole index, left to right.
  function Flat(levels: nat, nodes: map<int, Node>): (r: seq<IndexEntry>)
    requires WellLinked(levels, nodes)
  {
    if levels == 0 then Top(nodes) else Expand(Top(nodes), nodes)
  }

  lemma {:induction false} ExpandConcat(a: seq<IndexEntry>, b: seq<IndexEntry>, nodes: map<int, Node>)
    requires Linked(a, nodes) && Linked(b, nodes)
    ensures Linked(a + b, nodes)
    ensures Expand(a + b, nodes) == Expand(a, nodes) + Expand(b, nodes)
  {
    if a == [] {
      assert a + b == b;
    } else {
      var head := Headed(a[0].hash, nodes[a[0].block].entries);
      assert (a + b)[1..] == a[1..] + b;
      ExpandConcat(a[1..], b, nodes);
      calc {
        Expand(a + b, nodes);
        head + Expand(a[1..] + b, nodes);
        head + (Expand(a[1..], nodes) + Expand(b, nodes));
        { Seqs.Assoc(head, Expand(a[1..], nodes), Expand(b, nodes)); }
        Expand(a, nodes) + Expand(b, nodes);
      }
    }
  }

  lemma ExpandOne(e: IndexEntry, nodes: map<int, Node>)
    requires e.block in nodes && nodes[e.block].entries != []
    ensures Expand([e], nodes) == Headed(e.hash, nodes[e.block].entries)
  {
    assert [e][1..] == [];
    assert Expand([e], nodes) == Headed(e.hash, nodes[e.block].entries) + [];
  }

  // Expanding looks only at the nodes it visits.
  lemma {:induction false} ExpandFrame(top: seq<IndexEntry>, m: map<int, Node>, n: map<int, Node>)
    requires Linked(top, m)
    requires forall i :: 0 <= i < |top| ==> top[i].block in n && n[top[i].block] == m[top[i].block]
    ensures Linked(top, n) && Expand(top, n) == Expand(top, m)
  {
    if top != [] {
      ExpandFrame(top[1..], m, n);
    }
  }

  // The index split around one root entry.
  lemma ExpandAround(top: seq<IndexEntry>, j: nat, nodes: map<int, Node>)
    requires j < |top| && Linked(top, nodes)
    ensures Linked(top[..j], nodes) && Linked(top[j + 1..], nodes)
    ensures Expand(top, nodes) ==
            Expand(top[..j], nodes) + Headed(top[j].hash, nodes[top[j].block].entries) + Expand(top[j + 1..], nodes)
  {
    assert top == top[..j] + [top[j]] + top[j + 1..];
    ExpandOne(top[j], nodes);
    ExpandConcat(top[..j], [top[j]], nodes);
    ExpandConcat(top[..j] + [top[j]], top[j + 1..], nodes);
  }

  // ---------------------------------------------------------------- paths

  datatype Step = Step(block: int, position: nat)

  predicate OnPath(levels: nat, nodes: map<int, Node>, path: seq<Step>) {
    && WellLinked(levels, nodes)
    && |path| == levels + 1
    && path[0].block == 0
    && path[0].position < |nodes[0].entries|
    && (levels == 1 ==>
          && path[1].block == nodes[0].entries[path[0].position].block
          && path[1].position < |nodes[Top(nodes)[path[0].position].block].entries|)
  }

  // Where a path ends in the flattened index.
  function Place(levels: nat, nodes: map<int, Node>, path: seq<Step>): (p: nat)
    requires OnPath(levels, nodes, path)
  {
    if levels == 0 then path[0].position
    else |Expand(Top(nodes)[..path[0].position], nodes)| + path[1].position
  }

  // The position behind a path in the same node.
  lemma PlaceNextInNode(levels: nat, nodes: map<int, Node>, path: seq<Step>)
    requires OnPath(levels, nodes, path)
    requires path[levels].position + 1 < |nodes[path[levels].block].entries|
    ensures var p, flat, last := Place(levels, nodes, path), Flat(levels, nodes), path[levels];
            p + 1 < |flat| && flat[p + 1] == nodes[last.block].entries[last.position + 1]
  {
    if levels == 1 {
      ExpandAround(Top(nodes), path[0].position, nodes);
    }
  }

  // The position behind the last entry of a node is the start of the next node, if any.
  lemma PlaceNextUp(nodes: map<int, Node>, path: seq<Step>)
    requires OnPath(1, nodes, path) && path[1].position + 1 == |nodes[path[1].block].entries|
    ensures var p, flat, up, roots := Place(1, nodes, path), Flat(1, nodes), path[0].position + 1, nodes[0].entries;
            && (up == |roots| ==> p + 1 == |flat|)
            && (up < |roots| ==>
                  && p + 1 < |flat|
                  && flat[p + 1].hash == roots[up].hash
                  && OnPath(1, nodes, [Step(0, up), Step(roots[up].block, 0)])
                  && Place(1, nodes, [Step(0, up), Step(roots[up].block, 0)]) == p + 1)
  {
    var top, j := Top(nodes), path[0].position;
    if j + 1 < |top| {
      var next := [Step(0, j + 1), Step(nodes[0].entries[j + 1].block, 0)];
      PlaceKey(1, nodes, next);
      assert top[..j + 1] == top[..j] + [top[j]];
      ExpandOne(top[j], nodes);
      ExpandConcat(top[..j], [top[j]], nodes);
    } else {
      assert top[j + 1..] == [];
      ExpandAround(top, j, nodes);
    }
  }

  // The key under which a path's leaf is found.
  lemma PlaceKey(levels: nat, nodes: map<int, Node>, path: seq<Step>)
    requires OnPath(levels, nodes, path)
    ensures var p, flat, last := Place(levels, nodes, path), Flat(levels, nodes), path[levels];
            && p < |flat|
            && flat[p].block == nodes[last.block].entries[last.position].block
            && flat[p].hash ==
                 if last.position > 0 then nodes[last.block].entries[last.position].hash
                 else if levels == 1 && path[0].position > 0 then nodes[0].entries[path[0].position].hash
                 else 0
  {
    if levels == 1 {
      ExpandAround(Top(nodes), path[0].position, nodes);
    }
  }

  // Positions in the flattened index follow the order of root entries.
  lemma {:induction false} PlaceOrder(nodes: map<int, Node>, i: nat, j: nat)
    requires WellLinked(1, nodes) && i < j < |nodes[0].entries|
    ensures Linked(Top(nodes)[..i], nodes) && Linked(Top(nodes)[..j], nodes)
    ensures |Expand(Top(nodes)[..i], nodes)| + |nodes[nodes[0].entries[i].block].entries|
            <= |Expand(Top(nodes)[..j], nodes)|
    decreases j - i
  {
    var top := Top(nodes);
    assert top[..j] == top[..j - 1] + [top[j - 1]];
    ExpandOne(top[j - 1], nodes);
    ExpandConcat(top[..j - 1], [top[j - 1]], nodes);
    if i < j - 1 {
      PlaceOrder(nodes, i, j - 1);
    }
  }

  // ---------------------------------------------------------------- changing the index

  function InsertAt(s: seq<IndexEntry>, p: nat, e: IndexEntry): (r: seq<IndexEntry>)
    requires p <= |s|
  {
    s[..p] + [e] + s[p..]
  }

  lemma InsertMiddle(a: seq<IndexEntry>, h: seq<IndexEntry>, b: seq<IndexEntry>, k: nat, e: IndexEntry)
    requires k <= |h|
    ensures a + InsertAt(h, k, e) + b == InsertAt(a + h + b, |a| + k, e)
  {
    var s := a + h + b;
    assert s[..|a| + k] == a + h[..k];
    assert s[|a| + k..] == h[k..] + b;
  }

  // No node is shared and the root is nobody's child.
  predicate Unshared(nodes: map<int, Node>)
    requires 0 in nodes
  {
    var es := nodes[0].entries;
    && (forall i :: 0 <= i < |es| ==> es[i].block != 0)
    && (forall i, j :: 0 <= i < j < |es| ==> es[i].block != es[j].block)
  }

  // The node that holds the lowest level of the path sits at root entry j.
  predicate Holder(levels: nat, nodes: map<int, Node>, block: int, j: nat) {
    && WellLinked(levels, nodes)
    && (levels == 0 ==> block == 0)
    && (levels == 1 ==> Unshared(nodes) && j < |nodes[0].entries| && nodes[0].entries[j].block == block)
  }

  function Spot(levels: nat, nodes: map<int, Node>, block: int, j: nat, k: nat): (p: nat)
    requires Holder(levels, nodes, block, j)
  {
    if levels == 0 then k else |Expand(Top(nodes)[..j], nodes)| + k
  }

  function WithEntry(nodes: map<int, Node>, block: int, k: nat, e: IndexEntry): (r: map<int, Node>)
    requires block in nodes && k < |nodes[block].entries|
  {
    nodes[block := nodes[block].(entries := InsertAt(nodes[block].entries, k + 1, e))]
  }

  // Expanding after one node was exchanged.
  lemma ExpandChanged(top: seq<IndexEntry>, j: nat, m: map<int, Node>, n: map<int, Node>)
    requires j < |top| && Linked(top, m)
    requires forall i :: 0 <= i < |top| ==> top[i].block in n
    requires forall i :: 0 <= i < |top| && i != j ==> n[top[i].block] == m[top[i].block]
    requires n[top[j].block].entries != []
    ensures Linked(top, n) && Linked(top[..j], m) && Linked(top[j + 1..], m)
    ensures Linked(top[..j], n) && Expand(top[..j], n) == Expand(top[..j], m)
    ensures Expand(top, n) ==
            Expand(top[..j], m) + Headed(top[j].hash, n[top[j].block].entries) + Expand(top[j + 1..], m)
  {
    assert Linked(top, n);
    ExpandAround(top, j, n);
    ExpandFrame(top[..j], m, n);
    ExpandFrame(top[j + 1..], m, n);
  }

  lemma HeadedInsert(key: nat, es: seq<IndexEntry>, k: nat, e: IndexEntry)
    requires k < |es|
    ensures Headed(key, InsertAt(es, k + 1, e)) == InsertAt(Headed(key, es), k + 1, e)
  {
  }

  lemma FlatInsertBelow(nodes: map<int, Node>, block: int, j: nat, k: nat, e: IndexEntry)
    requires Holder(1, nodes, block, j) && k < |nodes[block].entries|
    ensures var n := WithEntry(nodes, block, k, e);
            && WellLinked(1, n)
            && Spot(1, nodes, block, j, k) < |Flat(1, nodes)|
            && Flat(1, n) == InsertAt(Flat(1, nodes), Spot(1, nodes, block, j, k) + 1, e)
  {
    var n, top := WithEntry(nodes, block, k, e), Top(nodes);
    assert Top(n) == top;
    ExpandAround(top, j, nodes);
    ExpandChanged(top, j, nodes, n);
    HeadedInsert(top[j].hash, nodes[block].entries, k, e);
    InsertMiddle(Expand(top[..j], nodes), Headed(top[j].hash, nodes[block].entries),
                 Expand(top[j + 1..], nodes), k + 1, e);
  }

  // A new entry behind position k of a lowest-level node appears right behind that
  // position in the flattened index, and nothing else changes.
  lemma FlatInsert(levels: nat, nodes: map<int, Node>, block: int, j: nat, k: nat, e: IndexEntry)
    requires Holder(levels, nodes, block, j) && k < |nodes[block].entries|
    ensures WellLinked(levels, WithEntry(nodes, block, k, e))
    ensures Spot(levels, nodes, block, j, k) < |Flat(levels, nodes)|
    ensures Flat(levels, WithEntry(nodes, block, k, e)) ==
            InsertAt(Flat(levels, nodes), Spot(levels, nodes, block, j, k) + 1, e)
  {
    if levels == 0 {
      HeadedInsert(0, nodes[0].entries, k, e);
    } else {
      FlatInsertBelow(nodes, block, j, k, e);
    }
  }

  // Halves of a full index node: the right one moves to a new block.
  function SplitNodes(nodes: map<int, Node>, j: nat, limit: nat, added: int): (r: map<int, Node>)
    requires 0 in nodes && j < |nodes[0].entries| && nodes[0].entries[j].block in nodes
    requires |nodes[nodes[0].entries[j].block].entries| >= 2
  {
    var b := nodes[0].entries[j].block;
    var es := nodes[b].entries;
    var c := |es| / 2;
    var halves := nodes[b := nodes[b].(entries := es[..c])][added := Node(limit, es[c..])];
    halves[0 := nodes[0].(entries := InsertAt(nodes[0].entries, j + 1, IndexEntry(es[c].hash, added)))]
  }

  // Both halves have the same number of entries, or the right one has one more.
  lemma SplitInHalf(nodes: map<int, Node>, j: nat, limit: nat, added: int)
    requires 0 in nodes && j < |nodes[0].entries| && nodes[0].entries[j].block in nodes && added !in nodes
    requires nodes[0].entries[j].block != 0 && |nodes[nodes[0].entries[j].block].entries| >= 2
    ensures var b := nodes[0].entries[j].block;
            var n := SplitNodes(nodes, j, limit, added);
            && n[b].entries + n[added].entries == nodes[b].entries
            && |n[b].entries| <= |n[added].entries| <= |n[b].entries| + 1
  {
  }

  lemma ExpandTwo(pre: seq<IndexEntry>, x: IndexEntry, y: IndexEntry, post: seq<IndexEntry>, n: map<int, Node>)
    requires Linked(pre, n) && Linked(post, n)
    requires x.block in n && n[x.block].entries != [] && y.block in n && n[y.block].entries != []
    ensures Linked(pre + [x] + [y] + post, n) && Linked(pre + [x], n)
    ensures Expand(pre + [x] + [y] + post, n) ==
            Expand(pre, n) + Headed(x.hash, n[x.block].entries) + Headed(y.hash, n[y.block].entries) + Expand(post, n)
    ensures Expand(pre + [x], n) == Expand(pre, n) + Headed(x.hash, n[x.block].entries)
  {
    ExpandOne(x, n);
    ExpandOne(y, n);
    ExpandConcat(pre, [x], n);
    ExpandConcat(pre + [x], [y], n);
    ExpandConcat(pre + [x] + [y], post, n);
  }

  // Splitting an index node keeps the flattened index.
  lemma FlatSplit(nodes: map<int, Node>, j: nat, limit: nat, added: int)
    requires WellLinked(1, nodes) && Unshared(nodes) && j < |nodes[0].entries| && added !in nodes
    requires |nodes[nodes[0].entries[j].block].entries| >= 2
    ensures var n := SplitNodes(nodes, j, limit, added);
            && WellLinked(1, n) && Unshared(n)
            && Flat(1, n) == Flat(1, nodes)
  {
    var n, top := SplitNodes(nodes, j, limit, added), Top(nodes);
    var es := nodes[nodes[0].entries[j].block].entries;
    var c := |es| / 2;
    SplitUnshared(nodes, j, limit, added);
    SplitTop(nodes, j, limit, added);
    SplitFrame(nodes, j, limit, added);
    ExpandTwo(top[..j], top[j], IndexEntry(es[c].hash, added), top[j + 1..], n);
    ExpandAround(top, j, nodes);
    HalvesJoin(Expand(top[..j], nodes), top[j].hash, es, c, Expand(top[j + 1..], nodes));
  }

  // Where the halves of the split node start.
  lemma SplitSpots(nodes: map<int, Node>, j: nat, limit: nat, added: int)
    requires WellLinked(1, nodes) && Unshared(nodes) && j < |nodes[0].entries| && added !in nodes
    requires |nodes[nodes[0].entries[j].block].entries| >= 2
    ensures var n := SplitNodes(nodes, j, limit, added);
            var b := nodes[0].entries[j].block;
            && Holder(1, n, b, j) && Holder(1, n, added, j + 1)
            && |Expand(Top(n)[..j], n)| == |Expand(Top(nodes)[..j], nodes)|
            && |Expand(Top(n)[..j + 1], n)| == |Expand(Top(nodes)[..j], nodes)| + |nodes[b].entries| / 2
  {
    var n, top := SplitNodes(nodes, j, limit, added), Top(nodes);
    SplitUnshared(nodes, j, limit, added);
    SplitTop(nodes, j, limit, added);
    SplitFrame(nodes, j, limit, added);
    ExpandOne(top[j], n);
    ExpandConcat(top[..j], [top[j]], n);
  }

  // The other nodes stay as they are.
  lemma SplitFrame(nodes: map<int, Node>, j: nat, limit: nat, added: int)
    requires WellLinked(1, nodes) && Unshared(nodes) && j < |nodes[0].entries| && added !in nodes
    requires |nodes[nodes[0].entries[j].block].entries| >= 2
    ensures var n, top := SplitNodes(nodes, j, limit, added), Top(nodes);
            && Linked(top[..j], nodes) && Linked(top[..j], n)
            && Linked(top[j + 1..], nodes) && Linked(top[j + 1..], n)
            && Expand(top[..j], n) == Expand(top[..j], nodes)
            && Expand(top[j + 1..], n) == Expand(top[j + 1..], nodes)
  {
    var n, top := SplitNodes(nodes, j, limit, added), Top(nodes);
    ExpandFrame(top[..j], nodes, n);
    ExpandFrame(top[j + 1..], nodes, n);
  }

  lemma SplitTop(nodes: map<int, Node>, j: nat, limit: nat, added: int)
    requires WellLinked(1, nodes) && Unshared(nodes) && j < |nodes[0].entries| && added !in nodes
    requires |nodes[nodes[0].entries[j].block].entries| >= 2
    ensures var n, top := SplitNodes(nodes, j, limit, added), Top(nodes);
            var es := nodes[nodes[0].entries[j].block].entries;
            && Top(n) == top[..j] + [top[j]] + [IndexEntry(es[|es| / 2].hash, added)] + top[j + 1..]
            && Top(n)[..j] == top[..j]
            && Top(n)[..j + 1] == top[..j] + [top[j]]
  {
  }

  lemma HalvesJoin(a: seq<IndexEntry>, key: nat, es: seq<IndexEntry>, c: nat, z: seq<IndexEntry>)
    requires 0 < c < |es|
    ensures a + Headed(key, es[..c]) + Headed(es[c].hash, es[c..]) + z == a + Headed(key, es) + z
  {
    assert Headed(es[c].hash, es[c..]) == es[c..];
    assert Headed(key, es[..c]) + es[c..] == Headed(key, es);
    Seqs.Assoc(a, Headed(key, es[..c]), es[c..]);
  }

  lemma SplitUnshared(nodes: map<int, Node>, j: nat, limit: nat, added: int)
    requires WellLinked(1, nodes) && Unshared(nodes) && j < |nodes[0].entries| && added !in nodes
    requires |nodes[nodes[0].entries[j].block].entries| >= 2
    ensures Unshared(SplitNodes(nodes, j, limit, added))
    ensures WellLinked(1, SplitNodes(nodes, j, limit, added))
  {
    var n := SplitNodes(nodes, j, limit, added);
    var es, fs := nodes[0].entries, n[0].entries;
    forall i | 0 <= i < |fs|
      ensures fs[i].block == if i <= j then es[i].block else if i == j + 1 then added else es[i - 1].block
    {
    }
    assert forall i :: 0 <= i < |es| ==> es[i].block in nodes && es[i].block != added;
  }

  // Pushing the whole root one level down keeps the flattened index and every position.
  lemma FlatPushDown(nodes: map<int, Node>, limit: nat, added: int)
    requires WellLinked(0, nodes) && added != 0
    ensures var n := nodes[added := Node(limit, nodes[0].entries)]
                     [0 := nodes[0].(entries := [nodes[0].entries[0].(block := added)])];
            && WellLinked(1, n) && Unshared(n)
            && Flat(1, n) == Flat(0, nodes)
            && Holder(1, n, added, 0) && |Expand(Top(n)[..0], n)| == 0
  {
    var n := nodes[added := Node(limit, nodes[0].entries)]
             [0 := nodes[0].(entries := [nodes[0].entries[0].(block := added)])];
    assert Top(n) == [IndexEntry(0, added)];
    ExpandOne(IndexEntry(0, added), n);
    assert Top(n)[..0] == [];
  }
}
