// The hash index of a directory in operation: lookup, insertion with splits, removal.

module HTree {
  import opened Bytes
  import opened HTreeFlat
  import opened HTreeView
  import D = DirBlock
  import L = LeafSplit
  import C = CombSort
  import opened HTreeSteps

  datatype Status = Ok | NoSpace

  // Entries that fit into the root block and into an inner block, without checksum tails.
  function RootLimit(size: nat): nat
    requires size >= 32
  {
    (size - 32) / 8
  }

  function NodeLimit(size: nat): nat
    requires size >= 8
  {
    (size - 8) / 8
  }

  // These are the most entries of eight bytes that fit behind the headers of 32 and 8 bytes.
  lemma LimitsFit(size: nat)
    requires size >= 32
    ensures 32 + 8 * RootLimit(size) <= size < 32 + 8 * (RootLimit(size) + 1)
    ensures 8 + 8 * NodeLimit(size) <= size < 8 + 8 * (NodeLimit(size) + 1)
  {
  }

  predicate ValidIndex(levels: nat, nodes: map<int, Node>, size: nat) {
    && size >= 32
    && WellLinked(levels, nodes)
    && nodes[0].limit == RootLimit(size) && |nodes[0].entries| <= nodes[0].limit
    && (levels == 1 ==>
          && Unshared(nodes)
          && forall i :: 0 <= i < |nodes[0].entries| ==>
               var n := nodes[nodes[0].entries[i].block];
               n.limit == NodeLimit(size) && |n.entries| <= n.limit)
  }

  // The whole on-disk state of an indexed directory with its block count.
  predicate ValidDir(levels: nat, nodes: map<int, Node>, leaves: map<int, seq<D.Rec>>, blocks: nat,
                     hash: NameHash, size: nat)
  {
    && ValidIndex(levels, nodes, size)
    && ValidView(Flat(levels, nodes), leaves, hash, size)
    && (forall b :: b in nodes ==> 0 <= b < blocks)
    && (forall b :: b in leaves ==> 0 <= b < blocks)
  }

  // The keys behind the first entry of a node are in order.
  predicate Searchable(es: seq<IndexEntry>) {
    es != [] && forall a, b :: 1 <= a < b < |es| ==> es[a].hash <= es[b].hash
  }

  lemma RootSearchable(levels: nat, nodes: map<int, Node>)
    requires WellLinked(levels, nodes) && Ordered(Flat(levels, nodes))
    ensures Searchable(nodes[0].entries)
  {
    var es, flat := nodes[0].entries, Flat(levels, nodes);
    forall a, b | 1 <= a < b < |es| ensures es[a].hash <= es[b].hash {
      if levels == 1 {
        var p, q := [Step(0, a), Step(es[a].block, 0)], [Step(0, b), Step(es[b].block, 0)];
        PlaceKey(1, nodes, p);
        PlaceKey(1, nodes, q);
        PlaceOrder(nodes, a, b);
      }
    }
  }

  lemma ChildSearchable(nodes: map<int, Node>, j: nat)
    requires WellLinked(1, nodes) && Ordered(Flat(1, nodes)) && j < |nodes[0].entries|
    ensures Searchable(nodes[nodes[0].entries[j].block].entries)
  {
    var block := nodes[0].entries[j].block;
    var es, flat := nodes[block].entries, Flat(1, nodes);
    forall a, b | 1 <= a < b < |es| ensures es[a].hash <= es[b].hash {
      PlaceKey(1, nodes, [Step(0, j), Step(block, a)]);
      PlaceKey(1, nodes, [Step(0, j), Step(block, b)]);
    }
  }

  // The last entry of a node whose key is not above the hash; the first one has no key.
  predicate LastBelow(es: seq<IndexEntry>, h: nat, at: nat) {
    && at < |es|
    && (at > 0 ==> es[at].hash <= h)
    && (at + 1 < |es| ==> h < es[at + 1].hash)
  }

  // Binary search in one node.
  method SearchNode(es: seq<IndexEntry>, h: nat) returns (at: nat)
    requires Searchable(es)
    ensures LastBelow(es, h, at)
  {
    var p, q := 1, |es| - 1;
    while p <= q
      invariant 1 <= p <= q + 1 <= |es|
      invariant forall i :: 1 <= i < p ==> es[i].hash <= h
      invariant forall i :: q < i < |es| ==> h < es[i].hash
    {
      var m := p + (q - p) / 2;
      if es[m].hash > h {
        q := m - 1;
      } else {
        p := m + 1;
      }
    }
    at := p - 1;
  }

  // The same position by a plain scan from the right.
  function LastAt(es: seq<IndexEntry>, h: nat): (at: nat)
    requires es != []
    ensures at < |es|
  {
    var last := |es| - 1;
    if last == 0 || es[last].hash <= h then last else LastAt(es[..last], h)
  }

  lemma {:induction false} LastBelowUnique(es: seq<IndexEntry>, h: nat, at: nat)
    requires Searchable(es) && LastBelow(es, h, at)
    ensures at == LastAt(es, h)
  {
    var last := |es| - 1;
    if at < last {
      assert es[at + 1].hash <= es[last].hash;
      LastBelowUnique(es[..last], h, at);
    }
  }

  // The path to the leaf where a hash is looked up and where its names are added.
  function HomePath(levels: nat, nodes: map<int, Node>, h: nat): (path: seq<Step>)
    requires WellLinked(levels, nodes)
    ensures OnPath(levels, nodes, path)
  {
    var at := LastAt(nodes[0].entries, h);
    if levels == 0 then [Step(0, at)]
    else
      var block := nodes[0].entries[at].block;
      [Step(0, at), Step(block, LastAt(nodes[block].entries, h))]
  }

  // The nodes on a path that are last below a hash lead to its home leaf.
  lemma PathHome(levels: nat, nodes: map<int, Node>, path: seq<Step>, h: nat)
    requires OnPath(levels, nodes, path)
    requires forall i :: 0 <= i <= levels ==>
               path[i].block in nodes && LastBelow(nodes[path[i].block].entries, h, path[i].position)
    ensures Home(Flat(levels, nodes), h, Place(levels, nodes, path))
  {
    PlaceKey(levels, nodes, path);
    assert LastBelow(nodes[path[0].block].entries, h, path[0].position);
    var last := path[levels];
    assert LastBelow(nodes[last.block].entries, h, last.position);
    if last.position + 1 < |nodes[last.block].entries| {
      PlaceNextInNode(levels, nodes, path);
    } else {
      PathEnds(levels, nodes, path);
    }
  }

  // Walks from the root to the leaf where a hash is looked up.
  method GetLeaf(levels: nat, nodes: map<int, Node>, h: nat) returns (path: seq<Step>)
    requires WellLinked(levels, nodes) && Ordered(Flat(levels, nodes))
    ensures path == HomePath(levels, nodes, h) && Home(Flat(levels, nodes), h, Place(levels, nodes, path))
  {
    RootSearchable(levels, nodes);
    var at := SearchNode(nodes[0].entries, h);
    LastBelowUnique(nodes[0].entries, h, at);
    path := [Step(0, at)];
    var indirect := levels;
    while indirect > 0
      invariant 0 <= indirect <= levels && |path| == 1 + levels - indirect
      invariant path[0] == Step(0, at)
      invariant indirect == 0 ==> path == HomePath(levels, nodes, h)
      invariant forall i :: 0 <= i < |path| ==>
                  path[i].block in nodes && LastBelow(nodes[path[i].block].entries, h, path[i].position)
    {
      var block := nodes[0].entries[at].block;
      ChildSearchable(nodes, at);
      var position := SearchNode(nodes[block].entries, h);
      LastBelowUnique(nodes[block].entries, h, position);
      path, indirect := path + [Step(block, position)], indirect - 1;
    }
    PathHome(levels, nodes, path, h);
  }

  // The position that follows a path in the flattened index, if there is one.
  predicate Follows(levels: nat, nodes: map<int, Node>, path: seq<Step>, next: seq<Step>)
    requires OnPath(levels, nodes, path)
  {
    OnPath(levels, nodes, next) && Place(levels, nodes, next) == Place(levels, nodes, path) + 1
  }

  // The climb: the level at which the path can move on, or none.
  method Climb(levels: nat, nodes: map<int, Node>, path: seq<Step>) returns (p: int)
    requires OnPath(levels, nodes, path)
    ensures -1 <= p <= levels
    ensures forall i :: p < i <= levels ==> path[i].position + 1 == |nodes[path[i].block].entries|
    ensures p >= 0 ==> path[p].position + 1 < |nodes[path[p].block].entries|
  {
    p := levels;
    while p >= 0 && path[p].position + 1 >= |nodes[path[p].block].entries|
      invariant -1 <= p <= levels
      invariant forall i :: p < i <= levels ==> path[i].position + 1 == |nodes[path[i].block].entries|
    {
      p := p - 1;
    }
  }

  // Moves a path to the next leaf if that leaf continues the hash.
  method NextBlock(levels: nat, nodes: map<int, Node>, h: nat, path: seq<Step>)
    returns (more: bool, next: seq<Step>)
    requires OnPath(levels, nodes, path)
    ensures var p, flat := Place(levels, nodes, path), Flat(levels, nodes);
            && (more ==> p + 1 < |flat| && Follows(levels, nodes, path, next))
            && (h % 2 == 0 ==> (more <==> p + 1 < |flat| && Low(flat[p + 1].hash) == h))
  {
    var p := Climb(levels, nodes, path);
    if p < levels {
      PathEnds(levels, nodes, path);
    } else {
      PlaceNextInNode(levels, nodes, path);
    }
    if p < 0 {
      return false, path;
    }
    var current := nodes[path[p].block].entries[path[p].position + 1].hash;
    if h % 2 == 0 && Low(current) != h {
      return false, path;
    }
    // Refill the path below the level that moved.
    next := path[p := Step(path[p].block, path[p].position + 1)];
    if p < levels {
      next := next[p + 1 := Step(nodes[0].entries[next[0].position].block, 0)];
      assert next == [Step(0, path[0].position + 1), Step(nodes[0].entries[path[0].position + 1].block, 0)];
    }
    more := true;
  }

  // At the end of its lowest node a path moves to the next root entry or ends.
  lemma PathEnds(levels: nat, nodes: map<int, Node>, path: seq<Step>)
    requires OnPath(levels, nodes, path)
    requires path[levels].position + 1 == |nodes[path[levels].block].entries|
    ensures var p, flat := Place(levels, nodes, path), Flat(levels, nodes);
            var up, roots := path[0].position + 1, nodes[0].entries;
            && (up == |roots| ==> p + 1 == |flat|)
            && (up < |roots| ==>
                  && levels == 1 && p + 1 < |flat|
                  && flat[p + 1].hash == roots[up].hash
                  && Follows(levels, nodes, path, [Step(0, up), Step(roots[up].block, 0)]))
  {
    if levels == 1 {
      PlaceNextUp(nodes, path);
    }
  }

  // Searches the home leaf of a name and the leaves that continue its hash. A name is found
  // exactly when some leaf of the directory holds it.
  method FindIndexed(levels: nat, nodes: map<int, Node>, leaves: map<int, seq<D.Rec>>, hash: NameHash,
                     size: nat, name: seq<byte>)
    returns (found: bool, block: int, ghost p: nat)
    requires WellLinked(levels, nodes) && ValidView(Flat(levels, nodes), leaves, hash, size)
    requires hash(name) % 2 == 0
    ensures found == Holds(Flat(levels, nodes), leaves, name)
    ensures found ==> p < |Flat(levels, nodes)| && block == Flat(levels, nodes)[p].block && D.Has(leaves[block], name)
  {
    ghost var flat := Flat(levels, nodes);
    var h := hash(name);
    var path := GetLeaf(levels, nodes, h);
    ghost var home := Place(levels, nodes, path);
    p := home;
    while true
      invariant OnPath(levels, nodes, path) && home <= p == Place(levels, nodes, path) < |flat|
      invariant Missing(flat, leaves, name, home, p)
      decreases |flat| - p
    {
      PlaceKey(levels, nodes, path);
      block := nodes[path[levels].block].entries[path[levels].position].block;
      if D.Has(leaves[block], name) {
        return true, block, p;
      }
      MissingStep(flat, leaves, name, home, p);
      var more, next := NextBlock(levels, nodes, h, path);
      if !more {
        SearchIsScan(flat, leaves, hash, size, name, home, p);
        return false, block, p;
      }
      path, p := next, p + 1;
    }
  }

  // ---------------------------------------------------------------- when there is no space

  // The lowest node of a path has no free entry.
  predicate LowestFull(levels: nat, nodes: map<int, Node>, path: seq<Step>)
    requires OnPath(levels, nodes, path)
  {
    |nodes[path[levels].block].entries| == nodes[path[levels].block].limit
  }

  // That node cannot be split: the index cannot grow, or there is no block for it.
  predicate Stuck(levels: nat, nodes: map<int, Node>, path: seq<Step>, blocks: nat, capacity: nat)
    requires OnPath(levels, nodes, path)
  {
    && LowestFull(levels, nodes, path)
    && ((levels > 0 && |nodes[0].entries| == nodes[0].limit) || blocks >= capacity)
  }

  // The leaf at the end of a path.
  function LeafAt(levels: nat, nodes: map<int, Node>, path: seq<Step>): int
    requires OnPath(levels, nodes, path)
  {
    nodes[path[levels].block].entries[path[levels].position].block
  }

  // A leaf has room for a name of this length.
  predicate Roomy(rs: seq<D.Rec>, len: nat) { D.Slot(rs, len) < |rs| }

  // A name has room in its home leaf.
  predicate RoomAtHome(levels: nat, nodes: map<int, Node>, leaves: map<int, seq<D.Rec>>, h: nat, len: nat)
    requires WellLinked(levels, nodes)
  {
    var leaf := LeafAt(levels, nodes, HomePath(levels, nodes, h));
    leaf in leaves && Roomy(leaves[leaf], len)
  }

  // A name is refused when its index node cannot be split, or when its leaf has no room and
  // no block is left once the index node has been split.
  predicate Refused(levels: nat, nodes: map<int, Node>, leaves: map<int, seq<D.Rec>>, blocks: nat, capacity: nat,
                    h: nat, len: nat)
    requires WellLinked(levels, nodes)
  {
    var path := HomePath(levels, nodes, h);
    || Stuck(levels, nodes, path, blocks, capacity)
    || (!RoomAtHome(levels, nodes, leaves, h, len)
        && blocks + (if LowestFull(levels, nodes, path) then 1 else 0) >= capacity)
  }

  // The blocks that an addition takes: one for a full index node and one for a full leaf.
  function Growth(levels: nat, nodes: map<int, Node>, leaves: map<int, seq<D.Rec>>, blocks: nat, capacity: nat,
                  h: nat, len: nat): nat
    requires WellLinked(levels, nodes)
  {
    var path := HomePath(levels, nodes, h);
    var index := if LowestFull(levels, nodes, path) then 1 else 0;
    if Stuck(levels, nodes, path, blocks, capacity) then 0
    else if RoomAtHome(levels, nodes, leaves, h, len) then index
    else if Refused(levels, nodes, leaves, blocks, capacity, h, len) then index
    else index + 1
  }

  // ---------------------------------------------------------------- splitting the index

  // Where the last node of a path is held.
  lemma PathHolder(levels: nat, nodes: map<int, Node>, path: seq<Step>, size: nat)
    requires ValidIndex(levels, nodes, size) && OnPath(levels, nodes, path)
    ensures var j := path[0].position;
            && Holder(levels, nodes, path[levels].block, j)
            && Spot(levels, nodes, path[levels].block, j, path[levels].position) == Place(levels, nodes, path)
  {
  }

  // Splitting a full node keeps the index well formed and makes room in both halves.
  lemma SplitNodeKeeps(nodes: map<int, Node>, size: nat, j: nat, added: int)
    requires ValidIndex(1, nodes, size) && size >= 1024 && added !in nodes && j < |nodes[0].entries|
    requires |nodes[0].entries| < nodes[0].limit
    requires |nodes[nodes[0].entries[j].block].entries| == NodeLimit(size)
    ensures var n, b := SplitNodes(nodes, j, NodeLimit(size), added), nodes[0].entries[j].block;
            && ValidIndex(1, n, size)
            && |n[b].entries| < n[b].limit && |n[added].entries| < n[added].limit
  {
    var n, b := SplitNodes(nodes, j, NodeLimit(size), added), nodes[0].entries[j].block;
    SplitUnshared(nodes, j, NodeLimit(size), added);
    var es, fs := nodes[0].entries, n[0].entries;
    forall i | 0 <= i < |fs|
      ensures n[fs[i].block].limit == NodeLimit(size) && |n[fs[i].block].entries| <= n[fs[i].block].limit
    {
      assert fs[i].block == if i <= j then es[i].block else if i == j + 1 then added else es[i - 1].block;
    }
  }

  // Pushing the full root down leaves three free entries in the new node.
  lemma PushDownKeeps(nodes: map<int, Node>, size: nat, added: int)
    requires ValidIndex(0, nodes, size) && size >= 1024 && added !in nodes
    requires |nodes[0].entries| == nodes[0].limit
    ensures var n := nodes[added := Node(NodeLimit(size), nodes[0].entries)]
                     [0 := nodes[0].(entries := [nodes[0].entries[0].(block := added)])];
            ValidIndex(1, n, size) && |n[added].entries| < n[added].limit
  {
    FlatPushDown(nodes, NodeLimit(size), added);
  }

  // ---------------------------------------------------------------- splitting a leaf

  // A new key in a node with a free entry keeps the index well formed.
  lemma EntryKeeps(levels: nat, nodes: map<int, Node>, size: nat, block: int, j: nat, k: nat, e: IndexEntry)
    requires ValidIndex(levels, nodes, size) && Holder(levels, nodes, block, j)
    requires k < |nodes[block].entries| < nodes[block].limit
    ensures ValidIndex(levels, WithEntry(nodes, block, k, e), size)
  {
    FlatInsert(levels, nodes, block, j, k, e);
  }

  // Splitting a leaf keeps every other leaf and all key bounds.
  lemma LeafSplitKeeps(flat: seq<IndexEntry>, leaves: map<int, seq<D.Rec>>, hash: NameHash, size: nat, p: nat,
                       sort: seq<C.Item>, mid: nat, left: seq<D.Rec>, right: seq<D.Rec>, key: nat, added: int)
    requires ValidView(flat, leaves, hash, size) && p < |flat| && Even(hash) && size % 8 == 0 && added !in leaves
    requires multiset(sort) == multiset(L.LiveItems(leaves[flat[p].block], hash)) && C.Sorted(sort)
    requires L.SplitOf(sort, mid, size, left, right, key)
    ensures ValidView(InsertAt(flat, p + 1, IndexEntry(key, added)),
                      leaves[flat[p].block := left][added := right], hash, size)
    ensures D.Live(left) + D.Live(right) == L.Entries(sort)
  {
    LeafItems(flat, leaves, hash, size, p, sort);
    Fours(size);
    SplitParts(flat, p, hash, size, sort, mid, left, right, key);
    LeafSplit(flat, leaves, hash, size, p, key, added, left, right);
  }

  // The halves of a leaf are good leaves on both sides of the key.
  lemma SplitParts(flat: seq<IndexEntry>, p: nat, hash: NameHash, size: nat, sort: seq<C.Item>, mid: nat,
                   left: seq<D.Rec>, right: seq<D.Rec>, key: nat)
    requires p < |flat| && Even(hash) && C.Sorted(sort) && size % 4 == 0
    requires L.SplitOf(sort, mid, size, left, right, key) && L.AllFaithful(sort, hash)
    requires forall i :: 0 <= i < |sort| ==> InBounds(flat, p, sort[i].hash)
    ensures Separates(flat, p, key, left, right, hash) && GoodLeaf(left, size) && GoodLeaf(right, size)
    ensures D.Live(left) + D.Live(right) == L.Entries(sort)
  {
    SplitSeparates(flat, p, hash, size, sort, mid, left, right, key);
    HalvesGood(hash, size, sort, mid, left, right, key);
  }

  lemma Fours(size: nat)
    requires size % 8 == 0
    ensures size % 4 == 0
  {
  }

  lemma LeafItems(flat: seq<IndexEntry>, leaves: map<int, seq<D.Rec>>, hash: NameHash, size: nat, p: nat,
                  sort: seq<C.Item>)
    requires ValidView(flat, leaves, hash, size) && p < |flat|
    requires multiset(sort) == multiset(L.LiveItems(leaves[flat[p].block], hash))
    ensures L.AllFaithful(sort, hash) && forall i :: 0 <= i < |sort| ==> InBounds(flat, p, sort[i].hash)
  {
    AllWithin(flat, p, leaves[flat[p].block], hash, size, sort);
  }

  lemma AllWithin(flat: seq<IndexEntry>, p: nat, rs: seq<D.Rec>, hash: NameHash, size: nat, sort: seq<C.Item>)
    requires p < |flat| && GoodLeaf(rs, size) && Within(flat, p, rs, hash)
    requires multiset(sort) == multiset(L.LiveItems(rs, hash))
    ensures L.AllFaithful(sort, hash) && forall i :: 0 <= i < |sort| ==> InBounds(flat, p, sort[i].hash)
  {
    forall i | 0 <= i < |sort| ensures L.Faithful(sort[i], hash) && InBounds(flat, p, sort[i].hash) {
      ItemsWithin(flat, p, rs, hash, size, sort, i);
    }
  }

  // Splitting a leaf keeps every entry of the directory.
  lemma LeafSplitConserves(flat: seq<IndexEntry>, leaves: map<int, seq<D.Rec>>, hash: NameHash, size: nat, p: nat,
                           sort: seq<C.Item>, left: seq<D.Rec>, right: seq<D.Rec>, e: IndexEntry)
    requires ValidView(flat, leaves, hash, size) && p < |flat| && e.block !in leaves
    requires multiset(sort) == multiset(L.LiveItems(leaves[flat[p].block], hash))
    requires D.Live(left) + D.Live(right) == L.Entries(sort)
    ensures var out, n := InsertAt(flat, p + 1, e), leaves[flat[p].block := left][e.block := right];
            Covers(out, n) && Contents(out, n) == Contents(flat, leaves)
  {
    var rs, n := leaves[flat[p].block], leaves[flat[p].block := left][e.block := right];
    assert GoodLeaf(rs, size);
    assert forall k :: 0 <= k < |rs| ==> GoodRecord(rs[k]);
    L.LiveItemsAll(rs, hash);
    L.Reordered(sort, L.LiveItems(rs, hash));
    ContentsSplit(flat, leaves, n, p, e);
  }

  lemma LeafFacts(flat: seq<IndexEntry>, leaves: map<int, seq<D.Rec>>, hash: NameHash, size: nat, p: nat)
    requires ValidView(flat, leaves, hash, size) && p < |flat|
    ensures var rs := leaves[flat[p].block];
            && GoodLeaf(rs, size)
            && L.Space(L.LiveItems(rs, hash)) <= size
            && L.AllFaithful(L.LiveItems(rs, hash), hash)
  {
    var rs := leaves[flat[p].block];
    assert GoodLeaf(rs, size);
    assert forall k :: 0 <= k < |rs| ==> GoodRecord(rs[k]);
    L.LiveItemsAll(rs, hash);
  }

  // How much room the halves have.
  lemma HalvesRoom(rs: seq<D.Rec>, hash: NameHash, size: nat, sort: seq<C.Item>,
                   left: seq<D.Rec>, right: seq<D.Rec>, key: nat)
    requires GoodLeaf(rs, size) && size % 8 == 0
    requires multiset(sort) == multiset(L.LiveItems(rs, hash))
    requires L.SplitOf(sort, L.Fitting(sort, size / 2), size, left, right, key)
    ensures L.Packed(left) && L.Slack(left) == size - L.Space(sort[..L.Fitting(sort, size / 2)]) >= size / 2
    ensures L.Packed(right) && L.Slack(right) == size - L.Space(sort[L.Fitting(sort, size / 2)..]) >= SureRoom(size)
  {
    var items, mid := L.LiveItems(rs, hash), L.Fitting(sort, size / 2);
    assert forall k :: 0 <= k < |rs| ==> GoodRecord(rs[k]);
    L.LiveItemsAll(rs, hash);
    L.Reordered(sort, items);
    forall i | 0 <= i < |sort| ensures L.Faithful(sort[i], hash) {
      assert sort[i] in multiset(items);
    }
    SplitRoom(sort, size, hash);
    L.PackPacked(sort[..mid], size, hash);
    L.PackPacked(sort[mid..], size, hash);
  }

  // The live items of a leaf, sorted by hash and cut where half a block is exceeded.
  predicate Sorting(rs: seq<D.Rec>, hash: NameHash, size: nat, sort: seq<C.Item>) {
    && multiset(sort) == multiset(L.LiveItems(rs, hash)) && C.Sorted(sort)
    && 0 < L.Fitting(sort, size / 2) < |sort|
  }

  // The half of a split that a hash belongs to: the upper one from its key on, which carries
  // the continued bit when both halves meet in one hash.
  function ChosenHalf(sort: seq<C.Item>, size: nat, h: nat): seq<C.Item>
    requires 0 < L.Fitting(sort, size / 2) < |sort|
  {
    var mid := L.Fitting(sort, size / 2);
    var key := sort[mid].hash + if sort[mid].hash == sort[mid - 1].hash then 1 else 0;
    if h >= key then sort[mid..] else sort[..mid]
  }

  // A name of this length fits into the half that its hash belongs to.
  predicate FitsHalf(sort: seq<C.Item>, size: nat, h: nat, len: nat)
    requires 0 < L.Fitting(sort, size / 2) < |sort|
  {
    L.Space(ChosenHalf(sort, size, h)) + D.Needed(len) <= size
  }

  // Leaf p was split into two packed leaves with room, the right one under the key of e.
  predicate SplitDone(flat: seq<IndexEntry>, leaves: map<int, seq<D.Rec>>, p: nat, e: IndexEntry,
                      out: seq<IndexEntry>, n: map<int, seq<D.Rec>>, size: nat)
  {
    && p < |flat| && flat[p].block in leaves && e.block !in leaves
    && out == InsertAt(flat, p + 1, e)
    && flat[p].block in n && e.block in n
    && n == leaves[flat[p].block := n[flat[p].block]][e.block := n[e.block]]
    && L.Packed(n[flat[p].block]) && L.Slack(n[flat[p].block]) >= size / 2
    && L.Packed(n[e.block]) && L.Slack(n[e.block]) >= SureRoom(size)
  }

  // What a split of leaf p leaves: records sorted and distributed.
  predicate SplitInput(levels: nat, nodes: map<int, Node>, leaves: map<int, seq<D.Rec>>, hash: NameHash, size: nat,
                       block: int, j: nat, position: nat, p: nat,
                       sort: seq<C.Item>, left: seq<D.Rec>, right: seq<D.Rec>, e: IndexEntry)
    requires WellLinked(levels, nodes)
  {
    && Holder(levels, nodes, block, j) && position < |nodes[block].entries| < nodes[block].limit
    && p == Spot(levels, nodes, block, j, position) < |Flat(levels, nodes)|
    && Flat(levels, nodes)[p].block in leaves && e.block !in leaves
    && multiset(sort) == multiset(L.LiveItems(leaves[Flat(levels, nodes)[p].block], hash)) && C.Sorted(sort)
    && L.SplitOf(sort, L.Fitting(sort, size / 2), size, left, right, e.hash)
  }

  // The directory after a split is valid.
  lemma SplitDataValid(levels: nat, nodes: map<int, Node>, leaves: map<int, seq<D.Rec>>, blocks: nat,
                       hash: NameHash, size: nat, block: int, j: nat, position: nat, p: nat,
                       sort: seq<C.Item>, left: seq<D.Rec>, right: seq<D.Rec>, e: IndexEntry)
    requires ValidDir(levels, nodes, leaves, blocks, hash, size) && Even(hash) && size % 8 == 0 && 0 <= e.block < blocks
    requires SplitInput(levels, nodes, leaves, hash, size, block, j, position, p, sort, left, right, e)
    ensures ValidDir(levels, WithEntry(nodes, block, position, e),
                     leaves[Flat(levels, nodes)[p].block := left][e.block := right], blocks, hash, size)
  {
    var flat, n := Flat(levels, nodes), WithEntry(nodes, block, position, e);
    var m := leaves[flat[p].block := left][e.block := right];
    assert ValidIndex(levels, n, size) by {
      EntryKeeps(levels, nodes, size, block, j, position, e);
    }
    assert ValidView(InsertAt(flat, p + 1, e), m, hash, size) by {
      LeafSplitKeeps(flat, leaves, hash, size, p, sort, L.Fitting(sort, size / 2), left, right, e.hash, e.block);
    }
    assert Flat(levels, n) == InsertAt(flat, p + 1, e) by {
      FlatInsert(levels, nodes, block, j, position, e);
    }
    assert n.Keys == nodes.Keys;
  }

  // It has the same entries, and both leaves have room.
  lemma SplitDataDone(levels: nat, nodes: map<int, Node>, leaves: map<int, seq<D.Rec>>, blocks: nat,
                      hash: NameHash, size: nat, block: int, j: nat, position: nat, p: nat,
                      sort: seq<C.Item>, left: seq<D.Rec>, right: seq<D.Rec>, e: IndexEntry)
    requires ValidDir(levels, nodes, leaves, blocks, hash, size) && Even(hash) && size % 8 == 0
    requires SplitInput(levels, nodes, leaves, hash, size, block, j, position, p, sort, left, right, e)
    ensures var n := WithEntry(nodes, block, position, e);
            var m := leaves[Flat(levels, nodes)[p].block := left][e.block := right];
            && WellLinked(levels, n)
            && Covers(Flat(levels, n), m)
            && Contents(Flat(levels, n), m) == Contents(Flat(levels, nodes), leaves)
            && SplitDone(Flat(levels, nodes), leaves, p, e, Flat(levels, n), m, size)
  {
    var flat, n := Flat(levels, nodes), WithEntry(nodes, block, position, e);
    var m := leaves[flat[p].block := left][e.block := right];
    assert WellLinked(levels, n) && Flat(levels, n) == InsertAt(flat, p + 1, e) by {
      FlatInsert(levels, nodes, block, j, position, e);
    }
    SplitViewDone(flat, leaves, hash, size, p, sort, left, right, e);
  }

  lemma SplitViewDone(flat: seq<IndexEntry>, leaves: map<int, seq<D.Rec>>, hash: NameHash, size: nat, p: nat,
                      sort: seq<C.Item>, left: seq<D.Rec>, right: seq<D.Rec>, e: IndexEntry)
    requires ValidView(flat, leaves, hash, size) && p < |flat| && Even(hash) && size % 8 == 0 && e.block !in leaves
    requires multiset(sort) == multiset(L.LiveItems(leaves[flat[p].block], hash)) && C.Sorted(sort)
    requires L.SplitOf(sort, L.Fitting(sort, size / 2), size, left, right, e.hash)
    ensures var out, m := InsertAt(flat, p + 1, e), leaves[flat[p].block := left][e.block := right];
            && Covers(out, m) && Contents(out, m) == Contents(flat, leaves)
            && SplitDone(flat, leaves, p, e, out, m, size)
  {
    LeafFacts(flat, leaves, hash, size, p);
    HalvesRoom(leaves[flat[p].block], hash, size, sort, left, right, e.hash);
    LeafSplitKeeps(flat, leaves, hash, size, p, sort, L.Fitting(sort, size / 2), left, right, e.hash, e.block);
    LeafSplitConserves(flat, leaves, hash, size, p, sort, left, right, e);
  }

  // How much room the half of a hash has.
  lemma ChosenRoom(rs: seq<D.Rec>, hash: NameHash, size: nat, sort: seq<C.Item>,
                   left: seq<D.Rec>, right: seq<D.Rec>, key: nat, h: nat)
    requires GoodLeaf(rs, size) && size % 8 == 0
    requires multiset(sort) == multiset(L.LiveItems(rs, hash)) && C.Sorted(sort)
    requires L.SplitOf(sort, L.Fitting(sort, size / 2), size, left, right, key)
    ensures Sorting(rs, hash, size, sort)
    ensures var half := if h >= key then right else left;
            L.Packed(half) && L.Slack(half) == size - L.Space(ChosenHalf(sort, size, h))
  {
    HalvesRoom(rs, hash, size, sort, left, right, key);
  }

  // Splits a leaf whose live records fill more than half a block: the right half goes to
  // block `added`, which is entered into the index behind it. No entry is lost or
  // duplicated, and both leaves have room again.
  method SplitData(levels: nat, nodes: map<int, Node>, leaves: map<int, seq<D.Rec>>, hash: NameHash, size: nat,
                   block: int, position: nat, added: nat, ghost j: nat, ghost p: nat)
    returns (n: map<int, Node>, m: map<int, seq<D.Rec>>, e: IndexEntry, ghost sort: seq<C.Item>)
    requires ValidDir(levels, nodes, leaves, added, hash, size) && Even(hash) && 1024 <= size && size % 8 == 0
    requires Holder(levels, nodes, block, j) && position < |nodes[block].entries| < nodes[block].limit
    requires p == Spot(levels, nodes, block, j, position) < |Flat(levels, nodes)|
    requires nodes[block].entries[position].block == Flat(levels, nodes)[p].block
    requires L.Splittable(leaves[Flat(levels, nodes)[p].block], hash, size)
    ensures e.block == added && n == WithEntry(nodes, block, position, e)
    ensures ValidDir(levels, n, m, added + 1, hash, size)
    ensures Contents(Flat(levels, n), m) == Contents(Flat(levels, nodes), leaves)
    ensures SplitDone(Flat(levels, nodes), leaves, p, e, Flat(levels, n), m, size)
    ensures var leaf := nodes[block].entries[position].block;
            && Sorting(leaves[leaf], hash, size, sort)
            && L.SplitOf(sort, L.Fitting(sort, size / 2), size, m[leaf], m[added], e.hash)
  {
    var leaf := nodes[block].entries[position].block;
    LeafFacts(Flat(levels, nodes), leaves, hash, size, p);
    var left, right, key;
    ghost var mid;
    left, right, key, sort, mid := L.Split(leaves[leaf], hash, size);
    e := IndexEntry(key, added);
    SplitDataValid(levels, nodes, leaves, added + 1, hash, size, block, j, position, p, sort, left, right, e);
    SplitDataDone(levels, nodes, leaves, added + 1, hash, size, block, j, position, p, sort, left, right, e);
    n, m := WithEntry(nodes, block, position, e), leaves[leaf := left][added := right];
  }

  // ---------------------------------------------------------------- storing an entry

  // A name goes into the leaf whose bounds contain its hash.
  lemma InsertKeeps(levels: nat, nodes: map<int, Node>, leaves: map<int, seq<D.Rec>>, blocks: nat, hash: NameHash,
                    size: nat, q: nat, inode: nat, itype: byte, name: seq<byte>)
    requires ValidDir(levels, nodes, leaves, blocks, hash, size) && q < |Flat(levels, nodes)|
    requires InBounds(Flat(levels, nodes), q, hash(name)) && inode != 0 && 1 <= |name| <= 255
    requires D.Insert(leaves[Flat(levels, nodes)[q].block], inode, itype, name).Some?
    ensures var flat := Flat(levels, nodes);
            var m := leaves[flat[q].block := D.Insert(leaves[flat[q].block], inode, itype, name).value];
            && ValidDir(levels, nodes, m, blocks, hash, size)
            && Contents(flat, m) == Contents(flat, leaves) + multiset{D.Entry(name, inode, itype)}
  {
    var flat := Flat(levels, nodes);
    var rs := leaves[flat[q].block];
    var out := D.Insert(rs, inode, itype, name).value;
    LeafFacts(flat, leaves, hash, size, q);
    assert Within(flat, q, rs, hash);
    InsertKeepsLeaf(flat, q, rs, hash, size, inode, itype, name);
    LeafReplaced(flat, leaves, hash, size, q, out);
    EntryAdded(flat, leaves, q, out, D.Entry(name, inode, itype));
  }

  // After a split the half chosen by the key comparison is the one whose bounds contain
  // the hash.
  lemma HalfForHash(flat: seq<IndexEntry>, p: nat, e: IndexEntry, h: nat)
    requires Home(flat, h, p)
    ensures InBounds(InsertAt(flat, p + 1, e), if h >= e.hash then p + 1 else p, h)
  {
    Inserted(flat, p, e, p);
    Inserted(flat, p, e, p + 1);
    if p + 1 < |flat| {
      Inserted(flat, p, e, p + 2);
    }
  }

  // Every leaf is packed: true of a directory that only ever had entries added.
  predicate AllPacked(leaves: map<int, seq<D.Rec>>) {
    forall b :: b in leaves ==> L.Packed(leaves[b])
  }

  lemma PackedAfterSplit(flat: seq<IndexEntry>, leaves: map<int, seq<D.Rec>>, p: nat, e: IndexEntry,
                         out: seq<IndexEntry>, n: map<int, seq<D.Rec>>, size: nat)
    requires SplitDone(flat, leaves, p, e, out, n, size)
    ensures AllPacked(leaves) ==> AllPacked(n)
  {
  }

  lemma PackedAfterStore(leaves: map<int, seq<D.Rec>>, b: int, rs: seq<D.Rec>)
    requires L.Packed(rs)
    ensures AllPacked(leaves) ==> AllPacked(leaves[b := rs])
  {
  }

  // The upper half of a split has room for a name of this length, whatever the leaf holds.
  predicate SureToFit(size: nat, len: nat) { D.Needed(len) <= SureRoom(size) }

  // A name that is sure to fit does so in whichever half its hash chooses.
  lemma SureFits(rs: seq<D.Rec>, hash: NameHash, size: nat, sort: seq<C.Item>, h: nat, len: nat)
    requires GoodLeaf(rs, size) && size % 8 == 0 && 1024 <= size && Sorting(rs, hash, size, sort)
    requires SureToFit(size, len)
    ensures FitsHalf(sort, size, h, len)
  {
    var items := L.LiveItems(rs, hash);
    assert forall k :: 0 <= k < |rs| ==> GoodRecord(rs[k]);
    L.LiveItemsAll(rs, hash);
    L.Reordered(sort, items);
    forall i | 0 <= i < |sort| ensures L.Faithful(sort[i], hash) {
      assert sort[i] in multiset(items);
    }
    SplitRoom(sort, size, hash);
  }

  // Splits the home leaf of a name and stores the name in the half that its hash belongs
  // to, if it fits. The source ignores the outcome of this second insert, so `stored` is not
  // reported.
  method SplitAndStore(levels: nat, nodes: map<int, Node>, leaves: map<int, seq<D.Rec>>, hash: NameHash, size: nat,
                       block: int, position: nat, added: nat, ghost j: nat, ghost p: nat,
                       inode: nat, itype: byte, name: seq<byte>)
    returns (n: map<int, Node>, m: map<int, seq<D.Rec>>, ghost stored: bool, ghost sort: seq<C.Item>)
    requires ValidDir(levels, nodes, leaves, added, hash, size) && Even(hash) && 1024 <= size && size % 8 == 0
    requires Holder(levels, nodes, block, j) && position < |nodes[block].entries| < nodes[block].limit
    requires p == Spot(levels, nodes, block, j, position) && Home(Flat(levels, nodes), hash(name), p)
    requires nodes[block].entries[position].block == Flat(levels, nodes)[p].block
    requires L.Splittable(leaves[Flat(levels, nodes)[p].block], hash, size)
    requires inode != 0 && 1 <= |name| <= 255
    ensures ValidDir(levels, n, m, added + 1, hash, size)
    ensures Contents(Flat(levels, n), m) ==
            Contents(Flat(levels, nodes), leaves) + if stored then multiset{D.Entry(name, inode, itype)} else multiset{}
    ensures Sorting(leaves[Flat(levels, nodes)[p].block], hash, size, sort)
    ensures stored <==> FitsHalf(sort, size, hash(name), |name|)
    ensures SureToFit(size, |name|) ==> stored
    ensures AllPacked(leaves) ==> AllPacked(m)
  {
    var leaf := nodes[block].entries[position].block;
    var e;
    n, m, e, sort := SplitData(levels, nodes, leaves, hash, size, block, position, added, j, p);
    PackedAfterSplit(Flat(levels, nodes), leaves, p, e, Flat(levels, n), m, size);
    HalfForHash(Flat(levels, nodes), p, e, hash(name));
    ghost var q := if hash(name) >= e.hash then p + 1 else p;
    Inserted(Flat(levels, nodes), p, e, q);
    var target := if hash(name) >= e.hash then added else leaf;
    ChosenRoom(leaves[leaf], hash, size, sort, m[leaf], m[added], e.hash, hash(name));
    L.PackedInsert(m[target], inode, itype, name);
    if SureToFit(size, |name|) {
      SureFits(leaves[leaf], hash, size, sort, hash(name), |name|);
    }
    stored := false;
    var res := D.Insert(m[target], inode, itype, name);
    if res.Some? {
      InsertKeeps(levels, n, m, added + 1, hash, size, q, inode, itype, name);
      PackedAfterStore(m, target, res.value);
      m, stored := m[target := res.value], true;
    }
  }

  lemma StillPacked(leaves: map<int, seq<D.Rec>>, b: int, inode: nat, itype: byte, name: seq<byte>)
    requires b in leaves && inode != 0 && D.Insert(leaves[b], inode, itype, name).Some?
    ensures AllPacked(leaves) ==> AllPacked(leaves[b := D.Insert(leaves[b], inode, itype, name).value])
  {
    if AllPacked(leaves) {
      L.PackedInsert(leaves[b], inode, itype, name);
    }
  }

  // Adding a name works when its home leaf has room or is full enough to be split.
  predicate CanAdd(flat: seq<IndexEntry>, leaves: map<int, seq<D.Rec>>, hash: NameHash, size: nat, name: seq<byte>)
    requires Covers(flat, leaves)
  {
    forall p :: 0 <= p < |flat| && Home(flat, hash(name), p) ==>
      var rs := leaves[flat[p].block];
      Roomy(rs, |name|) || L.Splittable(rs, hash, size)
  }

  // A sorting of the home leaf of a name.
  predicate HomeSorting(levels: nat, nodes: map<int, Node>, leaves: map<int, seq<D.Rec>>, hash: NameHash, size: nat,
                        name: seq<byte>, sort: seq<C.Item>)
    requires WellLinked(levels, nodes)
  {
    var leaf := LeafAt(levels, nodes, HomePath(levels, nodes, hash(name)));
    leaf in leaves && Sorting(leaves[leaf], hash, size, sort)
  }

  // In a directory of packed leaves every name can be added: a leaf without room is full
  // up to less than one record.
  lemma PackedCanAdd(levels: nat, nodes: map<int, Node>, leaves: map<int, seq<D.Rec>>, blocks: nat,
                     hash: NameHash, size: nat, name: seq<byte>)
    requires ValidDir(levels, nodes, leaves, blocks, hash, size) && 1024 <= size && |name| <= 255
    requires AllPacked(leaves)
    ensures CanAdd(Flat(levels, nodes), leaves, hash, size, name)
  {
    var flat := Flat(levels, nodes);
    forall p | 0 <= p < |flat| && Home(flat, hash(name), p)
      ensures var rs := leaves[flat[p].block];
              Roomy(rs, |name|) || L.Splittable(rs, hash, size)
    {
      var rs := leaves[flat[p].block];
      LeafFacts(flat, leaves, hash, size, p);
      assert forall k :: 0 <= k < |rs| ==> GoodRecord(rs[k]);
      L.PackedInsert(rs, 1, 0, name);
      L.PackedSpace(rs, hash);
    }
  }

  // The block under a position of a lowest-level node.
  lemma SpotEntry(levels: nat, nodes: map<int, Node>, block: int, j: nat, k: nat)
    requires Holder(levels, nodes, block, j) && k < |nodes[block].entries|
    ensures var p, flat := Spot(levels, nodes, block, j, k), Flat(levels, nodes);
            p < |flat| && flat[p].block == nodes[block].entries[k].block
  {
    PlaceKey(levels, nodes, if levels == 0 then [Step(0, k)] else [Step(0, j), Step(block, k)]);
  }

  // Removing the first record with a name from a leaf removes that entry and no other.
  lemma RemoveKeeps(levels: nat, nodes: map<int, Node>, leaves: map<int, seq<D.Rec>>, blocks: nat, hash: NameHash,
                    size: nat, p: nat, name: seq<byte>) returns (gone: D.Entry)
    requires ValidDir(levels, nodes, leaves, blocks, hash, size) && p < |Flat(levels, nodes)|
    requires D.Has(leaves[Flat(levels, nodes)[p].block], name)
    ensures var flat := Flat(levels, nodes);
            var rs := leaves[flat[p].block];
            && D.Lookup(rs, name) < |rs|
            && var m := leaves[flat[p].block := D.RemoveAt(rs, D.Lookup(rs, name))];
            && ValidDir(levels, nodes, m, blocks, hash, size)
            && gone.name == name && Contents(flat, leaves) == Contents(flat, m) + multiset{gone}
  {
    var flat := Flat(levels, nodes);
    var rs := leaves[flat[p].block];
    var k := D.Lookup(rs, name);
    gone := D.Entry(name, rs[k].inode, rs[k].itype);
    LeafFacts(flat, leaves, hash, size, p);
    assert Within(flat, p, rs, hash);
    RemoveKeepsLeaf(flat, p, rs, hash, size, k);
    D.RemoveDeletes(rs, k);
    LeafReplaced(flat, leaves, hash, size, p, D.RemoveAt(rs, k));
    EntryRemoved(flat, leaves, p, D.RemoveAt(rs, k), gone);
  }

  lemma FreshLeaf(size: nat, itype: byte)
    ensures var rs := [D.Rec(0, size, itype, [])]; D.SumLen(rs) == size && D.Live(rs) == multiset{}
  {
    var rs := [D.Rec(0, size, itype, [])];
    assert rs[1..] == [];
    assert !rs[0].Live();
  }

  lemma FreshContents(leaves: map<int, seq<D.Rec>>)
    requires 1 in leaves && D.Live(leaves[1]) == multiset{}
    ensures Covers([IndexEntry(0, 1)], leaves) && Contents([IndexEntry(0, 1)], leaves) == multiset{}
  {
    assert [IndexEntry(0, 1)][1..] == [];
    assert Contents([], leaves) == multiset{};
  }

  class Directory {
    const size: nat
    const hash: NameHash
    // Blocks that the directory may grow to before the file system is full.
    const capacity: nat
    var levels: nat
    var nodes: map<int, Node>
    var leaves: map<int, seq<D.Rec>>
    var blocks: nat

    ghost predicate Valid()
      reads this
    {
      && 1024 <= size < 0x1_0000 && size % 8 == 0
      && Even(hash)
      && ValidDir(levels, nodes, leaves, blocks, hash, size)
    }

    ghost function Keys(): seq<IndexEntry>
      requires Valid()
      reads this
    {
      Flat(levels, nodes)
    }

    // Every entry of the directory.
    ghost function Everything(): multiset<D.Entry>
      requires Valid()
      reads this
    {
      Contents(Flat(levels, nodes), leaves)
    }

    // A new directory has one empty leaf.
    constructor (size: nat, hash: NameHash, capacity: nat, itype: byte)
      requires 1024 <= size < 0x1_0000 && size % 8 == 0 && Even(hash) && itype != D.CSUM_TYPE
      ensures Valid() && Everything() == multiset{} && AllPacked(leaves)
      ensures this.size == size && this.hash == hash && this.capacity == capacity
    {
      this.size, this.hash, this.capacity := size, hash, capacity;
      levels, nodes := 0, map[0 := Node(RootLimit(size), [IndexEntry(0, 1)])];
      leaves := map[1 := [D.Rec(0, size, itype, [])]];
      blocks := 2;
      new;
      FreshLeaf(size, itype);
      FreshContents(leaves);
      assert Flat(levels, nodes) == [IndexEntry(0, 1)];
    }

    // Looks a name up through the index; the answer is that of a scan of all leaves.
    method FindEntry(name: seq<byte>) returns (found: bool, block: int, ghost p: nat)
      requires Valid()
      ensures found == Holds(Keys(), leaves, name)
      ensures found ==> p < |Keys()| && block == Keys()[p].block && D.Has(leaves[block], name)
    {
      found, block, p := FindIndexed(levels, nodes, leaves, hash, size, name);
    }

    // Appends a block to the directory, or reports that the file system is full.
    method AppendBlock() returns (r: Status, added: int)
      requires Valid()
      modifies this`blocks
      ensures Valid() && (r == Ok <==> old(blocks) < capacity)
      ensures if r == Ok then added == old(blocks) && blocks == old(blocks) + 1 else blocks == old(blocks)
    {
      if blocks >= capacity {
        return NoSpace, 0;
      }
      r, added, blocks := Ok, blocks, blocks + 1;
    }

    // Moves the right half of a full node to a new block and enters it into the root.
    method SplitFullNode(up: nat, at: nat, added: int) returns (block: int, position: nat, ghost j: nat)
      requires Valid() && levels == 1 && added !in nodes && 0 <= added < blocks
      requires up < |nodes[0].entries| < nodes[0].limit
      requires at < |nodes[nodes[0].entries[up].block].entries| == NodeLimit(size)
      modifies this`nodes
      ensures Valid() && Keys() == old(Keys())
      ensures Holder(levels, nodes, block, j) && position < |nodes[block].entries| < nodes[block].limit
      ensures Spot(levels, nodes, block, j, position) == old(Spot(levels, nodes, nodes[0].entries[up].block, up, at))
    {
      var left := |nodes[nodes[0].entries[up].block].entries| / 2;
      SplitNodeKeeps(nodes, size, up, added);
      FlatSplit(nodes, up, NodeLimit(size), added);
      SplitSpots(nodes, up, NodeLimit(size), added);
      block, position, j := nodes[0].entries[up].block, at, up;
      nodes := SplitNodes(nodes, up, NodeLimit(size), added);
      if position >= left {
        block, position, j := added, position - left, j + 1;
      }
    }

    // Copies the full root to a new block and makes that block the root's only child.
    method PushRootDown(at: nat, added: int)
      requires Valid() && levels == 0 && added !in nodes && 0 <= added < blocks
      requires at < |nodes[0].entries| == nodes[0].limit
      modifies this`nodes, this`levels
      ensures Valid() && Keys() == old(Keys()) && levels == 1
      ensures Holder(levels, nodes, added, 0) && at < |nodes[added].entries| < nodes[added].limit
      ensures Spot(levels, nodes, added, 0, at) == at
    {
      PushDownKeeps(nodes, size, added);
      FlatPushDown(nodes, NodeLimit(size), added);
      nodes := nodes[added := Node(NodeLimit(size), nodes[0].entries)]
        [0 := nodes[0].(entries := [nodes[0].entries[0].(block := added)])];
      levels := 1;
    }

    // Splits the lowest index node of a path if it is full. The flattened index stays the
    // same, the returned position is still the path's leaf, and its node has a free entry.
    method SplitIndex(path: seq<Step>) returns (r: Status, block: int, position: nat, ghost j: nat)
      requires Valid() && OnPath(levels, nodes, path)
      modifies this`levels, this`nodes, this`blocks
      ensures Valid() && Keys() == old(Keys())
      ensures r == Ok ==>
                && Holder(levels, nodes, block, j)
                && position < |nodes[block].entries| < nodes[block].limit
                && Spot(levels, nodes, block, j, position) == old(Place(levels, nodes, path))
      ensures r == NoSpace <==> old(Stuck(levels, nodes, path, blocks, capacity))
      ensures blocks == old(blocks) + if r == Ok && old(LowestFull(levels, nodes, path)) then 1 else 0
    {
      j := path[0].position;
      PathHolder(levels, nodes, path, size);
      block, position := path[levels].block, path[levels].position;
      if |nodes[block].entries| != nodes[block].limit {
        return Ok, block, position, j;
      }
      if levels > 0 && |nodes[0].entries| == nodes[0].limit {
        return NoSpace, block, position, j;
      }
      var added;
      r, added := AppendBlock();
      if r != Ok {
        return;
      }
      if levels > 0 {
        block, position, j := SplitFullNode(path[0].position, position, added);
      } else {
        PushRootDown(position, added);
        block, j := added, 0;
      }
    }

    // Finds the home leaf of a hash and sees to a free entry in the index node above it.
    method HomeWithRoom(h: nat) returns (r: Status, block: int, position: nat, ghost j: nat, ghost p: nat)
      requires Valid()
      modifies this`levels, this`nodes, this`blocks
      ensures Valid() && Keys() == old(Keys())
      ensures r == Ok ==>
                && Holder(levels, nodes, block, j)
                && position < |nodes[block].entries| < nodes[block].limit
                && p == Spot(levels, nodes, block, j, position) && Home(Keys(), h, p)
                && nodes[block].entries[position].block == Keys()[p].block
                && Keys()[p].block == old(LeafAt(levels, nodes, HomePath(levels, nodes, h)))
      ensures r == NoSpace <==> old(Stuck(levels, nodes, HomePath(levels, nodes, h), blocks, capacity))
      ensures var full := old(LowestFull(levels, nodes, HomePath(levels, nodes, h)));
              blocks == old(blocks) + if r == Ok && full then 1 else 0
    {
      var path := GetLeaf(levels, nodes, h);
      p := Place(levels, nodes, path);
      PlaceKey(levels, nodes, path);
      r, block, position, j := SplitIndex(path);
      if r == Ok {
        SpotEntry(levels, nodes, block, j, position);
      }
    }

    // Splits the home leaf of a name and stores the name in one half if it fits.
    method SplitHome(block: int, position: nat, ghost j: nat, ghost p: nat, name: seq<byte>, inode: nat, itype: byte)
      returns (ghost stored: bool, ghost sort: seq<C.Item>)
      requires Valid() && inode != 0 && 1 <= |name| <= 255
      requires Holder(levels, nodes, block, j) && position < |nodes[block].entries| < nodes[block].limit
      requires p == Spot(levels, nodes, block, j, position) && Home(Keys(), hash(name), p)
      requires nodes[block].entries[position].block == Keys()[p].block
      requires L.Splittable(leaves[Keys()[p].block], hash, size)
      modifies this`nodes, this`leaves, this`blocks
      ensures Valid() && blocks == old(blocks) + 1
      ensures Everything() == old(Everything()) + if stored then multiset{D.Entry(name, inode, itype)} else multiset{}
      ensures Sorting(old(leaves[Keys()[p].block]), hash, size, sort)
      ensures stored <==> FitsHalf(sort, size, hash(name), |name|)
      ensures SureToFit(size, |name|) ==> stored
      ensures old(AllPacked(leaves)) ==> AllPacked(leaves)
    {
      var n, m;
      n, m, stored, sort := SplitAndStore(levels, nodes, leaves, hash, size, block, position, blocks, j, p,
                                          inode, itype, name);
      nodes, leaves, blocks := n, m, blocks + 1;
    }

    // Stores a name in its home leaf, which is split when it has no room.
    method StoreName(block: int, position: nat, ghost j: nat, ghost p: nat, name: seq<byte>, inode: nat, itype: byte)
      returns (r: Status, ghost stored: bool, ghost sort: seq<C.Item>)
      requires Valid() && inode != 0 && 1 <= |name| <= 255
      requires Holder(levels, nodes, block, j) && position < |nodes[block].entries| < nodes[block].limit
      requires p == Spot(levels, nodes, block, j, position) && Home(Keys(), hash(name), p)
      requires nodes[block].entries[position].block == Keys()[p].block
      requires Roomy(leaves[Keys()[p].block], |name|) || L.Splittable(leaves[Keys()[p].block], hash, size)
      modifies this`nodes, this`leaves, this`blocks
      ensures Valid()
      ensures Everything() == old(Everything()) + if stored then multiset{D.Entry(name, inode, itype)} else multiset{}
      ensures var rs := old(leaves[Keys()[p].block]);
              && (r == NoSpace <==> !Roomy(rs, |name|) && old(blocks) >= capacity)
              && (Roomy(rs, |name|) ==> stored)
              && blocks == old(blocks) + (if Roomy(rs, |name|) || r == NoSpace then 0 else 1)
              && (!Roomy(rs, |name|) && r == Ok ==>
                    Sorting(rs, hash, size, sort) && (stored <==> FitsHalf(sort, size, hash(name), |name|)))
      ensures stored ==> r == Ok
      ensures r == NoSpace ==> Keys() == old(Keys()) && leaves == old(leaves)
      ensures SureToFit(size, |name|) && r == Ok ==> stored
      ensures old(AllPacked(leaves)) ==> AllPacked(leaves)
    {
      r, stored, sort := Ok, false, [];
      var leaf := nodes[block].entries[position].block;
      var res := D.Insert(leaves[leaf], inode, itype, name);
      if res.Some? {
        InsertKeeps(levels, nodes, leaves, blocks, hash, size, p, inode, itype, name);
        StillPacked(leaves, leaf, inode, itype, name);
        leaves, stored := leaves[leaf := res.value], true;
      } else if blocks >= capacity {
        r := NoSpace;
      } else {
        stored, sort := SplitHome(block, position, j, p, name, inode, itype);
      }
    }

    // Adds an entry under a name. NoSpace is reported exactly when the name is refused, and
    // leaves every entry as it was. Otherwise the directory has exactly one more entry if the
    // home leaf had room or the half of its split that the hash chooses has; if neither has,
    // Ok is reported for a name that was not stored.
    method AddEntry(name: seq<byte>, inode: nat, itype: byte)
      returns (r: Status, ghost stored: bool, ghost sort: seq<C.Item>)
      requires Valid() && 1 <= |name| <= 255 && 0 < inode < 0x1_0000_0000
      requires CanAdd(Keys(), leaves, hash, size, name)
      modifies this
      ensures Valid()
      ensures r == NoSpace <==> old(Refused(levels, nodes, leaves, blocks, capacity, hash(name), |name|))
      ensures r == NoSpace ==> Keys() == old(Keys()) && leaves == old(leaves)
      ensures blocks == old(blocks + Growth(levels, nodes, leaves, blocks, capacity, hash(name), |name|))
      ensures Everything() == old(Everything()) + if stored then multiset{D.Entry(name, inode, itype)} else multiset{}
      ensures old(RoomAtHome(levels, nodes, leaves, hash(name), |name|)) ==> (stored <==> r == Ok)
      ensures old(!RoomAtHome(levels, nodes, leaves, hash(name), |name|)) && r == Ok ==>
                && old(HomeSorting(levels, nodes, leaves, hash, size, name, sort))
                && (stored <==> FitsHalf(sort, size, hash(name), |name|))
      ensures stored ==> r == Ok
      ensures SureToFit(size, |name|) ==> (stored <==> r == Ok)
      ensures old(AllPacked(leaves)) ==> AllPacked(leaves)
    {
      stored, sort := false, [];
      var block, position;
      ghost var j, p;
      r, block, position, j, p := HomeWithRoom(hash(name));
      if r != Ok {
        return;
      }
      r, stored, sort := StoreName(block, position, j, p, name, inode, itype);
    }

    // Removes the entry found under a name.
    method RemoveEntry(name: seq<byte>) returns (ok: bool, ghost gone: D.Entry)
      requires Valid()
      modifies this`leaves
      ensures Valid() && ok == old(Holds(Keys(), leaves, name))
      ensures ok ==> gone.name == name && old(Everything()) == Everything() + multiset{gone}
      ensures !ok ==> leaves == old(leaves)
    {
      var found, block, p := FindEntry(name);
      gone := D.Entry(name, 0, 0);
      if !found {
        return false, gone;
      }
      gone := RemoveKeeps(levels, nodes, leaves, blocks, hash, size, p, name);
      leaves := leaves[block := D.RemoveAt(leaves[block], D.Lookup(leaves[block], name))];
      return true, gone;
    }
  }
}
