// The extent tree of a file: a map from logical to physical blocks of any depth.

module ExtentTree {
  import Seqs

  // Logical blocks are 32-bit numbers.
  const LIMIT := 0xFFFF_FFFF

  // Longest written extent; a larger stored count marks an unwritten one.
  const INIT_MAX := 0x8000

  // The 16-bit block_count field.
  type Count = c: nat | c < 0x1_0000

  // An extent as stored.
  datatype Extent = Extent(first: nat, count: Count, start: nat) {
    predicate Unwritten() { count > INIT_MAX }

    function Len(): nat { if count <= INIT_MAX then count else count - INIT_MAX }

    // First logical block behind the extent.
    function End(): nat { first + Len() }

    predicate Covers(b: nat) { first <= b < End() }
  }

  // Setting the top bit of a stored count. A written extent of the largest length keeps
  // its count and so stays written.
  function MarkUnwritten(count: Count): Count { if count < INIT_MAX then count + INIT_MAX else count }

  // A node of the tree. Each entry of an index node carries the key and the block number
  // of its child; `max` is the capacity of the node.
  datatype Tree = Leaf(max: nat, exts: seq<Extent>) | Index(max: nat, kids: seq<Kid>)
  datatype Kid = Kid(first: nat, block: nat, tree: Tree)

  // ---------------------------------------------------------------- the flattened list

  function Flat(t: Tree): (s: seq<Extent>)
    decreases t, 0
  {
    match t
    case Leaf(_, exts) => exts
    case Index(_, kids) => KidsFlat(kids)
  }

  function KidsFlat(kids: seq<Kid>): (s: seq<Extent>)
    decreases kids, 1
  {
    if kids == [] then [] else KidFlat(kids[0]) + KidsFlat(kids[1..])
  }

  function KidFlat(k: Kid): (s: seq<Extent>)
    decreases k, 1
  {
    Flat(k.tree)
  }

  lemma {:induction false} KidsConcat(a: seq<Kid>, b: seq<Kid>)
    ensures KidsFlat(a + b) == KidsFlat(a) + KidsFlat(b)
  {
    if a == [] {
      assert a + b == b;
    } else {
      assert (a + b)[1..] == a[1..] + b;
      KidsConcat(a[1..], b);
      Seqs.Assoc(KidFlat(a[0]), KidsFlat(a[1..]), KidsFlat(b));
    }
  }

  lemma KidsAround(kids: seq<Kid>, i: nat)
    requires i < |kids|
    ensures KidsFlat(kids) == KidsFlat(kids[..i]) + Flat(kids[i].tree) + KidsFlat(kids[i + 1..])
  {
    Seqs.Cut(kids, i);
    KidsThree(kids[..i], kids[i], kids[i + 1..]);
  }

  lemma KidsThree(a: seq<Kid>, k: Kid, b: seq<Kid>)
    ensures KidsFlat(a + [k] + b) == KidsFlat(a) + Flat(k.tree) + KidsFlat(b)
  {
    KidsConcat(a + [k], b);
    KidsConcat(a, [k]);
    KidsOne(k);
  }

  lemma KidsOne(k: Kid)
    ensures KidsFlat([k]) == Flat(k.tree)
  {
    assert [k][1..] == [];
    assert KidsFlat([k]) == Flat(k.tree) + [];
  }

  // ---------------------------------------------------------------- well-formed trees

  // Extents in order, without overlap, inside a range of logical blocks.
  predicate Chain(s: seq<Extent>, lo: nat, hi: nat) {
    && lo <= hi
    && (forall i :: 0 <= i < |s| ==> lo <= s[i].first && 0 < s[i].Len() && s[i].End() <= hi)
    && (forall i, j :: 0 <= i < j < |s| ==> s[i].End() <= s[j].first)
  }

  // Where the range of child i ends: at the key of the next child.
  function KidEnd(kids: seq<Kid>, i: nat, hi: nat): nat
    requires i < |kids|
  {
    if i + 1 < |kids| then kids[i + 1].first else hi
  }

  // A tree of uniform height whose keys bound the extents below them. A key may lie below
  // the first extent of its child.
  predicate Wf(t: Tree, height: nat, lo: nat, hi: nat)
    decreases height, 1
  {
    match t
    case Leaf(max, exts) => height == 0 && |exts| <= max && Chain(exts, lo, hi)
    case Index(max, kids) =>
      && height > 0 && 0 < |kids| <= max
      && lo <= kids[0].first
      && KeysOk(kids, hi)
      && (forall i :: 0 <= i < |kids| ==> KidWf(kids, i, height, hi))
  }

  predicate KeysOk(kids: seq<Kid>, hi: nat) {
    forall i :: 0 <= i < |kids| ==> kids[i].first <= KidEnd(kids, i, hi)
  }

  predicate KidWf(kids: seq<Kid>, i: nat, height: nat, hi: nat)
    requires i < |kids| && height > 0
    decreases height, 0
  {
    Wf(kids[i].tree, height - 1, kids[i].first, KidEnd(kids, i, hi))
  }

  lemma ChainConcat(a: seq<Extent>, b: seq<Extent>, lo: nat, mid: nat, hi: nat)
    requires Chain(a, lo, mid) && Chain(b, mid, hi)
    ensures Chain(a + b, lo, hi)
  {
    var s := a + b;
    forall i | 0 <= i < |s| ensures lo <= s[i].first && 0 < s[i].Len() && s[i].End() <= hi {
      assert s[i] == if i < |a| then a[i] else b[i - |a|];
    }
    forall i, j | 0 <= i < j < |s| ensures s[i].End() <= s[j].first {
      assert s[i] == if i < |a| then a[i] else b[i - |a|];
      assert s[j] == if j < |a| then a[j] else b[j - |a|];
    }
  }

  // Keys of a well-formed node rise, and the children from one on form a chain.
  lemma {:induction false} KidsChain(kids: seq<Kid>, height: nat, hi: nat, i: nat)
    requires i <= |kids| && height > 0
    requires KeysOk(kids, hi) && forall k :: 0 <= k < |kids| ==> KidWf(kids, k, height, hi)
    ensures i < |kids| ==> Chain(KidsFlat(kids[i..]), kids[i].first, hi)
    ensures i == |kids| ==> KidsFlat(kids[i..]) == []
    decreases height, 0, |kids| - i
  {
    if i < |kids| {
      assert kids[i..][1..] == kids[i + 1..];
      KidsChain(kids, height, hi, i + 1);
      assert KidWf(kids, i, height, hi);
      FlatChain(kids[i].tree, height - 1, kids[i].first, KidEnd(kids, i, hi));
      if i + 1 < |kids| {
        ChainConcat(Flat(kids[i].tree), KidsFlat(kids[i + 1..]), kids[i].first, kids[i + 1].first, hi);
      }
    }
  }

  // The flattened list of a well-formed tree is in order and inside its range.
  lemma {:induction false} FlatChain(t: Tree, height: nat, lo: nat, hi: nat)
    requires Wf(t, height, lo, hi)
    ensures Chain(Flat(t), lo, hi)
    decreases height, 1
  {
    if t.Index? {
      KidsChain(t.kids, height, hi, 0);
      assert t.kids[0..] == t.kids;
      ChainWiden(Flat(t), t.kids[0].first, hi, lo, hi);
    }
  }

  lemma ChainWiden(s: seq<Extent>, lo: nat, hi: nat, lo': nat, hi': nat)
    requires Chain(s, lo, hi) && lo' <= lo && hi <= hi'
    ensures Chain(s, lo', hi')
  {
  }
}
