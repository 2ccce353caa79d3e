// Inserting an extent into one leaf: merge it with its neighbour or make a new entry.

module ExtentLeaf {
  import opened ExtentTree

  // ---------------------------------------------------------------- what a list maps

  // Logical block b is mapped to physical block p, written or unwritten.
  predicate MapsOne(e: Extent, b: nat, p: nat, u: bool) {
    e.Covers(b) && p == e.start + (b - e.first) && u == e.Unwritten()
  }

  predicate Maps(s: seq<Extent>, b: nat, p: nat, u: bool) {
    exists i :: 0 <= i < |s| && MapsOne(s[i], b, p, u)
  }

  lemma MapsConcat(x: seq<Extent>, y: seq<Extent>, b: nat, p: nat, u: bool)
    ensures Maps(x + y, b, p, u) <==> Maps(x, b, p, u) || Maps(y, b, p, u)
  {
    var s := x + y;
    if Maps(x, b, p, u) {
      var i :| 0 <= i < |x| && MapsOne(x[i], b, p, u);
      assert s[i] == x[i];
    }
    if Maps(y, b, p, u) {
      var i :| 0 <= i < |y| && MapsOne(y[i], b, p, u);
      assert s[|x| + i] == y[i];
    }
    if Maps(s, b, p, u) {
      var i :| 0 <= i < |s| && MapsOne(s[i], b, p, u);
      assert s[i] == if i < |x| then x[i] else y[i - |x|];
    }
  }

  lemma MapsThree(x: seq<Extent>, y: seq<Extent>, z: seq<Extent>, b: nat, p: nat, u: bool)
    ensures Maps(x + y + z, b, p, u) <==> Maps(x, b, p, u) || Maps(y, b, p, u) || Maps(z, b, p, u)
  {
    MapsConcat(x + y, z, b, p, u);
    MapsConcat(x, y, b, p, u);
  }

  lemma MapsSingle(e: Extent, b: nat, p: nat, u: bool)
    ensures Maps([e], b, p, u) <==> MapsOne(e, b, p, u)
  {
    if MapsOne(e, b, p, u) {
      assert MapsOne([e][0], b, p, u);
    }
  }

  // One list maps what another does, and one extent more.
  ghost predicate AddsExactly(s: seq<Extent>, e: Extent, out: seq<Extent>) {
    forall b: nat, p: nat, u: bool :: Maps(out, b, p, u) <==> Maps(s, b, p, u) || MapsOne(e, b, p, u)
  }

  // ---------------------------------------------------------------- merging

  predicate LengthsFit(x: Extent, e: Extent) {
    x.Len() + e.Len() <= if x.Unwritten() then INIT_MAX - 1 else INIT_MAX
  }

  predicate CanAppend(x: Extent, e: Extent) {
    x.start + x.Len() == e.start && LengthsFit(x, e) && x.End() == e.first
  }

  predicate CanPrepend(x: Extent, e: Extent) {
    e.start + e.Len() == x.start && LengthsFit(x, e) && e.End() == x.first
  }

  // The neighbour with its length grown; it keeps its own written state.
  function Grown(x: Extent, e: Extent): Extent
    requires LengthsFit(x, e)
  {
    x.(count := if x.Unwritten() then MarkUnwritten(x.Len() + e.Len()) else x.Len() + e.Len())
  }

  datatype Way = Append | Prepend | Entry

  // Which branch the insertion takes for the extent nearest to the new one.
  function WayOf(exts: seq<Extent>, pos: nat, e: Extent, combine: bool): Way
    requires exts == [] || pos < |exts|
  {
    if combine && exts != [] && CanAppend(exts[pos], e) then Append
    else if combine && exts != [] && CanPrepend(exts[pos], e) then Prepend
    else Entry
  }

  // The branches by blocks and counts. The neighbour has to have room: 32768 blocks are the most
  // for a written extent and 32767 for an unwritten one.
  lemma WayIs(exts: seq<Extent>, pos: nat, e: Extent)
    requires pos < |exts|
    ensures var x := exts[pos];
            var most := if x.count > 32768 then 32767 else 32768;
            var fits := x.Len() + e.Len() <= most;
            var before := x.first + x.Len() == e.first && x.start + x.Len() == e.start;
            var behind := e.first + e.Len() == x.first && e.start + e.Len() == x.start;
            && (WayOf(exts, pos, e, true) == Append <==> fits && before)
            && (WayOf(exts, pos, e, true) == Prepend <==> fits && !before && behind)
            && WayOf(exts, pos, e, false) == Entry
  {
  }

  function Slot(exts: seq<Extent>, pos: nat, e: Extent): (s: nat)
    requires exts == [] || pos < |exts|
    ensures s <= |exts|
  {
    if exts == [] then 0 else if e.first > exts[pos].first then pos + 1 else pos
  }

  // The leaf afterwards. The prepend branch moves the logical start only.
  function NewExtents(exts: seq<Extent>, pos: nat, e: Extent, combine: bool): (r: seq<Extent>)
    requires exts == [] || pos < |exts|
    ensures r != []
  {
    match WayOf(exts, pos, e, combine)
    case Append => exts[pos := Grown(exts[pos], e)]
    case Prepend => exts[pos := Grown(exts[pos], e).(first := e.first)]
    case Entry => exts[..Slot(exts, pos, e)] + [e] + exts[Slot(exts, pos, e)..]
  }

  // The new extent lies in the gap next to the position that the search took.
  predicate InGap(exts: seq<Extent>, pos: nat, e: Extent, hi: nat)
    requires exts == [] || pos < |exts|
  {
    && 0 < e.Len() && e.End() <= hi
    && (exts == []
        || (exts[pos].End() <= e.first && (pos + 1 < |exts| ==> e.End() <= exts[pos + 1].first))
        || (pos == 0 && e.End() <= exts[0].first))
  }

  // When the outcome maps exactly one extent more: not by the prepend branch, and by the
  // append branch only onto an extent of the same written state.
  predicate ExactWay(exts: seq<Extent>, pos: nat, e: Extent, combine: bool)
    requires exts == [] || pos < |exts|
  {
    match WayOf(exts, pos, e, combine)
    case Append => exts[pos].Unwritten() == e.Unwritten()
    case Prepend => false
    case Entry => true
  }

  lemma EntryAdds(exts: seq<Extent>, s: nat, e: Extent)
    requires s <= |exts|
    ensures AddsExactly(exts, e, exts[..s] + [e] + exts[s..])
  {
    assert exts == exts[..s] + exts[s..];
    forall b: nat, p: nat, u: bool
      ensures Maps(exts[..s] + [e] + exts[s..], b, p, u) <==> Maps(exts, b, p, u) || MapsOne(e, b, p, u)
    {
      MapsThree(exts[..s], [e], exts[s..], b, p, u);
      MapsSingle(e, b, p, u);
      MapsConcat(exts[..s], exts[s..], b, p, u);
    }
  }

  // Replacing one extent changes what is mapped by that extent only.
  lemma MapsReplaced(exts: seq<Extent>, pos: nat, y: Extent, b: nat, p: nat, u: bool)
    requires pos < |exts|
    ensures Maps(exts[pos := y], b, p, u) <==>
            Maps(exts[..pos], b, p, u) || MapsOne(y, b, p, u) || Maps(exts[pos + 1..], b, p, u)
  {
    assert exts[pos := y] == exts[..pos] + [y] + exts[pos + 1..];
    MapsThree(exts[..pos], [y], exts[pos + 1..], b, p, u);
    MapsSingle(y, b, p, u);
  }

  lemma AppendAdds(exts: seq<Extent>, pos: nat, e: Extent)
    requires pos < |exts| && CanAppend(exts[pos], e) && exts[pos].Unwritten() == e.Unwritten()
    requires 0 < exts[pos].Len() && 0 < e.Len()
    ensures AddsExactly(exts, e, exts[pos := Grown(exts[pos], e)])
  {
    var x := exts[pos];
    var y := Grown(x, e);
    assert exts == exts[pos := x];
    forall b: nat, p: nat, u: bool
      ensures Maps(exts[pos := y], b, p, u) <==> Maps(exts, b, p, u) || MapsOne(e, b, p, u)
    {
      MapsReplaced(exts, pos, y, b, p, u);
      MapsReplaced(exts, pos, x, b, p, u);
      assert MapsOne(y, b, p, u) <==> MapsOne(x, b, p, u) || MapsOne(e, b, p, u);
    }
  }

  // No extent of an ordered list other than the one at pos covers this block.
  predicate Alone(exts: seq<Extent>, pos: nat, b: nat) {
    forall i :: 0 <= i < |exts| && i != pos ==> !exts[i].Covers(b)
  }

  // A grown neighbour that maps the first new block differently leaves it unmapped.
  lemma NotMapped(exts: seq<Extent>, pos: nat, e: Extent, y: Extent)
    requires pos < |exts| && Alone(exts, pos, e.first) && !MapsOne(y, e.first, e.start, e.Unwritten())
    ensures !Maps(exts[pos := y], e.first, e.start, e.Unwritten())
  {
    var out := exts[pos := y];
    forall i | 0 <= i < |out| ensures !MapsOne(out[i], e.first, e.start, e.Unwritten()) {
      assert out[i] == if i == pos then y else exts[i];
    }
  }

  // An inexact branch does not map the first new block to its physical block and state.
  lemma InexactMisses(exts: seq<Extent>, pos: nat, e: Extent, combine: bool, lo: nat, hi: nat)
    requires exts == [] || pos < |exts|
    requires Chain(exts, lo, hi) && InGap(exts, pos, e, hi) && !ExactWay(exts, pos, e, combine)
    ensures !Maps(NewExtents(exts, pos, e, combine), e.first, e.start, e.Unwritten())
  {
    match WayOf(exts, pos, e, combine)
    case Append => NotMapped(exts, pos, e, Grown(exts[pos], e));
    case Prepend => NotMapped(exts, pos, e, Grown(exts[pos], e).(first := e.first));
  }

  // The insertion adds exactly the new mapping if and only if its branch is exact.
  lemma InsertExact(exts: seq<Extent>, pos: nat, e: Extent, combine: bool, lo: nat, hi: nat)
    requires exts == [] || pos < |exts|
    requires Chain(exts, lo, hi) && InGap(exts, pos, e, hi)
    ensures AddsExactly(exts, e, NewExtents(exts, pos, e, combine)) <==> ExactWay(exts, pos, e, combine)
  {
    if ExactWay(exts, pos, e, combine) {
      ExactAdds(exts, pos, e, combine);
    } else {
      InexactMisses(exts, pos, e, combine, lo, hi);
      assert MapsOne(e, e.first, e.start, e.Unwritten());
    }
  }

  lemma ExactAdds(exts: seq<Extent>, pos: nat, e: Extent, combine: bool)
    requires exts == [] || pos < |exts|
    requires 0 < e.Len() && (exts != [] ==> 0 < exts[pos].Len()) && ExactWay(exts, pos, e, combine)
    ensures AddsExactly(exts, e, NewExtents(exts, pos, e, combine))
  {
    if WayOf(exts, pos, e, combine).Append? {
      AppendAdds(exts, pos, e);
    } else {
      EntryAdds(exts, Slot(exts, pos, e), e);
    }
  }

  // What is added to one stretch of a list is added to the whole.
  lemma AddsAround(x: seq<Extent>, s: seq<Extent>, z: seq<Extent>, e: Extent, out: seq<Extent>)
    requires AddsExactly(s, e, out)
    ensures AddsExactly(x + s + z, e, x + out + z)
  {
    forall b: nat, p: nat, u: bool
      ensures Maps(x + out + z, b, p, u) <==> Maps(x + s + z, b, p, u) || MapsOne(e, b, p, u)
    {
      MapsThree(x, out, z, b, p, u);
      MapsThree(x, s, z, b, p, u);
    }
  }

  // What one stretch misses and the others do not cover is missing from the whole.
  lemma MissesAround(x: seq<Extent>, s: seq<Extent>, z: seq<Extent>, e: Extent, out: seq<Extent>)
    requires 0 < e.Len() && !Maps(out, e.first, e.start, e.Unwritten())
    requires forall i :: 0 <= i < |x| ==> !x[i].Covers(e.first)
    requires forall i :: 0 <= i < |z| ==> !z[i].Covers(e.first)
    ensures !AddsExactly(x + s + z, e, x + out + z)
  {
    MapsThree(x, out, z, e.first, e.start, e.Unwritten());
    assert MapsOne(e, e.first, e.start, e.Unwritten());
  }

  // A new entry in its gap keeps the list in order.
  lemma EntryChain(exts: seq<Extent>, s: nat, e: Extent, lo: nat, hi: nat)
    requires Chain(exts, lo, hi) && s <= |exts| && 0 < e.Len() && lo <= e.first && e.End() <= hi
    requires s > 0 ==> exts[s - 1].End() <= e.first
    requires s < |exts| ==> e.End() <= exts[s].first
    ensures Chain(exts[..s] + [e] + exts[s..], lo, hi)
  {
    var a, b := exts[..s], exts[s..];
    assert Chain(a, lo, e.first) by {
      forall i | 0 <= i < |a| ensures a[i].End() <= e.first {
        assert i < s - 1 ==> exts[i].End() <= exts[s - 1].first;
      }
    }
    assert Chain(b, e.End(), hi) by {
      forall i | 0 <= i < |b| ensures e.End() <= b[i].first {
        assert b[i] == exts[s + i];
        assert 0 < i ==> exts[s].End() <= exts[s + i].first;
      }
    }
    assert Chain([e], e.first, e.End());
    ChainConcat(a, [e], lo, e.first, e.End());
    ChainConcat(a + [e], b, lo, e.End(), hi);
  }

  // A grown extent that ends before the next one keeps the list in order.
  lemma GrownChain(exts: seq<Extent>, pos: nat, y: Extent, lo: nat, hi: nat)
    requires Chain(exts, lo, hi) && pos < |exts| && y.first == exts[pos].first && 0 < y.Len() && y.End() <= hi
    requires pos + 1 < |exts| ==> y.End() <= exts[pos + 1].first
    ensures Chain(exts[pos := y], lo, hi)
  {
    forall j | pos < j < |exts| ensures y.End() <= exts[j].first {
      assert pos + 1 < j ==> exts[pos + 1].End() <= exts[j].first;
    }
  }

  // A neighbour grown downwards.
  lemma PrependedChain(exts: seq<Extent>, y: Extent, lo: nat, low: nat, hi: nat)
    requires Chain(exts, lo, hi) && exts != [] && y.End() == exts[0].End() && 0 < y.Len() && low <= lo && low <= y.first
    ensures Chain(exts[0 := y], low, hi)
  {
  }

  // Where the list starts afterwards: a new entry at or behind the first position has the keys
  // above set to the first block; the prepend branch may leave the list start below `lo`.
  function NewLow(exts: seq<Extent>, pos: nat, e: Extent, combine: bool, lo: nat): nat
    requires exts == [] || pos < |exts|
  {
    match WayOf(exts, pos, e, combine)
    case Append => lo
    case Prepend => if e.first < lo then e.first else lo
    case Entry => if pos == 0 then NewExtents(exts, pos, e, combine)[0].first else lo
  }

  // The insertion keeps the list in order.
  lemma InsertChain(exts: seq<Extent>, pos: nat, e: Extent, combine: bool, lo: nat, hi: nat)
    requires if exts == [] then pos == 0 else pos < |exts|
    requires Chain(exts, lo, hi) && InGap(exts, pos, e, hi)
    ensures Chain(NewExtents(exts, pos, e, combine), NewLow(exts, pos, e, combine, lo), hi)
  {
    match WayOf(exts, pos, e, combine)
    case Append => GrownChain(exts, pos, Grown(exts[pos], e), lo, hi);
    case Prepend =>
      PrependedChain(exts, Grown(exts[pos], e).(first := e.first), lo, NewLow(exts, pos, e, combine, lo), hi);
    case Entry => PlacedChain(exts, pos, e, lo, hi);
  }

  lemma PlacedChain(exts: seq<Extent>, pos: nat, e: Extent, lo: nat, hi: nat)
    requires if exts == [] then pos == 0 else pos < |exts|
    requires Chain(exts, lo, hi) && InGap(exts, pos, e, hi)
    ensures var s := Slot(exts, pos, e);
            var out := exts[..s] + [e] + exts[s..];
            Chain(out, if pos == 0 then out[0].first else lo, hi)
  {
    var s := Slot(exts, pos, e);
    if s == 0 {
      NoneBelow(exts, lo, e.first, hi);
      EntryChain(exts, s, e, e.first, hi);
    } else {
      EntryChain(exts, s, e, lo, hi);
      var out := exts[..s] + [e] + exts[s..];
      assert out[0] == exts[0];
      NoneBelow(out, lo, out[0].first, hi);
    }
  }

  // A list with one extent put in by its first block.
  function Placed(s: seq<Extent>, e: Extent): (r: seq<Extent>)
    ensures |r| == |s| + 1
  {
    if s == [] || e.first < s[0].first then [e] + s else [s[0]] + Placed(s[1..], e)
  }

  lemma {:induction false} PlacedAt(s: seq<Extent>, k: nat, e: Extent)
    requires k <= |s| && (forall i :: 0 <= i < k ==> s[i].first <= e.first)
    requires k < |s| ==> e.first < s[k].first
    ensures Placed(s, e) == s[..k] + [e] + s[k..]
  {
    if k > 0 {
      PlacedAt(s[1..], k - 1, e);
      assert s[..k] == [s[0]] + s[1..][..k - 1] && s[k..] == s[1..][k - 1..];
    }
  }

  // What the prepend branch leaves: from the first new block on to the end of the neighbour the
  // blocks are mapped from the neighbour's old physical start on, and in its state.
  lemma PrependLeaves(exts: seq<Extent>, pos: nat, e: Extent, combine: bool, lo: nat, hi: nat)
    requires if exts == [] then pos == 0 else pos < |exts|
    requires Chain(exts, lo, hi) && InGap(exts, pos, e, hi) && WayOf(exts, pos, e, combine).Prepend?
    ensures forall b: nat, p: nat, u: bool ::
              Maps(NewExtents(exts, pos, e, combine), b, p, u) <==>
              if e.first <= b < exts[0].End() then p == exts[0].start + (b - e.first) && u == exts[0].Unwritten()
              else Maps(exts, b, p, u)
  {
    var y := Grown(exts[0], e).(first := e.first);
    assert pos == 0 && NewExtents(exts, pos, e, combine) == exts[0 := y];
    forall b: nat, p: nat, u: bool
      ensures Maps(NewExtents(exts, pos, e, combine), b, p, u) <==>
              if e.first <= b < exts[0].End() then p == exts[0].start + (b - e.first) && u == exts[0].Unwritten()
              else Maps(exts, b, p, u)
    {
      MapsReplaced(exts, 0, y, b, p, u);
      MapsReplaced(exts, 0, exts[0], b, p, u);
      assert exts == exts[0 := exts[0]];
      if e.first <= b < exts[0].End() {
        NothingThere(exts, b, p, u);
      }
    }
  }

  lemma NothingThere(exts: seq<Extent>, b: nat, p: nat, u: bool)
    requires exts != [] && b < exts[0].End() && forall i :: 0 < i < |exts| ==> exts[0].End() <= exts[i].first
    ensures !Maps(exts[1..], b, p, u)
  {
  }

  // The block before a written extent, backed by the physical block before it: the merge
  // leaves both blocks with the wrong physical block.
  lemma PrependShifts()
    ensures var exts, e := [Extent(5, 1, 105)], Extent(4, 1, 104);
            && Chain(exts, 0, LIMIT) && InGap(exts, 0, e, LIMIT) && WayOf(exts, 0, e, true).Prepend?
            && NewExtents(exts, 0, e, true) == [Extent(4, 2, 105)]
            && !AddsExactly(exts, e, NewExtents(exts, 0, e, true))
  {
    InsertExact([Extent(5, 1, 105)], 0, Extent(4, 1, 104), true, 0, LIMIT);
  }

  // A written block behind an unwritten extent becomes unwritten.
  lemma AppendMixes()
    ensures var exts, e := [Extent(5, MarkUnwritten(1), 105)], Extent(6, 1, 106);
            && Chain(exts, 0, LIMIT) && InGap(exts, 0, e, LIMIT) && WayOf(exts, 0, e, true).Append?
            && NewExtents(exts, 0, e, true) == [Extent(5, MarkUnwritten(2), 105)]
            && !AddsExactly(exts, e, NewExtents(exts, 0, e, true))
  {
    InsertExact([Extent(5, MarkUnwritten(1), 105)], 0, Extent(6, 1, 106), true, 0, LIMIT);
  }

  lemma NoneBelow(exts: seq<Extent>, lo: nat, low: nat, hi: nat)
    requires Chain(exts, lo, hi) && low <= hi && (exts != [] ==> low <= exts[0].first)
    ensures Chain(exts, low, hi)
  {
    forall i | 0 <= i < |exts| ensures low <= exts[i].first {
      assert 0 < i ==> exts[0].End() <= exts[i].first;
    }
  }
}
