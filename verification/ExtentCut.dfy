// Removing a range of logical blocks from a list of extents and from one leaf.

module ExtentCut {
  import Seqs
  import opened ExtentTree
  import opened ExtentLeaf

  // The blocks of an extent from a up to b, in the same written state.
  function Piece(e: Extent, a: nat, b: nat): (x: Extent)
    requires e.first <= a < b <= e.End()
    ensures x.first == a && x.End() == b && x.Unwritten() == e.Unwritten()
  {
    Extent(a, if e.Unwritten() then MarkUnwritten(b - a) else b - a, e.start + (a - e.first))
  }

  // The extent has a block in the range.
  predicate Meets(e: Extent, from: nat, to: nat) {
    from < e.End() && e.first <= to && 0 < e.Len()
  }

  // What is left of an extent.
  function Keep(e: Extent, from: nat, to: nat): (s: seq<Extent>) {
    if !Meets(e, from, to) || to < from then [e]
    else
      (if e.first < from then [Piece(e, e.first, from)] else [])
      + (if to + 1 < e.End() then [Piece(e, to + 1, e.End())] else [])
  }

  function Cut(s: seq<Extent>, from: nat, to: nat): (r: seq<Extent>) {
    if s == [] then [] else Keep(s[0], from, to) + Cut(s[1..], from, to)
  }

  // A run of physical blocks.
  datatype Run = Run(start: nat, len: nat)

  // The physical blocks of an extent inside the range.
  function Freed(e: Extent, from: nat, to: nat): (s: seq<Run>) {
    if !Meets(e, from, to) || to < from then []
    else
      var a := if e.first < from then from else e.first;
      var b := if to + 1 < e.End() then to + 1 else e.End();
      [Run(e.start + (a - e.first), b - a)]
  }

  function Runs(s: seq<Extent>, from: nat, to: nat): (r: seq<Run>) {
    if s == [] then [] else Freed(s[0], from, to) + Runs(s[1..], from, to)
  }

  // ---------------------------------------------------------------- what they mean

  predicate Within(b: nat, from: nat, to: nat) { from <= b <= to }

  // Exactly the mappings of the range are gone.
  ghost predicate RemovesExactly(s: seq<Extent>, from: nat, to: nat, out: seq<Extent>) {
    forall b: nat, p: nat, u: bool :: Maps(out, b, p, u) <==> Maps(s, b, p, u) && !Within(b, from, to)
  }

  lemma KeepMaps(e: Extent, from: nat, to: nat, b: nat, p: nat, u: bool)
    requires 0 < e.Len() && from <= to
    ensures Maps(Keep(e, from, to), b, p, u) <==> MapsOne(e, b, p, u) && !Within(b, from, to)
  {
    if !Meets(e, from, to) {
      MapsSingle(e, b, p, u);
    } else {
      var l := if e.first < from then [Piece(e, e.first, from)] else [];
      var r := if to + 1 < e.End() then [Piece(e, to + 1, e.End())] else [];
      MapsConcat(l, r, b, p, u);
      if e.first < from {
        MapsSingle(Piece(e, e.first, from), b, p, u);
      }
      if to + 1 < e.End() {
        MapsSingle(Piece(e, to + 1, e.End()), b, p, u);
      }
    }
  }

  predicate NonEmpty(s: seq<Extent>) {
    forall i :: 0 <= i < |s| ==> 0 < s[i].Len()
  }

  lemma {:induction false} CutMaps(s: seq<Extent>, from: nat, to: nat, b: nat, p: nat, u: bool)
    requires NonEmpty(s) && from <= to
    ensures Maps(Cut(s, from, to), b, p, u) <==> Maps(s, b, p, u) && !Within(b, from, to)
  {
    if s != [] {
      CutMaps(s[1..], from, to, b, p, u);
      KeepMaps(s[0], from, to, b, p, u);
      MapsConcat(Keep(s[0], from, to), Cut(s[1..], from, to), b, p, u);
      MapsConcat([s[0]], s[1..], b, p, u);
      MapsSingle(s[0], b, p, u);
      assert s == [s[0]] + s[1..];
    }
  }

  lemma CutRemoves(s: seq<Extent>, from: nat, to: nat)
    requires NonEmpty(s) && from <= to
    ensures RemovesExactly(s, from, to, Cut(s, from, to))
  {
    forall b: nat, p: nat, u: bool
      ensures Maps(Cut(s, from, to), b, p, u) <==> Maps(s, b, p, u) && !Within(b, from, to)
    {
      CutMaps(s, from, to, b, p, u);
    }
  }

  // Physical block p lies in one of the runs.
  predicate InRuns(runs: seq<Run>, p: nat) {
    exists i :: 0 <= i < |runs| && runs[i].start <= p < runs[i].start + runs[i].len
  }

  // Some block of the range is mapped to p.
  ghost predicate Backs(s: seq<Extent>, from: nat, to: nat, p: nat) {
    exists b: nat, u: bool :: Within(b, from, to) && Maps(s, b, p, u)
  }

  lemma RunsConcatIn(x: seq<Run>, y: seq<Run>, p: nat)
    ensures InRuns(x + y, p) <==> InRuns(x, p) || InRuns(y, p)
  {
    var s := x + y;
    if InRuns(x, p) {
      var i :| 0 <= i < |x| && x[i].start <= p < x[i].start + x[i].len;
      assert s[i] == x[i];
    }
    if InRuns(y, p) {
      var i :| 0 <= i < |y| && y[i].start <= p < y[i].start + y[i].len;
      assert s[|x| + i] == y[i];
    }
    if InRuns(s, p) {
      var i :| 0 <= i < |s| && s[i].start <= p < s[i].start + s[i].len;
      assert s[i] == if i < |x| then x[i] else y[i - |x|];
    }
  }

  lemma FreedBacks(e: Extent, from: nat, to: nat, p: nat)
    requires 0 < e.Len() && from <= to
    ensures InRuns(Freed(e, from, to), p) <==> Backs([e], from, to, p)
  {
    var runs := Freed(e, from, to);
    if InRuns(runs, p) {
      var b := e.first + (p - e.start);
      MapsSingle(e, b, p, e.Unwritten());
      assert Within(b, from, to) && MapsOne(e, b, p, e.Unwritten());
    }
    if Backs([e], from, to, p) {
      var b: nat, u: bool :| Within(b, from, to) && Maps([e], b, p, u);
      MapsSingle(e, b, p, u);
      assert runs[0].start <= p < runs[0].start + runs[0].len;
    }
  }

  lemma BacksConcat(x: seq<Extent>, y: seq<Extent>, from: nat, to: nat, p: nat)
    ensures Backs(x + y, from, to, p) <==> Backs(x, from, to, p) || Backs(y, from, to, p)
  {
    forall b: nat, u: bool ensures Maps(x + y, b, p, u) <==> Maps(x, b, p, u) || Maps(y, b, p, u) {
      MapsConcat(x, y, b, p, u);
    }
  }

  // The runs hold exactly the physical blocks behind the range.
  lemma {:induction false} RunsBack(s: seq<Extent>, from: nat, to: nat, p: nat)
    requires NonEmpty(s) && from <= to
    ensures InRuns(Runs(s, from, to), p) <==> Backs(s, from, to, p)
  {
    if s != [] {
      RunsBack(s[1..], from, to, p);
      FreedBacks(s[0], from, to, p);
      RunsConcatIn(Freed(s[0], from, to), Runs(s[1..], from, to), p);
      BacksConcat([s[0]], s[1..], from, to, p);
      assert s == [s[0]] + s[1..];
    }
  }

  // ---------------------------------------------------------------- splitting the list

  lemma {:induction false} CutConcat(x: seq<Extent>, y: seq<Extent>, from: nat, to: nat)
    ensures Cut(x + y, from, to) == Cut(x, from, to) + Cut(y, from, to)
    ensures Runs(x + y, from, to) == Runs(x, from, to) + Runs(y, from, to)
  {
    if x == [] {
      assert x + y == y;
    } else {
      assert (x + y)[1..] == x[1..] + y && (x + y)[0] == x[0];
      CutConcat(x[1..], y, from, to);
      Seqs.Assoc(Keep(x[0], from, to), Cut(x[1..], from, to), Cut(y, from, to));
      Seqs.Assoc(Freed(x[0], from, to), Runs(x[1..], from, to), Runs(y, from, to));
    }
  }

  // A list that does not meet the range is left alone.
  lemma {:induction false} CutNothing(s: seq<Extent>, from: nat, to: nat)
    requires forall i :: 0 <= i < |s| ==> !Meets(s[i], from, to)
    ensures Cut(s, from, to) == s && Runs(s, from, to) == []
  {
    if s != [] {
      CutNothing(s[1..], from, to);
      assert s == [s[0]] + s[1..];
    }
  }

  lemma {:induction false} CutStep(s: seq<Extent>, k: nat, from: nat, to: nat)
    requires k < |s|
    ensures Cut(s[..k + 1], from, to) == Cut(s[..k], from, to) + Keep(s[k], from, to)
    ensures Runs(s[..k + 1], from, to) == Runs(s[..k], from, to) + Freed(s[k], from, to)
  {
    assert s[..k + 1] == s[..k] + [s[k]];
    CutConcat(s[..k], [s[k]], from, to);
    assert Cut([s[k]], from, to) == Keep(s[k], from, to) + Cut([], from, to);
    assert Runs([s[k]], from, to) == Freed(s[k], from, to) + Runs([], from, to);
  }

  // What is left is in order again.
  lemma KeepChain(e: Extent, from: nat, to: nat)
    requires 0 < e.Len() && from <= to
    ensures Chain(Keep(e, from, to), e.first, e.End())
  {
  }

  lemma {:induction false} CutChain(s: seq<Extent>, from: nat, to: nat, lo: nat, hi: nat)
    requires Chain(s, lo, hi) && from <= to
    ensures Chain(Cut(s, from, to), lo, hi)
  {
    if s != [] {
      var rest := s[1..];
      assert Chain(rest, s[0].End(), hi) by {
        assert forall i :: 0 <= i < |rest| ==> rest[i] == s[i + 1];
      }
      CutChain(rest, from, to, s[0].End(), hi);
      KeepChain(s[0], from, to);
      ChainWiden(Keep(s[0], from, to), s[0].first, s[0].End(), lo, s[0].End());
      ChainConcat(Keep(s[0], from, to), Cut(rest, from, to), lo, s[0].End(), hi);
    }
  }

  // The range may be narrowed to the blocks between the ends of the list.
  lemma {:induction false} CutClamped(s: seq<Extent>, lo: nat, hi: nat, from: nat, to: nat, from': nat, to': int)
    requires Chain(s, lo, hi) && lo < hi && from <= to
    requires from' == (if lo < from then from else lo) && to' == (if hi - 1 > to then to else hi - 1)
    requires to' >= 0
    ensures Cut(s, from', to') == Cut(s, from, to) && Runs(s, from', to') == Runs(s, from, to)
  {
    if s != [] {
      CutClamped(s[1..], lo, hi, from, to, from', to');
      assert lo <= s[0].first && s[0].End() <= hi && 0 < s[0].Len();
    }
  }

  // ---------------------------------------------------------------- one leaf

  // The part of a leaf that is removed starts at pos: no extent before it reaches the
  // range, and the extent there does not reach over it on both sides. The range may be
  // empty when it ends before that extent.
  predicate CutsFrom(exts: seq<Extent>, pos: nat, from: nat, to: nat) {
    && pos < |exts| && (from <= to || to < exts[pos].first)
    && (forall i :: 0 <= i < pos ==> exts[i].End() <= from)
    && from < exts[pos].End()
    && !(exts[pos].first < from && to + 1 < exts[pos].End())
  }

  // State of the loop over one leaf: the extents before ex are done. Those kept are in
  // front of `dest`, and at `tail` when the last one reaches over the end of the range.
  ghost predicate Progress(exts: seq<Extent>, pos: nat, from: nat, to: nat,
                           arr: seq<Extent>, ex: nat, dest: nat, tail: int, count: int, freed: seq<Run>)
  {
    && |arr| == |exts| && pos <= ex <= |exts| && arr[ex..] == exts[ex..]
    && dest <= ex && (ex == pos ==> dest == pos) && pos <= dest <= pos + 1
    && (tail == -1 || (tail == ex - 1 && dest <= tail && to < exts[tail].End()))
    && Cut(exts[..ex], from, to) == arr[..dest] + (if tail == -1 then [] else [arr[tail]])
    && Runs(exts[..ex], from, to) == freed
    && count == |exts| - ex + dest + (if tail == -1 then 0 else 1)
  }

  // Behind the range nothing is cut.
  lemma RestKept(exts: seq<Extent>, from: nat, to: nat, lo: nat, hi: nat, ex: nat)
    requires Chain(exts, lo, hi) && ex <= |exts| && (ex < |exts| ==> to < exts[ex].first)
    ensures Cut(exts, from, to) == Cut(exts[..ex], from, to) + exts[ex..]
    ensures Runs(exts, from, to) == Runs(exts[..ex], from, to)
  {
    var rest := exts[ex..];
    forall i | 0 <= i < |rest| ensures !Meets(rest[i], from, to) {
      assert rest[i] == exts[ex + i];
      assert i > 0 ==> exts[ex].End() <= exts[ex + i].first;
    }
    CutNothing(rest, from, to);
    CutConcat(exts[..ex], rest, from, to);
    Seqs.Halves(exts, ex);
    assert Runs(exts[..ex], from, to) + [] == Runs(exts[..ex], from, to);
  }

  // What closing the gap leaves.
  lemma Closed(exts: seq<Extent>, pos: nat, from: nat, to: nat, lo: nat, hi: nat,
               arr: seq<Extent>, ex: nat, dest: nat, tail: int, count: int, freed: seq<Run>)
    requires Chain(exts, lo, hi) && Progress(exts, pos, from, to, arr, ex, dest, tail, count, freed)
    requires ex < |exts| ==> to < exts[ex].first
    ensures var src := if tail == -1 then ex else tail;
            && 0 <= count == dest + (|arr| - src) && arr[..dest] + arr[src..] == Cut(exts, from, to)
            && freed == Runs(exts, from, to)
  {
    RestKept(exts, from, to, lo, hi, ex);
    if tail == -1 {
      assert arr[..dest] + [] == arr[..dest];
    } else {
      calc {
        arr[..dest] + arr[tail..];
        { Seqs.Uncons(arr, tail); }
        arr[..dest] + ([arr[tail]] + arr[ex..]);
        { Seqs.Assoc(arr[..dest], [arr[tail]], arr[ex..]); }
        arr[..dest] + [arr[tail]] + arr[ex..];
      }
    }
  }

  // One extent done.
  lemma Advance(exts: seq<Extent>, pos: nat, from: nat, to: nat, lo: nat, hi: nat,
                arr: seq<Extent>, ex: nat, dest: nat, tail: int, count: int, freed: seq<Run>, e: Extent)
    requires Chain(exts, lo, hi) && CutsFrom(exts, pos, from, to)
    requires Progress(exts, pos, from, to, arr, ex, dest, tail, count, freed)
    requires ex < |arr| && arr[ex] == e && e.first <= to
    ensures from <= to
    ensures tail == -1 && Meets(e, from, to) && !(e.first < from && to + 1 < e.End())
    ensures var log := freed + Freed(e, from, to);
            if e.first < from then
              Progress(exts, pos, from, to, arr[ex := Piece(e, e.first, from)], ex + 1, dest + 1, -1, count, log)
            else if to + 1 < e.End() then
              Progress(exts, pos, from, to, arr[ex := Piece(e, to + 1, e.End())], ex + 1, dest, ex, count, log)
            else
              Progress(exts, pos, from, to, arr, ex + 1, dest, -1, count - 1, log)
  {
    assert e == exts[ex];
    assert ex > pos ==> exts[pos].End() <= exts[ex].first;
    assert tail == -1;
    CutStep(exts, ex, from, to);
    if e.first < from {
      assert ex == pos;
      var arr' := arr[ex := Piece(e, e.first, from)];
      assert arr'[..dest + 1] == arr[..dest] + [Piece(e, e.first, from)];
      assert arr'[ex + 1..] == exts[ex + 1..];
    } else if to + 1 < e.End() {
      var arr' := arr[ex := Piece(e, to + 1, e.End())];
      assert arr'[..dest] == arr[..dest] && arr'[ex + 1..] == exts[ex + 1..];
    } else {
      assert arr[ex + 1..] == exts[ex + 1..];
    }
  }

  // Computes the part of an extent that stays, if any, and the physical run to free.
  method Trim(e: Extent, from: nat, to: nat) returns (left: seq<Extent>, run: Run)
    requires Meets(e, from, to) && from <= to && !(e.first < from && to + 1 < e.End())
    ensures left == (if e.first < from then [Piece(e, e.first, from)]
                     else if to + 1 < e.End() then [Piece(e, to + 1, e.End())] else [])
    ensures [run] == Freed(e, from, to)
  {
    var newStart, newLen, newBlock, start, len := e.first, 0, e.start, e.first, e.Len();
    if start < from {
      newLen := from - start;
      len := len - newLen;
      start := from;
    } else if start + len - 1 > to {
      newLen := start + len - 1 - to;
      len := len - newLen;
      newStart := to + 1;
      newBlock := newBlock + (to + 1 - start);
    }
    run := Run(e.start + (start - e.first), len);
    left := if newLen == 0 then []
            else [Extent(newStart, if e.Unwritten() then MarkUnwritten(newLen) else newLen, newBlock)];
  }

  // Trims and drops the extents of a leaf that meet the range, from position pos on.
  method TrimLeaf(exts: seq<Extent>, pos: nat, from: nat, to: nat, ghost lo: nat, ghost hi: nat)
    returns (arr: seq<Extent>, ex: nat, dest: nat, tail: int, count: int, freed: seq<Run>)
    requires Chain(exts, lo, hi) && CutsFrom(exts, pos, from, to)
    ensures Progress(exts, pos, from, to, arr, ex, dest, tail, count, freed)
    ensures ex < |exts| ==> to < exts[ex].first
  {
    arr, count, tail, ex, dest, freed := exts, |exts|, -1, pos, pos, [];
    CutNothing(exts[..pos], from, to);
    while ex < |arr| && arr[ex].first <= to
      invariant Progress(exts, pos, from, to, arr, ex, dest, tail, count, freed)
    {
      var e := arr[ex];
      Advance(exts, pos, from, to, lo, hi, arr, ex, dest, tail, count, freed, e);
      var left, run := Trim(e, from, to);
      freed := freed + [run];
      if left == [] {
        count := count - 1;
      } else {
        arr := arr[ex := left[0]];
        if e.first < from {
          dest := dest + 1;
        } else {
          tail := ex;
        }
      }
      ex := ex + 1;
    }
    assert ex < |arr| ==> arr[ex] == arr[ex..][0];
  }

  // Removes the range from a leaf in place, from position pos on, and closes the gap.
  method RemoveLeaf(exts: seq<Extent>, pos: nat, from: nat, to: nat, ghost lo: nat, ghost hi: nat)
    returns (out: seq<Extent>, freed: seq<Run>)
    requires Chain(exts, lo, hi) && CutsFrom(exts, pos, from, to)
    ensures out == Cut(exts, from, to) && freed == Runs(exts, from, to) && |out| <= |exts|
  {
    var arr, ex, dest, tail, count, log := TrimLeaf(exts, pos, from, to, lo, hi);
    freed := log;
    Closed(exts, pos, from, to, lo, hi, arr, ex, dest, tail, count, freed);
    var src := if tail == -1 then ex else tail;
    if src < |arr| {
      arr := arr[..dest] + arr[src..] + arr[dest + (|arr| - src)..];
    }
    out := arr[..count];
  }
}
