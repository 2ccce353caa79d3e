// Reading a file: runs of neighbouring blocks are read at once. Holes are filled with zeros
// only where the read starts inside a block.

module FileRead {
  import opened Bytes
  import opened Arith
  import Seqs

  // The device as blocks of bs bytes, and the physical block of each block of the file, 0 for
  // a hole.
  datatype Disk = Disk(bs: nat, blocks: seq<seq<byte>>, table: seq<nat>)

  predicate Shaped(d: Disk) {
    && d.bs > 0 && d.blocks != [] && (forall b :: 0 <= b < |d.blocks| ==> |d.blocks[b]| == d.bs)
    && (forall i :: 0 <= i < |d.table| ==> d.table[i] < |d.blocks|)
  }

  function Zeros(n: nat): (z: seq<byte>) { seq(n, _ => 0) }

  // ---------------------------------------------------------------- what the file holds

  // A block of the file: zeros in a hole.
  function Real(d: Disk, j: nat): (s: seq<byte>)
    requires Shaped(d) && j < |d.table|
    ensures |s| == d.bs
  {
    if d.table[j] == 0 then Zeros(d.bs) else d.blocks[d.table[j]]
  }

  // The blocks of the file from a up to b, one by one.
  function RealRange(d: Disk, a: nat, b: nat): (s: seq<byte>)
    requires Shaped(d) && a <= b <= |d.table|
    decreases b
  {
    if a == b then [] else RealRange(d, a, b - 1) + Real(d, b - 1)
  }

  function Content(d: Disk): seq<byte>
    requires Shaped(d)
  {
    RealRange(d, 0, |d.table|)
  }

  lemma {:induction false} RealLength(d: Disk, a: nat, b: nat)
    requires Shaped(d) && a <= b <= |d.table|
    ensures |RealRange(d, a, b)| == d.bs * (b - a)
    decreases b
  {
    if a < b {
      RealLength(d, a, b - 1);
      assert d.bs * (b - a) == d.bs * (b - 1 - a) + d.bs;
    }
  }

  lemma {:induction false} RealJoin(d: Disk, a: nat, b: nat, c: nat)
    requires Shaped(d) && a <= b <= c <= |d.table|
    ensures RealRange(d, a, c) == RealRange(d, a, b) + RealRange(d, b, c)
    decreases c
  {
    if b < c {
      RealJoin(d, a, b, c - 1);
      Seqs.Assoc(RealRange(d, a, b), RealRange(d, b, c - 1), Real(d, c - 1));
    }
  }

  // ---------------------------------------------------------------- what the loop reads

  // The physical block that is delivered for block j of the whole blocks before `last`: for a
  // hole the block behind it, or device block 0 when that is a hole as well or there is none.
  function StandIn(d: Disk, j: nat, last: nat): (b: nat)
    requires Shaped(d) && j < |d.table|
    ensures b < |d.blocks|
  {
    if d.table[j] != 0 then d.table[j]
    else if j + 1 < last && j + 1 < |d.table| then d.table[j + 1]
    else 0
  }

  function SeenRange(d: Disk, a: nat, b: nat, last: nat): (s: seq<byte>)
    requires Shaped(d) && a <= b <= |d.table|
    decreases b
  {
    if a == b then [] else SeenRange(d, a, b - 1, last) + d.blocks[StandIn(d, b - 1, last)]
  }

  // Physical blocks read at once.
  function Run(d: Disk, start: nat, count: nat): (s: seq<byte>)
    requires Shaped(d) && start + count <= |d.blocks|
  {
    if count == 0 then [] else Run(d, start, count - 1) + d.blocks[start + count - 1]
  }

  // What is delivered for the blocks from i on lies side by side on the device.
  predicate SideBySide(d: Disk, i: nat, start: nat, count: nat, last: nat)
    requires Shaped(d)
  {
    i + count <= |d.table| && forall j :: i <= j < i + count ==> StandIn(d, j, last) == start + (j - i)
  }

  lemma {:induction false} RunSeen(d: Disk, a: nat, i: nat, start: nat, count: nat, last: nat)
    requires Shaped(d) && a <= i && SideBySide(d, i, start, count, last) && start + count <= |d.blocks|
    ensures SeenRange(d, a, i + count, last) == SeenRange(d, a, i, last) + Run(d, start, count)
  {
    if count > 0 {
      RunSeen(d, a, i, start, count - 1, last);
      assert StandIn(d, i + count - 1, last) == start + (count - 1);
      Seqs.Assoc(SeenRange(d, a, i, last), Run(d, start, count - 1), d.blocks[start + count - 1]);
    }
  }

  lemma RunFits(d: Disk, i: nat, start: nat, count: nat, last: nat)
    requires Shaped(d) && SideBySide(d, i, start, count, last) && count > 0
    ensures start + count <= |d.blocks|
  {
    assert StandIn(d, i + count - 1, last) == start + (count - 1);
  }

  // A run that is being extended: mapped neighbours, or a single hole.
  predicate Growing(d: Disk, i: nat, start: nat, count: nat)
    requires Shaped(d)
  {
    && i + count <= |d.table|
    && (count == 0 ==> start == 0)
    && (count > 0 && start == 0 ==> count == 1 && d.table[i] == 0)
    && (start > 0 ==> forall j :: i <= j < i + count ==> d.table[j] == start + (j - i))
  }

  // Extends a run of neighbouring blocks, up to the last whole block. The block that breaks
  // the run has been looked up already and is kept for the next one. A run that starts with a
  // hole takes the number of the next block for its start, and breaks.
  method Coalesce(d: Disk, i: nat, last: nat, start0: nat, count0: nat)
    returns (start: nat, count: nat, block: nat, next: nat)
    requires Shaped(d) && i < last <= |d.table| && i + count0 <= last && Growing(d, i, start0, count0)
    ensures count > 0 && i + count <= next <= last && SideBySide(d, i, start, count, last)
    ensures if next == i + count then next == last else next == i + count + 1 && block == d.table[i + count]
  {
    start, count, block, next := start0, count0, 0, i + count0;
    while next < last
      invariant i + count == next <= last && Growing(d, i, start, count)
    {
      block := d.table[next];
      next := next + 1;
      if start == 0 {
        start := block;
      }
      if start + count != block {
        break;
      }
      count := count + 1;
    }
    forall j | i <= j < i + count ensures StandIn(d, j, last) == start + (j - i) {
      assert d.table[i] == 0 ==> count == 1;
    }
  }

  // Reads the whole blocks from `first` up to `last`.
  method ReadRuns(d: Disk, first: nat, last: nat) returns (data: seq<byte>)
    requires Shaped(d) && first <= last <= |d.table|
    ensures data == SeenRange(d, first, last, last)
  {
    data := [];
    var i, start, count, next := first, 0, 0, first;
    while i < last
      invariant first <= i <= last && data == SeenRange(d, first, i, last)
      invariant i < last ==> next == i + count <= last && Growing(d, i, start, count)
    {
      var block;
      start, count, block, next := Coalesce(d, i, last, start, count);
      RunFits(d, i, start, count, last);
      RunSeen(d, first, i, start, count, last);
      data := data + Run(d, start, count);
      i := i + count;
      start, count := block, 1;
    }
  }

  // ---------------------------------------------------------------- a read

  // A span of a file: it starts `off` bytes into block i and ends `rest` bytes into `last`. The
  // whole blocks are those from `first` up to `last`.
  predicate Span(d: Disk, pos: nat, len: nat, i: nat, off: nat, last: nat, rest: nat) {
    && pos == d.bs * i + off && off < d.bs && pos + len == d.bs * last + rest && rest < d.bs
    && i <= last <= |d.table| && (rest > 0 ==> last < |d.table|) && (off > 0 ==> i < |d.table|)
    && (off > 0 && len >= d.bs - off ==> i + 1 <= last)
  }

  lemma SpanOf(d: Disk, size: nat, pos: nat, len: nat, i: nat, off: nat, last: nat, rest: nat)
    requires d.bs > 0 && size <= d.bs * |d.table| && pos + len <= size
    requires pos == d.bs * i + off && off < d.bs && pos + len == d.bs * last + rest && rest < d.bs
    ensures Span(d, pos, len, i, off, last, rest)
  {
    QuotientOrder(d.bs, i, off, last, rest);
    QuotientOrder(d.bs, last, rest, |d.table|, 0);
    QuotientOrder(d.bs, i, off, |d.table|, 0);
    if off > 0 && len >= d.bs - off {
      assert d.bs * (i + 1) == d.bs * i + d.bs;
      QuotientOrder(d.bs, i + 1, 0, last, rest);
    }
  }

  // The part of the first block, for a read that starts inside it.
  function Head(d: Disk, i: nat, off: nat, len: nat): (s: seq<byte>)
    requires Shaped(d) && off < d.bs && (off > 0 ==> i < |d.table|)
  {
    if off == 0 then [] else Real(d, i)[off..if len > d.bs - off then d.bs else off + len]
  }

  // The part of the last block.
  function Tail(d: Disk, last: nat, rest: nat): (s: seq<byte>)
    requires Shaped(d) && rest < d.bs && (rest > 0 ==> last < |d.table|)
  {
    if rest > 0 then Real(d, last)[..rest] else []
  }

  // The read stays inside its first block.
  predicate Inside(d: Disk, off: nat, len: nat) { off > 0 && len < d.bs - off }

  function FirstWhole(i: nat, off: nat): nat { if off > 0 then i + 1 else i }

  // What the file holds in a span.
  function Wanted(d: Disk, i: nat, off: nat, len: nat, last: nat, rest: nat): (s: seq<byte>)
    requires Shaped(d) && off < d.bs && rest < d.bs && (off > 0 ==> i < |d.table|) && (rest > 0 ==> last < |d.table|)
    requires !Inside(d, off, len) ==> FirstWhole(i, off) <= last <= |d.table|
  {
    if Inside(d, off, len) then Head(d, i, off, len)
    else
      Head(d, i, off, len) + RealRange(d, FirstWhole(i, off), last)
      + Tail(d, last, rest)
  }

  // What is delivered for it.
  function Delivered(d: Disk, i: nat, off: nat, len: nat, last: nat, rest: nat): (s: seq<byte>)
    requires Shaped(d) && off < d.bs && rest < d.bs && (off > 0 ==> i < |d.table|) && (rest > 0 ==> last < |d.table|)
    requires !Inside(d, off, len) ==> FirstWhole(i, off) <= last <= |d.table|
  {
    if Inside(d, off, len) then Head(d, i, off, len)
    else
      Head(d, i, off, len) + SeenRange(d, FirstWhole(i, off), last, last)
      + if rest > 0 then d.blocks[d.table[last]][..rest] else []
  }

  // The rest of a block, runs of whole blocks, the start of a block.
  method ReadSpan(d: Disk, ghost pos: nat, len: nat, i: nat, off: nat, last: nat, rest: nat) returns (data: seq<byte>)
    requires Shaped(d) && Span(d, pos, len, i, off, last, rest)
    ensures data == Delivered(d, i, off, len, last, rest)
  {
    data := [];
    var first := i;
    if off > 0 {
      var n := if len > d.bs - off then d.bs - off else len;
      data := if d.table[i] != 0 then d.blocks[d.table[i]][off..off + n] else Zeros(n);
      assert data == Head(d, i, off, len);
      if n == len && n < d.bs - off {
        return;
      }
      first := first + 1;
    }
    var whole := ReadRuns(d, first, last);
    data := data + whole;
    if rest > 0 {
      data := data + d.blocks[d.table[last]][..rest];
    }
  }

  // Reads from the file position, at most to the end of the file.
  method Read(d: Disk, size: nat, pos: nat, count: nat) returns (data: seq<byte>, pos': nat)
    requires Shaped(d) && size <= d.bs * |d.table| && pos <= size
    ensures var len := if count > size - pos then size - pos else count;
            && pos' == pos + len && pos + len <= |Content(d)|
            && (data == Content(d)[pos..pos + len] <==> Harmless(d, pos, len))
  {
    var len := if count > size - pos then size - pos else count;
    ghost var i, off := DivMod(pos, d.bs);
    ghost var last, rest := DivMod(pos + len, d.bs);
    SpanOf(d, size, pos, len, i, off, last, rest);
    data := ReadSpan(d, pos, len, pos / d.bs, pos % d.bs, (pos + len) / d.bs, (pos + len) % d.bs);
    pos' := pos + len;
    assert data == Delivered(d, i, off, len, last, rest);
    RightWhenHarmless(d, pos, len, i, off, last, rest);
  }

  // ---------------------------------------------------------------- when it is right

  // What stands in for each hole behind the first part of a block holds zeros.
  predicate HolesZero(d: Disk, i: nat, off: nat, len: nat, last: nat, rest: nat)
    requires Shaped(d) && last <= |d.table| && (rest > 0 ==> last < |d.table|) && rest < d.bs
  {
    || Inside(d, off, len)
    || ((forall j :: FirstWhole(i, off) <= j < last && d.table[j] == 0 ==> d.blocks[StandIn(d, j, last)] == Zeros(d.bs))
        && (rest > 0 && d.table[last] == 0 ==> d.blocks[0][..rest] == Zeros(rest)))
  }

  // The same for a position and a length.
  predicate Harmless(d: Disk, pos: nat, len: nat)
    requires Shaped(d)
  {
    var last, rest := (pos + len) / d.bs, (pos + len) % d.bs;
    last <= |d.table| && (rest > 0 ==> last < |d.table|) && HolesZero(d, pos / d.bs, pos % d.bs, len, last, rest)
  }

  lemma {:induction false} RangesAgree(d: Disk, a: nat, b: nat, last: nat)
    requires Shaped(d) && a <= b <= |d.table|
    ensures |SeenRange(d, a, b, last)| == |RealRange(d, a, b)|
    ensures SeenRange(d, a, b, last) == RealRange(d, a, b) <==>
            forall j :: a <= j < b && d.table[j] == 0 ==> d.blocks[StandIn(d, j, last)] == Zeros(d.bs)
    decreases b
  {
    if a < b {
      RangesAgree(d, a, b - 1, last);
      var x, y := d.blocks[StandIn(d, b - 1, last)], Real(d, b - 1);
      SameParts(SeenRange(d, a, b - 1, last), x, RealRange(d, a, b - 1), y);
      assert x == y <==> (d.table[b - 1] == 0 ==> x == Zeros(d.bs));
    }
  }

  lemma SameParts(a: seq<byte>, b: seq<byte>, x: seq<byte>, y: seq<byte>)
    requires |a| == |x|
    ensures a + b == x + y <==> a == x && b == y
  {
    if a + b == x + y {
      assert a == (a + b)[..|a|] && x == (x + y)[..|a|];
      assert b == (a + b)[|a|..] && y == (x + y)[|a|..];
    }
  }

  // What is delivered is what the file holds if and only if zeros stand in for its holes.
  lemma DeliveredRight(d: Disk, i: nat, off: nat, len: nat, last: nat, rest: nat)
    requires Shaped(d) && off < d.bs && rest < d.bs && last <= |d.table|
    requires (off > 0 ==> i < |d.table|) && (rest > 0 ==> last < |d.table|)
    requires !Inside(d, off, len) ==> FirstWhole(i, off) <= last
    ensures Delivered(d, i, off, len, last, rest) == Wanted(d, i, off, len, last, rest) <==>
            HolesZero(d, i, off, len, last, rest)
  {
    if !Inside(d, off, len) {
      var first, h := FirstWhole(i, off), Head(d, i, off, len);
      var s, r := SeenRange(d, first, last, last), RealRange(d, first, last);
      var x := if rest > 0 then d.blocks[d.table[last]][..rest] else [];
      var y := Tail(d, last, rest);
      RangesAgree(d, first, last, last);
      SameParts(h + s, x, h + r, y);
      SameParts(h, s, h, r);
      assert rest > 0 ==> Zeros(d.bs)[..rest] == Zeros(rest);
      assert x == y <==> (rest > 0 && d.table[last] == 0 ==> d.blocks[0][..rest] == Zeros(rest));
    }
  }

  lemma RightWhenHarmless(d: Disk, pos: nat, len: nat, i: nat, off: nat, last: nat, rest: nat)
    requires Shaped(d) && Span(d, pos, len, i, off, last, rest)
    ensures pos + len <= |Content(d)|
    ensures Delivered(d, i, off, len, last, rest) == Content(d)[pos..pos + len] <==>
            HolesZero(d, i, off, len, last, rest)
  {
    WantedIsContent(d, pos, len, i, off, last, rest);
    DeliveredRight(d, i, off, len, last, rest);
  }

  // The file's own bytes of a span, put together from its blocks.
  lemma WantedIsContent(d: Disk, pos: nat, len: nat, i: nat, off: nat, last: nat, rest: nat)
    requires Shaped(d) && Span(d, pos, len, i, off, last, rest)
    ensures !Inside(d, off, len) ==> FirstWhole(i, off) <= last
    ensures pos + len <= |Content(d)| && Wanted(d, i, off, len, last, rest) == Content(d)[pos..pos + len]
  {
    if Inside(d, off, len) {
      BlockOfContent(d, i, off, off + len);
    } else {
      PartsOfContent(d, pos, len, i, off, last, rest);
    }
  }

  lemma PartsOfContent(d: Disk, pos: nat, len: nat, i: nat, off: nat, last: nat, rest: nat)
    requires Shaped(d) && Span(d, pos, len, i, off, last, rest) && !Inside(d, off, len)
    ensures pos + len <= |Content(d)| && Wanted(d, i, off, len, last, rest) == Content(d)[pos..pos + len]
  {
    var first, head := FirstWhole(i, off), |Head(d, i, off, len)|;
    assert pos + head == d.bs * first && pos + head <= |Content(d)|
           && Head(d, i, off, len) == Content(d)[pos..pos + head] by {
      HeadOfContent(d, pos, len, i, off);
    }
    assert 0 <= d.bs * last && d.bs * last + rest <= |Content(d)|
           && Tail(d, last, rest) == Content(d)[d.bs * last..d.bs * last + rest] by {
      TailOfContent(d, last, rest);
    }
    assert d.bs * first <= d.bs * last && RealRange(d, first, last) == Content(d)[d.bs * first..d.bs * last] by {
      BlocksOfContent(d, first, last);
    }
    Joined(Content(d), pos, Head(d, i, off, len), RealRange(d, first, last), Tail(d, last, rest), d.bs * last,
           pos + len);
  }

  lemma Joined(c: seq<byte>, x: nat, head: seq<byte>, mid: seq<byte>, tail: seq<byte>, q: nat, y: nat)
    requires x + |head| <= q <= y <= |c|
    requires head == c[x..x + |head|] && mid == c[x + |head|..q] && tail == c[q..y]
    ensures head + mid + tail == c[x..y]
  {
    Seqs.Slices(c, x, x + |head|, q);
    Seqs.Slices(c, x, q, y);
  }

  lemma HeadOfContent(d: Disk, pos: nat, len: nat, i: nat, off: nat)
    requires Shaped(d) && pos == d.bs * i + off && off < d.bs && (off > 0 ==> i < |d.table|) && i <= |d.table|
    requires !Inside(d, off, len)
    ensures d.bs * FirstWhole(i, off) == pos + |Head(d, i, off, len)| <= |Content(d)|
    ensures Head(d, i, off, len) == Content(d)[pos..pos + |Head(d, i, off, len)|]
  {
    if off > 0 {
      assert d.bs * (i + 1) == d.bs * i + d.bs;
      BlockOfContent(d, i, off, d.bs);
    } else {
      BlocksOfContent(d, i, |d.table|);
    }
  }

  lemma TailOfContent(d: Disk, last: nat, rest: nat)
    requires Shaped(d) && rest < d.bs && last <= |d.table| && (rest > 0 ==> last < |d.table|)
    ensures 0 <= d.bs * last && d.bs * last + rest <= |Content(d)|
    ensures Tail(d, last, rest) == Content(d)[d.bs * last..d.bs * last + rest]
  {
    if rest > 0 {
      BlockOfContent(d, last, 0, rest);
    } else {
      BlocksOfContent(d, last, last);
    }
  }

  lemma BlocksOfContent(d: Disk, a: nat, b: nat)
    requires Shaped(d) && a <= b <= |d.table|
    ensures 0 <= d.bs * a <= d.bs * b <= |Content(d)| && Content(d)[d.bs * a..d.bs * b] == RealRange(d, a, b)
  {
    var x, y, z := RealRange(d, 0, a), RealRange(d, a, b), RealRange(d, b, |d.table|);
    RealJoin(d, 0, b, |d.table|);
    RealJoin(d, 0, a, b);
    RealLength(d, 0, a);
    RealLength(d, 0, b);
    MulMono(d.bs, 0, a);
    MulMono(d.bs, a, b);
    assert (x + y + z)[|x|..|x + y|] == y;
  }

  lemma BlockOfContent(d: Disk, j: nat, from: nat, to: nat)
    requires Shaped(d) && j < |d.table| && from <= to <= d.bs
    ensures d.bs * j >= 0 && d.bs * j + to <= |Content(d)|
    ensures Content(d)[d.bs * j + from..d.bs * j + to] == Real(d, j)[from..to]
  {
    var p, q, c := d.bs * j, d.bs * (j + 1), Content(d);
    assert q == p + d.bs;
    assert 0 <= p <= q <= |c| && c[p..q] == Real(d, j) by {
      BlocksOfContent(d, j, j + 1);
      assert RealRange(d, j, j + 1) == [] + Real(d, j);
    }
    SliceOfSlice(c, p, q, from, to);
  }

  lemma SliceOfSlice(c: seq<byte>, p: nat, q: nat, from: nat, to: nat)
    requires p <= q <= |c| && from <= to <= q - p
    ensures c[p..q][from..to] == c[p + from..p + to]
  {
    assert |c[p..q][from..to]| == to - from;
    assert forall k :: 0 <= k < to - from ==> c[p..q][from..to][k] == c[p + from..p + to][k];
  }

  // No block of the device starts with a zero byte.
  predicate NoZeroBlock(d: Disk)
    requires Shaped(d)
  {
    forall b :: 0 <= b < |d.blocks| ==> d.blocks[b][0] != 0
  }

  // On such a device a read is right exactly when its whole blocks and its last part have no
  // hole: nothing else can pass for zeros.
  lemma HolesShow(d: Disk, i: nat, off: nat, len: nat, last: nat, rest: nat)
    requires Shaped(d) && NoZeroBlock(d) && rest < d.bs && last <= |d.table| && (rest > 0 ==> last < |d.table|)
    requires !Inside(d, off, len)
    ensures HolesZero(d, i, off, len, last, rest) <==>
            && (forall j :: FirstWhole(i, off) <= j < last ==> d.table[j] != 0)
            && (rest > 0 ==> d.table[last] != 0)
  {
    forall j | FirstWhole(i, off) <= j < last && d.table[j] == 0 ensures d.blocks[StandIn(d, j, last)] != Zeros(d.bs) {
      assert Zeros(d.bs)[0] == 0;
    }
    assert rest > 0 ==> d.blocks[0][..rest][0] != Zeros(rest)[0];
  }

  // A hole in front of physical block 57: that block is delivered twice.
  lemma HoleRepeatsNext(d: Disk)
    requires Shaped(d) && d.table == [0, 57] && |d.blocks| > 57
    ensures SeenRange(d, 0, 2, 2) == d.blocks[57] + d.blocks[57]
    ensures RealRange(d, 0, 2) == Zeros(d.bs) + d.blocks[57]
  {
    assert StandIn(d, 0, 2) == 57 && StandIn(d, 1, 2) == 57;
    assert SeenRange(d, 0, 1, 2) == [] + d.blocks[57];
    assert RealRange(d, 0, 1) == [] + Zeros(d.bs);
  }
}
