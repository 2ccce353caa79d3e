// A linear directory block: variable-length records laid end to end in one block.
// The methods work on the bytes; the functions describe the same steps on the
// sequence of records that the bytes encode.

module DirBlock {
  import opened Bytes
  import Seqs

  // Size of the fixed part of a record and the type byte that marks a checksum tail.
  const HEADER := 8
  const CSUM_TYPE: byte := 0xDE

  // A parsed record. A record with inode 0 is free and its name is not looked at.
  datatype Rec = Rec(inode: nat, recLen: nat, itype: byte, name: seq<byte>) {
    predicate Live() { inode != 0 }

    predicate Named(n: seq<byte>) { Live() && name == n }
  }

  // Space that a record with a name of `len` bytes needs, rounded up to four.
  function Needed(len: nat): (n: nat)
    ensures n % 4 == 0 && HEADER + len <= n < HEADER + len + 4
  {
    var size := HEADER + len;
    if size % 4 != 0 then size + 4 - size % 4 else size
  }

  // ---------------------------------------------------------------- record-level steps

  function SumLen(rs: seq<Rec>): (n: nat) {
    if rs == [] then 0 else rs[0].recLen + SumLen(rs[1..])
  }

  lemma {:induction false} SumLenConcat(a: seq<Rec>, b: seq<Rec>)
    ensures SumLen(a + b) == SumLen(a) + SumLen(b)
  {
    if a == [] {
      assert a + b == b;
    } else {
      assert (a + b)[1..] == a[1..] + b;
      SumLenConcat(a[1..], b);
    }
  }

  predicate WellSized(r: Rec) {
    && HEADER <= r.recLen
    && r.recLen % 4 == 0
    && (r.Live() ==> |r.name| <= 255 && HEADER + |r.name| <= r.recLen)
  }

  predicate AllSized(rs: seq<Rec>) {
    forall i :: 0 <= i < |rs| ==> WellSized(rs[i])
  }

  datatype Option<T> = None | Some(value: T)

  // Space that the record itself uses.
  function Used(r: Rec): nat { Needed(|r.name|) }

  predicate TakesFree(r: Rec, len: nat) {
    !r.Live() && r.itype != CSUM_TYPE && r.recLen >= Needed(len)
  }

  predicate TakesTail(r: Rec, len: nat) {
    r.Live() && r.recLen >= Used(r) + Needed(len)
  }

  predicate Takes(r: Rec, len: nat) { TakesFree(r, len) || TakesTail(r, len) }

  // Index of the first record that can take a name of this length.
  function Slot(rs: seq<Rec>, len: nat): (k: nat)
    ensures k <= |rs|
    ensures forall i :: 0 <= i < k ==> !Takes(rs[i], len)
    ensures k < |rs| ==> Takes(rs[k], len)
  {
    if rs == [] || Takes(rs[0], len) then 0 else 1 + Slot(rs[1..], len)
  }

  // A free record is taken over whole; a live one is cut and the new one gets its slack.
  function Place(r: Rec, inode: nat, itype: byte, name: seq<byte>): (rs: seq<Rec>)
    requires Takes(r, |name|)
  {
    if r.Live() then
      [r.(recLen := Used(r)), Rec(inode, r.recLen - Used(r), itype, name)]
    else
      [Rec(inode, r.recLen, itype, name)]
  }

  // Insertion uses the first record with room; without one there is no space.
  function Insert(rs: seq<Rec>, inode: nat, itype: byte, name: seq<byte>): (res: Option<seq<Rec>>)
  {
    var k := Slot(rs, |name|);
    if k == |rs| then None
    else Some(rs[..k] + Place(rs[k], inode, itype, name) + rs[k + 1..])
  }

  // The record left where a removed one was: a first record becomes free, a later one is
  // merged into its predecessor.
  function Merged(rs: seq<Rec>, k: nat): (r: Rec)
    requires k < |rs|
  {
    if k == 0 then Rec(0, rs[0].recLen, rs[0].itype, [])
    else rs[k - 1].(recLen := rs[k - 1].recLen + rs[k].recLen)
  }

  function RemoveAt(rs: seq<Rec>, k: nat): (res: seq<Rec>)
    requires k < |rs|
  {
    rs[..if k == 0 then 0 else k - 1] + [Merged(rs, k)] + rs[k + 1..]
  }

  // ---------------------------------------------------------------- directory contents

  datatype Entry = Entry(name: seq<byte>, inode: nat, itype: byte)

  // The live entries of a block, with repetitions.
  function Live(rs: seq<Rec>): (m: multiset<Entry>) {
    if rs == [] then multiset{}
    else if rs[0].Live() then multiset{Entry(rs[0].name, rs[0].inode, rs[0].itype)} + Live(rs[1..])
    else Live(rs[1..])
  }

  lemma {:induction false} LiveConcat(a: seq<Rec>, b: seq<Rec>)
    ensures Live(a + b) == Live(a) + Live(b)
  {
    if a == [] {
      assert a + b == b;
    } else {
      assert (a + b)[1..] == a[1..] + b;
      LiveConcat(a[1..], b);
    }
  }

  lemma {:induction false} LiveHas(rs: seq<Rec>, e: Entry)
    ensures e in Live(rs) <==>
            exists i :: 0 <= i < |rs| && rs[i].Live() && Entry(rs[i].name, rs[i].inode, rs[i].itype) == e
  {
    if rs != [] {
      LiveHas(rs[1..], e);
      if e in Live(rs[1..]) {
        var i :| 0 <= i < |rs[1..]| && rs[1..][i].Live() &&
                 Entry(rs[1..][i].name, rs[1..][i].inode, rs[1..][i].itype) == e;
        assert rs[i + 1] == rs[1..][i];
      }
      forall i | 0 < i < |rs| ensures rs[i] == rs[1..][i - 1] {
      }
    }
  }

  lemma LiveAround(a: seq<Rec>, m: seq<Rec>, b: seq<Rec>)
    ensures Live(a + m + b) == Live(a) + Live(m) + Live(b)
  {
    LiveConcat(a + m, b);
    LiveConcat(a, m);
  }

  lemma LenAround(a: seq<Rec>, m: seq<Rec>, b: seq<Rec>)
    ensures SumLen(a + m + b) == SumLen(a) + SumLen(m) + SumLen(b)
  {
    SumLenConcat(a + m, b);
    SumLenConcat(a, m);
  }

  lemma SizedAround(a: seq<Rec>, m: seq<Rec>, b: seq<Rec>)
    requires AllSized(a) && AllSized(m) && AllSized(b)
    ensures AllSized(a + m + b)
  {
    var s := a + m + b;
    forall i | 0 <= i < |s| ensures WellSized(s[i]) {
      if i < |a| {
        assert s[i] == a[i];
      } else if i < |a| + |m| {
        assert s[i] == m[i - |a|];
      } else {
        assert s[i] == b[i - |a| - |m|];
      }
    }
  }

  lemma Pair(r: Rec, q: Rec)
    ensures Live([r, q]) == Live([r]) + Live([q])
    ensures SumLen([r, q]) == r.recLen + q.recLen
  {
    LiveConcat([r], [q]);
    SumLenConcat([r], [q]);
    assert [r, q] == [r] + [q];
  }

  lemma PlaceAdds(r: Rec, inode: nat, itype: byte, name: seq<byte>)
    requires inode != 0 && Takes(r, |name|)
    ensures Live(Place(r, inode, itype, name)) == Live([r]) + multiset{Entry(name, inode, itype)}
  {
    if r.Live() {
      Pair(r.(recLen := Used(r)), Rec(inode, r.recLen - Used(r), itype, name));
    }
  }

  lemma PlaceSized(r: Rec, inode: nat, itype: byte, name: seq<byte>)
    requires inode != 0 && |name| <= 255 && WellSized(r) && Takes(r, |name|)
    ensures AllSized(Place(r, inode, itype, name)) && SumLen(Place(r, inode, itype, name)) == r.recLen
  {
    if r.Live() {
      var x, y := r.(recLen := Used(r)), Rec(inode, r.recLen - Used(r), itype, name);
      Pair(x, y);
      Quarters(r.recLen, Used(r));
      assert WellSized(x) && WellSized(y);
    } else {
      LenOne(Rec(inode, r.recLen, itype, name));
    }
  }

  lemma Quarters(a: nat, b: nat)
    requires a % 4 == 0 && b % 4 == 0 && b <= a
    ensures (a - b) % 4 == 0
  {
    assert a - b == 4 * (a / 4 - b / 4);
  }

  lemma Shuffle(a: multiset<Entry>, m: multiset<Entry>, b: multiset<Entry>, e: multiset<Entry>)
    ensures a + (m + e) + b == a + m + b + e
  {
  }

  // Exchanging a stretch of records exchanges what it holds.
  lemma LiveExchange(a: seq<Rec>, x: seq<Rec>, y: seq<Rec>, b: seq<Rec>, e: multiset<Entry>)
    requires Live(y) == Live(x) + e
    ensures Live(a + y + b) == Live(a + x + b) + e
  {
    LiveAround(a, x, b);
    LiveAround(a, y, b);
    Shuffle(Live(a), Live(x), Live(b), e);
  }

  lemma LenExchange(a: seq<Rec>, x: seq<Rec>, y: seq<Rec>, b: seq<Rec>)
    requires SumLen(y) == SumLen(x)
    ensures SumLen(a + y + b) == SumLen(a + x + b)
  {
    LenAround(a, x, b);
    LenAround(a, y, b);
  }

  // A successful insert adds exactly the new entry.
  lemma InsertAdds(rs: seq<Rec>, inode: nat, itype: byte, name: seq<byte>)
    requires inode != 0 && |name| <= 255 && AllSized(rs)
    ensures var res := Insert(rs, inode, itype, name);
            res.Some? ==> Live(res.value) == Live(rs) + multiset{Entry(name, inode, itype)}
  {
    var k := Slot(rs, |name|);
    if k < |rs| {
      var a, r, b := rs[..k], rs[k], rs[k + 1..];
      PlaceAdds(r, inode, itype, name);
      LiveExchange(a, [r], Place(r, inode, itype, name), b, multiset{Entry(name, inode, itype)});
      Seqs.Cut(rs, k);
    }
  }

  // A successful insert keeps the records well sized and keeps the total length, so the
  // block stays tiled.
  lemma InsertSized(rs: seq<Rec>, inode: nat, itype: byte, name: seq<byte>)
    requires inode != 0 && |name| <= 255 && AllSized(rs)
    ensures var res := Insert(rs, inode, itype, name);
            res.Some? ==> SumLen(res.value) == SumLen(rs) && AllSized(res.value)
  {
    var k := Slot(rs, |name|);
    if k < |rs| {
      var a, r, b := rs[..k], rs[k], rs[k + 1..];
      PlaceSized(r, inode, itype, name);
      SizedAround(a, Place(r, inode, itype, name), b);
      LenOne(r);
      LenExchange(a, [r], Place(r, inode, itype, name), b);
      Seqs.Cut(rs, k);
    }
  }

  lemma LenOne(r: Rec)
    ensures SumLen([r]) == r.recLen
  {
    assert [r][1..] == [];
  }

  // The records that RemoveAt replaces by one.
  function Replaced(rs: seq<Rec>, k: nat): (x: seq<Rec>)
    requires k < |rs|
  {
    if k == 0 then [rs[0]] else [rs[k - 1], rs[k]]
  }

  lemma RemoveParts(rs: seq<Rec>, k: nat)
    requires k < |rs|
    ensures rs == rs[..if k == 0 then 0 else k - 1] + Replaced(rs, k) + rs[k + 1..]
  {
  }

  lemma MergedAway(rs: seq<Rec>, k: nat)
    requires k < |rs|
    ensures rs[k].Live() ==> Live(Replaced(rs, k)) == Live([Merged(rs, k)]) + Live([rs[k]])
    ensures SumLen(Replaced(rs, k)) == SumLen([Merged(rs, k)])
  {
    LenOne(Merged(rs, k));
    LenOne(rs[k]);
    if k > 0 {
      Pair(rs[k - 1], rs[k]);
    }
  }

  // Removing a live record deletes exactly that entry.
  lemma RemoveDeletes(rs: seq<Rec>, k: nat)
    requires k < |rs| && rs[k].Live()
    ensures Live(rs) == Live(RemoveAt(rs, k)) + multiset{Entry(rs[k].name, rs[k].inode, rs[k].itype)}
  {
    var a, b := rs[..if k == 0 then 0 else k - 1], rs[k + 1..];
    MergedAway(rs, k);
    LiveExchange(a, [Merged(rs, k)], Replaced(rs, k), b, Live([rs[k]]));
    RemoveParts(rs, k);
  }

  // Removing keeps the block tiled.
  lemma RemoveSized(rs: seq<Rec>, k: nat)
    requires k < |rs| && AllSized(rs)
    ensures SumLen(RemoveAt(rs, k)) == SumLen(rs) && AllSized(RemoveAt(rs, k))
  {
    var a, b := rs[..if k == 0 then 0 else k - 1], rs[k + 1..];
    MergedSized(rs, k);
    SizedAround(a, [Merged(rs, k)], b);
    assert SumLen(RemoveAt(rs, k)) == SumLen(rs) by {
      MergedAway(rs, k);
      LenExchange(a, [Merged(rs, k)], Replaced(rs, k), b);
      RemoveParts(rs, k);
    }
  }

  lemma MergedSized(rs: seq<Rec>, k: nat)
    requires k < |rs| && AllSized(rs)
    ensures WellSized(Merged(rs, k))
  {
    assert WellSized(rs[k]);
    if k > 0 {
      assert WellSized(rs[k - 1]);
      var x, y := rs[k - 1].recLen / 4, rs[k].recLen / 4;
      assert rs[k - 1].recLen + rs[k].recLen == 4 * (x + y);
    }
  }

  // ---------------------------------------------------------------- the block in place

  // The bytes at an offset encode this record. Only the header of a free record counts.
  predicate Holds(b: seq<byte>, off: nat, r: Rec) {
    && off + r.recLen <= |b|
    && WellSized(r)
    && U32(b, off) == r.inode
    && U16(b, off + 4) == r.recLen
    && b[off + 7] == r.itype
    && (r.Live() ==> b[off + 6] == |r.name| &&
                     forall j :: 0 <= j < |r.name| ==> b[off + HEADER + j] == r.name[j])
    && (!r.Live() ==> r.name == [])
  }

  // Inode, record length, name length, type and name, in this order.
  lemma RecordLayout()
    ensures var b: seq<byte> := [0x0C, 0x01, 0, 0, 12, 0, 2, 5, 0x61, 0x62, 0xEE, 0xEE];
            Holds(b, 0, Rec(0x010C, 12, 5, [0x61, 0x62]))
  {
  }

  // The records laid end to end from an offset on.
  predicate Encodes(b: seq<byte>, off: nat, rs: seq<Rec>)
    decreases |rs|
  {
    rs == [] || (Holds(b, off, rs[0]) && Encodes(b, off + rs[0].recLen, rs[1..]))
  }

  // The block is tiled by exactly these records.
  predicate Tiled(b: seq<byte>, rs: seq<Rec>) {
    |b| < 0x1_0000 && SumLen(rs) == |b| && Encodes(b, 0, rs)
  }

  lemma {:induction false} EncodesConcat(b: seq<byte>, off: nat, p: seq<Rec>, mid: nat, q: seq<Rec>)
    requires mid == off + SumLen(p)
    ensures Encodes(b, off, p + q) <==> Encodes(b, off, p) && Encodes(b, mid, q)
    decreases |p|
  {
    if p == [] {
      assert p + q == q;
    } else {
      assert (p + q)[0] == p[0] && (p + q)[1..] == p[1..] + q;
      EncodesConcat(b, off + p[0].recLen, p[1..], mid, q);
    }
  }

  lemma EncodesParts(b: seq<byte>, p: seq<Rec>, i: nat, x: seq<Rec>, j: nat, q: seq<Rec>)
    requires i == SumLen(p) && j == i + SumLen(x)
    ensures Encodes(b, 0, p + x + q) <==> Encodes(b, 0, p) && Encodes(b, i, x) && Encodes(b, j, q)
    ensures SumLen(p + x + q) == j + SumLen(q)
  {
    SumLenConcat(p, x);
    SumLenConcat(p + x, q);
    EncodesConcat(b, 0, p + x, j, q);
    EncodesConcat(b, 0, p, i, x);
  }

  // A record is still encoded when its own bytes did not change.
  lemma HoldsFrame(b: seq<byte>, c: seq<byte>, off: nat, r: Rec)
    requires Holds(b, off, r) && |b| == |c|
    requires forall i :: off <= i < off + r.recLen ==> b[i] == c[i]
    ensures Holds(c, off, r)
  {
    assert U32(b, off) == U32(c, off) && U16(b, off + 4) == U16(c, off + 4);
  }

  lemma {:induction false} EncodesFrame(b: seq<byte>, c: seq<byte>, off: nat, rs: seq<Rec>)
    requires Encodes(b, off, rs) && |b| == |c|
    requires forall i :: off <= i < off + SumLen(rs) && i < |b| ==> b[i] == c[i]
    ensures Encodes(c, off, rs)
    decreases |rs|
  {
    if rs != [] {
      HoldsFrame(b, c, off, rs[0]);
      EncodesFrame(b, c, off + rs[0].recLen, rs[1..]);
    }
  }

  // A block has only one reading: the records are determined by the bytes.
  lemma {:induction false} ReadingUnique(b: seq<byte>, off: nat, p: seq<Rec>, q: seq<Rec>)
    requires Encodes(b, off, p) && Encodes(b, off, q) && SumLen(p) == SumLen(q)
    ensures p == q
    decreases |p|
  {
    if p != [] && q != [] {
      assert p[0].name == q[0].name;
      ReadingUnique(b, off + p[0].recLen, p[1..], q[1..]);
      assert p == [p[0]] + p[1..] && q == [q[0]] + q[1..];
    }
  }

  // Replacing the records between two others, when only their bytes changed.
  lemma TiledReplaced(b: seq<byte>, c: seq<byte>, p: seq<Rec>, i: nat, x: seq<Rec>, m: seq<Rec>, j: nat, q: seq<Rec>)
    requires Tiled(b, p + x + q) && |b| == |c|
    requires i == SumLen(p) && i + SumLen(x) == i + SumLen(m) == j <= |b|
    requires forall k :: 0 <= k < i || j <= k < |b| ==> b[k] == c[k]
    requires Encodes(c, i, m)
    ensures Tiled(c, p + m + q)
  {
    assert Encodes(b, 0, p) && Encodes(b, j, q) && j + SumLen(q) == |b| by {
      EncodesParts(b, p, i, x, j, q);
    }
    assert Encodes(c, 0, p) && Encodes(c, j, q) by {
      OuterKept(b, c, p, i, j, q);
    }
    EncodesParts(c, p, i, m, j, q);
  }

  lemma OuterKept(b: seq<byte>, c: seq<byte>, p: seq<Rec>, i: nat, j: nat, q: seq<Rec>)
    requires Encodes(b, 0, p) && Encodes(b, j, q) && |b| == |c| && i == SumLen(p) <= |b| && j + SumLen(q) == |b|
    requires forall k :: 0 <= k < i || j <= k < |b| ==> b[k] == c[k]
    ensures Encodes(c, 0, p) && Encodes(c, j, q)
  {
    assert Encodes(c, 0, p) by {
      EncodesFrame(b, c, 0, p);
    }
    EncodesFrame(b, c, j, q);
  }

  // Writes one record at an offset; bytes behind its name keep their old values.
  method WriteEntry(a: array<byte>, off: nat, entryLen: nat, inode: nat, itype: byte, name: seq<byte>)
    requires off + entryLen <= a.Length && HEADER + |name| <= entryLen && |name| <= 255
    requires entryLen < 0x1_0000 && entryLen % 4 == 0 && 0 < inode < 0x1_0000_0000
    modifies a
    ensures Holds(a[..], off, Rec(inode, entryLen, itype, name))
    ensures forall i :: 0 <= i < off || off + entryLen <= i < a.Length ==> a[i] == old(a[i])
  {
    a[off + 7] := itype;
    PutU32(a, off, inode);
    PutU16(a, off + 4, entryLen);
    assert U32(a[..], off) == inode;
    a[off + 6] := |name|;
    label Header:
    forall i | 0 <= i < |name| {
      a[off + HEADER + i] := name[i];
    }
    assert U32(a[..], off) == old@Header(U32(a[..], off));
    assert U16(a[..], off + 4) == old@Header(U16(a[..], off + 4));
  }

  // With no room before it, the record that has room is the one used.
  lemma InsertHere(p: seq<Rec>, r: Rec, q: seq<Rec>, inode: nat, itype: byte, name: seq<byte>)
    requires |p| <= Slot(p + [r] + q, |name|) && Takes(r, |name|)
    ensures Insert(p + [r] + q, inode, itype, name) == Some(p + Place(r, inode, itype, name) + q)
  {
    var rs := p + [r] + q;
    assert rs[|p|] == r;
    assert Slot(rs, |name|) == |p|;
    assert rs[..|p|] == p && rs[|p| + 1..] == q;
  }

  lemma UsedFits(r: Rec)
    requires WellSized(r) && r.Live()
    ensures Used(r) <= r.recLen && (r.recLen - Used(r)) % 4 == 0
  {
  }

  // The walk over the records is at the first one of q.
  predicate At(b: seq<byte>, rs: seq<Rec>, p: seq<Rec>, off: nat, q: seq<Rec>) {
    rs == p + q && off == SumLen(p) && off + SumLen(q) == |b| && Encodes(b, off, q)
  }

  // One step of the walk over the records.
  lemma WalkStep(b: seq<byte>, rs: seq<Rec>, p: seq<Rec>, off: nat, q: seq<Rec>)
    requires At(b, rs, p, off, q) && off < |b|
    ensures q != [] && Holds(b, off, q[0]) && rs == p + [q[0]] + q[1..] && rs[|p|] == q[0]
    ensures At(b, rs, p + [q[0]], off + q[0].recLen, q[1..])
  {
    Seqs.Shift(p, q);
    SumLenConcat(p, [q[0]]);
  }

  // Takes over a free record.
  method TakeFree(a: array<byte>, ghost p: seq<Rec>, ghost r: Rec, ghost q: seq<Rec>,
                  start: nat, recLen: nat, inode: nat, itype: byte, name: seq<byte>)
    requires Tiled(a[..], p + [r] + q) && start == SumLen(p) && recLen == r.recLen
    requires start + recLen <= a.Length && TakesFree(r, |name|) && recLen % 4 == 0
    requires |name| <= 255 && 0 < inode < 0x1_0000_0000
    modifies a
    ensures Tiled(a[..], p + Place(r, inode, itype, name) + q)
  {
    ghost var b := a[..];
    WriteEntry(a, start, recLen, inode, itype, name);
    ghost var m := Place(r, inode, itype, name);
    assert m[1..] == [];
    TiledReplaced(b, a[..], p, start, [r], m, start + recLen, q);
  }

  // Cuts a live record down to its own size and writes the new one into the rest.
  method CutTail(a: array<byte>, ghost p: seq<Rec>, ghost r: Rec, ghost q: seq<Rec>,
                 start: nat, recLen: nat, size: nat, inode: nat, itype: byte, name: seq<byte>)
    requires Tiled(a[..], p + [r] + q) && start == SumLen(p) && recLen == r.recLen
    requires Holds(a[..], start, r) && size == Used(r) && TakesTail(r, |name|)
    requires |name| <= 255 && 0 < inode < 0x1_0000_0000
    modifies a
    ensures Tiled(a[..], p + Place(r, inode, itype, name) + q)
  {
    ghost var b := a[..];
    UsedFits(r);
    PutU16(a, start + 4, size);
    ghost var c := a[..];
    WriteEntry(a, start + size, recLen - size, inode, itype, name);
    PlacedTail(b, c, a[..], start, r, inode, itype, name);
    TiledReplaced(b, a[..], p, start, [r], Place(r, inode, itype, name), start + recLen, q);
  }

  // The bytes before the cut (b), after it (c) and after the new record was written (d).
  lemma PlacedTail(b: seq<byte>, c: seq<byte>, d: seq<byte>, off: nat, r: Rec,
                   inode: nat, itype: byte, name: seq<byte>)
    requires Holds(b, off, r) && |b| == |c| == |d| && TakesTail(r, |name|) && U16(c, off + 4) == Used(r)
    requires forall i :: 0 <= i < off + 4 || off + 6 <= i < |b| ==> c[i] == b[i]
    requires forall i :: 0 <= i < off + Used(r) || off + r.recLen <= i < |b| ==> d[i] == c[i]
    requires Holds(d, off + Used(r), Rec(inode, r.recLen - Used(r), itype, name))
    ensures Encodes(d, off, Place(r, inode, itype, name))
    ensures SumLen(Place(r, inode, itype, name)) == r.recLen
  {
    var out := Place(r, inode, itype, name);
    assert Holds(c, off, out[0]) by {
      assert U32(b, off) == U32(c, off);
    }
    HoldsFrame(c, d, off, out[0]);
    assert out[1..] == [out[1]];
    assert Encodes(d, off + Used(r), [out[1]]);
    assert SumLen([out[1]]) == out[1].recLen;
  }

  // The fields of the record at an offset.
  method ReadHeader(a: array<byte>, ghost r: Rec, off: nat)
    returns (inode: nat, recLen: nat, nameLen: nat, itype: byte)
    requires Holds(a[..], off, r)
    ensures inode == r.inode && recLen == r.recLen && itype == r.itype
    ensures r.Live() ==> nameLen == |r.name|
  {
    inode, recLen, nameLen, itype := U32(a[..], off), U16(a[..], off + 4), a[off + 6], a[off + 7];
  }

  // Inserts a record into the block, or reports that no record has room.
  method TryInsertEntry(a: array<byte>, ghost rs: seq<Rec>, inode: nat, itype: byte, name: seq<byte>)
    returns (ok: bool)
    requires Tiled(a[..], rs) && |name| <= 255 && 0 < inode < 0x1_0000_0000
    modifies a
    ensures match Insert(rs, inode, itype, name)
            case Some(out) => ok && Tiled(a[..], out)
            case None => !ok && a[..] == old(a[..])
  {
    ghost var p, q := [], rs;
    var required := Needed(|name|);
    var start := 0;
    while start < a.Length
      invariant a[..] == old(a[..]) && At(a[..], rs, p, start, q)
      invariant |p| <= Slot(rs, |name|)
      decreases a.Length - start
    {
      WalkStep(a[..], rs, p, start, q);
      ghost var r, tail := q[0], q[1..];
      var current, recLen, usedLen, currentType := ReadHeader(a, r, start);
      // An invalid and large enough entry is used as it is.
      if current == 0 && currentType != CSUM_TYPE && recLen >= required {
        InsertHere(p, r, tail, inode, itype, name);
        TakeFree(a, p, r, tail, start, recLen, inode, itype, name);
        return true;
      }
      // A valid entry is split when it has enough slack.
      if current != 0 {
        var size := Needed(usedLen);
        UsedFits(r);
        if recLen - size >= required {
          InsertHere(p, r, tail, inode, itype, name);
          CutTail(a, p, r, tail, start, recLen, size, inode, itype, name);
          return true;
        }
      }
      p, q, start := p + [r], tail, start + recLen;
    }
    assert q == [] && p == rs;
    return false;
  }

  // Some live record has this name.
  predicate Has(rs: seq<Rec>, name: seq<byte>) {
    exists i :: 0 <= i < |rs| && rs[i].Named(name)
  }

  // Index of the first live record with this name.
  function Lookup(rs: seq<Rec>, name: seq<byte>): (k: nat)
    ensures k <= |rs|
    ensures forall i :: 0 <= i < k ==> !rs[i].Named(name)
    ensures k < |rs| ==> rs[k].Named(name)
  {
    if rs == [] || rs[0].Named(name) then 0 else 1 + Lookup(rs[1..], name)
  }

  method NameMatches(a: array<byte>, ghost r: Rec, off: nat, nameLen: nat, name: seq<byte>) returns (same: bool)
    requires Holds(a[..], off, r) && r.Live() && nameLen == |r.name|
    ensures same == (r.name == name)
  {
    if nameLen != |name| {
      return false;
    }
    assert a[off + HEADER..off + HEADER + nameLen] == r.name;
    return a[off + HEADER..off + HEADER + nameLen] == name;
  }

  // Too little of the block is left for a record with so long a name.
  lemma {:induction false} TooShort(b: seq<byte>, off: nat, q: seq<Rec>, name: seq<byte>)
    requires Encodes(b, off, q) && SumLen(q) < |name|
    ensures !Has(q, name)
    decreases |q|
  {
    if q != [] {
      TooShort(b, off + q[0].recLen, q[1..], name);
      forall i | 0 <= i < |q| ensures !q[i].Named(name) {
        if i > 0 {
          assert q[i] == q[1..][i - 1];
        }
      }
    }
  }

  // Walks the block for a live record with this name and returns where it starts. The
  // walk also stops when the rest of the block is shorter than the name.
  method FindInBlock(a: array<byte>, ghost rs: seq<Rec>, name: seq<byte>)
    returns (found: bool, pos: nat, ghost k: nat)
    requires Tiled(a[..], rs)
    ensures found == Has(rs, name)
    ensures found ==> k < |rs| && k == Lookup(rs, name) && pos == SumLen(rs[..k])
  {
    ghost var p, q := [], rs;
    pos, k := 0, 0;
    while pos < a.Length
      invariant At(a[..], rs, p, pos, q) && k == |p| <= Lookup(rs, name)
      decreases a.Length - pos
    {
      WalkStep(a[..], rs, p, pos, q);
      if pos + |name| > a.Length {
        TooShort(a[..], pos, q, name);
        NotBehind(rs, p, q, name);
        return false, pos, k;
      }
      ghost var r := q[0];
      var inode, recLen, nameLen, _ := ReadHeader(a, r, pos);
      if inode != 0 {
        var same := NameMatches(a, r, pos, nameLen, name);
        if same {
          assert rs[..k] == p;
          return true, pos, k;
        }
      }
      p, q, pos, k := p + [r], q[1..], pos + recLen, k + 1;
    }
    assert q == [] && p == rs;
    return false, pos, k;
  }

  lemma NotBehind(rs: seq<Rec>, p: seq<Rec>, q: seq<Rec>, name: seq<byte>)
    requires rs == p + q && |p| <= Lookup(rs, name) && !Has(q, name)
    ensures !Has(rs, name)
  {
    forall i | 0 <= i < |rs| ensures !rs[i].Named(name) {
      if i >= |p| {
        assert rs[i] == q[i - |p|];
      }
    }
  }

  // Record i of a tiled block, with what lies before and behind it.
  lemma RecordIn(b: seq<byte>, rs: seq<Rec>, i: nat)
    requires Tiled(b, rs) && i < |rs|
    ensures Holds(b, SumLen(rs[..i]), rs[i])
    ensures SumLen(rs[..i + 1]) == SumLen(rs[..i]) + rs[i].recLen
    ensures rs == rs[..i] + [rs[i]] + rs[i + 1..]
  {
    var p, q := rs[..i], rs[i..];
    assert rs == p + q && q[0] == rs[i] && q[1..] == rs[i + 1..];
    EncodesConcat(b, 0, p, SumLen(p), q);
    SumLenConcat(p, q);
    OffsetsRise(rs, i, |rs|);
    WalkStep(b, rs, p, SumLen(p), q);
    assert rs[..i + 1] == p + [q[0]];
  }

  lemma {:induction false} OffsetsRise(rs: seq<Rec>, i: nat, j: nat)
    requires i <= j <= |rs|
    ensures SumLen(rs[..i]) <= SumLen(rs[..j])
    decreases j - i
  {
    if i < j {
      assert rs[..j] == rs[..j - 1] + [rs[j - 1]];
      SumLenConcat(rs[..j - 1], [rs[j - 1]]);
      OffsetsRise(rs, i, j - 1);
    }
  }

  // Walks to the record directly before the one at `pos`.
  method FindPredecessor(a: array<byte>, ghost b: seq<byte>, ghost rs: seq<Rec>, pos: nat, ghost k: nat)
    returns (offset: nat, len: nat)
    requires Tiled(b, rs) && 0 < k < |rs| && pos == SumLen(rs[..k]) && a.Length == |b|
    requires forall i :: 0 <= i < pos && i < |b| ==> a[i] == b[i]
    ensures offset == SumLen(rs[..k - 1]) && len == rs[k - 1].recLen && offset + len == pos
  {
    ghost var j := 0;
    RecordIn(b, rs, 0);
    OffsetsRise(rs, 1, k);
    offset, len := 0, U16(a[..], 4);
    while offset + len < pos
      invariant j < k && offset == SumLen(rs[..j]) && len == rs[j].recLen
      invariant SumLen(rs[..j + 1]) == offset + len <= pos
      decreases k - j
    {
      j, offset := j + 1, offset + len;
      RecordIn(b, rs, j);
      OffsetsRise(rs, j + 1, k);
      assert j < k;
      len := U16(a[..], offset + 4);
    }
    PredecessorIs(b, rs, j, k);
  }

  // Records have positive lengths, so equal offsets mean equal positions.
  lemma PredecessorIs(b: seq<byte>, rs: seq<Rec>, j: nat, k: nat)
    requires Tiled(b, rs) && j < k < |rs| && SumLen(rs[..j + 1]) == SumLen(rs[..k])
    ensures j == k - 1
  {
    if j + 1 < k {
      RecordIn(b, rs, k - 1);
      OffsetsRise(rs, j + 1, k - 1);
    }
  }

  // Only the first record starts at offset 0.
  lemma AtZero(b: seq<byte>, rs: seq<Rec>, k: nat)
    requires Tiled(b, rs) && k < |rs|
    ensures SumLen(rs[..k]) == 0 <==> k == 0
  {
    if k > 0 {
      RecordIn(b, rs, k - 1);
    }
  }

  // The first record with its inode cleared is a free record.
  lemma FreedDone(b: seq<byte>, c: seq<byte>, rs: seq<Rec>)
    requires Tiled(b, rs) && rs != [] && |b| == |c| && Holds(b, 0, rs[0])
    requires U32(c, 0) == 0 && forall i :: 4 <= i < |b| ==> b[i] == c[i]
    ensures Tiled(c, RemoveAt(rs, 0))
  {
    var r := Merged(rs, 0);
    assert U16(b, 4) == U16(c, 4);
    assert Holds(c, 0, r);
    assert [r][1..] == [];
    assert rs == [] + [rs[0]] + rs[1..];
    assert rs[..0] == [];
    TiledReplaced(b, c, [], 0, [rs[0]], [r], rs[0].recLen, rs[1..]);
  }

  // The predecessor with the removed record's length added covers both.
  lemma MergedDone(b: seq<byte>, d: seq<byte>, rs: seq<Rec>, k: nat, off: nat)
    requires Tiled(b, rs) && 0 < k < |rs| && |b| == |d| && off == SumLen(rs[..k - 1])
    requires Holds(b, off, rs[k - 1]) && off + rs[k - 1].recLen + rs[k].recLen <= |b|
    requires HEADER <= rs[k].recLen && rs[k].recLen % 4 == 0
    requires U16(d, off + 4) == rs[k - 1].recLen + rs[k].recLen
    requires forall i :: 0 <= i < off + 4 || off + 6 <= i < off + rs[k - 1].recLen ==> b[i] == d[i]
    requires forall i :: off + rs[k - 1].recLen + 4 <= i < |b| ==> b[i] == d[i]
    ensures Tiled(d, RemoveAt(rs, k))
  {
    var r, next := Merged(rs, k), off + rs[k - 1].recLen + rs[k].recLen;
    assert Encodes(d, off, [r]) by {
      assert U32(b, off) == U32(d, off);
      assert Holds(d, off, r);
      assert [r][1..] == [];
    }
    assert SumLen([r]) == SumLen(Replaced(rs, k)) == next - off by {
      MergedAway(rs, k);
      LenOne(r);
    }
    RemoveParts(rs, k);
    TiledReplaced(b, d, rs[..k - 1], off, Replaced(rs, k), [r], next, rs[k + 1..]);
  }

  // Adds the length of a record, whose inode has been cleared, to its predecessor.
  method MergeIntoPredecessor(a: array<byte>, ghost b: seq<byte>, ghost rs: seq<Rec>, pos: nat, ghost k: nat,
                              delLen: nat)
    requires Tiled(b, rs) && 0 < k < |rs| && pos == SumLen(rs[..k]) && a.Length == |b| && delLen == rs[k].recLen
    requires forall i :: 0 <= i < pos && i < |b| ==> a[i] == b[i]
    requires forall i :: pos + 4 <= i < |b| ==> a[i] == b[i]
    modifies a
    ensures Tiled(a[..], RemoveAt(rs, k))
  {
    var offset, len := FindPredecessor(a, b, rs, pos, k);
    RecordIn(b, rs, k);
    RecordIn(b, rs, k - 1);
    PutU16(a, offset + 4, len + delLen);
    MergedDone(b, a[..], rs, k, offset);
  }

  // Removes the first live record with this name.
  method RemoveEntry(a: array<byte>, ghost rs: seq<Rec>, name: seq<byte>) returns (ok: bool)
    requires Tiled(a[..], rs)
    modifies a
    ensures ok == Has(rs, name)
    ensures ok ==> Tiled(a[..], RemoveAt(rs, Lookup(rs, name)))
    ensures !ok ==> a[..] == old(a[..])
  {
    ghost var b := a[..];
    var found, pos, k := FindInBlock(a, rs, name);
    if !found {
      return false;
    }
    RecordIn(b, rs, k);
    AtZero(b, rs, k);
    var _, delLen, _, _ := ReadHeader(a, rs[k], pos);
    PutU32(a, pos, 0);
    if pos != 0 {
      MergeIntoPredecessor(a, b, rs, pos, k, delLen);
    } else {
      FreedDone(b, a[..], rs);
    }
    return true;
  }
}
