// Reading the phone's flash over USB: framed requests and replies with octet stuffing.

module Usb {
  import opened Bytes
  import Checksum
  import Seqs

  const FLAG: byte := 0x7E
  const ESCAPE: byte := 0x7D

  // ---------------------------------------------------------------- octet stuffing

  // One octet on the wire. The flags at both ends of a frame stay as they are.
  function Stuffed(b: byte, edge: bool): (s: seq<byte>)
    ensures s != []
  {
    if b == FLAG && !edge then [ESCAPE, 0x5E]
    else if b == ESCAPE then [ESCAPE, 0x5D]
    else [b]
  }

  // The wire form of a frame from position i on, as in section 4.2 of RFC 1662.
  function EscapeFrom(f: seq<byte>, i: nat): (s: seq<byte>)
    requires i <= |f|
    decreases |f| - i
  {
    if i == |f| then [] else Stuffed(f[i], i == 0 || i == |f| - 1) + EscapeFrom(f, i + 1)
  }

  function Escape(f: seq<byte>): seq<byte> { EscapeFrom(f, 0) }

  // An escaped octet has bit 5 flipped, as in section 4.2 of RFC 1662.
  lemma EscapedFlips(b: byte)
    ensures (b == 0x7E || b == 0x7D) ==> Stuffed(b, false) == [0x7D, (b as bv8 ^ 0x20) as int]
    ensures b != 0x7E && b != 0x7D ==> Stuffed(b, false) == [b]
  {
    assert (0x7E as bv8 ^ 0x20) as int == 0x5E && (0x7D as bv8 ^ 0x20) as int == 0x5D;
  }

  // On the wire no octet between the first and the last one is a flag.
  lemma {:induction false} FlagsAtEnds(f: seq<byte>, i: nat, k: nat)
    requires i <= |f| && k < |EscapeFrom(f, i)| && EscapeFrom(f, i)[k] == 0x7E
    ensures (i == 0 && k == 0) || k == |EscapeFrom(f, i)| - 1
    decreases |f| - i
  {
    var x := Stuffed(f[i], i == 0 || i == |f| - 1);
    if |x| <= k {
      FlagsAtEnds(f, i + 1, k - |x|);
    }
  }

  // An escape with anything but the two known octets behind it is dropped.
  function Unescaped(b: byte): seq<byte> {
    if b == 0x5E then [FLAG] else if b == 0x5D then [ESCAPE] else []
  }

  function Unescape(s: seq<byte>): (r: seq<byte>) {
    if s == [] then []
    else if s[0] != ESCAPE then [s[0]] + Unescape(s[1..])
    else if |s| == 1 then []
    else Unescaped(s[1]) + Unescape(s[2..])
  }

  // No escape at the end waits for its second octet.
  predicate Closed(s: seq<byte>) {
    if s == [] then true
    else if s[0] != ESCAPE then Closed(s[1..])
    else |s| > 1 && Closed(s[2..])
  }

  lemma {:induction false} EndCloses(s: seq<byte>)
    requires s == [] || s[|s| - 1] != ESCAPE
    ensures Closed(s)
  {
    if s != [] {
      if s[0] != ESCAPE {
        EndCloses(s[1..]);
      } else {
        EndCloses(s[2..]);
      }
    }
  }

  // Pieces that do not split an escape pair can be unescaped one by one.
  lemma {:induction false} UnescapeConcat(x: seq<byte>, y: seq<byte>)
    requires Closed(x)
    ensures Unescape(x + y) == Unescape(x) + Unescape(y)
  {
    if x == [] {
      assert x + y == y;
    } else if x[0] != ESCAPE {
      assert (x + y)[0] == x[0] && (x + y)[1..] == x[1..] + y;
      UnescapeConcat(x[1..], y);
      Seqs.Assoc([x[0]], Unescape(x[1..]), Unescape(y));
    } else {
      assert (x + y)[0] == x[0] && (x + y)[1] == x[1] && (x + y)[2..] == x[2..] + y;
      UnescapeConcat(x[2..], y);
      Seqs.Assoc(Unescaped(x[1]), Unescape(x[2..]), Unescape(y));
    }
  }

  lemma UnescapeStuffed(b: byte, edge: bool, rest: seq<byte>)
    ensures Unescape(Stuffed(b, edge) + rest) == [b] + Unescape(rest)
  {
    var s := Stuffed(b, edge);
    assert Closed(s) && Unescape(s) == [b] by {
      if |s| == 1 {
        assert s[1..] == [];
      } else {
        assert s[2..] == [];
      }
    }
    UnescapeConcat(s, rest);
  }

  lemma {:induction false} UnescapeEscapeFrom(f: seq<byte>, i: nat)
    requires i <= |f|
    ensures Unescape(EscapeFrom(f, i)) == f[i..]
    decreases |f| - i
  {
    if i < |f| {
      UnescapeEscapeFrom(f, i + 1);
      UnescapeStuffed(f[i], i == 0 || i == |f| - 1, EscapeFrom(f, i + 1));
    }
  }

  // Unescaping undoes escaping.
  lemma UnescapeEscape(f: seq<byte>)
    ensures Unescape(Escape(f)) == f
  {
    UnescapeEscapeFrom(f, 0);
  }

  // The wire form of a frame ends with its flag.
  lemma {:induction false} EscapeEnds(f: seq<byte>, i: nat)
    requires i < |f| && f[|f| - 1] == FLAG
    ensures var s := EscapeFrom(f, i); s != [] && s[|s| - 1] == FLAG
    decreases |f| - i
  {
    if i < |f| - 1 {
      EscapeEnds(f, i + 1);
      LastOf(Stuffed(f[i], i == 0), EscapeFrom(f, i + 1));
    } else {
      assert EscapeFrom(f, i) == [FLAG] + [];
    }
  }

  lemma LastOf(x: seq<byte>, y: seq<byte>)
    requires y != []
    ensures (x + y)[|x + y| - 1] == y[|y| - 1]
  {
  }

  // Appends one or two octets to those in a buffer.
  method Put(dst: array<byte>, at: nat, x: seq<byte>)
    requires at + |x| <= dst.Length && |x| <= 2
    modifies dst
    ensures dst[..at + |x|] == old(dst[..at]) + x
  {
    if |x| > 0 {
      dst[at] := x[0];
    }
    if |x| > 1 {
      dst[at + 1] := x[1];
    }
  }

  // Escapes a frame into a buffer.
  method ExchangeOut(dst: array<byte>, f: seq<byte>) returns (cnt: nat)
    requires 2 * |f| <= dst.Length
    modifies dst
    ensures cnt <= dst.Length && dst[..cnt] == Escape(f)
  {
    cnt := 0;
    var i: nat := 0;
    ghost var have := [];
    while i < |f|
      invariant i <= |f| && cnt <= 2 * i
      invariant dst[..cnt] == have
      invariant have + EscapeFrom(f, i) == Escape(f)
    {
      var edge := i == 0 || i == |f| - 1;
      var x := if f[i] == FLAG && !edge then [ESCAPE, 0x5E] else if f[i] == ESCAPE then [ESCAPE, 0x5D] else [f[i]];
      Seqs.Advance(have, x, EscapeFrom(f, i + 1), EscapeFrom(f, i), Escape(f));
      Put(dst, cnt, x);
      have := have + x;
      cnt, i := cnt + |x|, i + 1;
    }
    Seqs.NothingLeft(have, EscapeFrom(f, i), Escape(f));
  }

  lemma UnescapeAt(s: seq<byte>, i: nat)
    requires i < |s| && s[|s| - 1] != ESCAPE
    ensures if s[i] == ESCAPE then i + 1 < |s| && Unescape(s[i..]) == Unescaped(s[i + 1]) + Unescape(s[i + 2..])
            else Unescape(s[i..]) == [s[i]] + Unescape(s[i + 1..])
  {
    var t := s[i..];
    assert t[1..] == s[i + 1..];
    assert |t| > 1 ==> t[2..] == s[i + 2..];
  }

  // Decodes the next octet, and how many octets of the wire it took.
  method NextOctet(s: seq<byte>, i: nat) returns (x: seq<byte>, step: nat)
    requires i < |s| && s[|s| - 1] != ESCAPE
    ensures |x| <= 1 <= step <= 2 && i + step <= |s| && Unescape(s[i..]) == x + Unescape(s[i + step..])
  {
    UnescapeAt(s, i);
    if s[i] == ESCAPE {
      x := if s[i + 1] == 0x5E then [FLAG] else if s[i + 1] == 0x5D then [ESCAPE] else [];
      step := 2;
    } else {
      x, step := [s[i]], 1;
    }
  }

  // Unescapes received octets into a buffer, behind those already there.
  method ExchangeIn(dst: array<byte>, at: nat, s: seq<byte>) returns (cnt: nat)
    requires at + |s| <= dst.Length && (s == [] || s[|s| - 1] != ESCAPE)
    modifies dst
    ensures at + cnt <= dst.Length && dst[..at + cnt] == old(dst[..at]) + Unescape(s)
  {
    cnt := 0;
    var i: nat := 0;
    ghost var have, left, whole := dst[..at], Unescape(s), dst[..at] + Unescape(s);
    assert s[0..] == s;
    while i < |s|
      invariant i <= |s| && cnt <= i
      invariant dst[..at + cnt] == have
      invariant left == Unescape(s[i..]) && have + left == whole
    {
      var x, step := NextOctet(s, i);
      ghost var rest := Unescape(s[i + step..]);
      Seqs.Advance(have, x, rest, left, whole);
      Put(dst, at + cnt, x);
      have, left := have + x, rest;
      cnt, i := cnt + |x|, i + step;
    }
    Seqs.NothingLeft(have, left, whole);
  }

  // ---------------------------------------------------------------- frames

  function Byte(v: int): byte { v % 256 }

  function Little32(v: nat): (s: seq<byte>)
    ensures |s| == 4
  {
    [Byte(v), Byte(v / 0x100), Byte(v / 0x1_0000), Byte(v / 0x100_0000)]
  }

  lemma LittleValue(v: nat)
    requires v < 0x1_0000_0000
    ensures U32(Little32(v), 0) == v
  {
    var a := v / 0x100;
    var b := a / 0x100;
    var c := b / 0x100;
    assert v == 0x100 * a + v % 0x100 && a == 0x100 * b + a % 0x100 && b == 0x100 * c + b % 0x100;
    assert v / 0x1_0000 == b && v / 0x100_0000 == c && c % 0x100 == c;
  }

  // A frame around a type, a size field and a payload: the checksum covers all but the flags
  // and itself.
  function Framed(kind: byte, payload: seq<byte>): (f: seq<byte>)
    ensures |f| == |payload| + 8
  {
    var body := [0, kind, Byte(|payload| / 256), Byte(|payload|)] + payload;
    var sum := Checksum.Internet(body);
    [FLAG] + body + [Byte(sum / 256), Byte(sum), FLAG]
  }

  // The test of a received frame.
  predicate Verified(f: seq<byte>) {
    && |f| >= 4 && f[0] == FLAG && f[|f| - 1] == FLAG
    && var hi: int, lo: int := f[|f| - 3], f[|f| - 2];
       Checksum.Internet(f[1..|f| - 3]) == hi * 256 + lo
  }

  method VerifyFrame(f: seq<byte>) returns (ok: bool)
    requires 4 <= |f| <= 131072
    ensures ok <==> Verified(f)
  {
    if f[0] != FLAG || f[|f| - 1] != FLAG {
      return false;
    }
    var sum := Checksum.IpCheck(f[1..|f| - 3]);
    var hi: int, lo: int := f[|f| - 3], f[|f| - 2];
    ok := sum == hi * 256 + lo;
  }

  lemma FramedParts(kind: byte, payload: seq<byte>)
    ensures var f := Framed(kind, payload);
            && Verified(f) && f[2] == kind && f[5..|f| - 3] == payload
            && f[0] == FLAG && f[|f| - 1] == FLAG
  {
    var body := [0, kind, Byte(|payload| / 256), Byte(|payload|)] + payload;
    var f := Framed(kind, payload);
    assert f[1..|f| - 3] == body;
    assert f[5..|f| - 3] == body[4..] == payload;
  }

  const READ_MIDST: byte := 0x11
  const READ_FLASH: byte := 0x93

  function Request(size: nat, offset: nat): seq<byte> {
    Framed(READ_MIDST, Little32(size) + Little32(offset))
  }

  // A request for 512 bytes from 0x1234 on: command, length, size and offset, and the checksum.
  lemma RequestBytes()
    ensures Request(512, 0x1234) ==
            [0x7E, 0x00, 0x11, 0x00, 0x08, 0x00, 0x02, 0x00, 0x00, 0x34, 0x12, 0x00, 0x00, 0xCB, 0xD2, 0x7E]
  {
    RequestPayload();
    var payload: seq<byte> := [0x00, 0x02, 0x00, 0x00, 0x34, 0x12, 0x00, 0x00];
    var body := [0x00, READ_MIDST, 0x00, 0x08] + payload;
    BodySum(body);
    assert Framed(READ_MIDST, payload) == [FLAG] + body + [0xCB, 0xD2, FLAG];
  }

  lemma RequestPayload()
    ensures Little32(512) + Little32(0x1234) == [0x00, 0x02, 0x00, 0x00, 0x34, 0x12, 0x00, 0x00]
  {
    assert Little32(512) == [0, 2, 0, 0] && Little32(0x1234) == [0x34, 0x12, 0, 0];
  }

  lemma BodySum(body: seq<byte>)
    requires body == [0x00, 0x11, 0x00, 0x08, 0x00, 0x02, 0x00, 0x00, 0x34, 0x12, 0x00, 0x00]
    ensures Checksum.Internet(body) == 0xCBD2
  {
    assert body[2..] == [0x00, 0x08, 0x00, 0x02, 0x00, 0x00, 0x34, 0x12, 0x00, 0x00];
    assert body[2..][2..] == [0x00, 0x02, 0x00, 0x00, 0x34, 0x12, 0x00, 0x00];
    assert body[2..][2..][2..] == [0x00, 0x00, 0x34, 0x12, 0x00, 0x00];
    assert body[2..][2..][2..][2..] == [0x34, 0x12, 0x00, 0x00];
    assert Checksum.WordSum([0x34, 0x12, 0x00, 0x00]) == 0x3412 by {
      assert [0x34, 0x12, 0x00, 0x00][2..] == [0x00, 0x00] && [0x00, 0x00][2..] == [];
      assert Checksum.WordSum([0x00, 0x00]) == 0;
    }
    assert Checksum.WordSum(body[2..][2..][2..]) == 0x3412;
    assert Checksum.WordSum(body[2..][2..]) == 0x3414;
    assert Checksum.WordSum(body[2..]) == 0x341C;
  }

  // What the phone answers to octets from the wire: the flash contents asked for.
  function Serve(flash: seq<byte>, wire: seq<byte>): seq<byte> {
    var f := Unescape(wire);
    if |f| == 16 && Verified(f) && f[2] == READ_MIDST && U32(f, 9) + U32(f, 5) <= |flash| then
      Escape(Framed(READ_FLASH, flash[U32(f, 9)..U32(f, 9) + U32(f, 5)]))
    else []
  }

  lemma RequestFields(size: nat, offset: nat)
    requires size < 0x1_0000_0000 && offset < 0x1_0000_0000
    ensures var f := Request(size, offset); |f| == 16 && U32(f, 5) == size && U32(f, 9) == offset
  {
    var f := Request(size, offset);
    LittleValue(size);
    LittleValue(offset);
    FramedParts(READ_MIDST, Little32(size) + Little32(offset));
    assert f[5..13] == Little32(size) + Little32(offset);
    assert forall i :: 0 <= i < 8 ==> f[5 + i] == f[5..13][i];
    assert Little32(size) == f[5..13][..4] && Little32(offset) == f[5..13][4..];
    assert forall i :: 0 <= i < 4 ==> f[5 + i] == Little32(size)[i] && f[9 + i] == Little32(offset)[i];
  }

  // A request reaches the phone intact, and the answer is the frame asked for.
  lemma Served(flash: seq<byte>, size: nat, offset: nat)
    requires size < 0x1_0000_0000 && offset < 0x1_0000_0000 && offset + size <= |flash|
    ensures Serve(flash, Escape(Request(size, offset))) == Escape(Framed(READ_FLASH, flash[offset..offset + size]))
  {
    UnescapeEscape(Request(size, offset));
    RequestFields(size, offset);
    FramedParts(READ_MIDST, Little32(size) + Little32(offset));
  }
}
