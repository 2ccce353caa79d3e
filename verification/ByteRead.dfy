// Reading any bytes of a partition from a device that delivers whole blocks.

module ByteRead {
  import opened Bytes
  import opened Arith
  import Seqs

  // A device of blocks of bs bytes and a partition on it.
  datatype Device = Device(bs: nat, bytes: seq<byte>, partOffset: nat, partSize: nat)

  // The device delivers `count` blocks from block k on.
  function Blocks(d: Device, k: nat, count: nat): (s: seq<byte>)
    requires d.bs * k <= d.bs * (k + count) <= |d.bytes|
  {
    d.bytes[d.bs * k..d.bs * (k + count)]
  }

  // Where the read starts: the block is found with the offset of the partition, the place
  // inside the block without it.
  function Start(d: Device, off: nat): nat
    requires d.bs > 0
  {
    MulMono(d.bs, 0, (off + d.partOffset) / d.bs);
    d.bs * ((off + d.partOffset) / d.bs) + off % d.bs
  }

  // The last byte of the read lies in a whole block of the device.
  predicate OnDevice(d: Device, at: nat, len: nat)
    requires d.bs > 0
  {
    at + len <= d.bs * (|d.bytes| / d.bs)
  }

  // A block that has a byte of the read is on the device.
  lemma BlockOnDevice(d: Device, at: nat, len: nat, k: nat)
    requires d.bs > 0 && OnDevice(d, at, len) && d.bs * k < at + len
    ensures d.bs * k + d.bs == d.bs * (k + 1) <= |d.bytes|
  {
    var n := |d.bytes| / d.bs;
    assert d.bs * (k + 1) == d.bs * k + d.bs;
    QuotientOrder(d.bs, k, 0, n, 0);
    MulMono(d.bs, k + 1, if k < n then n else k + 1);
  }

  // `count` whole blocks from block k on, then the first bytes of the next one.
  method ReadParts(d: Device, k: nat, count: nat, rest: nat, ghost at: nat, ghost mid: nat) returns (data: seq<byte>)
    requires at == d.bs * k && mid == d.bs * (k + count) && at <= mid && rest < d.bs
    requires mid <= |d.bytes| && (rest > 0 ==> mid + d.bs == d.bs * (k + count + 1) <= |d.bytes|)
    ensures mid + rest <= |d.bytes| && data == d.bytes[at..mid + rest]
  {
    data := Blocks(d, k, count);
    if rest > 0 {
      var last := Blocks(d, k + count, 1);
      Seqs.Slices(d.bytes, at, mid, mid + rest);
      data := data + last[..rest];
    }
  }

  lemma WholeBlocks(d: Device, k: nat, count: nat, rest: nat, at: nat, len: nat)
    requires rest < d.bs && at == d.bs * k && len == d.bs * count + rest && OnDevice(d, at, len)
    ensures d.bs * (k + count) == at + d.bs * count && at <= at + d.bs * count <= |d.bytes|
    ensures rest > 0 ==> d.bs * (k + count) + d.bs == d.bs * (k + count + 1) <= |d.bytes|
  {
    var n, r := DivMod(|d.bytes|, d.bs);
    MulMono(d.bs, 0, count);
    assert d.bs * (k + count) == d.bs * k + d.bs * count;
    if rest > 0 {
      BlockOnDevice(d, at, len, k + count);
    }
  }

  // Whole blocks from block k on, then the start of a block.
  method ReadAligned(d: Device, k: nat, at: nat, len: nat) returns (data: seq<byte>)
    requires d.bs > 0 && at == d.bs * k && OnDevice(d, at, len)
    ensures at + len <= |d.bytes| && data == d.bytes[at..at + len]
  {
    ghost var count, rest := DivMod(len, d.bs);
    WholeBlocks(d, k, count, rest, at, len);
    data := ReadParts(d, k, len / d.bs, len % d.bs, at, d.bs * (k + count));
  }

  // The first n bytes, which lie in block k.
  method ReadInside(d: Device, k: nat, inside: nat, at: nat, ghost len: nat, n: nat) returns (data: seq<byte>)
    requires inside < d.bs && at == d.bs * k + inside && OnDevice(d, at, len) && n <= len && inside + n <= d.bs
    ensures at + n <= |d.bytes| && data == d.bytes[at..at + n]
  {
    MulMono(d.bs, 0, k);
    data := [];
    if n > 0 {
      BlockOnDevice(d, at, len, k);
      data := Blocks(d, k, 1)[inside..inside + n];
    }
  }

  // From a place inside block k on: the rest of the block, then whole blocks and the start of one.
  method ReadFrom(d: Device, k: nat, inside: nat, at: nat, len: nat) returns (data: seq<byte>)
    requires inside < d.bs && at == d.bs * k + inside && OnDevice(d, at, len)
    ensures at + len <= |d.bytes| && data == d.bytes[at..at + len]
  {
    MulMono(d.bs, 0, k);
    if inside == 0 {
      data := ReadAligned(d, k, at, len);
      return;
    }
    var n := if d.bs - inside > len then len else d.bs - inside;
    data := ReadInside(d, k, inside, at, len, n);
    if n < len {
      assert at + n == d.bs * (k + 1);
      var more := ReadAligned(d, k + 1, at + n, len - n);
      Seqs.Slices(d.bytes, at, at + n, at + len);
      data := data + more;
    }
  }

  // Reads bytes of the partition.
  method ReadBytes(d: Device, off: nat, len: nat) returns (ok: bool, data: seq<byte>)
    requires d.bs > 0 && OnDevice(d, Start(d, off), len)
    ensures ok <==> off + len <= d.partSize
    ensures ok ==> Start(d, off) + len <= |d.bytes| && data == d.bytes[Start(d, off)..Start(d, off) + len]
  {
    if off + len > d.partSize {
      return false, [];
    }
    data := ReadFrom(d, (off + d.partOffset) / d.bs, off % d.bs, Start(d, off), len);
    ok := true;
  }

  // The read starts at the right byte if and only if the partition starts at a block boundary.
  lemma StartRight(d: Device, off: nat)
    requires d.bs > 0
    ensures Start(d, off) == d.partOffset + off <==> d.partOffset % d.bs == 0
  {
    var q, r := DivMod(off + d.partOffset, d.bs);
    var a, b := DivMod(off, d.bs);
    var x, y := DivMod(d.partOffset, d.bs);
    assert d.bs * (a + x) == d.bs * a + d.bs * x;
    if y == 0 {
      DivUnique(d.bs, a + x, b);
    } else if b + y < d.bs {
      DivUnique(d.bs, a + x, b + y);
    } else {
      assert d.bs * (a + x + 1) == d.bs * (a + x) + d.bs;
      DivUnique(d.bs, a + x + 1, b + y - d.bs);
    }
  }

  // A partition that starts at byte 100 of a device with blocks of 512 bytes is read from
  // byte 0 of the device.
  lemma Misplaced(bytes: seq<byte>, partSize: nat)
    ensures Start(Device(512, bytes, 100, partSize), 0) == 0
  {
  }
}
