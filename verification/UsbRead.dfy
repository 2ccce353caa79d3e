// Block reads over USB, put together from the pieces that the transfers deliver.

module UsbRead {
  import opened Bytes
  import opened Usb
  import Seqs

  function Joined(pieces: seq<seq<byte>>): (s: seq<byte>) {
    if pieces == [] then [] else pieces[0] + Joined(pieces[1..])
  }

  // Pieces that deliver these octets, none of them empty.
  ghost predicate Cuts(pieces: seq<seq<byte>>, wire: seq<byte>) {
    Joined(pieces) == wire && forall i :: 0 <= i < |pieces| ==> pieces[i] != []
  }

  lemma TakePiece(pieces: seq<seq<byte>>, k: nat)
    requires k < |pieces|
    ensures Joined(pieces[k..]) == pieces[k] + Joined(pieces[k + 1..])
  {
    assert pieces[k..][1..] == pieces[k + 1..];
  }

  // The last octet of a wire form is the last octet of its last part.
  lemma LastOctet(x: seq<byte>, y: seq<byte>, wire: seq<byte>)
    ensures x + y == wire && y != [] ==> wire[|wire| - 1] == y[|y| - 1]
  {
  }

  // As long as the last octet is an escape, there are more pieces.
  lemma MorePieces(pieces: seq<seq<byte>>, start: nat, k: nat, group: seq<byte>, wire: seq<byte>, done: seq<byte>)
    requires start < |pieces| && start <= k <= |pieces| && (k > start ==> group != [] && group[|group| - 1] == ESCAPE)
    requires done + Joined(pieces[start..]) == wire && wire != [] && wire[|wire| - 1] != ESCAPE
    requires group + Joined(pieces[k..]) == Joined(pieces[start..])
    ensures k < |pieces|
  {
    assert k == |pieces| ==> group == Joined(pieces[start..]);
    LastOctet(done, group, wire);
  }

  // Collects pieces until the last octet is not an escape.
  method ReceiveGroup(pieces: seq<seq<byte>>, start: nat, ghost wire: seq<byte>, ghost done: seq<byte>)
    returns (group: seq<byte>, k: nat)
    requires start < |pieces| && (forall i :: 0 <= i < |pieces| ==> pieces[i] != [])
    requires done + Joined(pieces[start..]) == wire && wire != [] && wire[|wire| - 1] != ESCAPE
    ensures start < k <= |pieces| && group != [] && group[|group| - 1] != ESCAPE
    ensures group + Joined(pieces[k..]) == Joined(pieces[start..])
  {
    group, k := [], start;
    while k == start || group[|group| - 1] == ESCAPE
      invariant start <= k <= |pieces| && (k > start ==> group != [])
      invariant group + Joined(pieces[k..]) == Joined(pieces[start..])
      decreases |pieces| - k
    {
      assert k < |pieces| by {
        MorePieces(pieces, start, k, group, wire, done);
      }
      assert group + pieces[k] + Joined(pieces[k + 1..]) == Joined(pieces[start..]) by {
        TakePiece(pieces, k);
        Seqs.Assoc(group, pieces[k], Joined(pieces[k + 1..]));
      }
      group := group + pieces[k];
      k := k + 1;
    }
  }

  // How much of a reply has been received: `had` so far, `rest` still to come.
  ghost predicate Receiving(frame: seq<byte>, done: seq<byte>, had: seq<byte>, rest: seq<byte>) {
    done + rest == Escape(frame) && had + Unescape(rest) == frame && |had| <= |done|
  }

  lemma ReplyStep(frame: seq<byte>, done: seq<byte>, had: seq<byte>, left: seq<byte>, group: seq<byte>, rest: seq<byte>,
                  now: seq<byte>)
    requires Receiving(frame, done, had, left) && left == group + rest && group != [] && group[|group| - 1] != ESCAPE
    requires now == had + Unescape(group)
    ensures Receiving(frame, done + group, now, rest)
  {
    Seqs.Assoc(done, group, rest);
    EndCloses(group);
    UnescapeConcat(group, rest);
    Seqs.Assoc(had, Unescape(group), Unescape(rest));
    ShorterUnescaped(group);
  }

  // A group of octets has room in a buffer for the whole reply.
  lemma GroupFits(frame: seq<byte>, done: seq<byte>, had: seq<byte>, left: seq<byte>, group: seq<byte>, rest: seq<byte>)
    requires Receiving(frame, done, had, left) && left == group + rest
    ensures |had| + |group| <= |Escape(frame)|
  {
  }

  lemma NotYet(frame: seq<byte>, done: seq<byte>, had: seq<byte>, rest: seq<byte>)
    requires Receiving(frame, done, had, rest)
    ensures |had| == |frame| ==> had == frame
    ensures rest == [] ==> had == frame
  {
    assert had + Unescape(rest) == frame;
    assert |had| == |frame| ==> Unescape(rest) == [];
    assert had + [] == had;
  }

  // Receives some pieces and appends what they hold.
  method ReceiveMore(dst: array<byte>, cnt: nat, pieces: seq<seq<byte>>, k: nat, ghost frame: seq<byte>,
                     ghost done: seq<byte>)
    returns (cnt': nat, k': nat, ghost done': seq<byte>)
    requires k < |pieces| && (forall i :: 0 <= i < |pieces| ==> pieces[i] != []) && cnt <= dst.Length
    requires frame != [] && frame[|frame| - 1] == FLAG && |Escape(frame)| <= dst.Length
    requires Receiving(frame, done, dst[..cnt], Joined(pieces[k..]))
    modifies dst
    ensures k < k' <= |pieces| && cnt' <= dst.Length
    ensures Receiving(frame, done', dst[..cnt'], Joined(pieces[k'..]))
  {
    ghost var had, wire, left := dst[..cnt], Escape(frame), Joined(pieces[k..]);
    assert wire != [] && wire[|wire| - 1] != ESCAPE by {
      EscapeEnds(frame, 0);
    }
    var group, next := ReceiveGroup(pieces, k, wire, done);
    ghost var rest := Joined(pieces[next..]);
    GroupFits(frame, done, had, left, group, rest);
    var n := ExchangeIn(dst, cnt, group);
    ReplyStep(frame, done, had, left, group, rest, dst[..cnt + n]);
    cnt', k', done' := cnt + n, next, done + group;
  }

  // Receives a reply of a known size, whatever pieces it comes in.
  method ReceiveReply(dst: array<byte>, pieces: seq<seq<byte>>, want: nat, ghost frame: seq<byte>)
    requires |frame| == want > 0 && frame[want - 1] == FLAG && Cuts(pieces, Escape(frame))
    requires |Escape(frame)| <= dst.Length
    modifies dst
    ensures want <= dst.Length && dst[..want] == frame
  {
    var cnt: nat, k: nat := 0, 0;
    ghost var done := [];
    assert Receiving(frame, done, [], Joined(pieces[0..])) by {
      UnescapeEscape(frame);
      assert pieces[0..] == pieces;
    }
    while cnt != want
      invariant 0 <= k <= |pieces| && cnt <= dst.Length
      invariant Receiving(frame, done, dst[..cnt], Joined(pieces[k..]))
      decreases |pieces| - k
    {
      NotYet(frame, done, dst[..cnt], Joined(pieces[k..]));
      cnt, k, done := ReceiveMore(dst, cnt, pieces, k, frame, done);
    }
    NotYet(frame, done, dst[..cnt], Joined(pieces[k..]));
  }

  lemma {:induction false} ShorterUnescaped(s: seq<byte>)
    ensures |Unescape(s)| <= |s|
  {
    if s != [] {
      ShorterUnescaped(s[1..]);
      if |s| > 1 {
        ShorterUnescaped(s[2..]);
      }
    }
  }

  lemma {:induction false} EscapeLonger(f: seq<byte>, i: nat)
    requires i <= |f|
    ensures |EscapeFrom(f, i)| <= 2 * (|f| - i)
    decreases |f| - i
  {
    if i < |f| {
      EscapeLonger(f, i + 1);
    }
  }

  // ---------------------------------------------------------------- reading blocks

  const BLOCK := 512
  const BLOCKS := 8 * 1024 * 1024
  const WINDOW := 0x3000

  // How the transfers cut the n-th reply.
  type Cutter = (nat, seq<byte>) -> seq<seq<byte>>

  ghost predicate Fair(cut: Cutter) {
    forall n: nat, wire: seq<byte> :: Cuts(cut(n, wire), wire)
  }

  // Asks for one window and receives it.
  method ReadWindow(flash: seq<byte>, offset: nat, size: nat, cut: Cutter, n: nat) returns (ok: bool, data: seq<byte>)
    requires 0 < size <= WINDOW && offset + size <= |flash| && offset < 0x1_0000_0000 && Fair(cut)
    ensures ok && data == flash[offset..offset + size]
  {
    var com := new byte[32];
    var cnt := ExchangeOut(com, Request(size, offset));
    var wire := com[..cnt];
    ghost var frame := Framed(READ_FLASH, flash[offset..offset + size]);
    Served(flash, size, offset);
    FramedParts(READ_FLASH, flash[offset..offset + size]);
    EscapeLonger(frame, 0);
    var buffer := new byte[2 * WINDOW + 16];
    assert Cuts(cut(n, Serve(flash, wire)), Serve(flash, wire));
    ReceiveReply(buffer, cut(n, Serve(flash, wire)), size + 8, frame);
    var reply := buffer[..size + 8];
    ok := VerifyFrame(reply);
    ok := ok && reply[2] == READ_FLASH;
    data := reply[5..5 + size];
  }

  lemma NextWindow(flash: seq<byte>, base: nat, offset: nat, size: nat, data: seq<byte>, window: seq<byte>)
    requires base + offset + size <= |flash|
    requires data == flash[base..base + offset] && window == flash[base + offset..base + offset + size]
    ensures data + window == flash[base..base + (offset + size)]
  {
    Seqs.Slices(flash, base, base + offset, base + offset + size);
  }

  // Reads blocks window by window. For every way the transfers cut the replies, the result
  // is the part of the flash asked for. The size of all blocks at once does not fit in 32
  // bits: nothing is read then, and success is reported.
  method ReadBlocks(flash: seq<byte>, id: nat, count: nat, cut: Cutter) returns (ok: bool, data: seq<byte>)
    requires id + count <= BLOCKS && BLOCK * (id + count) <= |flash| && Fair(cut)
    ensures ok && data == if count < 8388608 then flash[512 * id..512 * (id + count)] else []
  {
    var left := BLOCK * count % 0x1_0000_0000;
    var start := BLOCK * id % 0x1_0000_0000;
    ghost var base, size0 := BLOCK * id, left;
    var offset, n := 0, 0;
    ok, data := true, [];
    while left > 0
      invariant 0 <= left && 0 <= n && 0 <= offset && offset + left == size0 && ok
      invariant left > 0 ==> start == base && base + size0 <= |flash|
      invariant base + offset <= |flash| && data == flash[base..base + offset]
      decreases left
    {
      var size := if left > WINDOW then WINDOW else left;
      var window;
      assert (offset + start) % 0x1_0000_0000 == base + offset;
      ok, window := ReadWindow(flash, (offset + start) % 0x1_0000_0000, size, cut, n);
      if !ok {
        return;
      }
      NextWindow(flash, base, offset, size, data, window);
      data := data + window;
      offset, left, n := offset + size, left - size, n + 1;
    }
  }
}
