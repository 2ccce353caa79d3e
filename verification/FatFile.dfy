// Reading and seeking in a file of a FAT volume.

module FatFile {
  import opened Bytes
  import opened Arith
  import opened Fat

  datatype Status = Done | IntErr | DiskErr

  // The file pointer, the current cluster, and the sector in the buffer (0 for none).
  datatype Pos = Pos(ptr: nat, clust: nat, sect: nat, buf: seq<byte>, win: Window)

  ghost predicate FileOk(v: Vol, chain: seq<nat>, first: nat, size: nat) {
    Sound(v) && ChainOk(v, chain, first, size)
  }

  // The current cluster is that of the last byte before the pointer, and inside a sector the
  // buffer holds that sector.
  ghost predicate PosOk(v: Vol, chain: seq<nat>, size: nat, p: Pos)
    requires v.csize > 0
  {
    && p.ptr <= size && WindowOk(v, p.win)
    && (p.sect == 0 || (p.sect < |v.disk| && p.buf == v.disk[p.sect]))
    && (p.ptr > 0 ==> (p.ptr - 1) / SS / v.csize < |chain| && p.clust == chain[(p.ptr - 1) / SS / v.csize])
    && (p.ptr % SS != 0 ==> p.ptr / SS / v.csize < |chain| && p.sect == FileSector(v, chain, p.ptr / SS))
  }

  // Some sector of the table or of the file cannot be read.
  ghost predicate Hit(v: Vol, chain: seq<nat>, size: nat, bad: set<nat>)
    requires v.csize > 0
  {
    TableHit(v, bad) || exists s: nat :: s < Sectors(size) && s / v.csize < |chain| && FileSector(v, chain, s) in bad
  }

  // The byte at a position of the file.
  predicate ByteIs(v: Vol, chain: seq<nat>, k: nat, b: byte)
    requires Sound(v) && forall i :: 0 <= i < |chain| ==> 2 <= chain[i] < v.entries
  {
    k / SS / v.csize < |chain| && b == FileByte(v, chain, k)
  }

  // Bytes of the file from a position on.
  ghost predicate FileBytes(v: Vol, chain: seq<nat>, at: nat, data: seq<byte>)
    requires Sound(v) && forall i :: 0 <= i < |chain| ==> 2 <= chain[i] < v.entries
  {
    forall j: nat :: j < |data| ==> ByteIs(v, chain, at + j, data[j])
  }

  lemma BytesConcat(v: Vol, chain: seq<nat>, at: nat, x: seq<byte>, y: seq<byte>)
    requires Sound(v) && (forall i :: 0 <= i < |chain| ==> 2 <= chain[i] < v.entries)
    requires FileBytes(v, chain, at, x) && FileBytes(v, chain, at + |x|, y)
    ensures FileBytes(v, chain, at, x + y)
  {
    forall j: nat | j < |x + y| ensures ByteIs(v, chain, at + j, (x + y)[j]) {
      if j < |x| {
        assert ByteIs(v, chain, at + j, x[j]);
      } else {
        assert ByteIs(v, chain, at + |x| + (j - |x|), y[j - |x|]);
      }
    }
  }

  // ---------------------------------------------------------------- arithmetic

  // Sectors of one cluster.
  lemma InCluster(s: nat, t: nat, n: nat)
    requires n > 0 && s % n + t < n
    ensures (s + t) / n == s / n && (s + t) % n == s % n + t
  {
    assert s == n * (s / n) + s % n;
    DivUnique(n, s / n, s % n + t);
  }

  lemma BeforeSector(s: nat, n: nat)
    requires n > 0 && s > 0
    ensures if s % n == 0 then s / n > 0 && (s - 1) / n == s / n - 1 else (s - 1) / n == s / n
  {
    var q, r := s / n, s % n;
    assert s == n * q + r;
    if r == 0 {
      assert q > 0 by { assert n * 0 == 0; }
      assert n * q == n * (q - 1) + n;
      DivUnique(n, q - 1, n - 1);
    } else {
      DivUnique(n, q, r - 1);
    }
  }

  lemma SectorReached(v: Vol, chain: seq<nat>, first: nat, size: nat, k: nat)
    requires FileOk(v, chain, first, size) && k < size
    ensures k / SS / v.csize < |chain| && 2 <= chain[k / SS / v.csize] < v.entries
    ensures 0 < FileSector(v, chain, k / SS) < |v.disk|
  {
    assert k / SS < Sectors(size);
    InDisk(v, chain[k / SS / v.csize], k / SS % v.csize);
  }

  // ---------------------------------------------------------------- reading

  // The cluster before a boundary leads to the one behind it.
  lemma ChainLeads(v: Vol, chain: seq<nat>, first: nat, size: nat, s: nat, c: nat)
    requires FileOk(v, chain, first, size) && s > 0 && s / v.csize < |chain|
    requires (s - 1) / v.csize < |chain| && c == chain[(s - 1) / v.csize]
    ensures 2 <= c < v.entries
    ensures if s % v.csize == 0 then Entry(v, c) == chain[s / v.csize] else c == chain[s / v.csize]
  {
    BeforeSector(s, v.csize);
    var i := (s - 1) / v.csize;
    assert chain[i] == c;
    if s % v.csize == 0 {
      assert i + 1 == s / v.csize;
      assert Entry(v, chain[i]) == chain[i + 1];
    }
  }

  // The cluster of a position at a sector boundary, known from the pointer's own cluster.
  ghost predicate Leads(v: Vol, first: nat, p: Pos, c: nat)
    requires Sound(v)
  {
    && 2 <= c < v.entries
    && (if p.ptr == 0 then c == first
        else if p.ptr / SS % v.csize == 0 then 2 <= p.clust < v.entries && Entry(v, p.clust) == c
        else p.clust == c)
  }

  lemma Quotient(x: nat, n: nat)
    requires n > 0
    ensures x / n >= 0
  {
  }

  lemma PosLeads(v: Vol, chain: seq<nat>, first: nat, size: nat, p: Pos)
    requires FileOk(v, chain, first, size) && PosOk(v, chain, size, p) && p.ptr < size && p.ptr % SS == 0
    ensures 0 <= p.ptr / SS / v.csize < |chain| && Leads(v, first, p, chain[p.ptr / SS / v.csize])
  {
    var s := p.ptr / SS;
    Quotient(s, v.csize);
    SectorReached(v, chain, first, size, p.ptr);
    assert p.ptr == SS * s;
    if p.ptr > 0 {
      LeadsOn(v, chain, first, size, p, s);
    } else {
      FirstIndex(v.csize);
    }
  }

  lemma LeadsOn(v: Vol, chain: seq<nat>, first: nat, size: nat, p: Pos, s: nat)
    requires FileOk(v, chain, first, size) && PosOk(v, chain, size, p) && 0 < p.ptr == SS * s
    requires 0 <= s / v.csize < |chain| && p.ptr / SS == s
    ensures Leads(v, first, p, chain[s / v.csize])
  {
    assert (p.ptr - 1) / SS == s - 1;
    ChainLeads(v, chain, first, size, s, p.clust);
  }

  lemma FirstIndex(n: nat)
    requires n > 0
    ensures 0 / n == 0 && 0 % n == 0
  {
  }

  // Follows the chain if a new cluster starts, and finds the sector.
  method FindSector(v: Vol, first: nat, p: Pos, bad: set<nat>, ghost c: nat)
    returns (status: Status, sect: nat, clust: nat, win: Window)
    requires Sound(v) && WindowOk(v, p.win) && Leads(v, first, p, c)
    requires p.ptr == 0 ==> p.ptr / SS % v.csize == 0
    ensures WindowOk(v, win) && status != IntErr && (status == DiskErr ==> TableHit(v, bad))
    ensures status == Done ==> clust == c && sect == ClusterSector(v, c) + p.ptr / SS % v.csize
  {
    var csect := p.ptr / SS % v.csize;
    status, sect, clust, win := IntErr, 0, p.clust, p.win;
    InDisk(v, c, 0);
    if csect == 0 {
      if p.ptr == 0 {
        clust := first;
      } else {
        var r;
        r, win := GetFat(v, p.win, p.clust, bad);
        if r.DiskError? {
          status := DiskErr;
          return;
        }
        if r.Internal? {
          return;
        }
        clust := r.cluster;
      }
      if clust < 2 {
        return;
      }
    }
    sect := ClusterSector(v, clust);
    if sect == 0 {
      return;
    }
    sect := sect + csect;
    status := Done;
  }

  // Bytes inside the sector in the buffer are bytes of the file.
  lemma BufferBytes(v: Vol, chain: seq<nat>, first: nat, size: nat, at: nat, n: nat, buf: seq<byte>)
    requires FileOk(v, chain, first, size) && at % SS + n <= SS && at + n <= size && 0 < n
    requires at / SS / v.csize < |chain| && FileSector(v, chain, at / SS) < |v.disk|
    requires buf == v.disk[FileSector(v, chain, at / SS)]
    ensures FileBytes(v, chain, at, buf[at % SS..at % SS + n])
  {
    var data := buf[at % SS..at % SS + n];
    var s, r := DivMod(at, SS);
    assert 2 <= chain[s / v.csize] < v.entries;
    forall j: nat | j < |data| ensures ByteIs(v, chain, at + j, data[j]) {
      ByteOfSector(v, chain, at + j, s, r + j);
    }
  }

  function Sectored(disk: seq<seq<byte>>, sect: nat, cc: nat): (data: seq<byte>)
    requires sect + cc <= |disk| && forall s :: 0 <= s < |disk| ==> |disk[s]| == SS
    ensures |data| == SS * cc
    ensures forall j: nat :: j < SS * cc ==> data[j] == disk[sect + j / SS][j % SS]
  {
    if cc == 0 then [] else
      var init := Sectored(disk, sect, cc - 1);
      assert forall j: nat :: SS * (cc - 1) <= j < SS * cc ==> j / SS == cc - 1 && j % SS == j - SS * (cc - 1);
      init + disk[sect + (cc - 1)]
  }

  // Sectors of one cluster, read at once, are bytes of the file.
  lemma DirectBytes(v: Vol, chain: seq<nat>, first: nat, size: nat, at: nat, cc: nat)
    requires FileOk(v, chain, first, size) && at % SS == 0 && at < size
    requires at / SS / v.csize < |chain| && at / SS % v.csize + cc <= v.csize
    ensures FileSector(v, chain, at / SS) + cc <= |v.disk|
    ensures FileBytes(v, chain, at, Sectored(v.disk, FileSector(v, chain, at / SS), cc))
  {
    var s, q := at / SS, at / SS / v.csize;
    assert 2 <= chain[q] < v.entries;
    if cc > 0 {
      InDisk(v, chain[q], s % v.csize + cc - 1);
    } else {
      InDisk(v, chain[q], s % v.csize);
    }
    var data := Sectored(v.disk, FileSector(v, chain, s), cc);
    forall j: nat | j < |data| ensures ByteIs(v, chain, at + j, data[j]) {
      assert (at + j) / SS == s + j / SS && (at + j) % SS == j % SS;
      InCluster(s, j / SS, v.csize);
      ByteOfSector(v, chain, at + j, s + j / SS, j % SS);
    }
  }

  // After reading on within a cluster the pointer's cluster is still right.
  lemma PosAfter(v: Vol, chain: seq<nat>, size: nat, p: Pos, s: nat, t: nat)
    requires v.csize > 0 && 0 < p.ptr <= size && WindowOk(v, p.win)
    requires p.sect == 0 || (p.sect < |v.disk| && p.buf == v.disk[p.sect])
    requires s / v.csize < |chain| && p.clust == chain[s / v.csize] && s % v.csize + t < v.csize
    requires (p.ptr - 1) / SS == s + t && (p.ptr % SS != 0 ==> t == 0 && p.sect == FileSector(v, chain, s))
    ensures PosOk(v, chain, size, p)
  {
    InCluster(s, t, v.csize);
    assert p.ptr % SS != 0 ==> p.ptr / SS == s;
  }

  // Copies the rest of the sector in the buffer, or as much as is wanted.
  method CopyBuffered(v: Vol, ghost chain: seq<nat>, ghost first: nat, ghost size: nat, p: Pos, want: nat)
    returns (data: seq<byte>, p': Pos)
    requires FileOk(v, chain, first, size) && 0 < want && p.ptr + want <= size && WindowOk(v, p.win)
    requires InCurrent(v, chain, p)
    requires p.sect == FileSector(v, chain, p.ptr / SS) < |v.disk| && p.buf == v.disk[p.sect]
    ensures 0 < |data| <= want && p'.ptr == p.ptr + |data| && PosOk(v, chain, size, p')
    ensures FileBytes(v, chain, p.ptr, data)
  {
    var left := SS - p.ptr % SS;
    var n := if left > want then want else left;
    data := p.buf[p.ptr % SS..p.ptr % SS + n];
    BufferBytes(v, chain, first, size, p.ptr, n, p.buf);
    p' := p.(ptr := p.ptr + n);
    assert (p'.ptr - 1) / SS == p.ptr / SS;
    PosAfter(v, chain, size, p', p.ptr / SS, 0);
  }

  // The current cluster is that of the byte at the pointer.
  ghost predicate InCurrent(v: Vol, chain: seq<nat>, p: Pos)
    requires v.csize > 0
  {
    p.ptr / SS / v.csize < |chain| && p.clust == chain[p.ptr / SS / v.csize]
  }

  // At a sector boundary: finds the cluster and the sector of the pointer.
  method Locate(v: Vol, ghost chain: seq<nat>, first: nat, ghost size: nat, p: Pos, bad: set<nat>)
    returns (status: Status, sect: nat, p': Pos)
    requires FileOk(v, chain, first, size) && PosOk(v, chain, size, p) && p.ptr < size && p.ptr % SS == 0
    ensures status != IntErr && (status == DiskErr ==> TableHit(v, bad))
    ensures status == Done ==>
            p' == p.(clust := p'.clust, win := p'.win) && WindowOk(v, p'.win) && InCurrent(v, chain, p')
    ensures status == Done ==> sect == FileSector(v, chain, p.ptr / SS) < |v.disk|
  {
    PosLeads(v, chain, first, size, p);
    ghost var c := chain[p.ptr / SS / v.csize];
    var clust, win;
    FirstIndex(v.csize);
    status, sect, clust, win := FindSector(v, first, p, bad, c);
    p' := p.(clust := clust, win := win);
    SectorReached(v, chain, first, size, p.ptr);
  }

  // Loads a sector into the buffer if it is not there.
  method LoadBuffer(v: Vol, p: Pos, sect: nat, bad: set<nat>) returns (status: Status, p': Pos)
    requires sect < |v.disk| && (p.sect == 0 || (p.sect < |v.disk| && p.buf == v.disk[p.sect])) && sect > 0
    ensures status != IntErr && (status == DiskErr <==> sect != p.sect && sect in bad)
    ensures status == Done ==> p' == p.(sect := sect, buf := v.disk[sect])
  {
    status, p' := Done, p;
    if p.sect != sect {
      if sect in bad {
        status := DiskErr;
        return;
      }
      p' := p.(buf := v.disk[sect]);
    }
    p' := p'.(sect := sect);
  }

  // One round of a read: whole sectors go straight to the caller, a part of a sector through
  // the buffer.
  method ReadStep(v: Vol, ghost chain: seq<nat>, first: nat, size: nat, p: Pos, want: nat, bad: set<nat>)
    returns (status: Status, data: seq<byte>, p': Pos)
    requires FileOk(v, chain, first, size) && PosOk(v, chain, size, p) && 0 < want && p.ptr + want <= size
    ensures status != IntErr && (status == DiskErr ==> Hit(v, chain, size, bad))
    ensures status == Done ==> 0 < |data| <= want && p'.ptr == p.ptr + |data| && PosOk(v, chain, size, p')
    ensures status == Done ==> FileBytes(v, chain, p.ptr, data)
  {
    status, data, p' := Done, [], p;
    SectorReached(v, chain, first, size, p.ptr);
    if p.ptr % SS == 0 {
      var sect;
      status, sect, p' := Locate(v, chain, first, size, p, bad);
      if status != Done {
        return;
      }
      if want / SS > 0 {
        status, data, p' := ReadDirect(v, chain, first, size, p', sect, want, bad);
        return;
      }
      InLastSector(p.ptr, size);
      status, p' := LoadBuffer(v, p', sect, bad);
      if status != Done {
        return;
      }
    } else {
      ClusterInside(v, chain, size, p);
    }
    data, p' := CopyBuffered(v, chain, first, size, p', want);
  }

  lemma ClusterInside(v: Vol, chain: seq<nat>, size: nat, p: Pos)
    requires v.csize > 0 && PosOk(v, chain, size, p) && p.ptr % SS != 0
    ensures InCurrent(v, chain, p)
  {
    assert (p.ptr - 1) / SS == p.ptr / SS;
  }

  lemma WholeSectors(at: nat, cc: nat)
    requires at % SS == 0 && cc > 0
    ensures (at + SS * cc - 1) / SS == at / SS + (cc - 1) && (at + SS * cc) % SS == 0
  {
    var s := at / SS;
    assert at == SS * s;
    assert at + SS * cc == SS * (s + cc) && at + SS * cc - 1 == SS * (s + cc - 1) + (SS - 1);
  }

  // A sector of a direct read belongs to the file.
  lemma SectorHit(v: Vol, chain: seq<nat>, size: nat, at: nat, cc: nat, j: nat)
    requires v.csize > 0 && at % SS == 0 && j < cc && at + SS * cc <= size
    requires at / SS / v.csize < |chain| && at / SS % v.csize + cc <= v.csize
    ensures var s := at / SS + j;
            s < Sectors(size) && s / v.csize < |chain| && FileSector(v, chain, s) == FileSector(v, chain, at / SS) + j
  {
    InCluster(at / SS, j, v.csize);
    SectorCount(at / SS, cc, size);
  }

  lemma SectorCount(s: nat, cc: nat, size: nat)
    requires SS * (s + cc) <= size
    ensures s + cc <= Sectors(size)
  {
  }

  lemma InLastSector(k: nat, size: nat)
    requires k < size
    ensures k / SS < Sectors(size)
  {
  }

  // Reads whole sectors, up to the end of the cluster.
  method ReadDirect(v: Vol, ghost chain: seq<nat>, ghost first: nat, ghost size: nat, p: Pos, sect: nat, want: nat,
                    bad: set<nat>)
    returns (status: Status, data: seq<byte>, p': Pos)
    requires FileOk(v, chain, first, size) && SS <= want && p.ptr + want <= size && WindowOk(v, p.win)
    requires p.ptr % SS == 0
    requires InCurrent(v, chain, p)
    requires p.sect == 0 || (p.sect < |v.disk| && p.buf == v.disk[p.sect])
    requires sect == FileSector(v, chain, p.ptr / SS)
    ensures status != IntErr && (status == DiskErr ==> Hit(v, chain, size, bad))
    ensures status == Done ==> 0 < |data| <= want && p'.ptr == p.ptr + |data| && PosOk(v, chain, size, p')
    ensures status == Done ==> FileBytes(v, chain, p.ptr, data)
  {
    status, data, p' := Done, [], p;
    var csect, cc := p.ptr / SS % v.csize, want / SS;
    if csect + cc > v.csize {
      cc := v.csize - csect;
    }
    if exists s: nat :: sect <= s < sect + cc && s in bad {
      ghost var s: nat :| sect <= s < sect + cc && s in bad;
      SectorHit(v, chain, size, p.ptr, cc, s - sect);
      status := DiskErr;
      return;
    }
    DirectBytes(v, chain, first, size, p.ptr, cc);
    data := Sectored(v.disk, sect, cc);
    p' := p.(ptr := p.ptr + SS * cc);
    WholeSectors(p.ptr, cc);
    PosAfter(v, chain, size, p', p.ptr / SS, cc - 1);
  }

  // Reads from the file pointer on. The result is the bytes of the file there, as many as
  // were asked for or as there are.
  method Read(v: Vol, ghost chain: seq<nat>, first: nat, size: nat, p: Pos, count: nat, bad: set<nat>)
    returns (status: Status, data: seq<byte>, p': Pos)
    requires FileOk(v, chain, first, size) && PosOk(v, chain, size, p)
    ensures status != IntErr && (status == DiskErr ==> Hit(v, chain, size, bad))
    ensures FileBytes(v, chain, p.ptr, data)
    ensures status == Done ==> |data| == (if count > size - p.ptr then size - p.ptr else count)
    ensures status == Done ==> p'.ptr == p.ptr + |data| && PosOk(v, chain, size, p')
  {
    var want := if count > size - p.ptr then size - p.ptr else count;
    status, data, p' := Done, [], p;
    while want > 0
      invariant 0 <= want && p'.ptr == p.ptr + |data| && p'.ptr + want <= size && status == Done
      invariant PosOk(v, chain, size, p') && FileBytes(v, chain, p.ptr, data)
      invariant |data| + want == if count > size - p.ptr then size - p.ptr else count
      decreases want
    {
      var more, q;
      status, more, q := ReadStep(v, chain, first, size, p', want, bad);
      if status != Done {
        return;
      }
      BytesConcat(v, chain, p.ptr, data, more);
      data, p', want := data + more, q, want - |more|;
    }
  }

  // ---------------------------------------------------------------- seeking

  // Where a position falls that is `rem` bytes into cluster k of n sectors.
  lemma Place(n: nat, k: nat, rem: nat, at: nat)
    requires n > 0 && 0 < rem <= SS * n && at == SS * (n * k) + rem
    ensures (at - 1) / SS / n == k && at % SS == rem % SS
    ensures rem % SS != 0 ==> at / SS / n == k && at / SS % n == rem / SS
  {
    assert (at - 1) / SS == n * k + (rem - 1) / SS;
    DivUnique(n, k, (rem - 1) / SS);
    if rem % SS != 0 {
      assert at / SS == n * k + rem / SS;
      DivUnique(n, k, rem / SS);
    }
  }

  // A seek forward starts from the cluster of the last byte before the pointer.
  lemma Restart(n: nat, at: nat, ofs: nat)
    requires n > 0 && at > 0 && ofs > 0 && (ofs - 1) / (SS * n) >= (at - 1) / (SS * n)
    ensures var k := (at - 1) / (SS * n);
            && k == (at - 1) / SS / n && k * (SS * n) == SS * (n * k) && SS * (n * k) < ofs
  {
    var b, k := SS * n, (at - 1) / (SS * n);
    DivTwice(at - 1, SS, n);
    assert ofs - 1 == b * ((ofs - 1) / b) + (ofs - 1) % b;
    MulMono(b, k, (ofs - 1) / b);
    assert b * k == SS * (n * k);
  }

  // The loop over the clusters stands at cluster k with `rem` bytes to go.
  ghost predicate Seeking(v: Vol, chain: seq<nat>, k: nat, clst: nat, at: nat, rem: nat, ofs: nat)
    requires v.csize > 0
  {
    k < |chain| && clst == chain[k] && at == SS * (v.csize * k) && 0 < rem && at + rem == ofs
  }

  lemma SeekOn(v: Vol, chain: seq<nat>, first: nat, size: nat, k: nat, clst: nat, at: nat, rem: nat, ofs: nat)
    requires FileOk(v, chain, first, size) && ofs <= size && Seeking(v, chain, k, clst, at, rem, ofs)
    requires rem > SS * v.csize
    ensures 2 <= clst < v.entries && k + 1 < |chain| && Entry(v, clst) == chain[k + 1] && 2 <= chain[k + 1] < v.entries
    ensures Seeking(v, chain, k + 1, chain[k + 1], at + SS * v.csize, rem - SS * v.csize, ofs)
  {
    var n := v.csize;
    assert SS * (n * (k + 1)) == SS * (n * k) + SS * n by { assert n * (k + 1) == n * k + n; }
    FarEnough(n, k, rem, ofs);
    SectorReached(v, chain, first, size, ofs - 1);
    assert 2 <= chain[k + 1] < v.entries;
    assert Entry(v, chain[k]) == chain[k + 1];
  }

  lemma FarEnough(n: nat, k: nat, rem: nat, ofs: nat)
    requires n > 0 && rem > SS * n && ofs == SS * (n * k) + rem
    ensures (ofs - 1) / SS / n >= k + 1
  {
    var s, q := (ofs - 1) / SS, (ofs - 1) / SS / n;
    assert s >= n * k + n;
    assert s == n * q + s % n;
    MulMono(n, q + 1, if q < k + 1 then k + 1 else q + 1);
    assert n * (k + 1) == n * k + n && n * (q + 1) == n * q + n;
  }

  lemma SeekEnds(v: Vol, chain: seq<nat>, size: nat, k: nat, at: nat, rem: nat, ofs: nat, p: Pos)
    requires v.csize > 0 && WindowOk(v, p.win) && ofs <= size
    requires Seeking(v, chain, k, p.clust, at, rem, ofs) && rem <= SS * v.csize && p.ptr == ofs
    requires p.sect == 0 || (p.sect < |v.disk| && p.buf == v.disk[p.sect])
    requires rem % SS != 0 ==> p.sect == ClusterSector(v, chain[k]) + rem / SS
    ensures PosOk(v, chain, size, p)
  {
    Place(v.csize, k, rem, ofs);
  }

  // The sector that a seek into the middle of one loads belongs to the file.
  lemma SeekSector(v: Vol, chain: seq<nat>, size: nat, k: nat, clst: nat, at: nat, rem: nat, ofs: nat)
    requires v.csize > 0 && ofs <= size && Seeking(v, chain, k, clst, at, rem, ofs)
    requires rem <= SS * v.csize && rem % SS != 0
    ensures var s := ofs / SS;
            s < Sectors(size) && s / v.csize < |chain| && FileSector(v, chain, s) == ClusterSector(v, clst) + rem / SS
  {
    Place(v.csize, k, rem, ofs);
  }

  // Follows the chain from cluster k on until the rest lies within one cluster.
  method Follow(v: Vol, ghost chain: seq<nat>, ghost first: nat, ghost size: nat, ghost start: nat, clst0: nat,
                at0: nat, rem0: nat, ghost ofs: nat, win0: Window, bad: set<nat>)
    returns (status: Status, ghost k: nat, clst: nat, at: nat, rem: nat, win: Window)
    requires FileOk(v, chain, first, size) && ofs <= size && WindowOk(v, win0)
    requires Seeking(v, chain, start, clst0, at0, rem0, ofs)
    ensures WindowOk(v, win) && status != IntErr && (status == DiskErr ==> TableHit(v, bad))
    ensures status == Done ==> Seeking(v, chain, k, clst, at, rem, ofs) && rem <= SS * v.csize
  {
    status, k, clst, at, rem, win := Done, start, clst0, at0, rem0, win0;
    var bcs := SS * v.csize;
    while rem > bcs
      invariant WindowOk(v, win) && Seeking(v, chain, k, clst, at, rem, ofs) && status == Done
      decreases rem
    {
      SeekOn(v, chain, first, size, k, clst, at, rem, ofs);
      rem, at := rem - bcs, at + bcs;
      var r;
      r, win := GetFat(v, win, clst, bad);
      if r.DiskError? {
        status := DiskErr;
        return;
      }
      if r.Internal? || r.cluster <= 1 || r.cluster >= v.entries {
        status := IntErr;
        return;
      }
      clst, k := r.cluster, k + 1;
    }
  }

  // Where a seek starts: at the current cluster when it goes forward, else at the first one.
  method SeekStart(v: Vol, ghost chain: seq<nat>, first: nat, ghost size: nat, p: Pos, ofs: nat)
    returns (ghost k: nat, clst: nat, at: nat, rem: nat)
    requires FileOk(v, chain, first, size) && PosOk(v, chain, size, p) && 0 < ofs <= size
    ensures Seeking(v, chain, k, clst, at, rem, ofs)
  {
    var bcs := SS * v.csize;
    k, clst, at, rem := 0, first, 0, ofs;
    if p.ptr > 0 && (ofs - 1) / bcs >= (p.ptr - 1) / bcs {
      Quotient(p.ptr - 1, bcs);
      Restart(v.csize, p.ptr, ofs);
      var q: nat := (p.ptr - 1) / bcs;
      k, clst, at := q, p.clust, q * bcs;
      rem := ofs - at;
    } else {
      SectorReached(v, chain, first, size, 0);
      FirstIndex(v.csize);
    }
  }

  // Moves the file pointer, at most to the end of the file.
  method Seek(v: Vol, ghost chain: seq<nat>, first: nat, size: nat, p: Pos, target: nat, bad: set<nat>)
    returns (status: Status, p': Pos)
    requires FileOk(v, chain, first, size) && PosOk(v, chain, size, p)
    ensures status != IntErr && (status == DiskErr ==> Hit(v, chain, size, bad))
    ensures status == Done ==> PosOk(v, chain, size, p') && p'.ptr == if target > size then size else target
  {
    var ofs := if target > size then size else target;
    if ofs == 0 {
      return Done, p.(ptr := 0);
    }
    ghost var k;
    var clst, at, rem, win;
    k, clst, at, rem := SeekStart(v, chain, first, size, p, ofs);
    status, k, clst, at, rem, win := Follow(v, chain, first, size, k, clst, at, rem, ofs, p.win, bad);
    if status != Done {
      return status, p;
    }
    p' := p.(ptr := at + rem, clust := clst, win := win);
    if rem % SS != 0 {
      InDisk(v, clst, rem / SS);
      var nsect := ClusterSector(v, clst);
      if nsect == 0 {
        status := IntErr;
        return;
      }
      SeekSector(v, chain, size, k, clst, at, rem, ofs);
      status, p' := LoadBuffer(v, p', nsect + rem / SS, bad);
      if status != Done {
        return;
      }
    }
    SeekEnds(v, chain, size, k, at, rem, ofs, p');
  }

  // ---------------------------------------------------------------- the file object

  class File {
    const vol: Vol
    const first: nat
    const size: nat
    ghost const chain: seq<nat>
    var pos: Pos
    // An error is kept; nothing can be read after it.
    var err: Status

    ghost predicate Valid()
      reads this
    {
      FileOk(vol, chain, first, size) && (err == Done ==> PosOk(vol, chain, size, pos))
    }

    // Opens a file: the pointer is at its start and the buffers are empty.
    constructor (vol: Vol, ghost chain: seq<nat>, first: nat, size: nat)
      requires FileOk(vol, chain, first, size)
      ensures Valid() && err == Done && pos.ptr == 0
      ensures this.vol == vol && this.first == first && this.size == size && this.chain == chain
    {
      this.vol, this.first, this.size, this.chain := vol, first, size, chain;
      pos, err := Pos(0, 0, 0, [], Window(NOWHERE, [])), Done;
    }

    method ReadBytes(count: nat, bad: set<nat>) returns (status: Status, data: seq<byte>)
      requires Valid()
      modifies this
      ensures Valid() && status == err && (old(err) != Done ==> err == old(err) && data == [])
      ensures old(err) == Done ==> status != IntErr && (status == DiskErr ==> Hit(vol, chain, size, bad))
      ensures FileBytes(vol, chain, old(pos.ptr), data)
      ensures status == Done ==>
                && |data| == (if count > size - old(pos.ptr) then size - old(pos.ptr) else count)
                && pos.ptr == old(pos.ptr) + |data|
    {
      if err != Done {
        return err, [];
      }
      status, data, pos := Read(vol, chain, first, size, pos, count, bad);
      err := status;
    }

    method SeekTo(target: nat, bad: set<nat>) returns (status: Status)
      requires Valid()
      modifies this
      ensures Valid() && status == err && (old(err) != Done ==> err == old(err))
      ensures old(err) == Done ==> status != IntErr && (status == DiskErr ==> Hit(vol, chain, size, bad))
      ensures status == Done ==> pos.ptr == if target > size then size else target
    {
      if err != Done {
        return err;
      }
      status, pos := Seek(vol, chain, first, size, pos, target, bad);
      err := status;
    }
  }
}
