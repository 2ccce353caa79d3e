// FAT volumes: the allocation table behind a one-sector window, and cluster chains.

module Fat {
  import opened Bytes
  import opened Arith

  const SS := 512

  datatype Kind = Fat12 | Fat16 | Fat32

  // `entries` is the number of FAT entries, the two reserved ones included; `csize` is the
  // number of sectors in a cluster.
  datatype Vol = Vol(kind: Kind, fatBase: nat, dataBase: nat, csize: nat, entries: nat, disk: seq<seq<byte>>)

  // Bytes of the table that an entry may reach.
  function FatBytes(v: Vol): nat {
    match v.kind
    case Fat12 => v.entries + v.entries / 2 + 1
    case Fat16 => 2 * v.entries
    case Fat32 => 4 * v.entries
  }

  // The table lies on the disk.
  predicate TableOk(v: Vol) {
    && v.entries >= 2 && v.fatBase + FatBytes(v) / SS < |v.disk| < NOWHERE
    && forall s :: 0 <= s < |v.disk| ==> |v.disk[s]| == SS
  }

  // And so do the clusters.
  predicate Sound(v: Vol) {
    TableOk(v) && v.csize > 0 && v.dataBase > 0 && v.dataBase + v.csize * (v.entries - 2) <= |v.disk|
  }

  // A byte of the allocation table.
  function FatByte(v: Vol, k: nat): nat
    requires TableOk(v) && k <= FatBytes(v)
  {
    v.disk[v.fatBase + k / SS][k % SS]
  }

  // The low 28 bits of four bytes.
  function Low28(b0: nat, b1: nat, b2: nat, b3: nat): nat {
    (b0 + 0x100 * b1 + 0x1_0000 * b2 + 0x100_0000 * b3) % 0x1000_0000
  }

  // The value of a table entry. FAT12 packs two entries into three bytes.
  function Entry(v: Vol, c: nat): (e: nat)
    requires TableOk(v) && c < v.entries
  {
    match v.kind
    case Fat12 =>
      var w := FatByte(v, c + c / 2) + 256 * FatByte(v, c + c / 2 + 1);
      if c % 2 == 1 then w / 16 else w % 4096
    case Fat16 => FatByte(v, 2 * c) + 256 * FatByte(v, 2 * c + 1)
    case Fat32 =>
      Low28(FatByte(v, 4 * c), FatByte(v, 4 * c + 1), FatByte(v, 4 * c + 2), FatByte(v, 4 * c + 3))
  }

  // ---------------------------------------------------------------- the window

  const NOWHERE := 0xFFFF_FFFF

  datatype Window = Window(sect: nat, data: seq<byte>)

  predicate WindowOk(v: Vol, w: Window) {
    w.sect == NOWHERE || (w.sect < |v.disk| && w.data == v.disk[w.sect])
  }

  // Some sector of the table cannot be read.
  predicate TableHit(v: Vol, bad: set<nat>) {
    exists s :: s in bad && v.fatBase <= s <= v.fatBase + FatBytes(v) / SS
  }

  // Moves the window to a sector; `bad` are the sectors that cannot be read.
  method MoveWindow(v: Vol, w: Window, sector: nat, bad: set<nat>) returns (ok: bool, w': Window)
    requires TableOk(v) && WindowOk(v, w) && sector < |v.disk|
    ensures WindowOk(v, w') && (ok ==> w' == Window(sector, v.disk[sector]))
    ensures ok <==> sector == w.sect || sector !in bad
  {
    ok, w' := true, w;
    if sector != w.sect {
      if sector in bad {
        return false, Window(NOWHERE, w.data);
      }
      w' := Window(sector, v.disk[sector]);
    }
  }

  datatype Lookup = Next(cluster: nat) | Internal | DiskError

  lemma InTable(v: Vol, k: nat)
    requires k <= FatBytes(v)
    ensures v.fatBase <= v.fatBase + k / SS <= v.fatBase + FatBytes(v) / SS
  {
  }

  // Reads a byte of the table through the window.
  method ReadFatByte(v: Vol, w: Window, k: nat, bad: set<nat>) returns (ok: bool, b: nat, w': Window)
    requires TableOk(v) && WindowOk(v, w) && k <= FatBytes(v)
    ensures WindowOk(v, w') && (ok ==> b == FatByte(v, k)) && (!ok ==> TableHit(v, bad))
    ensures ok ==> w' == Window(v.fatBase + k / SS, v.disk[v.fatBase + k / SS])
  {
    b := 0;
    ok, w' := MoveWindow(v, w, v.fatBase + k / SS, bad);
    InTable(v, k);
    if ok {
      b := w'.data[k % SS];
    }
  }

  // Two bytes at an even position, and four at a multiple of four, lie in one sector.
  lemma SameSector(c: nat, n: nat, i: nat)
    requires (n == 2 || n == 4) && i < n
    ensures c / (SS / n) == (n * c + i) / SS == n * c / SS && (n * c + i) % SS == n * c % SS + i
  {
    if n == 2 {
      var q, r := c / 256, c % 256;
      assert n * c + i == SS * q + (2 * r + i) && n * c == SS * q + 2 * r;
    } else {
      var q, r := c / 128, c % 128;
      assert n * c + i == SS * q + (4 * r + i) && n * c == SS * q + 4 * r;
    }
  }

  lemma Near(v: Vol, w: Window, c: nat, n: nat, i: nat)
    requires TableOk(v) && (n == 2 || n == 4) && i < n && n * c + i <= FatBytes(v)
    requires v.fatBase + c / (SS / n) < |v.disk|
    requires w == Window(v.fatBase + c / (SS / n), v.disk[v.fatBase + c / (SS / n)])
    ensures n * c % SS + i < |w.data| && w.data[n * c % SS + i] == FatByte(v, n * c + i)
  {
    SameSector(c, n, i);
  }

  method GetFat12(v: Vol, w: Window, c: nat, bad: set<nat>) returns (r: Lookup, w': Window)
    requires TableOk(v) && WindowOk(v, w) && v.kind == Fat12 && c < v.entries
    ensures WindowOk(v, w') && r != Internal
    ensures r.Next? ==> r.cluster == Entry(v, c)
    ensures r.DiskError? ==> TableHit(v, bad)
  {
    var bc := c + c / 2;
    var ok, low, high;
    ok, low, w' := ReadFatByte(v, w, bc, bad);
    if !ok {
      return DiskError, w';
    }
    ok, high, w' := ReadFatByte(v, w', bc + 1, bad);
    if !ok {
      return DiskError, w';
    }
    var wc := low + 256 * high;
    r := Next(if c % 2 == 1 then wc / 16 else wc % 4096);
  }

  method GetFat16(v: Vol, w: Window, c: nat, bad: set<nat>) returns (r: Lookup, w': Window)
    requires TableOk(v) && WindowOk(v, w) && v.kind == Fat16 && c < v.entries
    ensures WindowOk(v, w') && r != Internal
    ensures r.Next? ==> r.cluster == Entry(v, c)
    ensures r.DiskError? ==> TableHit(v, bad)
  {
    SameSector(c, 2, 0);
    InTable(v, 2 * c);
    var ok;
    ok, w' := MoveWindow(v, w, v.fatBase + c / (SS / 2), bad);
    if !ok {
      return DiskError, w';
    }
    Near(v, w', c, 2, 0);
    Near(v, w', c, 2, 1);
    var at := c * 2 % SS;
    var b0: nat, b1: nat := w'.data[at], w'.data[at + 1];
    r := Next(b0 + 256 * b1);
  }

  method GetFat32(v: Vol, w: Window, c: nat, bad: set<nat>) returns (r: Lookup, w': Window)
    requires TableOk(v) && WindowOk(v, w) && v.kind == Fat32 && c < v.entries
    ensures WindowOk(v, w') && r != Internal
    ensures r.Next? ==> r.cluster == Entry(v, c)
    ensures r.DiskError? ==> TableHit(v, bad)
  {
    SameSector(c, 4, 0);
    InTable(v, 4 * c);
    var ok;
    ok, w' := MoveWindow(v, w, v.fatBase + c / (SS / 4), bad);
    if !ok {
      return DiskError, w';
    }
    var e := LoadDouble(v, w', c);
    r := Next(e);
  }

  // A 32-bit value of the table.
  method LoadDouble(v: Vol, w: Window, c: nat) returns (e: nat)
    requires TableOk(v) && v.kind == Fat32 && c < v.entries && v.fatBase + c / (SS / 4) < |v.disk|
    requires w == Window(v.fatBase + c / (SS / 4), v.disk[v.fatBase + c / (SS / 4)])
    ensures e == Entry(v, c)
  {
    Near(v, w, c, 4, 0);
    Near(v, w, c, 4, 1);
    Near(v, w, c, 4, 2);
    Near(v, w, c, 4, 3);
    var at := 4 * c % SS;
    e := Low28(w.data[at], w.data[at + 1], w.data[at + 2], w.data[at + 3]);
  }

  // The entry of a cluster. For FAT12 the window moves between the two bytes of an entry
  // that straddles two sectors.
  method GetFat(v: Vol, w: Window, c: nat, bad: set<nat>) returns (r: Lookup, w': Window)
    requires TableOk(v) && WindowOk(v, w)
    ensures WindowOk(v, w')
    ensures r == Internal <==> c < 2 || c >= v.entries
    ensures r.Next? ==> r.cluster == Entry(v, c)
    ensures r.DiskError? ==> TableHit(v, bad)
  {
    if c < 2 || c >= v.entries {
      return Internal, w;
    }
    match v.kind
    case Fat12 => r, w' := GetFat12(v, w, c, bad);
    case Fat16 => r, w' := GetFat16(v, w, c, bad);
    case Fat32 => r, w' := GetFat32(v, w, c, bad);
  }

  // ---------------------------------------------------------------- files

  // First sector of a cluster, or 0 when there is no such cluster.
  function ClusterSector(v: Vol, c: nat): nat {
    if c < 2 || c - 2 >= v.entries - 2 then 0
    else
      MulMono(v.csize, 0, c - 2);
      v.csize * (c - 2) + v.dataBase
  }

  // Number of sectors that a file of this size reaches into.
  function Sectors(size: nat): nat { (size + SS - 1) / SS }

  // A chain of clusters that is long enough for a file.
  ghost predicate ChainOk(v: Vol, chain: seq<nat>, first: nat, size: nat) {
    && v.csize > 0
    && (forall i :: 0 <= i < |chain| ==> 2 <= chain[i] < v.entries)
    && (chain != [] ==> chain[0] == first)
    && (TableOk(v) ==> forall i :: 0 <= i < |chain| - 1 ==> Entry(v, chain[i]) == chain[i + 1])
    && (forall s: nat :: s < Sectors(size) ==> s / v.csize < |chain|)
  }

  // The disk sector that holds sector s of a file.
  function FileSector(v: Vol, chain: seq<nat>, s: nat): nat
    requires v.csize > 0 && s / v.csize < |chain|
  {
    ClusterSector(v, chain[s / v.csize]) + s % v.csize
  }

  lemma InDisk(v: Vol, c: nat, k: nat)
    requires Sound(v) && 2 <= c < v.entries && k < v.csize
    ensures 0 < ClusterSector(v, c) && ClusterSector(v, c) + k < |v.disk|
    ensures ClusterSector(v, c) == v.dataBase + v.csize * (c - 2)
  {
    var p, x := v.csize, c - 2;
    assert p * (x + 1) == p * x + p;
    MulMono(p, x + 1, v.entries - 2);
  }

  // A byte of a file. The data area starts with cluster 2.
  function FileByte(v: Vol, chain: seq<nat>, k: nat): byte
    requires Sound(v) && k / SS / v.csize < |chain| && 2 <= chain[k / SS / v.csize] < v.entries
  {
    var c := chain[k / SS / v.csize];
    InDisk(v, c, k / SS % v.csize);
    v.disk[v.dataBase + v.csize * (c - 2) + k / SS % v.csize][k % SS]
  }

  // Byte r of sector s of a file.
  lemma ByteOfSector(v: Vol, chain: seq<nat>, k: nat, s: nat, r: nat)
    requires Sound(v) && k == SS * s + r && r < SS && s / v.csize < |chain| && 2 <= chain[s / v.csize] < v.entries
    ensures k / SS == s && FileSector(v, chain, s) < |v.disk|
    ensures FileByte(v, chain, k) == v.disk[FileSector(v, chain, s)][r]
  {
    DivUnique(SS, s, r);
    InDisk(v, chain[s / v.csize], s % v.csize);
  }

  // ---------------------------------------------------------------- how entries are stored

  // Two entries of twelve bits in three bytes.
  lemma Packed12(v: Vol, j: nat, a: nat, b: nat)
    requires TableOk(v) && v.kind == Fat12 && 2 * j + 1 < v.entries && a < 4096 && b < 4096
    requires FatByte(v, 3 * j) == a % 256 && FatByte(v, 3 * j + 1) == a / 256 + 16 * (b % 16)
    requires FatByte(v, 3 * j + 2) == b / 16
    ensures Entry(v, 2 * j) == a && Entry(v, 2 * j + 1) == b
  {
    var c := 2 * j;
    assert c / 2 == j && c % 2 == 0 && (c + 1) / 2 == j && (c + 1) % 2 == 1;
    Twelve(a, b);
  }

  lemma Twelve(a: nat, b: nat)
    requires a < 4096 && b < 4096
    ensures (a % 256 + 256 * (a / 256 + 16 * (b % 16))) % 4096 == a
    ensures (a / 256 + 16 * (b % 16) + 256 * (b / 16)) / 16 == b
  {
    assert a % 256 + 256 * (a / 256 + 16 * (b % 16)) == a + 4096 * (b % 16);
    assert a / 256 + 16 * (b % 16) + 256 * (b / 16) == a / 256 + 16 * b;
  }

  // Two and four bytes, the lowest first. The top four bits of a FAT32 entry are not part of it.
  lemma Stored16(v: Vol, c: nat, a: nat)
    requires TableOk(v) && v.kind == Fat16 && c < v.entries && a < 0x1_0000
    requires FatByte(v, 2 * c) == a % 256 && FatByte(v, 2 * c + 1) == a / 256
    ensures Entry(v, c) == a
  {
  }

  lemma Stored32(v: Vol, c: nat, b0: nat, b1: nat, b2: nat, b3: nat, top: nat)
    requires TableOk(v) && v.kind == Fat32 && c < v.entries && b0 < 256 && b1 < 256 && b2 < 256 && b3 < 16
    requires FatByte(v, 4 * c) == b0 && FatByte(v, 4 * c + 1) == b1
    requires FatByte(v, 4 * c + 2) == b2 && FatByte(v, 4 * c + 3) == b3 + 16 * top
    ensures Entry(v, c) == b0 + 0x100 * b1 + 0x1_0000 * b2 + 0x100_0000 * b3
  {
  }
}
