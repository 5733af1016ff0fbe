/** Reading an open file: cluster lookup shortcuts, the one-sector buffer, fl_fread and fl_fseek. */
module FatFile {
  import opened MachineWords
  import BitTricks
  import opened FatTable
  import opened FatChains

  const FAT_SECTOR_SIZE: nat := 512
  const NONE: nat := 0xFFFF_FFFF

  /** The contents of data sectors by address. */
  type Sectors = map<nat, seq<Byte>>

  /** Where clusters begin: in a 16-bit volume behind the root directory, of 32 bytes an entry. */
  function DataBegin(wide: bool, clusterBegin: nat, rootEntries: nat): nat {
    if wide then clusterBegin else clusterBegin + rootEntries * 32 / FAT_SECTOR_SIZE
  }

  /** The sectors left for the root directory hold all of it exactly when it fills them. */
  lemma {:induction false} RootDirectoryExactly(clusterBegin: nat, rootEntries: nat)
    ensures DataBegin(true, clusterBegin, rootEntries) == clusterBegin
    ensures (DataBegin(false, clusterBegin, rootEntries) - clusterBegin) * 512 == rootEntries * 32 <==> rootEntries % 16 == 0
    ensures 0 <= rootEntries * 32 - (DataBegin(false, clusterBegin, rootEntries) - clusterBegin) * 512 < 512
  {}

  /** fatfs_lba_of_cluster, from where the clusters begin. */
  function LbaOfCluster(begin: nat, perCluster: nat, cluster: nat): int { begin + (cluster - 2) * perCluster }

  /** From cluster 2 on, clusters tile the data area. */
  lemma {:induction false} ClustersTile(begin: nat, perCluster: nat, n: nat)
    requires perCluster > 0
    ensures LbaOfCluster(begin, perCluster, 2 + n / perCluster) + n % perCluster == begin + n
  {
    BitTricks.Quotient(n, perCluster);
  }

  /** The address of sector `s` of a file with the given chain. */
  function LbaOfSector(begin: nat, perCluster: nat, path: seq<nat>, s: nat): int
    requires perCluster > 0 && s / perCluster < |path|
  {
    LbaOfCluster(begin, perCluster, path[s / perCluster]) + s % perCluster
  }

  /** Every sector of the chain is on the disk. */
  ghost predicate OnDisk(data: Sectors, begin: nat, perCluster: nat, path: seq<nat>) {
    perCluster > 0 &&
    forall s: nat {:trigger LbaOfSector(begin, perCluster, path, s)} :: s / perCluster < |path| ==>
      var lba := LbaOfSector(begin, perCluster, path, s); lba >= 0 && lba in data && |data[lba]| == FAT_SECTOR_SIZE
  }

  /** Sector `s` of the file. */
  function FileSector(data: Sectors, begin: nat, perCluster: nat, path: seq<nat>, s: nat): seq<Byte>
    requires OnDisk(data, begin, perCluster, path) && s / perCluster < |path|
  {
    data[LbaOfSector(begin, perCluster, path, s)]
  }

  /** Sectors `s` to `s + n` of the file. */
  function FileSectors(data: Sectors, begin: nat, perCluster: nat, path: seq<nat>, s: nat, n: nat): (r: seq<Byte>)
    requires OnDisk(data, begin, perCluster, path) && (n > 0 ==> (s + n - 1) / perCluster < |path|)
    ensures |r| == n * FAT_SECTOR_SIZE
  {
    if n == 0 then [] else
      EarlierCluster(s, n, perCluster);
      FileSectors(data, begin, perCluster, path, s, n - 1) + FileSector(data, begin, perCluster, path, s + n - 1)
  }

  lemma {:induction false} EarlierCluster(s: nat, n: nat, perCluster: nat)
    requires perCluster > 0 && n > 0
    ensures n > 1 ==> (s + n - 2) / perCluster <= (s + n - 1) / perCluster
  {
    if n > 1 { QuotientOrder(s + n - 2, s + n - 1, perCluster); }
  }

  lemma {:induction false} QuotientOrder(a: nat, b: nat, p: nat)
    requires p > 0 && a <= b
    ensures a / p <= b / p
  {
    BitTricks.Quotient(a, p);
    BitTricks.Quotient(b, p);
    if a / p > b / p { BitTricks.ProductOrder(p, b / p + 1, a / p); }
  }

  /** media_read of `count` sectors. */
  method MediaRead(data: Sectors, lba: nat, count: nat) returns (r: seq<Byte>)
    requires forall i :: lba <= i < lba + count ==> i in data
    ensures r == Concatenated(data, lba, count)
  {
    r := [];
    for i := 0 to count
      invariant r == Concatenated(data, lba, i)
    {
      r := r + data[lba + i];
    }
  }

  function Concatenated(data: Sectors, lba: nat, count: nat): seq<Byte>
    requires forall i :: lba <= i < lba + count ==> i in data
  {
    if count == 0 then [] else Concatenated(data, lba, count - 1) + data[lba + count - 1]
  }

  /** Sectors of one cluster lie next to each other on the disk. */
  lemma {:induction false} ClusterIsContiguous(data: Sectors, begin: nat, perCluster: nat, path: seq<nat>, s: nat, n: nat)
    requires OnDisk(data, begin, perCluster, path) && s / perCluster < |path| && s % perCluster + n <= perCluster
    ensures var lba := LbaOfSector(begin, perCluster, path, s);
      && lba >= 0 && (forall i :: lba <= i < lba + n ==> i in data) && (n > 0 ==> (s + n - 1) / perCluster < |path|)
      && Concatenated(data, lba, n) == FileSectors(data, begin, perCluster, path, s, n)
    decreases n
  {
    var lba := LbaOfSector(begin, perCluster, path, s);
    assert lba >= 0 && lba in data;
    if n > 0 {
      ClusterIsContiguous(data, begin, perCluster, path, s, n - 1);
      SameCluster(s, n - 1, perCluster);
      assert LbaOfSector(begin, perCluster, path, s + n - 1) == lba + n - 1;
    }
  }

  lemma {:induction false} SameCluster(s: nat, k: nat, p: nat)
    requires p > 0 && s % p + k < p
    ensures (s + k) / p == s / p && (s + k) % p == s % p + k
  {
    BitTricks.Quotient(s, p);
    BitTricks.UniqueQuotient(s + k, p, s / p, s % p + k);
  }

  // ---------- the open file

  /** The lookups an open file remembers agree with its chain. */
  ghost predicate LookupOk(path: seq<nat>, idx: nat, cluster: nat) { idx == NONE || (idx < |path| && cluster == path[idx]) }

  ghost predicate CacheOk(path: seq<nat>, idx: seq<nat>, next: seq<nat>) {
    |idx| == |next| > 0 && forall j :: 0 <= j < |idx| ==> idx[j] == NONE || (idx[j] < |path| && next[j] == After(path, idx[j]))
  }

  ghost predicate BufferOk(data: Sectors, begin: nat, perCluster: nat, path: seq<nat>, address: nat, sector: seq<Byte>) {
    OnDisk(data, begin, perCluster, path) &&
    (address == NONE || (address / perCluster < |path| && sector == FileSector(data, begin, perCluster, path, address)))
  }

  /** Byte `y` of the data area, which begins at sector `begin` of the disk. */
  function AreaByte(data: Sectors, begin: nat, y: nat): Byte {
    if begin + y / 512 in data && y % 512 < |data[begin + y / 512]| then data[begin + y / 512][y % 512] else 0
  }

  /** The place of byte `x` in a chain, and its place in that cluster, for clusters of `size` bytes. */
  function Place(x: nat, size: nat): (i: nat)
    requires size > 0
    ensures i == x / size
  {
    BitTricks.Quotient(x, size);
    x / size
  }

  function Inside(x: nat, size: nat): (o: nat)
    requires size > 0
    ensures o == x % size < size
  {
    x % size
  }

  /** Byte `x` of a chain: cluster 2 is the first `size` bytes of the data area, cluster 3 the next, and so on. */
  function ChainByte(data: Sectors, begin: nat, size: nat, path: seq<nat>, x: nat): Byte
    requires size > 0 && Place(x, size) < |path|
  {
    var cluster := path[Place(x, size)];
    if cluster < 2 then 0
    else
      Positive(cluster - 2, size);
      AreaByte(data, begin, (cluster - 2) * size + Inside(x, size))
  }

  lemma {:induction false} Positive(a: nat, b: nat)
    ensures a * b >= 0
  {}

  /** The bytes of a whole chain, of which a file's contents are the first `length`. */
  ghost predicate Contents(data: Sectors, begin: nat, perCluster: nat, path: seq<nat>, stored: seq<Byte>) {
    && perCluster > 0 && |stored| == |path| * perCluster * 512 && (forall i :: 0 <= i < |path| ==> path[i] >= 2)
    && forall x {:trigger stored[x]} :: 0 <= x < |stored| ==>
      Place(x, perCluster * 512) < |path| && stored[x] == ChainByte(data, begin, perCluster * 512, path, x)
  }

  /** A byte of the chain is a byte of its sector. */
  lemma {:induction false} SectorByte(data: Sectors, begin: nat, perCluster: nat, path: seq<nat>, stored: seq<Byte>, x: nat)
    requires OnDisk(data, begin, perCluster, path) && Contents(data, begin, perCluster, path, stored) && x < |stored|
    ensures x / FAT_SECTOR_SIZE / perCluster < |path|
    ensures |FileSector(data, begin, perCluster, path, x / FAT_SECTOR_SIZE)| == FAT_SECTOR_SIZE
    ensures stored[x] == FileSector(data, begin, perCluster, path, x / FAT_SECTOR_SIZE)[x % FAT_SECTOR_SIZE]
  {
    hide OnDisk, Contents, LbaOfSector;
    var s, o := x / 512, x % 512;
    ContentsAt(data, begin, perCluster, path, stored, x);
    ByteInCluster(x, perCluster);
    SectorOnDisk(data, begin, perCluster, path, s);
    ByteOfSector(data, begin, perCluster, path, s, o);
  }

  lemma {:induction false} ContentsAt(data: Sectors, begin: nat, perCluster: nat, path: seq<nat>, stored: seq<Byte>, x: nat)
    requires Contents(data, begin, perCluster, path, stored) && x < |stored|
    ensures perCluster > 0 && Place(x, perCluster * 512) < |path| && path[Place(x, perCluster * 512)] >= 2
    ensures stored[x] == ChainByte(data, begin, perCluster * 512, path, x)
  {
    hide Place, ChainByte;
    assert stored[x] < 256;
  }

  lemma {:induction false} SectorOnDisk(data: Sectors, begin: nat, perCluster: nat, path: seq<nat>, s: nat)
    requires OnDisk(data, begin, perCluster, path) && s / perCluster < |path|
    ensures var lba := LbaOfSector(begin, perCluster, path, s); lba >= 0 && lba in data && |data[lba]| == FAT_SECTOR_SIZE
  {
    assert LbaOfSector(begin, perCluster, path, s) in data;
  }

  /** The byte of the chain's data area, and the byte of the sector. */
  lemma {:induction false} ByteOfSector(data: Sectors, begin: nat, perCluster: nat, path: seq<nat>, s: nat, o: nat)
    requires perCluster > 0 && s / perCluster < |path| && path[s / perCluster] >= 2 && o < 512
    requires var lba := LbaOfSector(begin, perCluster, path, s); lba in data && |data[lba]| == 512
    ensures var y := (path[s / perCluster] - 2) * (perCluster * 512) + (s % perCluster * 512 + o);
      y >= 0 && AreaByte(data, begin, y) == data[LbaOfSector(begin, perCluster, path, s)][o]
  {
    AreaOffset(path[s / perCluster] - 2, perCluster, s % perCluster, o);
  }

  lemma {:induction false} ByteInCluster(x: nat, perCluster: nat)
    requires perCluster > 0
    ensures Place(x, perCluster * 512) == x / 512 / perCluster
    ensures Inside(x, perCluster * 512) == x / 512 % perCluster * 512 + x % 512
  {
    var s := x / 512;
    BitTricks.Quotient(s, perCluster);
    BitTricks.UniqueQuotient(x, perCluster * 512, s / perCluster, s % perCluster * 512 + x % 512);
  }

  lemma {:induction false} AreaOffset(c: nat, perCluster: nat, r: nat, o: nat)
    requires o < 512
    ensures var y := c * (perCluster * 512) + (r * 512 + o); y >= 0 && y / 512 == c * perCluster + r && y % 512 == o
  {
    Positive(c, perCluster);
    BitTricks.UniqueQuotient(c * (perCluster * 512) + (r * 512 + o), 512, c * perCluster + r, o);
  }

  class File {
    const fat: Fat
    const data: Sectors
    const begin: nat
    const clusterBegin: nat
    const rootEntries: nat
    const perCluster: nat
    const startCluster: nat
    const length: nat
    const cacheIdx: array<nat>
    const cacheData: array<nat>
    var pos: nat
    var lookIdx: nat
    var lookCluster: nat
    var dataAddress: nat
    var dataSector: seq<Byte>
    ghost const path: seq<nat>
    ghost const stored: seq<Byte>

    /** The chain, the disk and everything remembered about them agree. */
    ghost predicate Valid()
      reads this, fat, fat.table, cacheIdx, cacheData
    {
      && fat.Valid() && Chain(fat.wide, fat.Entries(), startCluster, path) && 2 < |fat.Entries()| && |path| < NONE
      && begin == DataBegin(fat.wide, clusterBegin, rootEntries)
      && OnDisk(data, begin, perCluster, path) && Contents(data, begin, perCluster, path, stored)
      && length <= |stored| && length < TWO_TO_THE_32 && pos < TWO_TO_THE_32
      && LookupOk(path, lookIdx, lookCluster) && CacheOk(path, cacheIdx[..], cacheData[..]) && cacheIdx != cacheData
      && BufferOk(data, begin, perCluster, path, dataAddress, dataSector)
    }

    /** Opening a file for reading: nothing is remembered yet. */
    constructor (fat: Fat, data: Sectors, clusterBegin: nat, rootEntries: nat, perCluster: nat, startCluster: nat, cacheEntries: nat,
                 ghost path: seq<nat>, length: nat, ghost stored: seq<Byte>)
      requires fat.Valid() && Chain(fat.wide, fat.Entries(), startCluster, path) && 2 < |fat.Entries()| && |path| < NONE
      requires var begin := DataBegin(fat.wide, clusterBegin, rootEntries);
        OnDisk(data, begin, perCluster, path) && Contents(data, begin, perCluster, path, stored)
      requires cacheEntries > 0
      requires length <= |stored| && length < TWO_TO_THE_32
      ensures Valid() && this.fat == fat && this.stored == stored && this.length == length && pos == 0
    {
      this.fat, this.data, this.perCluster, this.startCluster := fat, data, perCluster, startCluster;
      this.begin, this.clusterBegin, this.rootEntries := DataBegin(fat.wide, clusterBegin, rootEntries), clusterBegin, rootEntries;
      this.path, this.length, this.stored := path, length, stored;
      cacheIdx := new nat[cacheEntries](_ => NONE);
      cacheData := new nat[cacheEntries](_ => 0);
      pos, lookIdx, lookCluster, dataAddress, dataSector := 0, NONE, NONE, NONE, [];
    }

    /** The next cluster after place `i` of the chain, from the cache or the table. */
    method NextInChain(i: nat, cluster: nat) returns (next: nat)
      requires Valid() && i < |path| && cluster == path[i]
      modifies fat.table, cacheIdx, cacheData
      ensures Valid() && next == After(path, i)
    {
      hide Contents, OnDisk, Fat.Valid, Fat.Entries, Chain, BufferOk, NextOf;
      var slot := i % cacheIdx.Length;
      if cacheIdx[slot] == i {
        next := cacheData[slot];
      } else {
        InChain(fat.wide, fat.Entries(), startCluster, path, i);
        next := fat.FindNext(cluster);
        cacheIdx[slot] := i;
        cacheData[slot] := next;
      }
    }

    /** The cluster at place `idx` of the chain, or its end, by the shortcuts of _read_sectors. */
    method LookupCluster(idx: nat) returns (cluster: nat)
      requires Valid() && idx <= |path|
      modifies this`lookIdx, this`lookCluster, fat.table, cacheIdx, cacheData
      ensures Valid() && cluster == (if idx < |path| then path[idx] else FAT32_LAST_CLUSTER)
      ensures cluster == FAT32_LAST_CLUSTER <==> idx == |path|
    {
      hide Contents, OnDisk, Fat.Valid, Fat.Entries, Chain, BufferOk, CacheOk, NextOf;
      ChainStarts(fat.wide, fat.Entries(), startCluster, path);
      InTheTable(idx);
      if idx == lookIdx { return lookCluster; }
      var i: nat := 0;
      cluster := startCluster;
      if idx != 0 && idx == (lookIdx + 1) % TWO_TO_THE_32 {
        i, cluster := lookIdx, lookCluster;
      }
      while i < idx
        invariant Valid() && i <= idx && cluster == if i < |path| then path[i] else FAT32_LAST_CLUSTER
      {
        cluster := NextInChain(i, cluster);
        i := i + 1;
      }
      if cluster != FAT32_LAST_CLUSTER {
        lookCluster, lookIdx := cluster, idx;
      }
    }

    lemma {:induction false} InTheTable(idx: nat)
      requires Valid()
      ensures idx < |path| ==> path[idx] < FAT32_LAST_CLUSTER
    {
      hide Contents, OnDisk, BufferOk, CacheOk, FatBuffers.Valid, Fat.Entries, Chain;
      if idx < |path| { InChain(fat.wide, fat.Entries(), startCluster, path, idx); }
    }

    /** _read_sectors: as many of `count0` sectors as the cluster holds, and none past the end of the chain. */
    method ReadSectors(offset: nat, count0: nat) returns (n: nat, buffer: seq<Byte>)
      requires Valid() && count0 > 0 && perCluster > 0 && offset / perCluster <= |path|
      modifies this`lookIdx, this`lookCluster, fat.table, cacheIdx, cacheData
      ensures Valid() && n == if offset / perCluster < |path| then Min(count0, perCluster - offset % perCluster) else 0
      ensures offset / perCluster < |path| ==> 0 < n && (offset + n - 1) / perCluster < |path|
      ensures buffer == if offset / perCluster < |path| then FileSectors(data, begin, perCluster, path, offset, n) else []
    {
      hide Contents, OnDisk, Fat.Valid, Fat.Entries, Chain, BufferOk, CacheOk, LookupOk;
      BitTricks.Quotient(offset, perCluster);
      var clusterIdx := offset / perCluster;
      var sector := offset - clusterIdx * perCluster;
      n := if sector + count0 > perCluster then perCluster - sector else count0;
      var cluster := LookupCluster(clusterIdx);
      if cluster == FAT32_LAST_CLUSTER { return 0, []; }
      ClusterIsContiguous(data, begin, perCluster, path, offset, n);
      var lba := LbaOfCluster(begin, perCluster, cluster) + sector;
      buffer := MediaRead(data, lba, n);
    }

    /** The sector buffer is made to hold sector `sector` of the file, if the chain reaches it. */
    method FillBuffer(sector: nat) returns (ok: bool)
      requires Valid() && perCluster > 0 && sector / perCluster <= |path| && sector < NONE
      modifies this`lookIdx, this`lookCluster, this`dataAddress, this`dataSector, fat.table, cacheIdx, cacheData
      ensures Valid() && (ok <==> sector / perCluster < |path|)
      ensures ok ==> dataSector == FileSector(data, begin, perCluster, path, sector)
    {
      hide Contents, Fat.Valid, Fat.Entries, Chain, CacheOk, LookupOk;
      if dataAddress != sector {
        var n, buffer := ReadSectors(sector, 1);
        if n == 0 { return false; }
        OneSector(data, begin, perCluster, path, sector);
        dataSector := buffer;
        dataAddress := sector;
      }
      ok := true;
    }

    /** One step of fl_fread at byte `at`: whole sectors straight from the disk, or part of the buffered sector. */
    method ReadPart(ghost at: nat, sector0: nat, offset0: nat, want: nat) returns (ok: bool, copied: seq<Byte>, sector: nat, offset: nat)
      requires Valid() && 0 < want && at <= |stored| && at < 2 * TWO_TO_THE_32 && sector0 == at / FAT_SECTOR_SIZE && offset0 == at % FAT_SECTOR_SIZE
      modifies this`lookIdx, this`lookCluster, this`dataAddress, this`dataSector, fat.table, cacheIdx, cacheData
      ensures Valid() && (ok <==> at < |stored|)
      ensures ok ==> 0 < |copied| <= want && at + |copied| <= |stored| && copied == stored[at..at + |copied|]
      ensures ok && |copied| < want ==> sector == (at + |copied|) / FAT_SECTOR_SIZE && offset == (at + |copied|) % FAT_SECTOR_SIZE
    {
      hide OnDisk, Contents, Fat.Valid, Fat.Entries, Chain, CacheOk, LookupOk, BufferOk, FileSector, FileSectors;
      InFile(data, begin, perCluster, path, stored, at);
      ok, copied, sector, offset := true, [], sector0, offset0;
      if offset0 == 0 && want >= FAT_SECTOR_SIZE {
        var n, part := ReadSectors(sector0, want / FAT_SECTOR_SIZE);
        if n == 0 { return false, [], sector0, offset0; }
        WithinChain(data, begin, perCluster, path, stored, sector0, n);
        WholeSectors(data, begin, perCluster, path, stored, sector0, n);
        SectorsLength(data, begin, perCluster, path, sector0, n);
        copied, sector, offset := part, sector0 + n, 0;
      } else {
        ok := FillBuffer(sector0);
        if !ok { return; }
        var copyCount := Min(FAT_SECTOR_SIZE - offset0, want);
        WithinChain(data, begin, perCluster, path, stored, sector0, 1);
        PartOfSector(data, begin, perCluster, path, stored, sector0, offset0, copyCount);
        copied := dataSector[offset0..offset0 + copyCount];
        sector, offset := sector0 + 1, 0;
      }
    }

    /** fl_fread of `n` bytes: from the position to where the limit, computed in 32 bits, and the chain let it go. */
    method Fread(n: int) returns (r: int, out: seq<Byte>)
      requires Valid() && Int32(n)
      modifies this, fat.table, cacheIdx, cacheData
      ensures Valid() && out == Got(stored, length, old(pos), n)
      ensures r == if n != 0 && old(pos) >= length then -1 else |out|
      ensures pos == (old(pos) + |out|) % TWO_TO_THE_32
    {
      hide OnDisk, Contents, Fat.Valid, Fat.Entries, Chain, CacheOk, LookupOk, BufferOk, FileSector, FileSectors, Got, ToRead;
      out := [];
      NothingGot(stored, length, pos, n);
      if n == 0 { return 0, []; }
      if pos >= length { return -1, []; }
      var count := ToRead(length, pos, n);
      var bytesRead := 0;
      var sector, offset := pos / FAT_SECTOR_SIZE, pos % FAT_SECTOR_SIZE;
      ghost var at := pos;
      while bytesRead < count
        invariant Valid() && 0 <= bytesRead && (bytesRead <= count || bytesRead == 0) && at == old(pos) + bytesRead <= |stored| && pos == at % TWO_TO_THE_32
        invariant out == stored[old(pos)..at]
        invariant bytesRead < count ==> sector == at / FAT_SECTOR_SIZE && offset == at % FAT_SECTOR_SIZE
      {
        var ok, copied;
        ok, copied, sector, offset := ReadPart(at, sector, offset, count - bytesRead);
        if !ok { break; }
        PartsJoin(stored, old(pos), at, at + |copied|);
        out := out + copied;
        bytesRead := bytesRead + |copied|;
        WordSum(at, |copied|);
        pos := (pos + |copied|) % TWO_TO_THE_32;
        at := at + |copied|;
      }
      AllGot(stored, length, old(pos), n, at);
      r := bytesRead;
    }

    /** fl_fseek: the position moves as `SoughtPos` says, and the sector buffer is dropped. */
    method Fseek(offset: int, origin: Origin) returns (r: int)
      requires Valid()
      modifies this`pos, this`dataAddress
      ensures Valid() && pos == SoughtPos(old(pos), length, offset, origin)
      ensures r == if origin == SeekEnd && offset != 0 then -1 else 0
    {
      hide Contents, OnDisk, Fat.Valid, Fat.Entries, Chain, CacheOk, LookupOk;
      if origin == SeekEnd && offset != 0 { return -1; }
      dataAddress := NONE;
      if origin == SeekSet {
        pos := Min(offset % TWO_TO_THE_32, length);
      } else if origin == SeekCur {
        if offset >= 0 {
          pos := Min((pos + offset) % TWO_TO_THE_32, length);
        } else {
          var back := -offset % TWO_TO_THE_32;
          pos := if back > pos then 0 else pos - back;
        }
      } else {
        pos := length;
      }
      r := 0;
    }

    /** Any interleaving of reads and seeks, with the position asked for after each seek, sees what `Replay` says of the stored bytes. */
    method RunScript(script: seq<Access>) returns (seen: seq<Outcome>)
      requires Valid() && Sized(script)
      modifies this, fat.table, cacheIdx, cacheData
      ensures Valid() && seen == Replay(stored, length, old(pos), script)
    {
      hide Contents, OnDisk, Fat.Valid, Fat.Entries, Chain, CacheOk, LookupOk, BufferOk, SoughtPos, Got;
      seen := [];
      assert script[0..] == script;
      for i := 0 to |script|
        invariant Valid() && seen + Replay(stored, length, pos, script[i..]) == Replay(stored, length, old(pos), script)
      {
        assert script[i..][0] == script[i] && script[i..][1..] == script[i + 1..];
        var outcome;
        match script[i] {
          case Read(count) =>
            var r, out := Fread(count);
            outcome := Bytes(out);
          case Seek(offset, origin) =>
            var r := Fseek(offset, origin);
            outcome := At(pos);
        }
        Appended(seen, outcome, Replay(stored, length, pos, script[i + 1..]));
        seen := seen + [outcome];
      }
      assert script[|script|..] == [];
    }
  }

  predicate Int32(x: int) { -0x8000_0000 <= x < 0x8000_0000 }

  /** A 32-bit word assigned to an int. */
  function SignedWord(x: nat): int { if x < TWO_TO_THE_31 then x else x - TWO_TO_THE_32 }

  datatype Origin = SeekSet | SeekCur | SeekEnd

  datatype Access = Read(count: int) | Seek(offset: int, origin: Origin)

  /** What a read delivers, and what fl_ftell says after a seek. */
  datatype Outcome = Bytes(out: seq<Byte>) | At(pos: nat)

  ghost predicate Sized(script: seq<Access>) { forall i :: 0 <= i < |script| && script[i].Read? ==> Int32(script[i].count) }

  /** Where a seek leads, in 32-bit arithmetic. */
  function SoughtPos(pos: nat, length: nat, offset: int, origin: Origin): (p: nat)
    requires length < TWO_TO_THE_32 && pos < TWO_TO_THE_32
    ensures p < TWO_TO_THE_32 && (pos <= length ==> p <= length)
  {
    match origin
    case SeekSet => Min(offset % TWO_TO_THE_32, length)
    case SeekCur =>
      if offset >= 0 then Min((pos + offset) % TWO_TO_THE_32, length)
      else if -offset % TWO_TO_THE_32 > pos then 0 else pos - (-offset % TWO_TO_THE_32)
    case SeekEnd => if offset != 0 then pos else length
  }

  /** The nearest position in the file. */
  function Clamped(x: int, length: nat): nat { if x < 0 then 0 else if x < length then x else length }

  /** Where a seek should lead: the target, kept within the file. */
  function Target(pos: nat, length: nat, offset: int, origin: Origin): (p: nat)
    requires pos <= length
    ensures p <= length
  {
    match origin
    case SeekSet => Clamped(offset, length)
    case SeekCur => Clamped(pos + offset, length)
    case SeekEnd => if offset != 0 then pos else length
  }

  /** What has to be so of the offset in 32 bits. */
  predicate SeekRight(pos: nat, length: nat, offset: int, origin: Origin) {
    match origin
    case SeekSet =>
      if offset >= 0 then offset < TWO_TO_THE_32 || offset % TWO_TO_THE_32 >= length
      else length == 0 || offset % TWO_TO_THE_32 == 0
    case SeekCur =>
      if offset >= 0 then pos + offset < TWO_TO_THE_32 || (pos + offset) % TWO_TO_THE_32 >= length
      else -offset < TWO_TO_THE_32 || -offset % TWO_TO_THE_32 >= pos
    case SeekEnd => true
  }

  /** A seek within a file, by any offset, leads to its target exactly then. */
  lemma {:induction false} SeekExactly(pos: nat, length: nat, offset: int, origin: Origin)
    requires pos <= length < TWO_TO_THE_32
    ensures SoughtPos(pos, length, offset, origin) == Target(pos, length, offset, origin) <==> SeekRight(pos, length, offset, origin)
  {
    var m, back := offset % TWO_TO_THE_32, -offset % TWO_TO_THE_32;
    assert 0 <= offset < TWO_TO_THE_32 ==> m == offset;
    assert 0 < -offset < TWO_TO_THE_32 ==> back == -offset;
    assert 0 <= pos + offset < TWO_TO_THE_32 ==> (pos + offset) % TWO_TO_THE_32 == pos + offset;
  }

  /** Wherever it leads, a seek leads to the target of an offset that is the same in 32 bits. */
  lemma {:induction false} SeekWraps(pos: nat, length: nat, offset: int, origin: Origin)
    requires pos <= length < TWO_TO_THE_32
    ensures origin == SeekSet ==> SoughtPos(pos, length, offset, origin) == Target(pos, length, offset % 0x1_0000_0000, SeekSet)
    ensures origin == SeekCur && offset >= 0 ==> SoughtPos(pos, length, offset, origin) == Target(pos, length, (pos + offset) % 0x1_0000_0000, SeekSet)
    ensures origin == SeekCur && offset < 0 ==> SoughtPos(pos, length, offset, origin) == Target(pos, length, -(-offset % 0x1_0000_0000), SeekCur)
  {}

  /** The bytes a read of `count` at `pos` should give. */
  function Piece(content: seq<Byte>, pos: nat, count: int): seq<Byte> {
    if pos >= |content| || count <= 0 then [] else content[pos..Min(pos + count, |content|)]
  }

  /** The count limited to the file size: the sum is unsigned, the count an int. */
  function ToRead(length: nat, pos: nat, n: int): (count: int)
    requires pos < length < TWO_TO_THE_32
    ensures Int32(n) ==> Int32(count)
  {
    if (pos + n) % TWO_TO_THE_32 > length then SignedWord(length - pos) else n
  }

  /** The bytes it gives: `stored` is the whole chain, and the limit to the length is tested with a 32-bit sum. */
  function Got(stored: seq<Byte>, length: nat, pos: nat, n: int): seq<Byte>
    requires length <= |stored| && length < TWO_TO_THE_32
  {
    if n == 0 || pos >= length then []
    else
      var count := ToRead(length, pos, n);
      if count <= 0 then [] else stored[pos..Min(pos + count, |stored|)]
  }

  lemma {:induction false} NothingGot(stored: seq<Byte>, length: nat, pos: nat, n: int)
    requires length <= |stored| && length < TWO_TO_THE_32
    ensures n == 0 || pos >= length ==> Got(stored, length, pos, n) == []
  {}

  lemma {:induction false} AllGot(stored: seq<Byte>, length: nat, pos: nat, n: int, at: nat)
    requires length <= |stored| && pos < length < TWO_TO_THE_32 && n != 0 && pos <= at
    requires var count := ToRead(length, pos, n);
      at == if count <= 0 then pos else Min(pos + count, |stored|)
    ensures Got(stored, length, pos, n) == stored[pos..at]
  {}

  lemma {:induction false} PartsJoin(s: seq<Byte>, a: nat, b: nat, c: nat)
    requires a <= b <= c <= |s|
    ensures s[a..b] + s[b..c] == s[a..c]
  {}

  lemma {:induction false} WordSum(a: nat, b: nat)
    ensures (a % TWO_TO_THE_32 + b) % TWO_TO_THE_32 == (a + b) % TWO_TO_THE_32
  {}

  /** The sum does not wrap past the limit, or there is nothing it could run into. */
  predicate ReadRight(total: nat, length: nat, pos: nat, n: int) {
    n == 0 || pos >= length ||
    if n > 0 then pos + n < TWO_TO_THE_32 || total == length
    else 0 <= pos + n || pos + n + TWO_TO_THE_32 <= length || length - pos >= TWO_TO_THE_31
  }

  /** A read gives the file's own bytes, and none for a negative count, exactly then. */
  lemma {:induction false} ReadExactly(stored: seq<Byte>, length: nat, pos: nat, n: int)
    requires length <= |stored| && length < TWO_TO_THE_32 && Int32(n)
    ensures Got(stored, length, pos, n) == Piece(stored[..length], pos, n) <==> ReadRight(|stored|, length, pos, n)
  {
    if n > 0 && pos < length {
      ReadForward(stored, length, pos, n);
    } else if n < 0 && pos < length {
      assert (pos + n) % TWO_TO_THE_32 == if pos + n < 0 then pos + n + TWO_TO_THE_32 else pos + n;
      assert Piece(stored[..length], pos, n) == [];
    }
  }

  /** What a read gives when it is not right: all it asked for or the chain has, or, for a negative count, the rest of the file. */
  lemma {:induction false} ReadWraps(stored: seq<Byte>, length: nat, pos: nat, n: int)
    requires length <= |stored| && length < TWO_TO_THE_32 && Int32(n) && !ReadRight(|stored|, length, pos, n)
    ensures pos < length && Got(stored, length, pos, n) == stored[pos..if n > 0 then Min(pos + n, |stored|) else length]
  {
    assert (pos + n) % TWO_TO_THE_32 == if pos + n < 0 then pos + n + TWO_TO_THE_32 else if pos + n < TWO_TO_THE_32 then pos + n else pos + n - TWO_TO_THE_32;
  }

  lemma {:induction false} ReadForward(stored: seq<Byte>, length: nat, pos: nat, n: nat)
    requires length <= |stored| && length < TWO_TO_THE_32 && pos < length && 0 < n < TWO_TO_THE_31
    ensures Got(stored, length, pos, n) == Piece(stored[..length], pos, n) <==> pos + n < TWO_TO_THE_32 || |stored| == length
  {
    if pos + n < TWO_TO_THE_32 {
      assert (pos + n) % TWO_TO_THE_32 == pos + n;
      SamePart(stored, length, pos, Min(pos + n, length));
    } else {
      assert (pos + n) % TWO_TO_THE_32 == pos + n - TWO_TO_THE_32;
      SamePart(stored, length, pos, length);
      assert |Got(stored, length, pos, n)| == Min(pos + n, |stored|) - pos;
    }
  }

  /** A read of 512 bytes, 256 bytes before the end of a file near 4 GB, gives 512 bytes when its chain holds them. */
  lemma {:induction false} ReadTooFar(stored: seq<Byte>)
    requires |stored| == TWO_TO_THE_32
    ensures var length, pos := 0xFFFF_FF00, 0xFFFF_FE00;
      |Piece(stored[..length], pos, 512)| == 256 && |Got(stored, length, pos, 512)| == 512
  {}

  lemma {:induction false} SamePart(stored: seq<Byte>, length: nat, a: nat, b: nat)
    requires a <= b <= length <= |stored|
    ensures stored[..length][a..b] == stored[a..b]
  {}

  /** A script on the stored bytes of a chain, as the code runs it. */
  function Replay(stored: seq<Byte>, length: nat, pos: nat, script: seq<Access>): seq<Outcome>
    requires length <= |stored| && length < TWO_TO_THE_32 && pos < TWO_TO_THE_32
    decreases |script|
  {
    if script == [] then []
    else match script[0]
      case Read(count) =>
        var out := Got(stored, length, pos, count);
        [Bytes(out)] + Replay(stored, length, (pos + |out|) % TWO_TO_THE_32, script[1..])
      case Seek(offset, origin) =>
        var p := SoughtPos(pos, length, offset, origin);
        [At(p)] + Replay(stored, length, p, script[1..])
  }

  /** The position a read moves to on plain contents. */
  function Behind(pos: nat, count: int, length: nat): (p: nat)
    requires pos <= length
    ensures p <= length
  {
    if count <= 0 then pos else Min(pos + count, length)
  }

  /** A script on plain contents with a position. */
  function Plain(content: seq<Byte>, pos: nat, script: seq<Access>): seq<Outcome>
    requires pos <= |content|
    decreases |script|
  {
    if script == [] then []
    else match script[0]
      case Read(count) => [Bytes(Piece(content, pos, count))] + Plain(content, Behind(pos, count, |content|), script[1..])
      case Seek(offset, origin) =>
        var p := Target(pos, |content|, offset, origin);
        [At(p)] + Plain(content, p, script[1..])
  }

  /** Every read and every seek of a script is right where it happens on plain contents. */
  ghost predicate Sound(total: nat, length: nat, pos: nat, script: seq<Access>)
    requires pos <= length
    decreases |script|
  {
    script == [] ||
    match script[0]
    case Read(count) => ReadRight(total, length, pos, count) && Sound(total, length, Behind(pos, count, length), script[1..])
    case Seek(offset, origin) => SeekRight(pos, length, offset, origin) && Sound(total, length, Target(pos, length, offset, origin), script[1..])
  }

  lemma {:induction false} ReadMoves(stored: seq<Byte>, length: nat, pos: nat, n: int)
    requires length <= |stored| && pos <= length < TWO_TO_THE_32
    requires Got(stored, length, pos, n) == Piece(stored[..length], pos, n)
    ensures (pos + |Got(stored, length, pos, n)|) % TWO_TO_THE_32 == Behind(pos, n, length)
  {
    assert |Piece(stored[..length], pos, n)| == Behind(pos, n, length) - pos;
  }

  /** A script sees plain contents with a position exactly when it is sound. */
  lemma {:induction false} ScriptExactly(stored: seq<Byte>, length: nat, pos: nat, script: seq<Access>)
    requires length <= |stored| && pos <= length < TWO_TO_THE_32 && Sized(script)
    ensures Replay(stored, length, pos, script) == Plain(stored[..length], pos, script) <==> Sound(|stored|, length, pos, script)
    decreases |script|
  {
    hide SoughtPos, Got, Piece, Target, Behind, ReadRight, SeekRight;
    if script != [] {
      var a, b, rest := Replay(stored, length, pos, script), Plain(stored[..length], pos, script), script[1..];
      match script[0] {
        case Read(count) =>
          ReadExactly(stored, length, pos, count);
          if ReadRight(|stored|, length, pos, count) {
            ReadMoves(stored, length, pos, count);
            var p := Behind(pos, count, length);
            ScriptExactly(stored, length, p, rest);
            Tails(a, b, Bytes(Got(stored, length, pos, count)), Replay(stored, length, p, rest), Plain(stored[..length], p, rest));
          } else {
            assert a[0] != b[0];
          }
        case Seek(offset, origin) =>
          SeekExactly(pos, length, offset, origin);
          if SeekRight(pos, length, offset, origin) {
            var p := Target(pos, length, offset, origin);
            ScriptExactly(stored, length, p, rest);
            Tails(a, b, At(p), Replay(stored, length, p, rest), Plain(stored[..length], p, rest));
          } else {
            assert a[0] != b[0];
          }
      }
    }
  }

  lemma {:induction false} Tails(a: seq<Outcome>, b: seq<Outcome>, o: Outcome, s: seq<Outcome>, t: seq<Outcome>)
    requires a == [o] + s && b == [o] + t
    ensures a == b <==> s == t
  {
    assert a[1..] == s && b[1..] == t;
  }

  /** Reads of up to `c` bytes, and seeks right from every position of the file. */
  ghost predicate Limited(script: seq<Access>, length: nat, c: nat) {
    && (forall i :: 0 <= i < |script| && script[i].Read? ==> 0 <= script[i].count <= c)
    && (forall i, pos: nat :: 0 <= i < |script| && script[i].Seek? && pos <= length ==> SeekRight(pos, length, script[i].offset, script[i].origin))
  }

  lemma {:induction false} LimitedSound(total: nat, length: nat, c: nat, pos: nat, script: seq<Access>)
    requires pos <= length && Limited(script, length, c) && (total == length || length + c <= TWO_TO_THE_32)
    ensures Sound(total, length, pos, script)
    decreases |script|
  {
    hide Target, SeekRight;
    if script != [] {
      var p := match script[0] case Read(count) => Behind(pos, count, length) case Seek(offset, origin) => Target(pos, length, offset, origin);
      LimitedSound(total, length, c, p, script[1..]);
    }
  }

  /** All such scripts see plain contents exactly when no read of up to `c` bytes can wrap or the chain has no byte to spare. */
  lemma {:induction false} ScriptsExactly(stored: seq<Byte>, length: nat, c: nat)
    requires length <= |stored| && length < TWO_TO_THE_32 && c < TWO_TO_THE_31
    ensures (forall pos: nat, script | pos <= length && Limited(script, length, c) :: Replay(stored, length, pos, script) == Plain(stored[..length], pos, script))
      <==> |stored| == length || length + c <= TWO_TO_THE_32
  {
    hide Replay, Plain, SeekRight;
    if |stored| == length || length + c <= TWO_TO_THE_32 {
      forall pos: nat, script | pos <= length && Limited(script, length, c) ensures Replay(stored, length, pos, script) == Plain(stored[..length], pos, script) {
        ScriptExactly(stored, length, pos, script);
        LimitedSound(|stored|, length, c, pos, script);
      }
    } else {
      ScriptExactly(stored, length, length - 1, [Read(c)]);
      assert !Sound(|stored|, length, length - 1, [Read(c)]);
      assert Limited([Read(c)], length, c);
    }
  }

  lemma {:induction false} Appended(a: seq<Outcome>, x: Outcome, b: seq<Outcome>)
    ensures a + ([x] + b) == (a + [x]) + b
  {}

  lemma {:induction false} PerClusterPositive(data: Sectors, begin: nat, perCluster: nat, path: seq<nat>)
    requires OnDisk(data, begin, perCluster, path)
    ensures perCluster > 0
  {}

  lemma {:induction false} SectorsLength(data: Sectors, begin: nat, perCluster: nat, path: seq<nat>, s: nat, n: nat)
    requires OnDisk(data, begin, perCluster, path) && (n > 0 ==> (s + n - 1) / perCluster < |path|)
    ensures |FileSectors(data, begin, perCluster, path, s, n)| == n * FAT_SECTOR_SIZE
  {}

  lemma {:induction false} OneSector(data: Sectors, begin: nat, perCluster: nat, path: seq<nat>, s: nat)
    requires OnDisk(data, begin, perCluster, path) && s / perCluster < |path|
    ensures FileSectors(data, begin, perCluster, path, s, 1) == FileSector(data, begin, perCluster, path, s)
  {
    assert FileSectors(data, begin, perCluster, path, s, 0) == [];
  }

  /** A byte position is in the chain exactly when its sector is, and at the end its sector is the first past it. */
  lemma {:induction false} InFile(data: Sectors, begin: nat, perCluster: nat, path: seq<nat>, stored: seq<Byte>, x: nat)
    requires OnDisk(data, begin, perCluster, path) && Contents(data, begin, perCluster, path, stored) && x <= |stored|
    ensures perCluster > 0 && x / FAT_SECTOR_SIZE / perCluster <= |path| && (x / FAT_SECTOR_SIZE / perCluster < |path| <==> x < |stored|)
  {
    hide OnDisk;
    PerClusterPositive(data, begin, perCluster, path);
    hide Contents;
    if x < |stored| {
      SectorByte(data, begin, perCluster, path, stored, x);
    } else {
      ContentsLength(data, begin, perCluster, path, stored);
      assert x / FAT_SECTOR_SIZE == |path| * perCluster;
      BitTricks.UniqueQuotient(|path| * perCluster, perCluster, |path|, 0);
    }
  }

  lemma {:induction false} ContentsLength(data: Sectors, begin: nat, perCluster: nat, path: seq<nat>, stored: seq<Byte>)
    requires Contents(data, begin, perCluster, path, stored)
    ensures perCluster > 0 && |stored| == |path| * perCluster * FAT_SECTOR_SIZE
  {}

  lemma {:induction false} WithinChain(data: Sectors, begin: nat, perCluster: nat, path: seq<nat>, stored: seq<Byte>, s: nat, n: nat)
    requires OnDisk(data, begin, perCluster, path) && Contents(data, begin, perCluster, path, stored)
    requires n > 0 && perCluster > 0 && (s + n - 1) / perCluster < |path|
    ensures (s + n) * FAT_SECTOR_SIZE <= |stored|
  {
    hide OnDisk, Contents;
    ContentsLength(data, begin, perCluster, path, stored);
    var last := s + n - 1;
    BitTricks.Quotient(last, perCluster);
    BitTricks.ProductOrder(perCluster, last / perCluster + 1, |path|);
  }

  /** Part of a sector is part of the contents. */
  lemma {:induction false} PartOfSector(data: Sectors, begin: nat, perCluster: nat, path: seq<nat>, content: seq<Byte>, s: nat, o: nat, n: nat)
    requires OnDisk(data, begin, perCluster, path) && Contents(data, begin, perCluster, path, content)
    requires o + n <= FAT_SECTOR_SIZE && s * FAT_SECTOR_SIZE + o + n <= |content| && s / perCluster < |path|
    ensures |FileSector(data, begin, perCluster, path, s)| == FAT_SECTOR_SIZE
    ensures FileSector(data, begin, perCluster, path, s)[o..o + n] == content[s * FAT_SECTOR_SIZE + o..s * FAT_SECTOR_SIZE + o + n]
  {
    var row := FileSector(data, begin, perCluster, path, s);
    assert |row| == FAT_SECTOR_SIZE;
    hide OnDisk, FileSector, Contents;
    var a, b := row[o..o + n], content[s * FAT_SECTOR_SIZE + o..s * FAT_SECTOR_SIZE + o + n];
    assert |a| == |b|;
    forall i | 0 <= i < n ensures a[i] == b[i] {
      var x := s * FAT_SECTOR_SIZE + o + i;
      assert x / FAT_SECTOR_SIZE == s && x % FAT_SECTOR_SIZE == o + i;
      SectorByte(data, begin, perCluster, path, content, x);
    }
  }

  /** Whole sectors are the contents between their ends. */
  lemma {:induction false} WholeSectors(data: Sectors, begin: nat, perCluster: nat, path: seq<nat>, content: seq<Byte>, s: nat, n: nat)
    requires OnDisk(data, begin, perCluster, path) && Contents(data, begin, perCluster, path, content)
    requires (s + n) * FAT_SECTOR_SIZE <= |content| && (n > 0 ==> (s + n - 1) / perCluster < |path|)
    ensures FileSectors(data, begin, perCluster, path, s, n) == content[s * FAT_SECTOR_SIZE..(s + n) * FAT_SECTOR_SIZE]
    decreases n
  {
    hide OnDisk, Contents, FileSector;
    if n > 0 {
      PerClusterPositive(data, begin, perCluster, path);
      EarlierCluster(s, n, perCluster);
      WholeSectors(data, begin, perCluster, path, content, s, n - 1);
      var last := s + n - 1;
      PartOfSector(data, begin, perCluster, path, content, last, 0, FAT_SECTOR_SIZE);
      var row := FileSector(data, begin, perCluster, path, last);
      assert row[0..FAT_SECTOR_SIZE] == row;
      assert content[s * FAT_SECTOR_SIZE..last * FAT_SECTOR_SIZE] + content[last * FAT_SECTOR_SIZE..last * FAT_SECTOR_SIZE + FAT_SECTOR_SIZE]
          == content[s * FAT_SECTOR_SIZE..(s + n) * FAT_SECTOR_SIZE];
    }
  }

  lemma {:induction false} ChainStarts(wide: bool, fat: seq<nat>, start: nat, path: seq<nat>)
    requires Chain(wide, fat, start, path)
    ensures path != [] && path[0] == start
  {}

  lemma {:induction false} InChain(wide: bool, fat: seq<nat>, start: nat, path: seq<nat>, i: nat)
    requires Chain(wide, fat, start, path) && i < |path|
    ensures 0 < path[i] < |fat| && NextOf(wide, fat[path[i]]) == After(path, i)
  {}
}
