/** Cluster chains in the file allocation table: following, freeing and extending them. */
module FatChains {
  import opened MachineWords
  import opened FatTable

  /** The geometry of a table: 32-bit or 16-bit entries. */
  function PerSector(wide: bool): nat { if wide then 128 else 256 }

  /** The cluster number in an entry; the top four bits of a 32-bit entry are reserved. */
  function Link(wide: bool, raw: nat): nat { if wide then raw % 0x1000_0000 else raw }

  /** The first value that ends a chain. */
  function EndMark(wide: bool): nat { if wide then 0x0FFF_FFF8 else 0xFFF8 }

  /** The next cluster an entry leads to. */
  function NextOf(wide: bool, raw: nat): nat { if Link(wide, raw) >= EndMark(wide) then FAT32_LAST_CLUSTER else Link(wide, raw) }

  /** Entries in numbers: a 16-bit one leads to its value below 0xFFF8, a 32-bit one to its low 28 bits below 0x0FFFFFF8, and others to the end. */
  lemma {:induction false} LinksInNumbers(raw: nat)
    ensures NextOf(false, raw) == raw <==> raw < 0xFFF8 || raw == 0xFFFF_FFFF
    ensures NextOf(false, raw) == 0xFFFF_FFFF <==> raw >= 0xFFF8
    ensures NextOf(true, raw) == raw % 0x1000_0000 <==> raw % 0x1000_0000 < 0x0FFF_FFF8
    ensures NextOf(true, raw) == 0xFFFF_FFFF <==> raw % 0x1000_0000 >= 0x0FFF_FFF8
    ensures Link(true, raw) == 0 <==> raw % 0x1000_0000 == 0
    ensures Link(false, raw) == 0 <==> raw == 0
  {}

  /** A sector of 512 bytes holds entries of four or of two bytes. */
  lemma {:induction false} EntriesFillSector()
    ensures PerSector(true) * 4 == 512 && PerSector(false) * 2 == 512
  {}

  /** A cluster number as it is stored. */
  function Stored(wide: bool, value: nat): nat { if wide then value else value % 0x1_0000 }

  /** The number of clusters a stored link can tell apart. */
  function Nameable(wide: bool): nat { if wide then 0x1000_0000 else 0x1_0000 }

  lemma {:induction false} StoredNext(wide: bool, value: nat)
    ensures value < Nameable(wide) ==> Link(wide, Stored(wide, value)) == value
    ensures value < EndMark(wide) ==> NextOf(wide, Stored(wide, value)) == value
    ensures EndMark(wide) <= value < Nameable(wide) ==> NextOf(wide, Stored(wide, value)) == FAT32_LAST_CLUSTER
    ensures NextOf(wide, Stored(wide, FAT32_LAST_CLUSTER)) == FAT32_LAST_CLUSTER && Link(wide, Stored(wide, FAT32_LAST_CLUSTER)) != 0
  {}

  /** The table as one row of entries. */
  ghost function Rows(disk: Disk, b: seq<Buffer>, lo: nat, hi: nat, per: nat): (fat: seq<nat>)
    requires lo <= hi && per > 0
    ensures |fat| == (hi - lo) * per
  {
    Product(hi - lo, per);
    seq((hi - lo) * per, i requires 0 <= i => EntryIn(Logical(disk, b, lo + i / per), i % per))
  }

  lemma {:induction false} Product(n: nat, per: nat)
    ensures n * per >= 0
  {}

  function EntryIn(row: Sector, i: nat): nat { if i < |row| then row[i] else 0 }

  lemma {:induction false} SameRows(disk: Disk, b: seq<Buffer>, disk': Disk, b': seq<Buffer>, lo: nat, hi: nat, per: nat)
    requires lo <= hi && (per == 128 || per == 256) && SameTable(disk, b, disk', b', lo, hi)
    ensures Rows(disk', b', lo, hi, per) == Rows(disk, b, lo, hi, per)
  {
    hide Logical;
    forall i | 0 <= i < (hi - lo) * per ensures Logical(disk', b', lo + i / per) == Logical(disk, b, lo + i / per) { InTable(i, hi - lo, per); }
  }

  lemma {:induction false} InTable(i: nat, n: nat, per: nat)
    requires (per == 128 || per == 256) && i < n * per
    ensures i / per < n && i % per < per && i == i / per * per + i % per
  {}

  /** Changing one entry of one sector changes one entry of the table. */
  lemma {:induction false} OneEntry(disk: Disk, b: seq<Buffer>, b': seq<Buffer>, lo: nat, hi: nat, per: nat, c: nat, value: nat)
    requires lo <= hi && (per == 128 || per == 256) && c < (hi - lo) * per
    requires forall s :: lo <= s < hi ==> |Logical(disk, b, s)| == per
    requires forall s :: lo <= s < hi ==> Logical(disk, b', s) == if s == lo + c / per then Logical(disk, b, s)[c % per := value] else Logical(disk, b, s)
    ensures Rows(disk, b', lo, hi, per) == Rows(disk, b, lo, hi, per)[c := value]
  {
    hide Logical;
    InTable(c, hi - lo, per);
    var fat, fat' := Rows(disk, b, lo, hi, per), Rows(disk, b', lo, hi, per);
    forall i | 0 <= i < |fat| ensures fat'[i] == fat[c := value][i] {
      InTable(i, hi - lo, per);
      SameSlot(i, c, per);
    }
  }

  lemma {:induction false} SameSlot(i: nat, c: nat, per: nat)
    requires per == 128 || per == 256
    ensures i / per == c / per && i % per == c % per ==> i == c
  {}

  /** Links stay in the table or end a chain. */
  ghost predicate LinksInRange(wide: bool, fat: seq<nat>) {
    forall c {:trigger fat[c]} :: 0 <= c < |fat| ==> NextOf(wide, fat[c]) == FAT32_LAST_CLUSTER || NextOf(wide, fat[c]) < |fat|
  }

  /** The number of entries that are not zero. */
  function InUse(fat: seq<nat>): nat { if fat == [] then 0 else InUse(fat[..|fat| - 1]) + (if fat[|fat| - 1] != 0 then 1 else 0) }

  lemma {:induction false} InUseSet(fat: seq<nat>, c: nat, v: nat)
    requires c < |fat|
    ensures InUse(fat[c := v]) == InUse(fat) - (if fat[c] != 0 then 1 else 0) + (if v != 0 then 1 else 0)
    decreases |fat|
  {
    var n := |fat| - 1;
    if c < n {
      InUseSet(fat[..n], c, v);
      assert fat[c := v][..n] == fat[..n][c := v];
    } else {
      assert fat[c := v][..n] == fat[..n];
    }
  }

  /** `path` is the chain of distinct clusters from `start` to its end. */
  ghost predicate Chain(wide: bool, fat: seq<nat>, start: nat, path: seq<nat>) {
    && path != [] && path[0] == start
    && (forall i :: 0 <= i < |path| ==> 0 < path[i] < |fat|)
    && (forall i, j :: 0 <= i < j < |path| ==> path[i] != path[j])
    && (forall i {:trigger After(path, i)} :: 0 <= i < |path| ==> NextOf(wide, fat[path[i]]) == After(path, i))
  }

  /** What follows place `i` of a chain. */
  function After(path: seq<nat>, i: nat): nat
    requires i < |path|
  {
    if i + 1 < |path| then path[i + 1] else FAT32_LAST_CLUSTER
  }

  /** The first `k` clusters of a path are free, all other entries are as before. */
  ghost predicate FreedUpTo(before: seq<nat>, after: seq<nat>, path: seq<nat>, k: nat) {
    && |after| == |before| && k <= |path|
    && forall c :: 0 <= c < |after| ==> after[c] == if c in path[..k] then 0 else before[c]
  }

  class Fat {
    const table: FatBuffers
    const wide: bool

    ghost predicate Valid()
      reads this, table
    {
      && table.Valid() && table.per == PerSector(wide)
      && |Entries()| <= FAT32_LAST_CLUSTER
    }

    /** The entries of the table. */
    ghost function Entries(): seq<nat>
      reads this, table
    {
      if table.lo <= table.hi && table.per > 0 then Rows(table.disk, table.buffers, table.lo, table.hi, table.per) else []
    }

    constructor (table: FatBuffers, wide: bool)
      requires table.Valid() && table.per == PerSector(wide)
      requires (table.hi - table.lo) * table.per <= FAT32_LAST_CLUSTER
      ensures Valid() && this.table == table && this.wide == wide
    {
      this.table, this.wide := table, wide;
    }

    /** The buffer with an entry's sector, from a working disk. */
    method Fetch(c: nat) returns (p: nat, position: nat)
      requires Valid() && c < |Entries()|
      modifies table
      ensures Valid() && Entries() == old(Entries())
      ensures p < |table.buffers| && table.buffers[p].address == table.lo + c / table.per && table.lo <= table.lo + c / table.per < table.hi
      ensures position == c % table.per < table.per && |table.buffers[p].data| == table.per && table.buffers[p].data[position] == Entries()[c]
      ensures table.buffers[p].data == table.Row(table.lo + c / table.per)
    {
      hide Logical, Coherent, Permutation, FatBuffers.Valid;
      ValidRows();
      InTable(c, table.hi - table.lo, table.per);
      var offset := c / table.per;
      ghost var disk0, buffers0 := table.disk, table.buffers;
      var ok;
      ok, p := table.ReadSector(table.lo + offset, true, true);
      SameRows(disk0, buffers0, table.disk, table.buffers, table.lo, table.hi, table.per);
      position := c - offset * table.per;
    }

    /** fatfs_find_next_cluster */
    method FindNext(cluster: nat) returns (next: nat)
      requires Valid() && cluster < |Entries()| && 2 < |Entries()|
      modifies table
      ensures Valid() && Entries() == old(Entries())
      ensures next == NextOf(wide, Entries()[if cluster == 0 then 2 else cluster])
      ensures var raw := Entries()[if cluster == 0 then 2 else cluster];
        if wide then next == if raw % 0x1000_0000 < 0x0FFF_FFF8 then raw % 0x1000_0000 else 0xFFFF_FFFF
        else next == if raw < 0xFFF8 then raw else 0xFFFF_FFFF
    {
      var current := if cluster == 0 then 2 else cluster;
      var p, position := Fetch(current);
      next := Link(wide, table.buffers[p].data[position]);
      if next >= EndMark(wide) { next := FAT32_LAST_CLUSTER; }
    }

    /** fatfs_fat_set_cluster */
    method SetCluster(cluster: nat, next: nat)
      requires Valid() && cluster < |Entries()|
      modifies table
      ensures Valid() && Entries() == old(Entries())[cluster := Stored(wide, next)]
      ensures Entries()[cluster] == if wide then next else next % 0x1_0000
    {
      hide Logical, Coherent, Permutation, Rows;
      var p, position := Fetch(cluster);
      ghost var b := table.buffers;
      ValidRows();
      InTable(cluster, table.hi - table.lo, table.per);
      label fetched:
      table.SetEntry(p, position, Stored(wide, next));
      forall s | table.lo <= s < table.hi
        ensures Logical(table.disk, table.buffers, s) ==
          if s == table.lo + cluster / table.per then Logical(table.disk, b, s)[cluster % table.per := Stored(wide, next)] else Logical(table.disk, b, s)
      {
        assert old@fetched(table.Row(s)) == Logical(table.disk, b, s);
        assert table.Row(s) == Logical(table.disk, table.buffers, s);
      }
      OneEntry(table.disk, b, table.buffers, table.lo, table.hi, table.per, cluster, Stored(wide, next));
    }

    lemma {:induction false} ValidRows()
      requires Valid()
      ensures forall s :: table.lo <= s < table.hi ==> |Logical(table.disk, table.buffers, s)| == table.per
      ensures table.lo < table.hi < FAT32_INVALID_CLUSTER && |Entries()| == (table.hi - table.lo) * table.per
    {}

    /** fatfs_free_cluster_chain: ends on every table, and frees exactly the chain when there is one. */
    method FreeChain(start: nat, ghost path: seq<nat>)
      requires Valid() && 2 < |Entries()| && LinksInRange(wide, Entries()) && (start == FAT32_LAST_CLUSTER || start < |Entries()|)
      modifies table
      ensures Valid() && LinksInRange(wide, Entries()) && |Entries()| == |old(Entries())|
      ensures forall c :: 0 <= c < |Entries()| ==> Entries()[c] == old(Entries())[c] || Entries()[c] == 0
      ensures Chain(wide, old(Entries()), start, path) ==>
        FreedUpTo(old(Entries()), Entries(), path, |path|) && InUse(Entries()) + |path| == InUse(old(Entries()))
    {
      hide Rows, Chain, FreedUpTo, InUse, NextOf, Stored, LinksInRange, FatBuffers.Valid;
      ghost var fat := Entries();
      ghost var k: nat := 0;
      ghost var chained := Chain(wide, fat, start, path);
      NothingFreed(wide, fat, start, path);
      var next: nat := start;
      while next != FAT32_LAST_CLUSTER && next != 0
        invariant Valid() && LinksInRange(wide, Entries()) && |Entries()| == |fat| && (next == FAT32_LAST_CLUSTER || next < |fat|)
        invariant forall c :: 0 <= c < |fat| ==> Entries()[c] == fat[c] || Entries()[c] == 0
        invariant chained ==> k <= |path| && FreedUpTo(fat, Entries(), path, k) && InUse(Entries()) + k == InUse(fat)
        invariant chained ==> next == if k < |path| then path[k] else FAT32_LAST_CLUSTER
        decreases InUse(Entries()), if next == 0 then 0 else 1
      {
        var last: nat := next;
        ghost var now := Entries();
        NextInRange(wide, now, last);
        next := FindNext(next);
        SetCluster(last, 0);
        ZeroStored(wide, now, last);
        InUseSet(now, last, 0);
        if chained {
          FreeOne(wide, fat, now, start, path, k);
          k := k + 1;
        }
      }
      if chained { ChainStays(wide, fat, start, path, k, next); }
    }

    /** fatfs_find_blank_cluster: the first free cluster from `start` on. */
    method FindBlank(start: nat) returns (ok: bool, free: nat)
      requires Valid()
      modifies table
      ensures Valid() && Entries() == old(Entries())
      ensures ok ==> start <= free < |Entries()| && Link(wide, Entries()[free]) == 0
      ensures ok ==> Entries()[free] % (if wide then 0x1000_0000 else 0x1_0000) == 0
      ensures forall c :: start <= c < |Entries()| && (!ok || c < free) ==> Link(wide, Entries()[c]) != 0
    {
      hide Rows, FatBuffers.Valid;
      free := start;
      ValidRows();
      while true
        invariant Valid() && Entries() == old(Entries()) && start <= free
        invariant forall c :: start <= c < free && c < |Entries()| ==> Link(wide, Entries()[c]) != 0
        decreases |old(Entries())| - free
      {
        ValidRows();
        PastTable(free, table.hi - table.lo, table.per);
        if free / table.per >= table.hi - table.lo { return false, free; }
        var p, position := Fetch(free);
        if Link(wide, table.buffers[p].data[position]) == 0 { return true, free; }
        free := free + 1;
      }
    }

    /** fatfs_add_free_space: append the lowest free clusters from `root` on to the chain that ends at `start0`. */
    method AddFreeSpace(start0: nat, clusters: nat, root: nat) returns (ok: bool, first: nat, ghost added: seq<nat>)
      requires Valid() && 2 < |Entries()| && start0 < |Entries()| && Link(wide, Entries()[start0]) != 0 && Reserved(wide, Entries())
      modifies table
      ensures Valid() && |added| <= clusters && (ok <==> |added| == clusters)
      ensures Extended(wide, old(Entries()), Entries(), start0, added)
      ensures Lowest(wide, old(Entries()), root, added)
      ensures |added| == Min(clusters, |FreeBetween(wide, old(Entries()), root, |Entries()|)|)
      ensures InUse(Entries()) == InUse(old(Entries())) + |added|
      ensures first == if added == [] then start0 else added[0]
      ensures !ok ==> forall c :: root <= c < |Entries()| ==> Link(wide, Entries()[c]) != 0
    {
      hide Rows, Extended, InUse, Stored, Reserved, FatBuffers.Valid, Lowest, FreeBetween;
      ghost var fat := Entries();
      var start: nat := start0;
      first, added := start0, [];
      NoneLowest(wide, fat, root);
      NothingAdded(wide, fat, start0);
      for i := 0 to clusters
        invariant Valid() && |added| == i && |Entries()| == |fat|
        invariant Extended(wide, fat, Entries(), start0, added) && InUse(Entries()) == InUse(fat) + i && Lowest(wide, fat, root, added)
        invariant start == (if added == [] then start0 else added[|added| - 1]) && first == (if added == [] then start0 else added[0])
      {
        var found, next := FindBlank(root);
        ghost var now := Entries();
        if !found {
          AllTaken(wide, fat, now, start0, root, added);
          WithinBound(wide, fat, start0, root, added, now);
          return false, first, added;
        }
        LowestMore(wide, fat, now, start0, root, added, next);
        AddOne(wide, fat, now, start0, added, next);
        SetCluster(start, next);
        SetCluster(next, FAT32_LAST_CLUSTER);
        start := next;
        if i == 0 { first := next; }
        added := added + [next];
      }
      WithinBound(wide, fat, start0, root, added, Entries());
      ok := true;
    }

    /** fatfs_count_free_clusters */
    method CountFree() returns (count: nat)
      requires Valid()
      modifies table
      ensures Valid() && Entries() == old(Entries()) && count == |Entries()| - InUse(Entries())
    {
      hide Rows, InUse, Coherent, Permutation, Logical;
      count := 0;
      ghost var fat := Entries();
      ValidRows();
      NoneInUse(fat);
      var i := 0;
      while i < table.hi - table.lo
        invariant 0 <= i <= table.hi - table.lo && Valid() && Entries() == fat && i * table.per <= |fat|
        invariant count == i * table.per - InUse(fat[..i * table.per])
      {
        ValidRows();
        SectorWithin(i, table.hi - table.lo, table.per);
        ghost var disk0, buffers0 := table.disk, table.buffers;
        var ok, p := table.ReadSector(table.lo + i, true, true);
        SameRows(disk0, buffers0, table.disk, table.buffers, table.lo, table.hi, table.per);
        ValidRows();
        SectorEntries(table.disk, table.buffers, table.lo, table.hi, table.per, i);
        count := CountZeros(table.buffers[p].data, count, fat, i * table.per);
        i := i + 1;
      }
      assert fat[..|fat|] == fat;
    }
  }

  /** The inner loop of fatfs_count_free_clusters. */
  method CountZeros(row: Sector, count0: nat, ghost fat: seq<nat>, ghost from: nat) returns (count: nat)
    requires from + |row| <= |fat| && row == fat[from..from + |row|] && count0 == from - InUse(fat[..from])
    ensures count == from + |row| - InUse(fat[..from + |row|])
  {
    hide InUse;
    count := count0;
    var j := 0;
    while j < |row|
      invariant 0 <= j <= |row| && count == from + j - InUse(fat[..from + j])
    {
      assert row[j] == fat[from + j];
      InUseSnoc(fat, from + j);
      if row[j] == 0 { count := count + 1; }
      j := j + 1;
    }
  }

  lemma {:induction false} InUseSnoc(fat: seq<nat>, n: nat)
    requires n < |fat|
    ensures InUse(fat[..n + 1]) == InUse(fat[..n]) + (if fat[n] != 0 then 1 else 0) && InUse(fat[..n]) <= n
    decreases n
  {
    assert fat[..n + 1][..n] == fat[..n];
    if n > 0 { InUseSnoc(fat, n - 1); }
  }

  lemma {:induction false} NoneInUse(fat: seq<nat>)
    ensures InUse(fat[..0]) == 0
  {}

  lemma {:induction false} SectorWithin(i: nat, n: nat, per: nat)
    requires (per == 128 || per == 256) && i < n
    ensures i * per + per <= n * per && (i + 1) * per == i * per + per
  {}

  lemma {:induction false} SectorEntries(disk: Disk, b: seq<Buffer>, lo: nat, hi: nat, per: nat, i: nat)
    requires lo + i < hi && (per == 128 || per == 256) && |Logical(disk, b, lo + i)| == per
    ensures i * per + per <= (hi - lo) * per && Rows(disk, b, lo, hi, per)[i * per..i * per + per] == Logical(disk, b, lo + i)
  {
    hide Logical;
    SectorWithin(i, hi - lo, per);
    var row, part := Logical(disk, b, lo + i), Rows(disk, b, lo, hi, per)[i * per..i * per + per];
    forall j | 0 <= j < per ensures part[j] == row[j] { SlotOf(i, j, per); }
  }

  lemma {:induction false} SlotOf(i: nat, j: nat, per: nat)
    requires (per == 128 || per == 256) && j < per
    ensures (i * per + j) / per == i && (i * per + j) % per == j
  {}

  /** Entries 0 and 1 are never free; a free entry is zero throughout and has a number that fits a link. */
  ghost predicate Reserved(wide: bool, fat: seq<nat>) {
    && 2 < |fat| <= FAT32_LAST_CLUSTER && Link(wide, fat[0]) != 0 && Link(wide, fat[1]) != 0
    && forall c {:trigger fat[c]} :: 0 <= c < |fat| && Link(wide, fat[c]) == 0 ==> fat[c] == 0 && c < Nameable(wide)
  }

  /** From `start`, the clusters `added`, all free before, are linked one to the next and the last ends the chain. */
  ghost predicate Extended(wide: bool, before: seq<nat>, after: seq<nat>, start: nat, added: seq<nat>) {
    && |after| == |before| && start < |before|
    && Fresh(before, start, added)
    && (added != [] ==> after[start] == Stored(wide, added[0]))
    && (forall i {:trigger After(added, i)} :: 0 <= i < |added| ==> after[added[i]] == Stored(wide, After(added, i)))
    && Untouched(before, after, start, added)
  }

  /** Distinct clusters, other than the first two and `start`, that are free. */
  ghost predicate Fresh(before: seq<nat>, start: nat, added: seq<nat>) {
    && (forall i :: 0 <= i < |added| ==> 2 <= added[i] < |before| && before[added[i]] == 0 && added[i] != start)
    && (forall i, j :: 0 <= i < j < |added| ==> added[i] != added[j])
  }

  lemma {:induction false} FreshMore(before: seq<nat>, start: nat, added: seq<nat>, n: nat)
    requires Fresh(before, start, added) && 2 <= n < |before| && n !in added && n != start && before[n] == 0
    ensures Fresh(before, start, added + [n])
  {
    var added' := added + [n];
    assert forall i :: 0 <= i < |added| ==> added'[i] == added[i];
  }

  /** Entries of other chains are as before. */
  ghost predicate Untouched(before: seq<nat>, after: seq<nat>, start: nat, added: seq<nat>)
    requires |after| == |before|
  {
    forall c :: 0 <= c < |before| && c !in added && (c != start || added == []) ==> after[c] == before[c]
  }

  lemma {:induction false} UntouchedMore(before: seq<nat>, now: seq<nat>, start: nat, added: seq<nat>, n: nat, after: seq<nat>)
    requires |after| == |now| == |before| && Untouched(before, now, start, added)
    requires forall c :: 0 <= c < |now| && c != n && c != (if added == [] then start else added[|added| - 1]) ==> after[c] == now[c]
    ensures Untouched(before, after, start, added + [n])
  {
    forall c | 0 <= c < |before| && c !in added + [n] && c != start ensures after[c] == before[c] {
      assert (added + [n])[|added|] == n;
      assert forall i :: 0 <= i < |added| ==> (added + [n])[i] == added[i];
    }
  }

  lemma {:induction false} NothingAdded(wide: bool, fat: seq<nat>, start: nat)
    requires start < |fat|
    ensures Extended(wide, fat, fat, start, [])
  {}

  /** A free cluster is none of those in use by the extension. */
  lemma {:induction false} FreeIsNew(wide: bool, before: seq<nat>, now: seq<nat>, start: nat, added: seq<nat>, n: nat)
    requires Reserved(wide, before) && Extended(wide, before, now, start, added) && Link(wide, before[start]) != 0
    requires n < |now| && Link(wide, now[n]) == 0
    ensures n !in added && n != start && n < |before| && before[n] == 0 && now[n] == 0 && 2 <= n < Nameable(wide)
  {
    StoredNext(wide, 0);
    if n in added {
      var i :| 0 <= i < |added| && added[i] == n;
      assert now[added[i]] == Stored(wide, After(added, i));
      StoredNext(wide, if i + 1 < |added| then added[i + 1] else 0);
    }
    if n == start && added != [] { StoredNext(wide, added[0]); }
  }

  lemma {:induction false} AddOne(wide: bool, before: seq<nat>, now: seq<nat>, start: nat, added: seq<nat>, n: nat)
    requires Reserved(wide, before) && Extended(wide, before, now, start, added) && Link(wide, before[start]) != 0
    requires n < |now| && Link(wide, now[n]) == 0
    ensures var tail := if added == [] then start else added[|added| - 1];
      tail < |now| &&
      var after := now[tail := Stored(wide, n)][n := Stored(wide, FAT32_LAST_CLUSTER)];
       Extended(wide, before, after, start, added + [n]) && InUse(after) == InUse(now) + 1
  {
    hide InUse, Extended, Reserved, Stored, Link;
    FreeIsNew(wide, before, now, start, added, n);
    var tail := if added == [] then start else added[|added| - 1];
    TailInUse(wide, before, now, start, added);
    InUseSet(now, tail, Stored(wide, n));
    InUseSet(now[tail := Stored(wide, n)], n, Stored(wide, FAT32_LAST_CLUSTER));
    StoredNonZero(wide, n);
    LinksAdded(wide, before, now, start, added, n, tail, now[tail := Stored(wide, n)][n := Stored(wide, FAT32_LAST_CLUSTER)]);
  }

  lemma {:induction false} StoredNonZero(wide: bool, n: nat)
    requires 0 < n < Nameable(wide)
    ensures Stored(wide, n) != 0 && Stored(wide, FAT32_LAST_CLUSTER) != 0
  {
    StoredNext(wide, n);
  }

  lemma {:induction false} LinksAdded(wide: bool, before: seq<nat>, now: seq<nat>, start: nat, added: seq<nat>, n: nat, tail: nat, after: seq<nat>)
    requires Extended(wide, before, now, start, added) && 2 <= n < |now| && n !in added && n != start && before[n] == 0
    requires tail == if added == [] then start else added[|added| - 1]
    requires tail < |now| && after == now[tail := Stored(wide, n)][n := Stored(wide, FAT32_LAST_CLUSTER)]
    ensures Extended(wide, before, after, start, added + [n])
  {
    hide Stored, Untouched, Fresh;
    UntouchedMore(before, now, start, added, n, after);
    FreshMore(before, start, added, n);
    var added' := added + [n];
    forall i | 0 <= i < |added'| ensures 0 <= added'[i] < |after| && after[added'[i]] == Stored(wide, After(added', i)) {
      LinkAdded(wide, before, now, start, added, n, after, i);
    }
    if added == [] { assert added'[0] == n; } else { NotStart(before, start, added); assert added'[0] == added[0]; }
  }

  lemma {:induction false} NotStart(before: seq<nat>, start: nat, added: seq<nat>)
    requires Fresh(before, start, added) && added != []
    ensures added[|added| - 1] != start && added[0] < |before| && added[|added| - 1] < |before|
  {}

  lemma {:induction false} LinkAdded(wide: bool, before: seq<nat>, now: seq<nat>, start: nat, added: seq<nat>, n: nat, after: seq<nat>, i: nat)
    requires Extended(wide, before, now, start, added) && n < |now| && n !in added && n != start && i <= |added|
    requires var tail := if added == [] then start else added[|added| - 1];
      tail < |now| && after == now[tail := Stored(wide, n)][n := Stored(wide, FAT32_LAST_CLUSTER)]
    ensures var added' := added + [n]; added'[i] < |after| && after[added'[i]] == Stored(wide, After(added', i))
  {
    hide Stored, Untouched;
    if i < |added| { assert now[added[i]] == Stored(wide, After(added, i)); }
  }

  lemma {:induction false} TailInUse(wide: bool, before: seq<nat>, now: seq<nat>, start: nat, added: seq<nat>)
    requires Extended(wide, before, now, start, added) && Link(wide, before[start]) != 0
    ensures var tail := if added == [] then start else added[|added| - 1]; tail < |now| && now[tail] != 0
  {
    StoredNext(wide, 0);
    if added != [] {
      var i := |added| - 1;
      assert now[added[i]] == Stored(wide, After(added, i));
    } else {
      assert now[start] == before[start];
    }
  }

  lemma {:induction false} PastTable(c: nat, n: nat, per: nat)
    requires per == 128 || per == 256
    ensures c / per >= n <==> c >= n * per
  {}

  lemma {:induction false} NothingFreed(wide: bool, fat: seq<nat>, start: nat, path: seq<nat>)
    ensures FreedUpTo(fat, fat, path, 0)
    ensures Chain(wide, fat, start, path) ==> path != [] && path[0] == start
  {}

  lemma {:induction false} NextInRange(wide: bool, fat: seq<nat>, c: nat)
    requires LinksInRange(wide, fat) && c < |fat|
    ensures NextOf(wide, fat[c]) == FAT32_LAST_CLUSTER || NextOf(wide, fat[c]) < |fat|
    ensures fat[c] == 0 ==> NextOf(wide, fat[c]) == 0
  {}

  lemma {:induction false} ZeroStored(wide: bool, fat: seq<nat>, c: nat)
    requires LinksInRange(wide, fat) && c < |fat|
    ensures Stored(wide, 0) == 0 && LinksInRange(wide, fat[c := 0])
  {}

  lemma {:induction false} ZeroNext(wide: bool)
    ensures NextOf(wide, 0) == 0
  {}

  /** Freeing the next cluster of a chain. */
  lemma {:induction false} FreeOne(wide: bool, fat: seq<nat>, now: seq<nat>, start: nat, path: seq<nat>, k: nat)
    requires Chain(wide, fat, start, path) && k < |path| && FreedUpTo(fat, now, path, k)
    ensures path[k] < |now| && now[path[k]] != 0 && FreedUpTo(fat, now[path[k] := 0], path, k + 1)
    ensures NextOf(wide, now[path[k]]) == if k + 1 < |path| then path[k + 1] else FAT32_LAST_CLUSTER
  {
    assert path[..k + 1] == path[..k] + [path[k]];
    assert path[k] !in path[..k];
    assert now[path[k]] == fat[path[k]];
    assert NextOf(wide, fat[path[k]]) == After(path, k);
    ZeroNext(wide);
  }

  lemma {:induction false} ChainStays(wide: bool, fat: seq<nat>, start: nat, path: seq<nat>, k: nat, next: nat)
    requires Chain(wide, fat, start, path) && k <= |path| && next == if k < |path| then path[k] else FAT32_LAST_CLUSTER
    ensures next != 0 && (next == FAT32_LAST_CLUSTER ==> k == |path| || path[k] == FAT32_LAST_CLUSTER)
    ensures k < |path| ==> path[k] < |fat|
  {}

  /** Members of a chain are in use, so an extension takes none of them. */
  lemma {:induction false} MemberNotAdded(wide: bool, before: seq<nat>, after: seq<nat>, start: nat, added: seq<nat>, s: nat, path: seq<nat>, i: nat)
    requires Extended(wide, before, after, start, added) && Chain(wide, before, s, path) && i < |path|
    ensures path[i] < |before| && path[i] !in added && (path[i] != start || added == [] ==> after[path[i]] == before[path[i]])
  {
    ZeroNext(wide);
    assert NextOf(wide, before[path[i]]) == After(path, i);
  }

  /** Chains that do not end at `start` are untouched by the extension. */
  lemma {:induction false} OtherChains(wide: bool, before: seq<nat>, after: seq<nat>, start: nat, added: seq<nat>, s: nat, path: seq<nat>)
    requires Extended(wide, before, after, start, added) && Chain(wide, before, s, path) && start !in path
    ensures Chain(wide, after, s, path)
  {
    hide Extended;
    forall i | 0 <= i < |path| ensures 0 < path[i] < |after| && NextOf(wide, after[path[i]]) == After(path, i) {
      SameLength(wide, before, after, start, added);
      MemberNotAdded(wide, before, after, start, added, s, path, i);
      assert NextOf(wide, before[path[i]]) == After(path, i);
    }
  }

  lemma {:induction false} SameLength(wide: bool, before: seq<nat>, after: seq<nat>, start: nat, added: seq<nat>)
    requires Extended(wide, before, after, start, added)
    ensures |after| == |before|
  {}

  /** The chain that ends at `start` goes on through the added clusters, up to the first whose number is read back as an end. */
  lemma {:induction false} ChainExtended(wide: bool, before: seq<nat>, after: seq<nat>, start: nat, added: seq<nat>, s: nat, path: seq<nat>, k: nat)
    requires Reserved(wide, before) && Extended(wide, before, after, start, added) && Chain(wide, before, s, path) && path[|path| - 1] == start
    requires Linked(wide, added, k)
    ensures Chain(wide, after, s, path + added[..k])
  {
    hide Extended, Chain, Stored, NextOf, Reserved;
    SameLength(wide, before, after, start, added);
    var whole := path + added[..k];
    forall i | 0 <= i < |whole| ensures 0 < whole[i] < |after| && NextOf(wide, after[whole[i]]) == After(whole, i) {
      WholeLink(wide, before, after, start, added, s, path, k, i);
    }
    forall i, j | 0 <= i < j < |whole| ensures whole[i] != whole[j] {
      WholeDistinct(wide, before, after, start, added, s, path, i, j);
    }
    ChainParts(wide, after, before, s, path, whole);
  }

  /** The first `k` clusters have numbers below the end marks, and the next, if any, has not. */
  ghost predicate Linked(wide: bool, added: seq<nat>, k: nat) {
    && k <= |added| && (forall i :: 0 <= i < k ==> added[i] < EndMark(wide)) && (k < |added| ==> added[k] >= EndMark(wide))
  }

  /** The whole extension is reached exactly when no cluster taken has the number of an end mark. */
  lemma {:induction false} ExtendedExactly(wide: bool, before: seq<nat>, after: seq<nat>, start: nat, added: seq<nat>, s: nat, path: seq<nat>)
    requires Reserved(wide, before) && Extended(wide, before, after, start, added) && Chain(wide, before, s, path) && path[|path| - 1] == start
    ensures Chain(wide, after, s, path + added) <==> forall i :: 0 <= i < |added| ==> added[i] < EndMark(wide)
  {
    hide Extended, Chain;
    SameLength(wide, before, after, start, added);
    if forall i :: 0 <= i < |added| ==> added[i] < EndMark(wide) {
      assert added[..|added|] == added;
      ChainExtended(wide, before, after, start, added, s, path, |added|);
    } else {
      var k := FirstEndMark(wide, added);
      ChainExtended(wide, before, after, start, added, s, path, k);
      OneEnd(wide, after, s, path + added[..k], path + added);
    }
  }

  lemma {:induction false} FirstEndMark(wide: bool, added: seq<nat>) returns (k: nat)
    requires exists i :: 0 <= i < |added| && added[i] >= EndMark(wide)
    ensures k < |added| && Linked(wide, added, k)
  {
    k := 0;
    while added[k] < EndMark(wide)
      invariant k < |added| && forall i :: 0 <= i < k ==> added[i] < EndMark(wide)
      decreases |added| - k
    {
      if k + 1 == |added| { assert false; }
      k := k + 1;
    }
  }

  /** A chain has one length: where one ends, a longer one would go on. */
  lemma {:induction false} OneEnd(wide: bool, fat: seq<nat>, s: nat, p: seq<nat>, q: seq<nat>)
    requires Chain(wide, fat, s, p) && |p| < |q| && p == q[..|p|] && |fat| <= FAT32_LAST_CLUSTER
    ensures !Chain(wide, fat, s, q)
  {
    var i := |p| - 1;
    assert NextOf(wide, fat[p[i]]) == After(p, i);
    assert p[i] == q[i] && After(q, i) == q[i + 1];
  }

  /** The free clusters from `root` on and below `bound`. */
  ghost function FreeBetween(wide: bool, fat: seq<nat>, root: nat, bound: nat): set<nat> {
    set c: nat | root <= c < bound && c < |fat| && Link(wide, fat[c]) == 0
  }

  /** The clusters taken ascend from `root`, and every free one left is above them. */
  ghost predicate Lowest(wide: bool, before: seq<nat>, root: nat, added: seq<nat>) {
    && (forall i, j :: 0 <= i < j < |added| ==> added[i] < added[j])
    && (forall i :: 0 <= i < |added| ==> root <= added[i] < |before| && Link(wide, before[added[i]]) == 0)
    && (forall c, i :: root <= c < |before| && Link(wide, before[c]) == 0 && c !in added && 0 <= i < |added| ==> added[i] < c)
  }

  lemma {:induction false} NoneLowest(wide: bool, fat: seq<nat>, root: nat)
    ensures Lowest(wide, fat, root, [])
  {}

  /** An entry free before is free still, unless it was taken. */
  lemma {:induction false} StillFree(wide: bool, before: seq<nat>, now: seq<nat>, start: nat, added: seq<nat>, c: nat)
    requires Extended(wide, before, now, start, added) && Link(wide, before[start]) != 0
    requires c < |before| && Link(wide, before[c]) == 0 && c !in added
    ensures c < |now| && Link(wide, now[c]) == 0
  {}

  /** The first free cluster from `root` on is the lowest of those left. */
  lemma {:induction false} LowestMore(wide: bool, before: seq<nat>, now: seq<nat>, start: nat, root: nat, added: seq<nat>, n: nat)
    requires Reserved(wide, before) && Extended(wide, before, now, start, added) && Link(wide, before[start]) != 0
    requires Lowest(wide, before, root, added) && root <= n < |now| && Link(wide, now[n]) == 0
    requires forall c :: root <= c < n ==> Link(wide, now[c]) != 0
    ensures Lowest(wide, before, root, added + [n])
  {
    hide Extended, Link;
    FreeIsNew(wide, before, now, start, added, n);
    assert Link(wide, before[n]) == 0 by { ZeroLink(wide); }
    var more := added + [n];
    forall c, i | root <= c < |before| && Link(wide, before[c]) == 0 && c !in more && 0 <= i < |more| ensures more[i] < c {
      assert more[|added|] == n;
      assert c !in added by { assert forall j :: 0 <= j < |added| ==> added[j] == more[j]; }
      StillFree(wide, before, now, start, added, c);
      assert c > n;
    }
  }

  lemma {:induction false} ZeroLink(wide: bool)
    ensures Link(wide, 0) == 0
  {}

  lemma {:induction false} DistinctCount(s: seq<nat>) returns (t: set<nat>)
    requires forall i, j :: 0 <= i < j < |s| ==> s[i] < s[j]
    ensures |t| == |s| && forall x :: x in t <==> x in s
  {
    t := {};
    for i := 0 to |s|
      invariant |t| == i && forall x :: x in t <==> x in s[..i]
    {
      assert s[..i + 1] == s[..i] + [s[i]];
      t := t + {s[i]};
    }
    assert s[..|s|] == s;
  }

  lemma {:induction false} SubsetCount(a: set<nat>, b: set<nat>)
    requires a <= b
    ensures |a| <= |b|
  {
    assert b == a + (b - a);
  }

  /** When no free cluster is left, the ones taken are all there were. */
  lemma {:induction false} AllTaken(wide: bool, before: seq<nat>, now: seq<nat>, start: nat, root: nat, added: seq<nat>)
    requires Extended(wide, before, now, start, added) && Link(wide, before[start]) != 0 && Lowest(wide, before, root, added)
    requires forall c :: root <= c < |now| ==> Link(wide, now[c]) != 0
    ensures |FreeBetween(wide, before, root, |before|)| <= |added|
  {
    hide Extended, Link;
    var taken := DistinctCount(added);
    var free := FreeBetween(wide, before, root, |before|);
    SameLength(wide, before, now, start, added);
    forall c | c in free ensures c in taken {
      if c !in added { StillFree(wide, before, now, start, added, c); }
    }
    SubsetCount(free, taken);
  }

  lemma {:induction false} WithinBound(wide: bool, before: seq<nat>, start: nat, root: nat, added: seq<nat>, after: seq<nat>)
    requires Lowest(wide, before, root, added) && |after| == |before|
    ensures |added| <= |FreeBetween(wide, before, root, |after|)|
  {
    hide Link;
    var taken := DistinctCount(added);
    SubsetCount(taken, FreeBetween(wide, before, root, |after|));
  }

  lemma {:induction false} TakenBefore(wide: bool, before: seq<nat>, root: nat, added: seq<nat>, k: nat, c: nat)
    requires Lowest(wide, before, root, added) && k < |added| && root <= c < added[k] && Link(wide, before[c]) == 0
    ensures c in added[..k]
  {
    hide Link;
    var v := added[k];
    assert c in added || v < c;
    var j :| 0 <= j < |added| && added[j] == c;
    assert added[..k][j] == c;
  }

  /** The lowest clusters are all below a bound exactly when there are that many below it. */
  lemma {:induction false} LowestBelow(wide: bool, before: seq<nat>, root: nat, added: seq<nat>, bound: nat)
    requires Lowest(wide, before, root, added)
    ensures (forall i :: 0 <= i < |added| ==> added[i] < bound) <==> |added| <= |FreeBetween(wide, before, root, bound)|
  {
    hide Link;
    var free := FreeBetween(wide, before, root, bound);
    if forall i :: 0 <= i < |added| ==> added[i] < bound {
      var taken := DistinctCount(added);
      SubsetCount(taken, free);
    } else {
      var k :| 0 <= k < |added| && added[k] >= bound;
      var taken := DistinctCount(added[..k]);
      forall c | c in free ensures c in taken { TakenBefore(wide, before, root, added, k, c); }
      SubsetCount(free, taken);
    }
  }

  /**
   Known before the call: the chain gets all the clusters asked for, and reaches them, exactly when so
   many free ones from the root on are numbered below the end marks.
   */
  lemma {:induction false} ServedExactly(wide: bool, before: seq<nat>, after: seq<nat>, start: nat, root: nat, added: seq<nat>,
                                         clusters: nat, s: nat, path: seq<nat>)
    requires Reserved(wide, before) && Extended(wide, before, after, start, added) && Lowest(wide, before, root, added)
    requires Chain(wide, before, s, path) && path[|path| - 1] == start
    requires |added| == Min(clusters, |FreeBetween(wide, before, root, |before|)|)
    ensures Chain(wide, after, s, path + added) <==> |added| <= |FreeBetween(wide, before, root, EndMark(wide))|
    ensures |added| == clusters && Chain(wide, after, s, path + added) <==> clusters <= |FreeBetween(wide, before, root, EndMark(wide))|
  {
    hide Reserved, Extended, Chain, Lowest, Link;
    ExtendedExactly(wide, before, after, start, added, s, path);
    LowestBelow(wide, before, root, added, EndMark(wide));
    SubsetCount(FreeBetween(wide, before, root, EndMark(wide)), FreeBetween(wide, before, root, |before|));
  }

  /** A full 16-bit table with only entry 0xFFF8 free: the cluster is taken, and the chain does not reach it. */
  lemma {:induction false} LostCluster()
    ensures var before := seq(0x1_0000, i => if i == 0xFFF8 then 0 else 0xFFFF);
      var after := before[2 := Stored(false, 0xFFF8)][0xFFF8 := Stored(false, FAT32_LAST_CLUSTER)];
      && Reserved(false, before) && Chain(false, before, 2, [2]) && Extended(false, before, after, 2, [0xFFF8])
      && Chain(false, after, 2, [2]) && !Chain(false, after, 2, [2, 0xFFF8])
  {
    var before := seq(0x1_0000, i => if i == 0xFFF8 then 0 else 0xFFFF);
    var after := before[2 := Stored(false, 0xFFF8)][0xFFF8 := Stored(false, FAT32_LAST_CLUSTER)];
    assert NextOf(false, after[2]) == FAT32_LAST_CLUSTER && [2, 0xFFF8][0] == 2;
    assert After([2, 0xFFF8], 0) == 0xFFF8;
  }

  lemma {:induction false} ChainParts(wide: bool, fat: seq<nat>, before: seq<nat>, s: nat, path: seq<nat>, whole: seq<nat>)
    requires Chain(wide, before, s, path) && |whole| >= |path| && whole[..|path|] == path
    requires forall i :: 0 <= i < |whole| ==> 0 < whole[i] < |fat| && NextOf(wide, fat[whole[i]]) == After(whole, i)
    requires forall i, j :: 0 <= i < j < |whole| ==> whole[i] != whole[j]
    ensures Chain(wide, fat, s, whole)
  {
    assert whole[..|path|][0] == whole[0];
  }

  lemma {:induction false} WholeLink(wide: bool, before: seq<nat>, after: seq<nat>, start: nat, added: seq<nat>, s: nat, path: seq<nat>, k: nat, i: nat)
    requires Reserved(wide, before) && Extended(wide, before, after, start, added) && Chain(wide, before, s, path) && path[|path| - 1] == start
    requires Linked(wide, added, k) && i < |path| + k
    ensures var whole := path + added[..k]; 0 < whole[i] < |after| && NextOf(wide, after[whole[i]]) == After(whole, i)
  {
    hide Stored, NextOf, Untouched;
    StoredNext(wide, 0);
    if i < |path| {
      assert NextOf(wide, before[path[i]]) == After(path, i);
      MemberNotAdded(wide, before, after, start, added, s, path, i);
      if i + 1 == |path| && added != [] { StoredNext(wide, added[0]); }
    } else {
      var j := i - |path|;
      assert after[added[j]] == Stored(wide, After(added, j));
      if j + 1 < |added| { StoredNext(wide, added[j + 1]); }
    }
  }

  lemma {:induction false} WholeDistinct(wide: bool, before: seq<nat>, after: seq<nat>, start: nat, added: seq<nat>, s: nat, path: seq<nat>, i: nat, j: nat)
    requires Extended(wide, before, after, start, added) && Chain(wide, before, s, path) && i < j < |path| + |added|
    ensures (path + added)[i] != (path + added)[j]
  {
    if i < |path| { MemberNotAdded(wide, before, after, start, added, s, path, i); }
  }
}
