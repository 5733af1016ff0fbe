/**
 The file allocation table behind its write-back sector buffers: whatever is buffered, dirty or
 lost to a failing disk, the table read through the buffers is one and the same.
 */
module FatTable {
  const FAT32_INVALID_CLUSTER: nat := 0xFFFF_FFFF
  const FAT32_LAST_CLUSTER: nat := 0xFFFF_FFFF

  /** A sector of the table, as its row of entries. */
  type Sector = seq<nat>

  datatype Buffer = Buffer(address: nat, dirty: bool, data: Sector)

  /** Disk sectors by address. */
  type Disk = map<nat, Sector>

  /** The first buffer that holds sector `s`, from buffer `i` on. */
  function Holder(b: seq<Buffer>, s: nat, i: nat): (r: nat)
    requires i <= |b|
    ensures i <= r <= |b| && (r < |b| ==> b[r].address == s)
    ensures forall j :: i <= j < r ==> b[j].address != s
    decreases |b| - i
  {
    if i == |b| || b[i].address == s then i else Holder(b, s, i + 1)
  }

  /** Sector `s` as the file system sees it: the disk overlaid by the buffers. */
  ghost function Logical(disk: Disk, b: seq<Buffer>, s: nat): Sector {
    var i := Holder(b, s, 0);
    if i < |b| then b[i].data else if s in disk then disk[s] else []
  }

  /** The buffers hold sectors of the table, no sector twice, and clean ones are as on disk. */
  ghost predicate Coherent(disk: Disk, b: seq<Buffer>, lo: nat, hi: nat) {
    && (forall i :: 0 <= i < |b| && b[i].address != FAT32_INVALID_CLUSTER ==> lo <= b[i].address < hi)
    && (forall i :: 0 <= i < |b| && b[i].dirty ==> b[i].address != FAT32_INVALID_CLUSTER)
    && (forall i :: 0 <= i < |b| && !b[i].dirty && b[i].address != FAT32_INVALID_CLUSTER ==> b[i].address in disk && b[i].data == disk[b[i].address])
    && (forall i, j :: 0 <= i < j < |b| && b[i].address != FAT32_INVALID_CLUSTER ==> b[i].address != b[j].address)
  }

  /** The buffer list names every buffer once. */
  ghost predicate Permutation(order: seq<nat>, n: nat) {
    && |order| == n && (forall i :: 0 <= i < n ==> order[i] < n)
    && (forall i, j :: 0 <= i < j < n ==> order[i] != order[j])
    && (forall x: nat :: x < n ==> x in order)
  }

  ghost predicate SameTable(disk: Disk, b: seq<Buffer>, disk': Disk, b': seq<Buffer>, lo: nat, hi: nat) {
    forall s :: lo <= s < hi ==> Logical(disk', b', s) == Logical(disk, b, s)
  }

  lemma {:induction false} HolderUnique(disk: Disk, b: seq<Buffer>, lo: nat, hi: nat, i: nat)
    requires Coherent(disk, b, lo, hi) && i < |b| && b[i].address != FAT32_INVALID_CLUSTER
    ensures Holder(b, b[i].address, 0) == i && Logical(disk, b, b[i].address) == b[i].data
  {}

  lemma {:induction false} NotHeld(disk: Disk, b: seq<Buffer>, s: nat)
    requires forall i :: 0 <= i < |b| ==> b[i].address != s
    ensures Logical(disk, b, s) == if s in disk then disk[s] else []
  {}

  /** Changing one buffer to another sector affects only the two sectors. */
  lemma {:induction false} OtherSectors(disk: Disk, b: seq<Buffer>, i: nat, n: Buffer, s: nat)
    requires i < |b| && b[i].address != s && n.address != s
    ensures Logical(disk, b[i := n], s) == Logical(disk, b, s)
  {
    var r, r' := Holder(b, s, 0), Holder(b[i := n], s, 0);
    if r < |b| { assert b[i := n][r] == b[r]; }
    if r' < |b| { assert b[i := n][r'] == b[r']; }
    assert r == r';
  }

  /** Writing a dirty buffer back. */
  lemma {:induction false} WrittenBack(disk: Disk, b: seq<Buffer>, lo: nat, hi: nat, i: nat)
    requires Coherent(disk, b, lo, hi) && hi <= FAT32_INVALID_CLUSTER && i < |b| && b[i].dirty
    ensures var disk', b' := disk[b[i].address := b[i].data], b[i := b[i].(dirty := false)];
      Coherent(disk', b', lo, hi) && SameTable(disk, b, disk', b', lo, hi)
  {
    var disk', b' := disk[b[i].address := b[i].data], b[i := b[i].(dirty := false)];
    HolderUnique(disk, b, lo, hi, i);
    assert Coherent(disk', b', lo, hi);
    HolderUnique(disk', b', lo, hi, i);
    forall s | lo <= s < hi ensures Logical(disk', b', s) == Logical(disk, b, s) {
      if s != b[i].address {
        OtherSectors(disk, b, i, b[i].(dirty := false), s);
        OtherDisk(disk, disk', b', s);
      }
    }
  }

  lemma {:induction false} OtherDisk(disk: Disk, disk': Disk, b: seq<Buffer>, s: nat)
    requires (s in disk <==> s in disk') && (s in disk ==> disk'[s] == disk[s])
    ensures Logical(disk', b, s) == Logical(disk, b, s)
  {}

  /** Giving a clean buffer to another sector, or to none. */
  lemma {:induction false} Reused(disk: Disk, b: seq<Buffer>, lo: nat, hi: nat, i: nat, n: Buffer)
    requires Coherent(disk, b, lo, hi) && hi <= FAT32_INVALID_CLUSTER && i < |b| && !b[i].dirty && !n.dirty
    requires n.address == FAT32_INVALID_CLUSTER || (lo <= n.address < hi && n.address in disk && n.data == disk[n.address])
    requires forall j :: 0 <= j < |b| ==> b[j].address != n.address || n.address == FAT32_INVALID_CLUSTER
    ensures Coherent(disk, b[i := n], lo, hi) && SameTable(disk, b, disk, b[i := n], lo, hi)
  {
    var b' := b[i := n];
    assert Coherent(disk, b', lo, hi);
    forall s | lo <= s < hi ensures Logical(disk, b', s) == Logical(disk, b, s) {
      if s == n.address {
        HolderUnique(disk, b', lo, hi, i);
        NotHeld(disk, b, s);
      } else if s == b[i].address {
        HolderUnique(disk, b, lo, hi, i);
        NotHeld(disk, b', s);
      } else {
        OtherSectors(disk, b, i, n, s);
      }
    }
  }

  lemma {:induction false} MovedToFront(order: seq<nat>, n: nat)
    requires Permutation(order, n) && n > 0
    ensures Permutation([order[n - 1]] + order[..n - 1], n)
  {
    var order' := [order[n - 1]] + order[..n - 1];
    forall x: nat | x < n ensures x in order' {
      assert x in order;
      var i :| 0 <= i < |order| && order[i] == x;
      if i < n - 1 { assert order'[i + 1] == x; } else { assert order'[0] == x; }
    }
  }

  class FatBuffers {
    const lo: nat
    const hi: nat
    const per: nat
    var disk: Disk
    var buffers: seq<Buffer>
    var order: seq<nat>

    ghost predicate Valid()
      reads this
    {
      && 0 < lo < hi < FAT32_INVALID_CLUSTER && |buffers| > 0 && per > 0
      && (forall s :: lo <= s < hi ==> s in disk)
      && Permutation(order, |buffers|) && Coherent(disk, buffers, lo, hi)
      && (forall s :: lo <= s < hi ==> |Logical(disk, buffers, s)| == per)
    }

    /** Sector `s` of the table. */
    ghost function Row(s: nat): Sector
      reads this
    {
      Logical(disk, buffers, s)
    }

    /** fatfs_fat_init: `count` empty buffers in front of a disk. */
    constructor (disk: Disk, lo: nat, hi: nat, per: nat, count: nat)
      requires 0 < lo < hi < FAT32_INVALID_CLUSTER && count > 0 && per > 0
      requires forall s :: lo <= s < hi ==> s in disk && |disk[s]| == per
      ensures Valid() && this.lo == lo && this.hi == hi && this.per == per && |buffers| == count
      ensures forall i :: 0 <= i < count ==> buffers[i].address == 0xFFFF_FFFF && !buffers[i].dirty
      ensures forall s :: lo <= s < hi ==> Row(s) == disk[s]
    {
      this.disk, this.lo, this.hi, this.per := disk, lo, hi, per;
      buffers := seq(count, _ => Buffer(FAT32_INVALID_CLUSTER, false, []));
      order := seq(count, i requires 0 <= i < count => count - 1 - i);
      new;
      forall x: nat | x < count ensures x in order { assert order[count - 1 - x] == x; }
      forall s | lo <= s < hi ensures Row(s) == disk[s] { NotHeld(disk, buffers, s); }
    }

    /** fatfs_fat_writeback; `written` is whether the disk takes the write. */
    method Writeback(i: nat, written: bool) returns (ok: bool)
      requires Valid() && i < |buffers|
      modifies this`disk, this`buffers
      ensures Valid() && SameTable(old(disk), old(buffers), disk, buffers, lo, hi)
      ensures ok <==> !old(buffers)[i].dirty || written
      ensures ok ==> buffers == old(buffers)[i := old(buffers)[i].(dirty := false)]
      ensures !ok ==> buffers == old(buffers) && disk == old(disk)
    {
      hide Permutation, Logical;
      ok := true;
      if buffers[i].dirty {
        if !written { return false; }
        WrittenBack(disk, buffers, lo, hi, i);
        disk := disk[buffers[i].address := buffers[i].data];
        buffers := buffers[i := buffers[i].(dirty := false)];
      }
    }

    /** fatfs_fat_read_sector: the buffer that holds a sector, or none when the disk fails. */
    method ReadSector(sector: nat, written: bool, read: bool) returns (ok: bool, p: nat)
      requires Valid() && lo <= sector < hi
      modifies this`disk, this`buffers, this`order
      ensures Valid() && |buffers| == |old(buffers)| && SameTable(old(disk), old(buffers), disk, buffers, lo, hi)
      ensures written && read ==> ok
      ensures ok ==> p < |buffers| && buffers[p].address == sector && buffers[p].data == Row(sector)
      ensures if Holder(old(buffers), sector, 0) < |buffers| then ok && order == old(order) && buffers == old(buffers)
              else p == old(order)[|old(order)| - 1] && order == [p] + old(order)[..|old(order)| - 1]
    {
      hide Permutation, Logical;
      var k := 0;
      SameItself(disk, buffers, lo, hi);
      InOrder(order, |buffers|);
      while k < |order|
        invariant 0 <= k <= |order| && forall j :: 0 <= j < k ==> buffers[order[j]].address != sector
      {
        p := order[k];
        if buffers[p].address == sector {
          HolderUnique(disk, buffers, lo, hi, p);
          return true, p;
        }
        k := k + 1;
      }
      NowhereElse(order, buffers, sector);
      p := order[|order| - 1];
      MovedToFront(order, |buffers|);
      order := [p] + order[..|order| - 1];
      ok := Writeback(p, written);
      if !ok { return false, p; }
      ok := Load(p, sector, read);
    }

    /** Gives a clean buffer to a sector no buffer holds. */
    method Load(p: nat, sector: nat, read: bool) returns (ok: bool)
      requires Valid() && lo <= sector < hi && p < |buffers| && !buffers[p].dirty && forall j :: 0 <= j < |buffers| ==> buffers[j].address != sector
      modifies this`buffers
      ensures Valid() && |buffers| == |old(buffers)| && SameTable(disk, old(buffers), disk, buffers, lo, hi)
      ensures ok <==> read
      ensures ok ==> buffers[p].address == sector && buffers[p].data == Row(sector)
    {
      hide Permutation, Logical;
      var n := if read then Buffer(sector, false, disk[sector]) else buffers[p].(address := FAT32_INVALID_CLUSTER);
      Reused(disk, buffers, lo, hi, p, n);
      buffers := buffers[p := n];
      ok := read;
      if read { HolderUnique(disk, buffers, lo, hi, p); }
    }

    /** FAT32_SET_32BIT_WORD and its 16-bit twin: an entry changes in the buffer, which becomes dirty. */
    method SetEntry(p: nat, position: nat, value: nat)
      requires Valid() && p < |buffers| && buffers[p].address != FAT32_INVALID_CLUSTER && position < per
      modifies this`buffers
      ensures Valid() && |buffers| == |old(buffers)|
      ensures forall s :: lo <= s < hi ==> Row(s) == if s == old(buffers)[p].address then old(Row(s))[position := value] else old(Row(s))
    {
      hide Permutation, Logical;
      ghost var b := buffers;
      HolderUnique(disk, b, lo, hi, p);
      var n := Buffer(buffers[p].address, true, buffers[p].data[position := value]);
      Dirtied(disk, b, lo, hi, p, n);
      buffers := buffers[p := n];
      forall s | lo <= s < hi
        ensures |Logical(disk, buffers, s)| == per && Row(s) == if s == old(buffers)[p].address then old(Row(s))[position := value] else old(Row(s))
      {
        assert old(Row(s)) == Logical(disk, b, s);
      }
    }

    /** fatfs_fat_purge: `written(i)` is whether the disk takes the write of buffer i. */
    method Purge(written: nat -> bool) returns (ok: bool)
      requires Valid()
      modifies this`disk, this`buffers
      ensures Valid() && SameTable(old(disk), old(buffers), disk, buffers, lo, hi)
      ensures (forall i :: written(i)) ==> ok
      ensures ok ==> forall s :: lo <= s < hi ==> disk[s] == Row(s)
    {
      hide Permutation, Logical, Coherent;
      SameItself(disk, buffers, lo, hi);
      InOrder(order, |buffers|);
      for k := 0 to |order|
        invariant Valid() && SameTable(old(disk), old(buffers), disk, buffers, lo, hi) && |buffers| == |old(buffers)|
        invariant forall j :: 0 <= j < k ==> !buffers[order[j]].dirty
      {
        var i := order[k];
        ghost var disk0, buffers0 := disk, buffers;
        ok := Writeback(i, written(i));
        if !ok { return false; }
        SameTwice(old(disk), old(buffers), disk0, buffers0, disk, buffers, lo, hi);
      }
      ok := true;
      AllClean(order, disk, buffers, lo, hi);
    }
  }

  lemma {:induction false} SameItself(disk: Disk, b: seq<Buffer>, lo: nat, hi: nat)
    ensures SameTable(disk, b, disk, b, lo, hi)
  {}

  lemma {:induction false} SameTwice(d: Disk, b: seq<Buffer>, d': Disk, b': seq<Buffer>, d'': Disk, b'': seq<Buffer>, lo: nat, hi: nat)
    requires SameTable(d, b, d', b', lo, hi) && SameTable(d', b', d'', b'', lo, hi)
    ensures SameTable(d, b, d'', b'', lo, hi)
  {}

  lemma {:induction false} InOrder(order: seq<nat>, n: nat)
    requires Permutation(order, n)
    ensures |order| == n && forall i :: 0 <= i < |order| ==> order[i] < n
  {}

  lemma {:induction false} NowhereElse(order: seq<nat>, b: seq<Buffer>, s: nat)
    requires Permutation(order, |b|) && forall j :: 0 <= j < |order| ==> b[order[j]].address != s
    ensures forall i :: 0 <= i < |b| ==> b[i].address != s
  {
    forall i | 0 <= i < |b| ensures b[i].address != s { assert i in order; }
  }

  lemma {:induction false} AllClean(order: seq<nat>, disk: Disk, b: seq<Buffer>, lo: nat, hi: nat)
    requires Permutation(order, |b|) && Coherent(disk, b, lo, hi) && hi <= FAT32_INVALID_CLUSTER
    requires (forall j :: 0 <= j < |order| ==> !b[order[j]].dirty) && forall s :: lo <= s < hi ==> s in disk
    ensures forall s :: lo <= s < hi ==> disk[s] == Logical(disk, b, s)
  {
    forall s | lo <= s < hi ensures disk[s] == Logical(disk, b, s) {
      var i := Holder(b, s, 0);
      if i < |b| { assert i in order; }
    }
  }

  /** A buffer whose contents change. */
  lemma {:induction false} Dirtied(disk: Disk, b: seq<Buffer>, lo: nat, hi: nat, i: nat, n: Buffer)
    requires Coherent(disk, b, lo, hi) && i < |b| && b[i].address != FAT32_INVALID_CLUSTER && n.address == b[i].address && n.dirty
    ensures Coherent(disk, b[i := n], lo, hi)
    ensures forall s :: Logical(disk, b[i := n], s) == if s == n.address then n.data else Logical(disk, b, s)
  {
    var b' := b[i := n];
    assert Coherent(disk, b', lo, hi);
    HolderUnique(disk, b', lo, hi, i);
    forall s ensures Logical(disk, b', s) == if s == n.address then n.data else Logical(disk, b, s) {
      if s != n.address { OtherSectors(disk, b, i, n, s); }
    }
  }
}
