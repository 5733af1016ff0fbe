/** Long file names: split over directory entries, collected again in a cache. */
module LongName {
  import opened MachineWords

  const MAX_LONGFILENAME_ENTRIES: nat := 20
  const MAX_LFN_ENTRY_LENGTH: nat := 13

  /** Where character `i` of an entry is kept. */
  function Slot(i: nat): nat
    requires i < MAX_LFN_ENTRY_LENGTH
  {
    if i < 5 then 1 + 2 * i else if i < 11 then 0x0E + 2 * (i - 5) else 0x1C + 2 * (i - 11)
  }

  /** The thirteen places, in numbers. */
  lemma {:induction false} SlotsInNumbers()
    ensures [Slot(0), Slot(1), Slot(2), Slot(3), Slot(4)] == [1, 3, 5, 7, 9]
    ensures [Slot(5), Slot(6), Slot(7), Slot(8), Slot(9), Slot(10)] == [0x0E, 0x10, 0x12, 0x14, 0x16, 0x18]
    ensures [Slot(11), Slot(12)] == [0x1C, 0x1E]
  {}

  /** As few entries as hold the name, thirteen characters each. */
  lemma {:induction false} EntriesLeast(length: nat)
    ensures length <= 13 * EntriesRequired(length) < length + 13
  {}

  /** fatfs_lfn_entries_required */
  function EntriesRequired(length: nat): nat {
    if length == 0 then 0 else (length + MAX_LFN_ENTRY_LENGTH - 1) / MAX_LFN_ENTRY_LENGTH
  }

  /** Character `x` of a name as an entry holds it: the name, its end, padding. */
  function Encoded(name: seq<Byte>, x: nat): Byte {
    if x < |name| then name[x] else if x == |name| then 0 else 0xFF
  }

  /** The buffer is entry `e` of a name. */
  ghost predicate IsEntry(b: seq<Byte>, name: seq<Byte>, e: nat) {
    && |b| == 32 && b[11] == 0x0F
    && b[0] == (if e + 1 == EntriesRequired(|name|) then 0x40 + e + 1 else e + 1)
    && forall i :: 0 <= i < MAX_LFN_ENTRY_LENGTH ==> b[Slot(i)] == Encoded(name, e * MAX_LFN_ENTRY_LENGTH + i)
  }

  /** fatfs_filename_to_lfn */
  method FilenameToLfn(name: seq<Byte>, buffer: array<Byte>, entry: nat, checksum: Byte)
    requires buffer.Length == 32 && entry < MAX_LONGFILENAME_ENTRIES
    modifies buffer
    ensures IsEntry(buffer[..], name, entry) && buffer[13] == checksum
    ensures buffer[0] == (if 13 * entry < |name| <= 13 * entry + 13 then 0x40 else 0) + entry + 1
    ensures buffer[12] == buffer[26] == buffer[27] == 0
    ensures forall i :: 0 <= i < 13 ==> var x := 13 * entry + i; buffer[Slot(i)] == if x < |name| then name[x] else if x == |name| then 0 else 0xFF
    ensures forall i :: 0 <= i < 13 ==> buffer[Slot(i) + 1] == if 13 * entry + i > |name| then 0xFF else 0
  {
    EntriesLeast(|name|);
    for i := 0 to buffer.Length
      invariant forall j :: 0 <= j < i ==> buffer[j] == 0
    {
      buffer[i] := 0;
    }
    buffer[0] := if EntriesRequired(|name|) - 1 == entry then 0x40 + (entry + 1) else entry + 1;
    buffer[11] := 0x0F;
    buffer[13] := checksum;
    PutCharacters(name, buffer, entry * MAX_LFN_ENTRY_LENGTH);
  }

  /** The loop over the characters of an entry, in a buffer otherwise filled. */
  method PutCharacters(name: seq<Byte>, buffer: array<Byte>, start: nat)
    requires buffer.Length == 32 && forall i :: 0 <= i < 13 ==> buffer[Slot(i) + 1] == 0
    modifies buffer
    ensures forall i :: 0 <= i < 13 ==> buffer[Slot(i)] == Encoded(name, start + i)
    ensures forall i :: 0 <= i < 13 ==> buffer[Slot(i) + 1] == if start + i > |name| then 0xFF else 0
    ensures forall k {:trigger buffer[k]} :: k == 0 || 11 <= k <= 13 || k == 26 || k == 27 ==> buffer[k] == old(buffer[k])
  {
    for i := 0 to MAX_LFN_ENTRY_LENGTH
      invariant forall j :: 0 <= j < i ==> buffer[Slot(j)] == Encoded(name, start + j)
      invariant forall j :: 0 <= j < 13 ==> buffer[Slot(j) + 1] == if j < i && start + j > |name| then 0xFF else 0
      invariant forall k {:trigger buffer[k]} :: k == 0 || 11 <= k <= 13 || k == 26 || k == 27 ==> buffer[k] == old(buffer[k])
    {
      if start + i < |name| {
        buffer[Slot(i)] := name[start + i];
      } else if start + i == |name| {
        buffer[Slot(i)] := 0;
      } else {
        buffer[Slot(i)] := 0xFF;
        buffer[Slot(i) + 1] := 0xFF;
      }
    }
  }

  /** Character `x` once padding has been turned into spaces. */
  function Decoded(name: seq<Byte>, x: nat): Byte { if Encoded(name, x) == 0xFF then 0x20 else Encoded(name, x) }

  /** The characters of an entry have been put at `start`. */
  ghost predicate Collected(before: seq<Byte>, after: seq<Byte>, b: seq<Byte>, start: nat) {
    && |after| == |before| && |b| == 32 && start + MAX_LFN_ENTRY_LENGTH <= |after|
    && (forall i :: 0 <= i < MAX_LFN_ENTRY_LENGTH ==> after[start + i] == if b[Slot(i)] == 0xFF then 0x20 else b[Slot(i)])
    && (forall x :: 0 <= x < |after| && !(start <= x < start + MAX_LFN_ENTRY_LENGTH) ==> after[x] == before[x])
  }

  /** Collecting the entry below those already collected. */
  lemma {:induction false} OneMoreEntry(before: seq<Byte>, after: seq<Byte>, b: seq<Byte>, name: seq<Byte>, e: nat, end: nat)
    requires IsEntry(b, name, e) && Collected(before, after, b, e * MAX_LFN_ENTRY_LENGTH) && end <= |before|
    requires forall x :: (e + 1) * MAX_LFN_ENTRY_LENGTH <= x < end ==> before[x] == Decoded(name, x)
    ensures forall x :: e * MAX_LFN_ENTRY_LENGTH <= x < end ==> after[x] == Decoded(name, x)
  {
    var start := e * MAX_LFN_ENTRY_LENGTH;
    forall x | start <= x < end ensures after[x] == Decoded(name, x) {
      if x < start + MAX_LFN_ENTRY_LENGTH {
        var i := x - start;
        assert after[start + i] == if b[Slot(i)] == 0xFF then 0x20 else b[Slot(i)];
      }
    }
  }

  class LfnCache {
    /** The strings of all entries one after another, and the terminator behind them. */
    const text: array<Byte>
    var count: nat

    ghost predicate Valid()
      reads this
    {
      text.Length == MAX_LONGFILENAME_ENTRIES * MAX_LFN_ENTRY_LENGTH + 1 && count <= MAX_LONGFILENAME_ENTRIES
    }

    /** Entries `e` and up of a name have been collected. */
    ghost predicate Holds(name: seq<Byte>, e: nat)
      reads this, text
    {
      && Valid() && e <= EntriesRequired(|name|) <= MAX_LONGFILENAME_ENTRIES
      && count == (if e == EntriesRequired(|name|) then 0 else EntriesRequired(|name|))
      && forall x :: e * MAX_LFN_ENTRY_LENGTH <= x < EntriesRequired(|name|) * MAX_LFN_ENTRY_LENGTH ==> text[x] == Decoded(name, x)
    }

    /** fatfs_lfn_cache_init; the strings may hold anything. */
    constructor (text: array<Byte>)
      requires text.Length == MAX_LONGFILENAME_ENTRIES * MAX_LFN_ENTRY_LENGTH + 1
      ensures Valid() && this.text == text && count == 0
    {
      this.text := text;
      count := 0;
    }

    /** fatfs_lfn_cache_entry */
    method CacheEntry(buffer: array<Byte>)
      requires Valid() && buffer.Length == 32 && buffer != text
      modifies this`count, text
      ensures Valid()
      ensures var index := buffer[0] % 32;
        if index == 0 || index > 20 then count == old(count) && text[..] == old(text[..])
        else
          && count == (if old(count) == 0 then index else old(count))
          && Collected(old(text[..]), text[..], buffer[..], (index - 1) * MAX_LFN_ENTRY_LENGTH)
    {
      var index := buffer[0] % 32;
      if index > MAX_LONGFILENAME_ENTRIES { return; }
      if index == 0 { return; }
      if count == 0 { count := index; }
      var start := (index - 1) * MAX_LFN_ENTRY_LENGTH;
      for i := 0 to MAX_LFN_ENTRY_LENGTH
        invariant count == (if old(count) == 0 then index else old(count))
        invariant forall x :: 0 <= x < text.Length ==> text[x] == if 0 <= x - start < i then buffer[Slot(x - start)] else old(text[x])
      {
        text[start + i] := buffer[Slot(i)];
      }
      for i := 0 to MAX_LFN_ENTRY_LENGTH
        invariant count == (if old(count) == 0 then index else old(count))
        invariant forall x :: 0 <= x < i ==> text[start + x] == if buffer[Slot(x)] == 0xFF then 0x20 else buffer[Slot(x)]
        invariant forall x :: i <= x < MAX_LFN_ENTRY_LENGTH ==> text[start + x] == buffer[Slot(x)]
        invariant forall x :: 0 <= x < text.Length && !(0 <= x - start < MAX_LFN_ENTRY_LENGTH) ==> text[x] == old(text[x])
      {
        if text[start + i] == 0xFF { text[start + i] := 0x20; }
      }
    }

    /** fatfs_lfn_cache_get: the collected name up to its terminator. */
    method Get() returns (name: seq<Byte>)
      requires Valid()
      modifies text
      ensures |name| <= count * MAX_LFN_ENTRY_LENGTH && 0 !in name && name == old(text[..])[..|name|]
      ensures |name| == count * MAX_LFN_ENTRY_LENGTH || old(text[..])[|name|] == 0
    {
      text[count * MAX_LFN_ENTRY_LENGTH] := 0;
      var n := 0;
      while text[n] != 0
        invariant 0 <= n <= count * MAX_LFN_ENTRY_LENGTH
        invariant forall x :: 0 <= x < n ==> text[x] != 0
        invariant forall x :: 0 <= x < text.Length && x != count * MAX_LFN_ENTRY_LENGTH ==> text[x] == old(text[x])
        decreases text.Length - n
      {
        n := n + 1;
      }
      name := text[..n];
    }
  }

  /** A name survives being split into entries, highest first, and collected again. */
  method RoundTrip(name: seq<Byte>, text: array<Byte>, checksum: Byte) returns (result: seq<Byte>)
    requires 0 < |name| <= MAX_LONGFILENAME_ENTRIES * MAX_LFN_ENTRY_LENGTH && 0 !in name && 0xFF !in name
    requires text.Length == MAX_LONGFILENAME_ENTRIES * MAX_LFN_ENTRY_LENGTH + 1
    modifies text
    ensures result == name
  {
    hide Collected, Decoded;
    var cache := new LfnCache(text);
    var buffer := new Byte[32];
    var entry := EntriesRequired(|name|);
    while entry > 0
      invariant cache.text == text && cache.Holds(name, entry) && buffer.Length == 32
    {
      entry := entry - 1;
      FilenameToLfn(name, buffer, entry, checksum);
      ghost var before := text[..];
      cache.CacheEntry(buffer);
      OneMoreEntry(before, text[..], buffer[..], name, entry, EntriesRequired(|name|) * MAX_LFN_ENTRY_LENGTH);
    }
    ghost var collected := text[..];
    assert forall x :: 0 <= x < EntriesRequired(|name|) * MAX_LFN_ENTRY_LENGTH ==> collected[x] == Decoded(name, x);
    result := cache.Get();
    FirstNul(name, collected, result);
  }

  /** What comes before the first terminator is the name. */
  lemma {:induction false} FirstNul(name: seq<Byte>, text: seq<Byte>, result: seq<Byte>)
    requires 0 < |name| && 0 !in name && 0xFF !in name
    requires var end := EntriesRequired(|name|) * MAX_LFN_ENTRY_LENGTH;
      && end <= |text| && |result| <= end && (forall x :: 0 <= x < end ==> text[x] == Decoded(name, x))
      && 0 !in result && result == text[..|result|] && (|result| == end || text[|result|] == 0)
    ensures result == name
  {
    var end := EntriesRequired(|name|) * MAX_LFN_ENTRY_LENGTH;
    assert |name| <= end < |name| + MAX_LFN_ENTRY_LENGTH;
    forall x | 0 <= x < |name| ensures text[x] == name[x] && name[x] != 0 { assert name[x] in name; }
    assert |result| >= |name|;
    assert |result| <= |name| by {
      if |result| > |name| { TerminatorInside(text, result, |name|); }
    }
  }

  lemma {:induction false} TerminatorInside(text: seq<Byte>, result: seq<Byte>, n: nat)
    requires n < |result| <= |text| && result == text[..|result|] && text[n] == 0
    ensures 0 in result
  {
    assert result[n] == text[n];
  }
}
