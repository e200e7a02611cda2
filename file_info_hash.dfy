/**
 * The accumulation map of file_info_hash.c: path -> FileInfo (array
 * layout). Adding a path's report keeps the largest size, takes the
 * timestamp of the last report and writes the reporting rank into the first free location
 * slot. The hash table itself is a `map`; its bucket order is not modelled,
 * so enumeration picks keys in an unspecified order.
 */
module FileInfoHash {

  import opened Bytes
  import opened Locations
  import Bitmask

  /** The slot scan stops at this index and overwrites it when 0..14 are all taken. */
  const LastSlot: nat := 15

  type Key = seq<byte>

  /** The slot fih_add_info writes, scanning from `from`: the first zero slot below 15, else 15. */
  function FreeSlot(locs: seq<int>, from: nat): (i: nat)
    requires from <= LastSlot < |locs|
    ensures from <= i <= LastSlot
    ensures forall j :: from <= j < i ==> locs[j] != 0
    ensures i < LastSlot ==> locs[i] == 0
    decreases LastSlot - from
  {
    if locs[from] != 0 && from < LastSlot then FreeSlot(locs, from + 1) else from
  }

  /** The record after one report from rank `src`. */
  function Upsert(fi: FileInfo, src: u16, size: u64, time: u64): FileInfo
    requires LastSlot < |fi.locations|
  {
    var i := FreeSlot(fi.locations, 0);
    FileInfo(if fi.maxChunkSize > size then fi.maxChunkSize else size, time,
             fi.locations[i := Int16(src)])
  }

  /** What one report does to a record: size is the maximum, timestamp that of the last report, one slot written. */
  lemma UpsertEffect(fi: FileInfo, src: u16, size: u64, time: u64)
    requires LastSlot < |fi.locations|
    ensures var r := Upsert(fi, src, size, time);
      && r.maxChunkSize >= size && r.maxChunkSize >= fi.maxChunkSize
      && (r.maxChunkSize == size || r.maxChunkSize == fi.maxChunkSize)
      && r.timestamp == time
      && |r.locations| == |fi.locations|
      && r.locations[FreeSlot(fi.locations, 0)] == Int16(src)
      && forall j :: 0 <= j < |fi.locations| && j != FreeSlot(fi.locations, 0) ==> r.locations[j] == fi.locations[j]
  {
  }

  /**
   * Reports are not deduplicated: while a free slot below 15 remains, a
   * second report from the same non-zero rank takes a further slot.
   */
  lemma RepeatTakesNewSlot(fi: FileInfo, src: u16, size: u64, time: u64)
    requires LastSlot < |fi.locations|
    requires src != 0 && FreeSlot(fi.locations, 0) < LastSlot
    ensures var r := Upsert(fi, src, size, time);
      FreeSlot(r.locations, 0) > FreeSlot(fi.locations, 0)
  {
    var i := FreeSlot(fi.locations, 0);
    var r := Upsert(fi, src, size, time);
    SlotAfterFill(fi.locations, i, Int16(src), 0);
  }

  /** Rank 0 written into a free slot leaves it free: a report from rank 0 cannot be told from none. */
  lemma ZeroRankLeavesSlotFree(fi: FileInfo, size: u64, time: u64)
    requires LastSlot < |fi.locations|
    ensures var r := Upsert(fi, 0, size, time);
      r.locations == fi.locations[FreeSlot(fi.locations, 0) := 0]
      && (FreeSlot(fi.locations, 0) < LastSlot ==> FreeSlot(r.locations, 0) == FreeSlot(fi.locations, 0))
  {
    var i := FreeSlot(fi.locations, 0);
    var r := Upsert(fi, 0, size, time);
    if i < LastSlot {
      SlotSame(fi.locations, r.locations, 0, i);
    }
  }

  /** Filling the free slot with a non-zero value moves the scan past it. */
  lemma {:induction false} SlotAfterFill(locs: seq<int>, i: nat, v: int, from: nat)
    requires from <= LastSlot < |locs| && from <= i < LastSlot && v != 0
    requires i == FreeSlot(locs, from)
    ensures FreeSlot(locs[i := v], from) > i
    decreases LastSlot - from
  {
    if from < i {
      SlotAfterFill(locs, i, v, from + 1);
    } else {
      assert locs[i := v][from] != 0;
    }
  }

  /** Two slot arrays agreeing on the scanned prefix and the stopping slot give the same scan. */
  lemma {:induction false} SlotSame(a: seq<int>, b: seq<int>, from: nat, i: nat)
    requires from <= i < LastSlot < |a| && |a| == |b|
    requires i == FreeSlot(a, from) && b[i] == 0
    requires forall j :: from <= j < i ==> a[j] == b[j]
    ensures FreeSlot(b, from) == i
    decreases LastSlot - from
  {
    if from < i {
      SlotSame(a, b, from + 1, i);
    }
  }

  /** The slot scan of fih_add_info as its loop. */
  method FindFreeSlot(locs: seq<int>) returns (i: nat)
    requires LastSlot < |locs|
    ensures i == FreeSlot(locs, 0)
  {
    i := 0;
    while locs[i] != 0 && i < LastSlot
      invariant i <= LastSlot
      invariant FreeSlot(locs, i) == FreeSlot(locs, 0)
      decreases LastSlot - i
    {
      i := i + 1;
    }
  }

  class FileInfoHash {
    /** MAX_LOCS, the number of location slots per record. */
    const maxLocs: nat
    var table: map<Key, FileInfo>

    ghost predicate Valid()
      reads this
    {
      LastSlot < maxLocs &&
      forall k :: k in table ==> |table[k].locations| == maxLocs
    }

    /** fih_init: an empty map. */
    constructor (maxLocs: nat)
      requires LastSlot < maxLocs
      ensures Valid() && table == map[] && this.maxLocs == maxLocs
    {
      this.maxLocs := maxLocs;
      table := map[];
    }

    /** fih_add_info: a new key starts from a zeroed record; other keys are unchanged. */
    method AddInfo(key: Key, src: u16, size: u64, time: u64)
      requires Valid()
      modifies this
      ensures Valid()
      ensures key in table && table.Keys == old(table).Keys + {key}
      ensures table[key] == Upsert(if key in old(table) then old(table)[key] else Zeroed(maxLocs), src, size, time)
      ensures forall k :: k in old(table) && k != key ==> table[k] == old(table)[k]
    {
      var fi := if key in table then table[key] else Zeroed(maxLocs);
      var i := FindFreeSlot(fi.locations);
      var big := if fi.maxChunkSize > size then fi.maxChunkSize else size;
      table := table[key := FileInfo(big, time, fi.locations[i := Int16(src)])];
    }

    /**
     * fih_collect: up to `max` entries, each a present key with its record,
     * no key twice; as many as the map holds when it holds fewer.
     */
    method Collect(max: nat) returns (keys: seq<Key>, vals: seq<FileInfo>)
      ensures |keys| == |vals| == Bitmask.Min(max, |table|)
      ensures forall j :: 0 <= j < |keys| ==> keys[j] in table && vals[j] == table[keys[j]]
      ensures forall j, l :: 0 <= j < l < |keys| ==> keys[j] != keys[l]
    {
      var rest := table.Keys;
      keys, vals := [], [];
      while |keys| < max && rest != {}
        invariant rest <= table.Keys
        invariant |keys| == |vals| && |keys| + |rest| == |table|
        invariant |keys| <= max
        invariant forall j :: 0 <= j < |keys| ==> keys[j] in table && keys[j] !in rest && vals[j] == table[keys[j]]
        invariant forall j, l :: 0 <= j < l < |keys| ==> keys[j] != keys[l]
        decreases rest
      {
        var k :| k in rest;
        keys, vals := keys + [k], vals + [table[k]];
        rest := rest - {k};
      }
    }
  }
}
