/**
 * The second layout of FileInfo, used by task execution
 * (bp-parity-gen/task_processing.c, task_processing.c) and by the
 * accumulation map (file_info_hash.c): a size, a timestamp and a fixed
 * array of int16 ranks. Its length (MAX_LOCS) and the index of the parity
 * owner's rank (P_INDEX) are not defined in common/common.h; they are
 * parameters here.
 */
module Locations {

  import opened Bytes

  const Two16: int := 0x1_0000

  type u16 = x: int | 0 <= x < Two16

  /** A record of the array layout; `locations` holds int16 values. */
  datatype FileInfo = FileInfo(maxChunkSize: u64, timestamp: u64, locations: seq<int>)

  /** A uint16_t stored into an int16_t slot: values from 0x8000 up wrap to negatives. */
  function Int16(x: u16): (v: int)
    ensures -0x8000 <= v < 0x8000
    ensures v % Two16 == x
    ensures v == 0 <==> x == 0
  {
    if x < 0x8000 then x else x - Two16
  }

  /** A zeroed record with n location slots (memset(fi, 0, sizeof(FileInfo))). */
  function Zeroed(n: nat): (fi: FileInfo)
    ensures |fi.locations| == n && fi.maxChunkSize == 0 && fi.timestamp == 0
    ensures forall j :: 0 <= j < n ==> fi.locations[j] == 0
  {
    FileInfo(0, 0, seq(n, _ => 0))
  }
}
