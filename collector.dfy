/**
 * The collector side of bp-parity-gen/main.c (the p1_eater branch): every
 * message from a scanner is a run of packed records; each path is copied
 * into the flat name arena flat_file_names, NUL-terminated, and reported to
 * the accumulation map. A name that would not fit is skipped; the space of
 * a name is given back when the map says it already knew the path.
 * The map is outside this module: its answer for each record is an input
 * and the reports are returned as a log.
 */
module Collector {

  import opened Bytes
  import opened Wire

  /** MAX_WORKITEMS. */
  const MaxWorkItems: nat := 1000 * 1000

  /** sizeof(flat_file_names). */
  const ArenaSize: nat := MaxWorkItems * 100

  /** One call fih_add_info(map, name, st, byte_size, timestamp). */
  datatype AddCall = AddCall(name: seq<byte>, st: int, size: u64, time: u64)

  /** Names laid out one after another, each followed by a NUL byte. */
  function Join(names: seq<seq<byte>>): (b: seq<byte>)
  {
    if names == [] then [] else names[0] + [0] + Join(names[1..])
  }

  lemma {:induction false} JoinAppend(names: seq<seq<byte>>, n: seq<byte>)
    ensures Join(names + [n]) == Join(names) + n + [0]
  {
    if names == [] {
      assert Join([n]) == n + [0] + Join([]);
    } else {
      assert (names + [n])[1..] == names[1..] + [n];
      JoinAppend(names[1..], n);
    }
  }

  /** What the arena holds and what was reported, as values. */
  datatype ArenaState = ArenaState(names: seq<seq<byte>>, written: nat, calls: seq<AddCall>)

  /**
   * One record: skipped when written + len + 1 reaches the capacity;
   * otherwise reported, and kept unless the map already knew the path.
   */
  function Step(s: ArenaState, cap: nat, r: Packed, known: bool, st: int): (t: ArenaState)
    ensures t.written < cap || t.written == s.written
    ensures |t.calls| <= |s.calls| + 1
    ensures s.written + |r.path| + 1 >= cap ==> t == s
    ensures s.written + |r.path| + 1 < cap ==> t.calls == s.calls + [AddCall(r.path, st, r.byteSize, r.timestamp)]
    ensures s.written + |r.path| + 1 < cap && known ==> t.names == s.names && t.written == s.written
    ensures s.written + |r.path| + 1 < cap && !known ==> t.names == s.names + [r.path] && t.written == s.written + |r.path| + 1
  {
    if s.written + |r.path| + 1 >= cap then s
    else
      var calls := s.calls + [AddCall(r.path, st, r.byteSize, r.timestamp)];
      if known then ArenaState(s.names, s.written, calls)
      else ArenaState(s.names + [r.path], s.written + |r.path| + 1, calls)
  }

  /** The state after the first k records of a message. */
  function Steps(s: ArenaState, cap: nat, recs: seq<Packed>, known: seq<bool>, st: int, k: nat): ArenaState
    requires k <= |recs| <= |known|
  {
    if k == 0 then s else Step(Steps(s, cap, recs, known, st, k - 1), cap, recs[k - 1], known[k - 1], st)
  }

  /** The arena never reaches its capacity: a NUL-terminated name always fits inside it. */
  lemma {:induction false} StepsBelowCapacity(s: ArenaState, cap: nat, recs: seq<Packed>, known: seq<bool>, st: int, k: nat)
    requires k <= |recs| <= |known| && s.written < cap
    ensures Steps(s, cap, recs, known, st, k).written < cap
  {
    if k > 0 {
      StepsBelowCapacity(s, cap, recs, known, st, k - 1);
    }
  }

  /** Every name kept in the arena was reported to the map as new. */
  lemma {:induction false} KeptWereReported(s: ArenaState, cap: nat, recs: seq<Packed>, known: seq<bool>, st: int, k: nat)
    requires k <= |recs| <= |known|
    ensures var t := Steps(s, cap, recs, known, st, k);
      |s.names| <= |t.names| && t.names[..|s.names|] == s.names &&
      |s.calls| <= |t.calls| && t.calls[..|s.calls|] == s.calls &&
      forall j :: |s.names| <= j < |t.names| ==>
        exists i :: 0 <= i < k && !known[i] && t.names[j] == recs[i].path
  {
    if k > 0 {
      KeptWereReported(s, cap, recs, known, st, k - 1);
      var u := Steps(s, cap, recs, known, st, k - 1);
      var t := Steps(s, cap, recs, known, st, k);
      assert t.names[..|u.names|] == u.names;
      assert t.calls[..|u.calls|] == u.calls;
      assert t.names[..|s.names|] == u.names[..|s.names|];
      assert t.calls[..|s.calls|] == u.calls[..|s.calls|];
      forall j | |s.names| <= j < |t.names|
        ensures exists i :: 0 <= i < k && !known[i] && t.names[j] == recs[i].path
      {
        if j < |u.names| {
          var i :| 0 <= i < k - 1 && !known[i] && u.names[j] == recs[i].path;
          assert t.names[j] == u.names[j];
        } else {
          assert t.names[j] == recs[k - 1].path;
        }
      }
    }
  }

  /** Total arena bytes a run of records needs: its lengths plus one NUL each. */
  function Need(recs: seq<Packed>, k: nat): nat
    requires k <= |recs|
  {
    if k == 0 then 0 else Need(recs, k - 1) + |recs[k - 1].path| + 1
  }

  /**
   * With room for every name, nothing is skipped: each record is reported,
   * in order, and the arena holds exactly the paths the map did not know.
   */
  lemma {:induction false} NothingDropped(s: ArenaState, cap: nat, recs: seq<Packed>, known: seq<bool>, st: int, k: nat)
    requires k <= |recs| <= |known| && s.written + Need(recs, k) < cap
    ensures var t := Steps(s, cap, recs, known, st, k);
      |t.calls| == |s.calls| + k &&
      (forall i :: 0 <= i < k ==> t.calls[|s.calls| + i] == AddCall(recs[i].path, st, recs[i].byteSize, recs[i].timestamp)) &&
      t.written <= s.written + Need(recs, k)
  {
    if k > 0 {
      NothingDropped(s, cap, recs, known, st, k - 1);
    }
  }

  /** One step of the decode loop: the record at offset i is the next one, and the rest stays framed. */
  lemma DecodeAdvance(msg: seq<byte>, i: nat, recs: seq<Packed>, done: seq<Packed>)
    requires i < |msg| && Framed(msg[i..]) && recs == done + DecodeAll(msg[i..])
    ensures var r := RecordAt(msg[i..]);
      i + HeaderSize + |r.path| <= |msg| && Framed(msg[i + HeaderSize + |r.path|..]) &&
      |done| < |recs| && recs[|done|] == r &&
      recs == (done + [r]) + DecodeAll(msg[i + HeaderSize + |r.path|..])
  {
    var b := msg[i..];
    var n := HeaderSize + U64At(b, 16);
    assert b[n..] == msg[i + n..];
  }

  /** The cast of recv_buffer + i to a packed record, and the offset of the next one. */
  method NextRecord(msg: seq<byte>, i: nat, ghost recs: seq<Packed>, ghost done: seq<Packed>)
    returns (r: Packed, next: nat)
    requires i < |msg| && Framed(msg[i..]) && recs == done + DecodeAll(msg[i..])
    ensures i < next <= |msg| && Framed(msg[next..])
    ensures |done| < |recs| && recs[|done|] == r && recs == (done + [r]) + DecodeAll(msg[next..])
  {
    DecodeAdvance(msg, i, recs, done);
    r := RecordAt(msg[i..]);
    next := i + HeaderSize + |r.path|;
  }

  class NameArena {
    /** flat_file_names. */
    const buf: array<byte>
    /** name_bytes_written. */
    var written: nat
    /** The names the arena holds, in order. */
    ghost var names: seq<seq<byte>>

    ghost predicate Valid()
      reads this, buf
    {
      written < buf.Length && buf[..written] == Join(names)
    }

    /** The zero-initialised static arena. */
    constructor (cap: nat)
      requires cap > 0
      ensures Valid() && fresh(buf) && buf.Length == cap && written == 0 && names == []
    {
      buf := new byte[cap](_ => 0);
      written := 0;
      names := [];
    }

    /**
     * Copy a path and its NUL to the end of the arena, then take the
     * space back when the map already knew the path (the bytes stay but
     * are no longer counted).
     */
    method StoreName(path: seq<byte>, known: bool)
      requires Valid() && written + |path| + 1 < buf.Length
      modifies this, buf
      ensures Valid()
      ensures known ==> names == old(names) && written == old(written)
      ensures !known ==> names == old(names) + [path] && written == old(written) + |path| + 1
    {
      var n := written;
      forall j | 0 <= j < |path| {
        buf[n + j] := path[j];
      }
      buf[n + |path|] := 0;
      assert buf[..n] == old(buf[..n]);
      assert buf[..n + |path| + 1] == buf[..n] + path + [0];
      written := written + |path| + 1;
      if known {
        written := written - (|path| + 1);
      } else {
        JoinAppend(names, path);
        names := names + [path];
      }
    }

    /** One record of the decode loop: the capacity test, the copy, the report and the rollback. */
    method Absorb(r: Packed, st: int, known: bool, calls: seq<AddCall>) returns (calls': seq<AddCall>)
      requires Valid()
      modifies this, buf
      ensures Valid()
      ensures ArenaState(names, written, calls') ==
        Step(ArenaState(old(names), old(written), calls), buf.Length, r, known, st)
    {
      calls' := calls;
      if written + |r.path| + 1 < buf.Length {
        StoreName(r.path, known);
        calls' := calls + [AddCall(r.path, st, r.byteSize, r.timestamp)];
      }
    }

    /** One iteration of the decode loop. */
    method ReceiveNext(msg: seq<byte>, i: nat, st: int, known: seq<bool>, k: nat, calls: seq<AddCall>,
                       ghost recs: seq<Packed>, ghost done: seq<Packed>, ghost s0: ArenaState)
      returns (next: nat, calls': seq<AddCall>, ghost done': seq<Packed>)
      requires i < |msg| && Framed(msg[i..]) && k == |done| && recs == done + DecodeAll(msg[i..])
      requires |known| >= |recs|
      requires Valid() && Steps(s0, buf.Length, recs, known, st, k) == ArenaState(names, written, calls)
      modifies this, buf
      ensures i < next <= |msg| && Framed(msg[next..]) && k + 1 == |done'| && recs == done' + DecodeAll(msg[next..])
      ensures Valid() && Steps(s0, buf.Length, recs, known, st, k + 1) == ArenaState(names, written, calls')
    {
      var r;
      r, next := NextRecord(msg, i, recs, done);
      done' := done + [r];
      calls' := Absorb(r, st, known[k], calls);
    }

    /**
     * The decode loop for one received message from the scanner that feeds
     * target `st`: records are taken one after another, advancing by
     * 24 + path_len; `known[k]` is the map's answer for record k.
     */
    method Receive(msg: seq<byte>, st: int, known: seq<bool>) returns (calls: seq<AddCall>)
      requires Valid() && Framed(msg) && |known| >= |DecodeAll(msg)|
      modifies this, buf
      ensures Valid()
      ensures var recs := DecodeAll(msg);
        var t := Steps(ArenaState(old(names), old(written), []), buf.Length, recs, known, st, |recs|);
        names == t.names && written == t.written && calls == t.calls
    {
      ghost var recs := DecodeAll(msg);
      ghost var s0 := ArenaState(names, written, []);
      ghost var done: seq<Packed> := [];
      calls := [];
      var i := 0;
      var k := 0;
      while i < |msg|
        invariant 0 <= i <= |msg| && Framed(msg[i..]) && k == |done| && recs == done + DecodeAll(msg[i..])
        invariant Valid() && Steps(s0, buf.Length, recs, known, st, k) == ArenaState(names, written, calls)
        decreases |msg| - i
      {
        i, calls, done := ReceiveNext(msg, i, st, known, k, calls, recs, done, s0);
        k := k + 1;
      }
    }
  }
}
