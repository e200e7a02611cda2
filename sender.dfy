/**
 * The buffered per-destination sender of bp-parity-gen/main.c (a feeder
 * process): records are packed into a fixed buffer per destination and
 * handed to an asynchronous send once enough bytes have gathered. The static
 * arrays dst_written, dst_in_transit and dst_buffer, indexed by target, are
 * modelled as one Destination object per target.
 *
 * MPI is not modelled: MPI_Isend appends the bytes it is handed to a ghost
 * log `messages`, MPI_Wait always completes, and the answer of MPI_Test is a
 * parameter. Every record pushed is appended to the ghost log `records`.
 */
module Sender {

  import opened Bytes
  import opened Wire

  const MaxTargets: nat := 10
  const TargetBufferSize: nat := 10 * 1024 * 1024
  const TargetSendThreshold: nat := 1 * 1024 * 1024

  /** The bytes of several messages, one after the other. */
  function Concat(ms: seq<seq<byte>>): seq<byte>
  {
    if |ms| == 0 then [] else Concat(ms[..|ms| - 1]) + ms[|ms| - 1]
  }

  lemma ConcatAppend(ms: seq<seq<byte>>, m: seq<byte>)
    ensures Concat(ms + [m]) == Concat(ms) + m
  {
    assert (ms + [m])[..|ms|] == ms;
  }

  /** Appending a record's encoding to the waiting bytes keeps the conservation equation. */
  lemma AppendConserves(ms: seq<seq<byte>>, waiting: seq<byte>, rs: seq<Packed>, r: Packed)
    requires AllEncodable(rs) && Encodable(r)
    requires Concat(ms) + waiting == EncodeAll(rs)
    ensures AllEncodable(rs + [r])
    ensures Concat(ms) + (waiting + Encode(r)) == EncodeAll(rs + [r])
  {
    EncodeAllAppend(rs, r);
    assert Concat(ms) + (waiting + Encode(r)) == (Concat(ms) + waiting) + Encode(r);
  }

  lemma SplicedSlices(b: seq<byte>, before: seq<byte>, e: seq<byte>, t: nat)
    requires t <= |before| && |before| + |e| <= |b|
    requires b[..|before|] == before && b[|before|..|before| + |e|] == e
    ensures b[..|before| + |e|] == before + e
    ensures b[t..|before| + |e|] == before[t..] + e
    ensures b[..t] == before[..t]
  {
    assert b[..|before| + |e|] == b[..|before|] + b[|before|..|before| + |e|];
  }

  class Destination {
    const buf: array<byte>
    /** dst_written: bytes packed into buf. */
    var written: nat
    /** dst_in_transit: the prefix of buf handed to the send in flight, 0 if none. */
    var inTransit: nat
    /** The MPI_Isend calls made so far, each with the bytes it was handed. */
    ghost var messages: seq<seq<byte>>
    /** The records pushed so far. */
    ghost var records: seq<Packed>

    /**
     * Conservation: what was handed to sends, followed by the bytes still
     * waiting behind the send in flight, is exactly the encoding of every
     * record pushed, in push order; and the send in flight is the front of
     * the buffer.
     */
    ghost predicate Valid()
      reads this, buf
    {
      buf.Length == TargetBufferSize &&
      inTransit <= written <= buf.Length &&
      AllEncodable(records) &&
      Concat(messages) + buf[inTransit..written] == EncodeAll(records) &&
      (inTransit > 0 ==> |messages| > 0 && messages[|messages| - 1] == buf[..inTransit])
    }

    /**
     * Between pushes: with nothing in flight fewer than the threshold bytes
     * wait, and a send in flight carries at least the threshold.
     */
    predicate Steady()
      reads this
    {
      (inTransit == 0 ==> written < TargetSendThreshold) &&
      (inTransit > 0 ==> inTransit >= TargetSendThreshold)
    }

    constructor ()
      ensures Valid() && Steady() && fresh(buf)
      ensures written == 0 && inTransit == 0 && messages == [] && records == []
    {
      buf := new byte[TargetBufferSize];
      written, inTransit := 0, 0;
      messages, records := [], [];
    }

    /** is_done_with_prev_async_send: a send is in flight and MPI_Test reports it complete. */
    method IsDoneWithPrevSend(completed: bool) returns (done: bool)
      ensures done <==> inTransit != 0 && completed
      ensures inTransit == 0 ==> !done
    {
      if inTransit == 0 {
        return false;
      }
      done := completed;
    }

    /**
     * finish_prev_async_send: wait for the send in flight, then move the
     * bytes packed behind it to the front of the buffer.
     */
    method FinishPrevSend()
      requires Valid()
      modifies this, buf
      ensures Valid()
      ensures written == old(written) - old(inTransit) && inTransit == 0
      ensures buf[..written] == old(buf[inTransit..written])
      ensures messages == old(messages) && records == old(records)
    {
      var sent := inTransit;
      if sent < written {
        MoveToFront(sent, written);
      }
      written := written - sent;
      inTransit := 0;
    }

    /** The first loop of send_remaining_data_to_targets, for this target. */
    method Flush()
      requires Valid()
      modifies this, buf
      ensures Valid() && inTransit == written
      ensures records == old(records)
    {
      if inTransit > 0 {
        FinishPrevSend();
      }
      if written > 0 {
        BeginSend();
      }
    }

    /** The second loop of send_remaining_data_to_targets, for this target. */
    method Drain()
      requires Valid() && inTransit == written
      modifies this, buf
      ensures AllSent()
      ensures records == old(records)
    {
      if inTransit > 0 {
        FinishPrevSend();
      }
    }

    /** Nothing waits and nothing is in flight. */
    ghost predicate AllSent()
      reads this, buf
    {
      Valid() && written == 0 && inTransit == 0
    }

    /** Once everything is sent, the sends carried exactly the encoded records, in order. */
    lemma SentIsConserved()
      requires AllSent()
      ensures Concat(messages) == EncodeAll(records)
    {
      assert buf[0..0] == [];
    }

    /** memmove(buf, buf + from, to - from), copying forwards. */
    method MoveToFront(from: nat, to: nat)
      requires from <= to <= buf.Length
      modifies buf
      ensures buf[..to - from] == old(buf[from..to])
      ensures buf[to - from..] == old(buf[to - from..])
    {
      var i := 0;
      while i < to - from
        invariant 0 <= i <= to - from
        invariant buf[..i] == old(buf[from..from + i])
        invariant buf[i..] == old(buf[i..])
      {
        buf[i] := buf[from + i];
        i := i + 1;
      }
    }

    /** begin_async_send: hand the whole packed prefix to a new send. */
    method BeginSend()
      requires Valid()
      requires inTransit == 0 && written > 0
      modifies this
      ensures Valid()
      ensures written == old(written) && inTransit == written
      ensures messages == old(messages) + [buf[..written]]
      ensures records == old(records)
    {
      inTransit := written;
      ConcatAppend(messages, buf[..written]);
      messages := messages + [buf[..written]];
    }

    /** memcpy(buf + at, e, |e|). */
    method CopyIn(at: nat, e: seq<byte>)
      requires at + |e| <= buf.Length
      modifies buf
      ensures buf[..at] == old(buf[..at])
      ensures buf[at..at + |e|] == e
    {
      var k := 0;
      while k < |e|
        invariant 0 <= k <= |e|
        invariant buf[..at] == old(buf[..at])
        invariant buf[at..at + k] == e[..k]
      {
        buf[at + k] := e[k];
        k := k + 1;
      }
    }

    /** Pack one record behind the bytes already written (the two memcpy calls of push_to_target). */
    method Append(r: Packed)
      requires Valid() && Encodable(r)
      requires written + HeaderSize + |r.path| <= buf.Length
      modifies this, buf
      ensures Valid()
      ensures written == old(written) + HeaderSize + |r.path| && inTransit == old(inTransit)
      ensures buf[..written] == old(buf[..written]) + Encode(r)
      ensures records == old(records) + [r] && messages == old(messages)
    {
      ghost var before := buf[..written];
      var e := Encode(r);
      CopyIn(written, e);
      SplicedSlices(buf[..], before, e, inTransit);
      AppendConserves(messages, before[inTransit..], records, r);
      records := records + [r];
      written := written + |e|;
    }

    /**
     * push_to_target: when the record would not fit, or the send in flight
     * has completed, first reclaim the sent bytes; then pack the record
     * behind what is waiting, and start a send once nothing is in flight and
     * the threshold is reached. The record size bound (a path is shorter than
     * the 1 MiB threshold) is what keeps the buffer from overflowing.
     */
    method Push(completed: bool, r: Packed)
      requires Valid() && Steady()
      requires Encodable(r) && 0 < |r.path| && HeaderSize + |r.path| <= TargetSendThreshold
      modifies this, buf
      ensures Valid() && Steady()
      ensures records == old(records) + [r]
      ensures var reclaim := old(written) + HeaderSize + |r.path| >= TargetBufferSize ||
                             (old(inTransit) != 0 && completed);
              var waiting := if reclaim then old(buf[inTransit..written]) else old(buf[..written]);
              var flying := if reclaim then 0 else old(inTransit);
              buf[..written] == waiting + Encode(r) &&
              if flying == 0 && written >= TargetSendThreshold
              then inTransit == written && messages == old(messages) + [buf[..written]]
              else inTransit == flying && messages == old(messages)
    {
      var newSize := written + HeaderSize + |r.path|;
      var done := false;
      if newSize < TargetBufferSize {
        done := IsDoneWithPrevSend(completed);
      }
      if newSize >= TargetBufferSize || done {
        FinishPrevSend();
      }
      Append(r);
      if inTransit == 0 && written >= TargetSendThreshold {
        BeginSend();
      }
    }
  }

  /** A record and the target index it was pushed to. */
  datatype Routed = Routed(target: nat, record: Packed)

  /** The records routed to target t, in order. */
  function RecordsFor(rs: seq<Routed>, t: nat): seq<Packed>
  {
    if |rs| == 0 then []
    else RecordsFor(rs[..|rs| - 1], t) + (if rs[|rs| - 1].target == t then [rs[|rs| - 1].record] else [])
  }

  lemma RecordsForAppend(rs: seq<Routed>, r: Routed, t: nat)
    ensures RecordsFor(rs + [r], t) == RecordsFor(rs, t) + (if r.target == t then [r.record] else [])
  {
    assert (rs + [r])[..|rs|] == rs;
  }

  /**
   * The destinations of one feeder, one per target index (the static arrays
   * indexed by target). The ghost log `pushed` lists every push_to_target
   * call in order; each destination has logged exactly the records routed
   * to it.
   */
  class Feeder {
    const dests: seq<Destination>
    ghost var pushed: seq<Routed>

    ghost function Repr(): set<object>
    {
      {this} + Parts()
    }

    /** The destinations and their buffers. */
    ghost function Parts(): set<object>
    {
      (set i | 0 <= i < |dests| :: dests[i]) + (set i | 0 <= i < |dests| :: dests[i].buf)
    }

    ghost predicate Valid()
      reads Repr()
    {
      Distinct() &&
      (forall i {:trigger dests[i].Valid()} :: 0 <= i < |dests| ==> dests[i].Valid() && dests[i].Steady()) &&
      forall t {:trigger dests[t].records} :: 0 <= t < |dests| ==> dests[t].records == RecordsFor(pushed, t)
    }

    /** One destination object and one buffer per target, none shared. */
    predicate Distinct()
    {
      |dests| == MaxTargets &&
      forall i, j :: 0 <= i < j < |dests| ==> dests[i] != dests[j] && dests[i].buf != dests[j].buf
    }

    constructor ()
      ensures Valid() && fresh(Repr() - {this})
      ensures pushed == [] && forall i :: 0 <= i < |dests| ==> dests[i].messages == []
    {
      var ds: seq<Destination> := [];
      while |ds| < MaxTargets
        invariant |ds| <= MaxTargets
        invariant forall i, j :: 0 <= i < j < |ds| ==> ds[i] != ds[j] && ds[i].buf != ds[j].buf
        invariant forall i :: 0 <= i < |ds| ==> fresh(ds[i]) && fresh(ds[i].buf)
        invariant forall i {:trigger ds[i].Valid()} :: 0 <= i < |ds| ==> ds[i].Valid()
        invariant forall i :: 0 <= i < |ds| ==> ds[i].Steady()
        invariant forall i :: 0 <= i < |ds| ==> ds[i].records == [] && ds[i].messages == []
      {
        var d := new Destination();
        ds := ds + [d];
      }
      dests := ds;
      pushed := [];
    }

    /** push_to_target: the record is logged by its target and by no other. */
    method PushToTarget(target: nat, completed: bool, r: Packed)
      requires Valid() && target < MaxTargets
      requires Encodable(r) && 0 < |r.path| && HeaderSize + |r.path| <= TargetSendThreshold
      modifies this, dests[target], dests[target].buf
      ensures Valid()
      ensures pushed == old(pushed) + [Routed(target, r)]
    {
      dests[target].Push(completed, r);
      pushed := pushed + [Routed(target, r)];
      forall t | 0 <= t < |dests|
        ensures dests[t].records == RecordsFor(pushed, t)
      {
        RecordsForAppend(old(pushed), Routed(target, r), t);
      }
    }

    /**
     * send_remaining_data_to_targets: finish every send in flight, send what
     * is left in each buffer, and wait for those sends. Afterwards every
     * buffer is empty and each target has been handed exactly the encodings
     * of the records pushed to it, in push order.
     */
    method SendRemaining()
      requires Valid()
      modifies Repr()
      ensures pushed == old(pushed)
      ensures forall t :: 0 <= t < MaxTargets ==>
        dests[t].AllSent() && dests[t].records == RecordsFor(pushed, t) &&
        Concat(dests[t].messages) == EncodeAll(RecordsFor(pushed, t))
    {
      FlushAll();
      DrainAll();
      forall k | 0 <= k < MaxTargets
        ensures dests[k].AllSent() && Concat(dests[k].messages) == EncodeAll(dests[k].records)
      {
        dests[k].SentIsConserved();
      }
    }

    /** The first loop of send_remaining_data_to_targets. */
    method FlushAll()
      requires Distinct()
      requires forall k {:trigger dests[k].Valid()} :: 0 <= k < MaxTargets ==> dests[k].Valid()
      modifies Parts()
      ensures forall k {:trigger dests[k].Valid()} :: 0 <= k < MaxTargets ==> dests[k].Valid()
      ensures forall k :: 0 <= k < MaxTargets ==> dests[k].inTransit == dests[k].written
      ensures forall k :: 0 <= k < MaxTargets ==> dests[k].records == old(dests[k].records)
    {
      for i := 0 to MaxTargets
        invariant forall k {:trigger dests[k].Valid()} :: 0 <= k < MaxTargets ==> dests[k].Valid()
        invariant forall k :: 0 <= k < MaxTargets ==> dests[k].records == old(dests[k].records)
        invariant forall k :: 0 <= k < i ==> dests[k].inTransit == dests[k].written
      {
        dests[i].Flush();
      }
    }

    /** The second loop of send_remaining_data_to_targets. */
    method DrainAll()
      requires Distinct()
      requires forall k {:trigger dests[k].Valid()} :: 0 <= k < MaxTargets ==> dests[k].Valid()
      requires forall k :: 0 <= k < MaxTargets ==> dests[k].inTransit == dests[k].written
      modifies Parts()
      ensures forall k {:trigger dests[k].AllSent()} :: 0 <= k < MaxTargets ==> dests[k].AllSent()
      ensures forall k :: 0 <= k < MaxTargets ==> dests[k].records == old(dests[k].records)
    {
      for i := 0 to MaxTargets
        invariant forall k {:trigger dests[k].Valid()} :: i <= k < MaxTargets ==> dests[k].Valid()
        invariant forall k :: 0 <= k < MaxTargets ==> dests[k].records == old(dests[k].records)
        invariant forall k :: i <= k < MaxTargets ==> dests[k].inTransit == dests[k].written
        invariant forall k {:trigger dests[k].AllSent()} :: 0 <= k < i ==> dests[k].AllSent()
      {
        dests[i].Drain();
      }
    }
  }
}
