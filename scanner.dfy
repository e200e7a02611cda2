/**
 * The input parser of feed_targets_with (bp-parity-gen/main.c), as run by a
 * feeder: the chunk enumerator writes records of an 8-byte timestamp, an
 * 8-byte byte_size, an 8-byte path length, the path and one pad byte; each
 * record goes to target simple_hash(path) % ntargets.
 *
 * The model covers a stream that fits one 64 KiB read, so one fread
 * delivers all of it and the next one returns 0.
 */
module Scanner {

  import opened Bytes
  import opened Wire
  import Hashing
  import opened Sender

  const ReadBufferSize: nat := 64 * 1024
  const InputHeaderSize: nat := 24

  /** How parsing ends. */
  datatype Status =
    | Done      // the stream is used up, or its last record is cut short and dropped
    | Aborted   // push_to_target's assertion path_len > 0 fails
    | Overrun   // a record ends exactly at the end of the data: buf_alive -= len + 25 wraps around


  datatype Parsed = Parsed(routed: seq<Routed>, status: Status)

  /** Where a path goes: simple_hash(path, len) % ntargets. */
  function TargetOf(path: seq<byte>, ntargets: nat): (t: nat)
    requires ntargets > 0
    ensures t < ntargets
  {
    Hashing.HashOf(path) % ntargets
  }

  /** What the header at the front of the alive bytes says. */
  datatype Head =
    | Truncated                          // 24 + len > buf_alive: the record is cut short
    | BadLength                          // len is 0, or 24 + len wraps around
    | Record(r: Routed, size: nat)       // header and path, without the pad byte

  /**
   * One step of the inner loop of feed_targets_with: read the header in
   * front of the alive bytes b. The check 24 + len > buf_alive is done in
   * 64-bit unsigned arithmetic.
   */
  function HeadOf(b: seq<byte>, ntargets: nat): (h: Head)
    requires |b| >= InputHeaderSize && ntargets > 0
    ensures h.Record? ==> InputHeaderSize < h.size <= |b| && h.size == InputHeaderSize + |h.r.record.path|
    ensures h.Record? ==> h.r.target < ntargets && h.r.record.path == b[InputHeaderSize..h.size]
    ensures h.Truncated? <==> (InputHeaderSize + U64At(b, 16)) % Two64 > |b|
    ensures h.BadLength? <==> (InputHeaderSize + U64At(b, 16)) % Two64 <= |b| &&
                              (U64At(b, 16) == 0 || InputHeaderSize + U64At(b, 16) >= Two64)
    ensures h.Record? ==> h.r.record.timestamp == U64At(b, 0) && h.r.record.byteSize == U64At(b, 8) &&
                          h.size == InputHeaderSize + U64At(b, 16) && h.r.target == TargetOf(h.r.record.path, ntargets)
  {
    var len := U64At(b, 16);
    if (InputHeaderSize + len) % Two64 > |b| then Truncated
    else if len == 0 || InputHeaderSize + len >= Two64 then BadLength
    else
      assert (InputHeaderSize + len) % Two64 == InputHeaderSize + len;
      var path := b[InputHeaderSize..InputHeaderSize + len];
      Record(Routed(TargetOf(path, ntargets), Packed(U64At(b, 8), U64At(b, 0), path)), InputHeaderSize + len)
  }

  /** The inner loop of feed_targets_with over the bytes b still alive. */
  function Parse(b: seq<byte>, ntargets: nat): (p: Parsed)
    requires ntargets > 0
    decreases |b|
  {
    if |b| < InputHeaderSize then Parsed([], Done)
    else match HeadOf(b, ntargets)
      case Truncated => Parsed([], Done)
      case BadLength => Parsed([], Aborted)
      case Record(r, size) =>
        if size == |b| then Parsed([r], Overrun)
        else
          var rest := Parse(b[size + 1..], ntargets);
          Parsed([r] + rest.routed, rest.status)
  }

  /** Parsing a buffer that starts with a whole record yields that record, then whatever follows its pad byte. */
  lemma ParseRecord(b: seq<byte>, ntargets: nat)
    requires ntargets > 0 && |b| >= InputHeaderSize && HeadOf(b, ntargets).Record?
    ensures var h := HeadOf(b, ntargets);
      if h.size == |b| then Parse(b, ntargets) == Parsed([h.r], Overrun)
      else Parse(b, ntargets).routed == [h.r] + Parse(b[h.size + 1..], ntargets).routed &&
           Parse(b, ntargets).status == Parse(b[h.size + 1..], ntargets).status
  {
  }

  /** The header of b, computed with simple_hash. */
  method ReadHead(b: seq<byte>, ntargets: nat) returns (h: Head)
    requires |b| >= InputHeaderSize && ntargets > 0
    ensures h.Truncated? <==> (InputHeaderSize + U64At(b, 16)) % Two64 > |b|
    ensures h.Record? <==> (InputHeaderSize + U64At(b, 16)) % Two64 <= |b| &&
                           0 < U64At(b, 16) && InputHeaderSize + U64At(b, 16) < Two64
    ensures h.Record? ==> h.size == InputHeaderSize + U64At(b, 16) && h.size <= |b| &&
                          h.r.record == Packed(U64At(b, 8), U64At(b, 0), b[InputHeaderSize..h.size]) &&
                          h.r.target == Hashing.HashOf(h.r.record.path) % ntargets
    ensures h == HeadOf(b, ntargets)
  {
    var len := U64At(b, 16);
    if (InputHeaderSize + len) % Two64 > |b| {
      return Truncated;
    }
    if len == 0 || InputHeaderSize + len >= Two64 {
      return BadLength;
    }
    var path := b[InputHeaderSize..InputHeaderSize + len];
    var hash := Hashing.SimpleHash(path);
    h := Record(Routed(hash % ntargets, Packed(U64At(b, 8), U64At(b, 0), path)), InputHeaderSize + len);
  }

  /**
   * feed_targets_with: parse the stream, push every record to its target,
   * and at the end of the stream flush every target. With status Done each
   * target has been sent exactly the packed encodings of the records routed
   * to it, in stream order; an abort or overrun stops the feeder before the
   * flush. completions[k] is what MPI_Test answers during the k-th push.
   */
  method FeedTargetsWith(f: Feeder, input: seq<byte>, ntargets: nat, completions: seq<bool>)
      returns (status: Status)
    requires f.Valid() && 0 < ntargets <= MaxTargets && |input| <= ReadBufferSize
    modifies f.Repr()
    ensures status == Parse(input, ntargets).status
    ensures f.pushed == old(f.pushed) + Parse(input, ntargets).routed
    ensures status == Done ==> forall t :: 0 <= t < MaxTargets ==>
      f.dests[t].AllSent() && f.dests[t].records == RecordsFor(f.pushed, t) &&
      Concat(f.dests[t].messages) == EncodeAll(RecordsFor(f.pushed, t))
    ensures status != Done ==> f.Valid()
  {
    status := PushAll(f, input, ntargets, completions);
    if status == Done {
      f.SendRemaining();
    }
  }

  /**
   * Parsing from offset off on, after the records done, gives what parsing
   * the whole input gives.
   */
  predicate Progress(input: seq<byte>, off: nat, ntargets: nat, done: seq<Routed>, all: Parsed)
    requires ntargets > 0
  {
    off <= |input| &&
    done + Parse(input[off..], ntargets).routed == all.routed &&
    Parse(input[off..], ntargets).status == all.status
  }

  /** The loops of feed_targets_with up to the final flush: every parsed record is pushed to its target. */
  method PushAll(f: Feeder, input: seq<byte>, ntargets: nat, completions: seq<bool>)
      returns (status: Status)
    requires f.Valid() && 0 < ntargets <= MaxTargets && |input| <= ReadBufferSize
    modifies f.Repr()
    ensures f.Valid()
    ensures status == Parse(input, ntargets).status
    ensures f.pushed == old(f.pushed) + Parse(input, ntargets).routed
  {
    ghost var all := Parse(input, ntargets);
    ghost var done: seq<Routed> := [];
    var off := 0;
    var count := 0;
    while |input| - off >= InputHeaderSize
      invariant f.Valid() && f.pushed == old(f.pushed) + done
      invariant Progress(input, off, ntargets, done, all)
      decreases |input| - off
    {
      var completed := count < |completions| && completions[count];
      var h, next;
      h, next, done := PushNext(f, input, off, ntargets, completed, old(f.pushed), done, all);
      if h.Truncated? {
        break;
      } else if h.BadLength? {
        return Aborted;
      } else if off + h.size == |input| {
        return Overrun;
      }
      count := count + 1;
      off := next;
    }
    assert done == all.routed;
    return Done;
  }

  /**
   * One pass of the inner loop: read the header at offset off of the input
   * and push its record, if whole; next is the offset after its pad byte,
   * or |input| when the record ends the data.
   */
  method PushNext(f: Feeder, input: seq<byte>, off: nat, ntargets: nat, completed: bool,
                  ghost base: seq<Routed>, ghost done: seq<Routed>, ghost all: Parsed)
      returns (h: Head, next: nat, ghost done': seq<Routed>)
    requires f.Valid() && f.pushed == base + done
    requires 0 < ntargets <= MaxTargets && off + InputHeaderSize <= |input| <= ReadBufferSize
    requires Progress(input, off, ntargets, done, all)
    modifies f.Repr()
    ensures f.Valid() && f.pushed == base + done'
    ensures !h.Record? ==> done' == done == all.routed
    ensures h.Truncated? ==> all.status == Done
    ensures h.BadLength? ==> all.status == Aborted
    ensures h.Record? ==> off + h.size <= |input|
    ensures h.Record? && off + h.size == |input| ==> done' == all.routed && all.status == Overrun
    ensures h.Record? && off + h.size < |input| ==> off < next && Progress(input, next, ntargets, done', all)
  {
    var b := input[off..];
    h := ReadHead(b, ntargets);
    ProgressStep(input, off, ntargets, done, all);
    done' := done;
    next := |input|;
    if h.Record? {
      f.PushToTarget(h.r.target, completed, h.r.record);
      done' := done + [h.r];
      if off + h.size < |input| {
        next := off + h.size + 1;
      }
    }
  }

  /** How the parse of the alive bytes at off relates to the header found there. */
  lemma ProgressStep(input: seq<byte>, off: nat, ntargets: nat, done: seq<Routed>, all: Parsed)
    requires 0 < ntargets && off + InputHeaderSize <= |input|
    requires Progress(input, off, ntargets, done, all)
    ensures var h := HeadOf(input[off..], ntargets);
      && (!h.Record? ==> done == all.routed)
      && (h.Truncated? ==> all.status == Done)
      && (h.BadLength? ==> all.status == Aborted)
      && (h.Record? ==> off + h.size <= |input|)
      && (h.Record? && off + h.size == |input| ==> done + [h.r] == all.routed && all.status == Overrun)
      && (h.Record? && off + h.size < |input| ==> Progress(input, off + h.size + 1, ntargets, done + [h.r], all))
  {
    var b := input[off..];
    var h := HeadOf(b, ntargets);
    if h.Record? {
      ParseRecord(b, ntargets);
      if h.size < |b| {
        var next := off + h.size + 1;
        assert b[h.size + 1..] == input[next..];
        var rest := Parse(input[next..], ntargets).routed;
        assert done + ([h.r] + rest) == done + [h.r] + rest;
      }
    }
  }
}
