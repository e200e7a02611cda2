/**
 * The earlier draft of task execution (task_processing.c): a 1 MiB
 * transfer buffer, a generator that writes the first source's window
 * without computing parity, and a window count computed as
 * 1 + max / buffer. Role selection and active_ranks are the same code as
 * in module Tasks.
 */
module DraftTasks {

  import opened Bytes
  import opened Locations
  import Bitmask
  import Tasks

  /** FILE_TRANSFER_BUFFER_SIZE of the draft. */
  const DraftBufferSize: nat := 1024 * 1024

  /** expected_messages of the draft generator, stored in an int. */
  function ExpectedMessages(max: u64): (e: int)
    ensures max == 0 ==> e == 0
    ensures 0 < max < 0x7FFF_FFFF * DraftBufferSize ==> e == 1 + max / DraftBufferSize
  {
    if max == 0 then 0
    else
      QuotientBelow(max, DraftBufferSize, 0x7FFF_FFFF);
      Tasks.Int32(1 + max / DraftBufferSize)
  }

  lemma QuotientBelow(a: nat, b: nat, c: nat)
    requires b > 0
    ensures a < c * b ==> a / b < c
  {
    if a / b >= c {
      Tasks.MulMono(b, c, a / b);
    }
  }

  /** The iterations of the draft sender: read_from_fd grows by a whole buffer until it reaches max. */
  function DraftSenderWindows(max: u64): nat
  {
    Tasks.Ceil(max, DraftBufferSize)
  }

  /**
   * The draft's window counts disagree exactly when max_chunk_size is a
   * positive multiple of the buffer: the generator then waits for one
   * window no sender sends.
   */
  lemma DraftWindowMismatch(max: u64)
    requires max < 0x7FFF_FFFF * DraftBufferSize
    ensures ExpectedMessages(max) == DraftSenderWindows(max) + (if max > 0 && max % DraftBufferSize == 0 then 1 else 0)
  {
    var q := max / DraftBufferSize;
    var r := max % DraftBufferSize;
    assert max == q * DraftBufferSize + r;
    if max > 0 {
      if r == 0 {
        ModUnique(max + DraftBufferSize - 1, DraftBufferSize, q, DraftBufferSize - 1);
      } else {
        ModUnique(max + DraftBufferSize - 1, DraftBufferSize, q + 1, r - 1);
      }
    }
  }

  /** The smallest size that shows it: one buffer's worth is announced as two windows and sent as one. */
  lemma OneBufferMismatch()
    ensures ExpectedMessages(DraftBufferSize) == 2 && DraftSenderWindows(DraftBufferSize) == 1
  {
    DraftWindowMismatch(DraftBufferSize);
  }

  /**
   * The draft chunk_sender: whole buffers of 1 MiB until read_from_fd
   * reaches max_chunk_size; the buffer follows the same read rule as the
   * final sender and no size message is sent.
   */
  method DraftChunkSender(task: FileInfo, pIndex: nat, isOpen: bool, got: seq<seq<byte>>)
    returns (coordinator: int, sent: seq<seq<byte>>)
    requires pIndex < |task.locations|
    requires task.maxChunkSize <= Two64 - DraftBufferSize
    requires |got| >= DraftSenderWindows(task.maxChunkSize)
    requires forall j :: 0 <= j < |got| ==> |got[j]| <= DraftBufferSize
    ensures coordinator == task.locations[pIndex]
    ensures |sent| == DraftSenderWindows(task.maxChunkSize)
    ensures forall k :: 0 <= k < |sent| ==> sent[k] == Tasks.SenderState(isOpen, got, DraftBufferSize, k + 1).0
  {
    coordinator := task.locations[pIndex];
    var dataInFd := task.maxChunkSize;
    var data := new byte[DraftBufferSize](_ => 0);
    var hadError := !isOpen;
    var readFromFd: u64 := 0;
    ghost var count := DraftSenderWindows(dataInFd);
    sent := [];
    assert data[..] == Tasks.ZeroBytes(DraftBufferSize);
    Tasks.CeilIsLeast(dataInFd, DraftBufferSize, 0);
    while readFromFd < dataInFd
      invariant |sent| <= count && readFromFd == |sent| * DraftBufferSize
      invariant (data[..], hadError) == Tasks.SenderState(isOpen, got, DraftBufferSize, |sent|)
      invariant forall k :: 0 <= k < |sent| ==> sent[k] == Tasks.SenderState(isOpen, got, DraftBufferSize, k + 1).0
      invariant |sent| < count <==> readFromFd < dataInFd
      decreases count - |sent|
    {
      DraftSenderStep(dataInFd, |sent|);
      if !hadError {
        var r := got[|sent|];
        Tasks.ReadInto(data, r);
        hadError := |r| == 0;
      }
      readFromFd := (readFromFd + DraftBufferSize) % Two64;
      sent := sent + [data[..]];
    }
  }

  /**
   * As written, the draft's read_from_fd only ever holds multiples of
   * 2^20, so for max_chunk_size above 2^64 - 2^20 its loop never ends.
   */
  lemma DraftSenderNeverFinishes(max: u64, k: nat)
    requires max > Two64 - DraftBufferSize
    ensures Tasks.Counter(DraftBufferSize, k) < max
  {
    ModUnique(DraftBufferSize, DraftBufferSize, 1, 0);
    ModUnique(Two64, DraftBufferSize, 0x1000_0000_0000, 0);
    Tasks.CounterAligned(DraftBufferSize, DraftBufferSize, k);
    Tasks.AlignedBelow(Tasks.Counter(DraftBufferSize, k), DraftBufferSize, 0x1000_0000_0000);
  }

  /** The counter arithmetic of one draft sender iteration. */
  lemma DraftSenderStep(max: u64, i: nat)
    requires max <= Two64 - DraftBufferSize && i < DraftSenderWindows(max)
    ensures i * DraftBufferSize < max
    ensures (i * DraftBufferSize + DraftBufferSize) % Two64 == (i + 1) * DraftBufferSize
    ensures (i + 1) * DraftBufferSize < max <==> i + 1 < DraftSenderWindows(max)
  {
    Tasks.CeilIsLeast(max, DraftBufferSize, i);
    Tasks.CeilIsLeast(max, DraftBufferSize, i + 1);
    assert i * DraftBufferSize + DraftBufferSize == (i + 1) * DraftBufferSize;
  }

  /**
   * The draft parity_generator: each expected window is received from the
   * n active sources and the first source's buffer is written as it is,
   * while no write has failed; no parity is computed and no size header
   * is written.
   */
  method DraftParityGenerator(task: FileInfo, n: nat, isOpen: bool,
                              windows: seq<seq<seq<byte>>>, writeOk: seq<bool>)
    returns (blocks: seq<seq<byte>>, failed: bool)
    requires Tasks.IsActiveCount(task.locations, |task.locations|, n) && n > 0
    requires |windows| == if ExpectedMessages(task.maxChunkSize) < 0 then 0 else ExpectedMessages(task.maxChunkSize)
    requires forall k :: 0 <= k < |windows| ==> |windows[k]| == n
    requires Tasks.Uniform(windows, DraftBufferSize)
    requires |writeOk| >= |windows|
    ensures |blocks| == if isOpen then Bitmask.Min(|windows|, Tasks.FirstFalse(writeOk) + 1) else 0
    ensures forall k :: 0 <= k < |blocks| ==> blocks[k] == windows[k][0]
    ensures failed <==> !isOpen || Tasks.FirstFalse(writeOk) < |blocks|
  {
    var active := Tasks.ActiveRanks(task.locations, |task.locations|);
    Tasks.ActiveCountUnique(task.locations, |task.locations|, active, n);
    var data := new byte[active * DraftBufferSize](_ => 0);
    failed := !isOpen;
    var expected := ExpectedMessages(task.maxChunkSize);
    ghost var w := Tasks.FirstFalse(writeOk);
    blocks := [];
    var msgI := 0;
    while msgI < expected
      invariant 0 <= msgI <= |windows|
      invariant expected < 0 ==> msgI == 0
      invariant |blocks| == if isOpen then Bitmask.Min(msgI, w + 1) else 0
      invariant !failed ==> |blocks| == msgI
      invariant forall k :: 0 <= k < |blocks| ==> blocks[k] == windows[k][0]
      invariant failed <==> !isOpen || w < |blocks|
    {
      Tasks.ReceiveWindow(data, windows[msgI], DraftBufferSize);
      if !failed {
        FirstOfFlatten(windows[msgI], DraftBufferSize);
        Tasks.MulMono(DraftBufferSize, 1, n);
        assert data[..DraftBufferSize] == data[..n * DraftBufferSize][..DraftBufferSize];
        assert data[..DraftBufferSize] == windows[msgI][0];
        blocks := blocks + [data[..DraftBufferSize]];
        failed := !writeOk[|blocks| - 1];
      }
      msgI := msgI + 1;
    }
  }

  /** The first bs bytes of a window laid out in data are the first source's message. */
  lemma {:induction false} FirstOfFlatten(msgs: seq<seq<byte>>, bs: nat)
    requires |msgs| > 0 && forall s :: 0 <= s < |msgs| ==> |msgs[s]| == bs
    ensures |Tasks.Flatten(msgs)| >= bs && Tasks.Flatten(msgs)[..bs] == msgs[0]
  {
    Tasks.FlattenLength(msgs, bs);
    if |msgs| > 1 {
      var init := msgs[..|msgs| - 1];
      FirstOfFlatten(init, bs);
      assert Tasks.Flatten(msgs)[..bs] == Tasks.Flatten(init)[..bs];
    } else {
      assert msgs[..0] == [];
    }
  }
}
