/**
 `RamDisk`: a device that serves every request at once. With it, `read_blocks` and
 `write_blocks` implement an array of blocks.
 */
module RamDisks {
  import opened Arith
  import opened Options
  import opened BlockLog
  import opened BlockFutures

  /** `RamInner`, together with the DMA buffers the requests point to. `refusals` decides the
      next allocations of the pool; once it is used up they succeed. */
  datatype Ram = Ram(
    storage: seq<Byte>,
    completedReads: seq<nat>,
    completedWrites: seq<nat>,
    nextId: nat,
    memory: map<nat, seq<Byte>>,
    nextBuffer: nat,
    refusals: seq<Option<DmaError>>)

  // ----- the flat storage as an array of blocks -----

  predicate InStorage(storage: seq<Byte>, b: nat, size: nat) {
    (b + 1) * size <= |storage|
  }

  function BlockAt(storage: seq<Byte>, b: nat, size: nat): seq<Byte>
    requires InStorage(storage, b, size)
  {
    SliceBound(b, b + 1, size);
    storage[b * size..(b + 1) * size]
  }

  function PutBlock(storage: seq<Byte>, b: nat, size: nat, data: seq<Byte>): (r: seq<Byte>)
    requires InStorage(storage, b, size) && |data| == size
    ensures |r| == |storage|
  {
    SliceBound(b, b + 1, size);
    storage[..b * size] + data + storage[(b + 1) * size..]
  }

  lemma BlocksFit(storage: seq<Byte>, b: nat, size: nat, num: nat)
    requires |storage| == num * size && b < num
    ensures InStorage(storage, b, size)
  {
    MulMono(b + 1, num, size);
  }

  /** Writing one block changes that block only. */
  lemma PutBlockAt(storage: seq<Byte>, b: nat, size: nat, data: seq<Byte>, c: nat)
    requires InStorage(storage, b, size) && InStorage(storage, c, size) && |data| == size
    ensures InStorage(PutBlock(storage, b, size, data), c, size)
    ensures BlockAt(PutBlock(storage, b, size, data), c, size) == if c == b then data else BlockAt(storage, c, size)
  {
    var lo, hi := b * size, (b + 1) * size;
    SliceBound(b, b + 1, size);
    SliceBound(c, c + 1, size);
    assert hi == lo + size;
    if c < b {
      MulMono(c + 1, b, size);
    } else if b < c {
      MulMono(b + 1, c, size);
    }
    var r := PutBlock(storage, b, size, data);
    assert forall k :: 0 <= k < |storage| ==> r[k] == if lo <= k < hi then data[k - lo] else storage[k];
  }

  // ----- the device -----

  function RamAlloc(size: nat, s: Ram): (Ram, DmaResult) {
    if s.refusals != [] && s.refusals[0].Some? then (s.(refusals := s.refusals[1..]), Failed(s.refusals[0].value))
    else
      (s.(refusals := if s.refusals == [] then [] else s.refusals[1..],
          memory := s.memory[s.nextBuffer := seq(size, _ => 0)],
          nextBuffer := s.nextBuffer + 1),
       Buffer(s.nextBuffer))
  }

  /** `RamQueue::submit_request`; a block below `num` always lies in the storage. */
  function RamSubmit(size: nat, num: nat, s: Ram, b: nat, kind: RequestKind): (Ram, Result<nat>) {
    if b >= num || !InStorage(s.storage, b, size) then (s, Err(InvalidBlockIndex(b)))
    else
      var id, s1 := s.nextId, s.(nextId := s.nextId + 1);
      match kind
      case Read(buffer) =>
        if buffer !in s.memory || |s.memory[buffer]| < size then (s1, Err(NotSupported))
        else
          var filled := BlockAt(s.storage, b, size) + s.memory[buffer][size..];
          (s1.(memory := s.memory[buffer := filled], completedReads := s.completedReads + [id]), Ok(id))
      case Write(data) =>
        if |data| != size then (s1, Err(NotSupported))
        else (s1.(storage := PutBlock(s.storage, b, size, data), completedWrites := s.completedWrites + [id]), Ok(id))
  }

  /** Removing the first occurrence. */
  function RemoveFirst(s: seq<nat>, id: nat): seq<nat> {
    if s == [] then [] else if s[0] == id then s[1..] else [s[0]] + RemoveFirst(s[1..], id)
  }

  /** `RamQueue::poll_request` */
  function RamPoll(s: Ram, id: nat): (Ram, Status) {
    if id in s.completedReads then (s.(completedReads := RemoveFirst(s.completedReads, id)), Done)
    else if id in s.completedWrites then (s.(completedWrites := RemoveFirst(s.completedWrites, id)), Done)
    else (s, Broken(Retry))
  }

  function RamDevice(size: nat, num: nat): Device<Ram> {
    Device(
      s => RamAlloc(size, s),
      (s, b, kind) => RamSubmit(size, num, s, b, kind),
      (s, id) => RamPoll(s, id))
  }

  /** What every reachable state of the disk satisfies. */
  ghost predicate RamInv(size: nat, num: nat, s: Ram) {
    && size > 0 && |s.storage| == num * size
    && (forall b :: b in s.memory ==> b < s.nextBuffer && |s.memory[b]| == size)
    && (forall id :: id in s.completedReads || id in s.completedWrites ==> id < s.nextId)
  }

  /** `RamDisk::new`: block `i` is filled with the low byte of `i`. */
  function NewRam(size: nat, num: nat, refusals: seq<Option<DmaError>>): (s: Ram)
    requires size > 0
    ensures RamInv(size, num, s)
  {
    Ram(seq(num * size, k => (k / size % 256) as Byte), [], [], 1, map[], 0, refusals)
  }

  lemma NewRamBlocks(size: nat, num: nat, refusals: seq<Option<DmaError>>, b: nat, k: nat)
    requires size > 0 && b < num && k < size
    ensures InStorage(NewRam(size, num, refusals).storage, b, size)
    ensures BlockAt(NewRam(size, num, refusals).storage, b, size)[k] == (b % 256) as Byte
  {
    var storage := NewRam(size, num, refusals).storage;
    BlocksFit(storage, b, size, num);
    DivModUnique(b * size + k, size, b, k);
    assert (b + 1) * size == b * size + size;
  }

  // ----- one call -----

  /** A call keeps the invariant, and ids and buffers are never handed out again. */
  lemma StepInv(size: nat, num: nat, s: Ram, e: Event)
    requires RamInv(size, num, s)
    ensures RamInv(size, num, After(RamDevice(size, num), s, e))
    ensures s.nextBuffer <= After(RamDevice(size, num), s, e).nextBuffer
    ensures s.nextId <= After(RamDevice(size, num), s, e).nextId
  {
    if e.Polled? {
      RemoveFirstIn(s.completedReads, e.id);
      RemoveFirstIn(s.completedWrites, e.id);
    } else if e.Submitted? && e.blk < num {
      BlocksFit(s.storage, e.blk, size, num);
      BlockLength(s.storage, e.blk, size);
    }
  }

  lemma BlockLength(storage: seq<Byte>, b: nat, size: nat)
    requires InStorage(storage, b, size)
    ensures |BlockAt(storage, b, size)| == size
  {
    assert (b + 1) * size == b * size + size;
  }

  lemma {:induction false} RemoveFirstIn(s: seq<nat>, id: nat)
    ensures forall x :: x in RemoveFirst(s, id) ==> x in s
    ensures forall x :: x in s && x != id ==> x in RemoveFirst(s, id)
  {
    if s != [] {
      RemoveFirstIn(s[1..], id);
    }
  }

  // ----- any sequence of calls -----

  lemma {:induction false} ReplayInv(size: nat, num: nat, s: Ram, log: seq<Event>)
    requires RamInv(size, num, s)
    ensures RamInv(size, num, Replay(RamDevice(size, num), s, log))
  {
    if log != [] {
      ReplayInv(size, num, s, log[..|log| - 1]);
      StepInv(size, num, Replay(RamDevice(size, num), s, log[..|log| - 1]), log[|log| - 1]);
    }
  }

  lemma {:induction false} TracedAt<S>(dev: Device<S>, s: S, log: seq<Event>, i: nat)
    requires Traced(dev, s, log) && i < |log|
    ensures Traced(dev, s, log[..i]) && Honest(dev, Replay(dev, s, log[..i]), log[i])
    ensures Replay(dev, s, log[..i + 1]) == After(dev, Replay(dev, s, log[..i]), log[i])
    decreases |log|
  {
    var front := log[..|log| - 1];
    if i < |front| {
      TracedAt(dev, s, front, i);
      assert front[..i] == log[..i] && front[..i + 1] == log[..i + 1];
    } else {
      assert log[..i] == front && log[..i + 1] == log && log[..i + 1][..i] == front;
    }
  }

  lemma {:induction false} Growing(size: nat, num: nat, s: Ram, log: seq<Event>, i: nat, j: nat)
    requires RamInv(size, num, s) && i <= j <= |log|
    ensures Replay(RamDevice(size, num), s, log[..i]).nextBuffer <= Replay(RamDevice(size, num), s, log[..j]).nextBuffer
    ensures Replay(RamDevice(size, num), s, log[..i]).nextId <= Replay(RamDevice(size, num), s, log[..j]).nextId
    decreases j - i
  {
    if i < j {
      Growing(size, num, s, log, i, j - 1);
      ReplayInv(size, num, s, log[..j - 1]);
      StepInv(size, num, Replay(RamDevice(size, num), s, log[..j - 1]), log[j - 1]);
      assert log[..j][..j - 1] == log[..j - 1] && log[..j][j - 1] == log[j - 1];
    }
  }

  // ----- what the blocks hold -----

  predicate WritesTo(e: Event, b: nat) {
    Accepts(e) && e.kind.Write? && e.blk == b
  }

  /** What was written to block `b` last. */
  function LastWrite(log: seq<Event>, b: nat, initial: seq<Byte>): seq<Byte> {
    if log == [] then initial
    else if WritesTo(log[|log| - 1], b) then log[|log| - 1].kind.data
    else LastWrite(log[..|log| - 1], b, initial)
  }

  /** After any calls every block holds what was written to it last. */
  lemma {:induction false} LatestWrite(size: nat, num: nat, s: Ram, log: seq<Event>, b: nat)
    requires RamInv(size, num, s) && Traced(RamDevice(size, num), s, log) && b < num
    ensures InStorage(s.storage, b, size) && InStorage(Replay(RamDevice(size, num), s, log).storage, b, size)
    ensures BlockAt(Replay(RamDevice(size, num), s, log).storage, b, size) ==
            LastWrite(log, b, BlockAt(s.storage, b, size))
  {
    BlocksFit(s.storage, b, size, num);
    if log != [] {
      var front, e := log[..|log| - 1], log[|log| - 1];
      LatestWrite(size, num, s, front, b);
      ReplayInv(size, num, s, front);
      StepBlock(size, num, Replay(RamDevice(size, num), s, front), e, b);
    }
  }

  lemma StepBlock(size: nat, num: nat, s: Ram, e: Event, b: nat)
    requires RamInv(size, num, s) && Honest(RamDevice(size, num), s, e) && b < num && InStorage(s.storage, b, size)
    ensures var s' := After(RamDevice(size, num), s, e);
            && InStorage(s'.storage, b, size)
            && BlockAt(s'.storage, b, size) == if WritesTo(e, b) then e.kind.data else BlockAt(s.storage, b, size)
  {
    if e.Submitted? && e.kind.Write? && Accepts(e) {
      PutBlockAt(s.storage, e.blk, size, e.kind.data, b);
    }
  }

  lemma {:induction false} LastWriteIs(log: seq<Event>, b: nat, initial: seq<Byte>, i: nat)
    requires OnceEach(log) && i < |log| && WritesTo(log[i], b)
    ensures LastWrite(log, b, initial) == log[i].kind.data
    decreases |log|
  {
    var n := |log| - 1;
    if i < n {
      assert !WritesTo(log[n], b);
      LastWriteIs(log[..n], b, initial, i);
    }
  }

  lemma {:induction false} LastWriteNone(log: seq<Event>, b: nat, initial: seq<Byte>)
    requires forall i :: 0 <= i < |log| ==> !WritesTo(log[i], b)
    ensures LastWrite(log, b, initial) == initial
  {
    if log != [] {
      LastWriteNone(log[..|log| - 1], b, initial);
    }
  }

  // ----- what the buffers hold -----

  /** A read uses the buffer that was allocated just before it. */
  lemma BufferOf(size: nat, num: nat, s: Ram, log: seq<Event>, i: nat)
    requires RamInv(size, num, s) && Traced(RamDevice(size, num), s, log) && Paired(log)
    requires i < |log| && log[i].Submitted?
    ensures i > 0 && log[i].kind.Read? && log[i].kind.buffer == Replay(RamDevice(size, num), s, log[..i - 1]).nextBuffer
    ensures Replay(RamDevice(size, num), s, log[..i]).nextBuffer == log[i].kind.buffer + 1
  {
    assert Pairs(log[..i], log[i]);
    assert log[..i][i - 1] == log[i - 1];
    TracedAt(RamDevice(size, num), s, log, i - 1);
    assert log[..i - 1 + 1] == log[..i];
    Allocates(size, num, Replay(RamDevice(size, num), s, log[..i - 1]), log[i - 1]);
  }

  lemma Allocates(size: nat, num: nat, s: Ram, e: Event)
    requires Honest(RamDevice(size, num), s, e) && e.Allocated? && e.buffer.Buffer?
    ensures e.buffer == Buffer(s.nextBuffer) && After(RamDevice(size, num), s, e).nextBuffer == s.nextBuffer + 1
  {
  }

  /** Two reads never share a buffer. */
  lemma BuffersDiffer(size: nat, num: nat, s: Ram, log: seq<Event>, i: nat, j: nat)
    requires RamInv(size, num, s) && Traced(RamDevice(size, num), s, log) && Paired(log)
    requires i < j < |log| && log[i].Submitted? && log[j].Submitted?
    ensures log[i].kind.Read? && log[j].kind.Read? && log[i].kind.buffer < log[j].kind.buffer
  {
    BufferOf(size, num, s, log, i);
    BufferOf(size, num, s, log, j);
    Growing(size, num, s, log, i, j - 1);
  }

  /** A buffer keeps what its read put there. */
  lemma {:induction false} ReadContents(size: nat, num: nat, s: Ram, log: seq<Event>, i: nat)
    requires RamInv(size, num, s) && Traced(RamDevice(size, num), s, log) && Paired(log)
    requires i < |log| && Accepts(log[i]) && log[i].kind.Read?
    ensures var now, then_ := Replay(RamDevice(size, num), s, log), Replay(RamDevice(size, num), s, log[..i]);
            && log[i].kind.buffer in now.memory
            && log[i].blk < num && InStorage(then_.storage, log[i].blk, size)
            && now.memory[log[i].kind.buffer] == BlockAt(then_.storage, log[i].blk, size)
    decreases |log|
  {
    var n := |log| - 1;
    var dev, front := RamDevice(size, num), log[..n];
    var mid := Replay(dev, s, front);
    ReplayInv(size, num, s, front);
    if i == n {
      FilledBuffer(size, num, mid, log[n]);
    } else {
      PairedPrefix(log, n);
      assert front[..i] == log[..i] && front[i] == log[i];
      ReadContents(size, num, s, front, i);
      LaterEvent(size, num, s, log, i, mid);
    }
  }

  // No later event touches the buffer of a read.
  lemma LaterEvent(size: nat, num: nat, s: Ram, log: seq<Event>, i: nat, mid: Ram)
    requires RamInv(size, num, s) && Traced(RamDevice(size, num), s, log) && Paired(log) && RamInv(size, num, mid)
    requires i < |log| - 1 && log[i].Submitted? && log[i].kind.Read? && log[i].kind.buffer in mid.memory
    ensures var s' := After(RamDevice(size, num), mid, log[|log| - 1]);
            log[i].kind.buffer in s'.memory && s'.memory[log[i].kind.buffer] == mid.memory[log[i].kind.buffer]
  {
    if log[|log| - 1].Submitted? {
      BuffersDiffer(size, num, s, log, i, |log| - 1);
    }
    OtherBuffer(size, num, mid, log[|log| - 1], log[i].kind.buffer);
  }

  lemma OtherBuffer(size: nat, num: nat, s: Ram, e: Event, buffer: nat)
    requires RamInv(size, num, s) && buffer in s.memory && (e.Submitted? ==> e.kind.Read? && buffer != e.kind.buffer)
    ensures var s' := After(RamDevice(size, num), s, e); buffer in s'.memory && s'.memory[buffer] == s.memory[buffer]
  {
  }

  lemma FilledBuffer(size: nat, num: nat, s: Ram, e: Event)
    requires RamInv(size, num, s) && Honest(RamDevice(size, num), s, e) && Accepts(e) && e.kind.Read?
    ensures e.blk < num && InStorage(s.storage, e.blk, size) && e.kind.buffer in s.memory
    ensures After(RamDevice(size, num), s, e).memory == s.memory[e.kind.buffer := BlockAt(s.storage, e.blk, size)]
  {
    BlockLength(s.storage, e.blk, size);
    assert s.memory[e.kind.buffer][size..] == [];
    assert BlockAt(s.storage, e.blk, size) + [] == BlockAt(s.storage, e.blk, size);
  }

  lemma PairedPrefix(log: seq<Event>, n: nat)
    requires Paired(log) && n <= |log|
    ensures Paired(log[..n])
  {
    forall i | 0 <= i < n && log[..n][i].Submitted? ensures Pairs(log[..n][..i], log[..n][i]) {
      assert log[..n][..i] == log[..i] && Pairs(log[..i], log[i]);
    }
  }

  // ----- no request is left waiting -----

  /** `id` was handed out in the log and no poll has consumed its completion. */
  predicate Open(log: seq<Event>, id: nat) {
    && (exists i :: 0 <= i < |log| && Accepts(log[i]) && log[i].request == Ok(id))
    && (forall i :: 0 <= i < |log| && log[i].Polled? && log[i].id == id ==> log[i].status != Done)
  }

  lemma {:induction false} OpenIsCompleted(size: nat, num: nat, s: Ram, log: seq<Event>, id: nat)
    requires RamInv(size, num, s) && Traced(RamDevice(size, num), s, log) && Open(log, id)
    ensures var now := Replay(RamDevice(size, num), s, log); id in now.completedReads || id in now.completedWrites
  {
    var n := |log| - 1;
    var front, e := log[..n], log[n];
    var mid := Replay(RamDevice(size, num), s, front);
    var i :| 0 <= i < |log| && Accepts(log[i]) && log[i].request == Ok(id);
    if i < n {
      assert front[i] == log[i];
      OpenIsCompleted(size, num, s, front, id);
      if e.Polled? {
        RemoveFirstIn(mid.completedReads, e.id);
        RemoveFirstIn(mid.completedWrites, e.id);
      }
    }
  }

  /** Request ids are never handed out twice. */
  lemma IdsDiffer(size: nat, num: nat, s: Ram, log: seq<Event>, i: nat, j: nat)
    requires RamInv(size, num, s) && Traced(RamDevice(size, num), s, log)
    requires i < j < |log| && Accepts(log[i]) && Accepts(log[j])
    ensures log[i].request != log[j].request
  {
    TracedAt(RamDevice(size, num), s, log, i);
    TracedAt(RamDevice(size, num), s, log, j);
    Growing(size, num, s, log, i + 1, j);
  }

  /** The disk never makes a future wait. */
  lemma NeverStalled(size: nat, num: nat, s: Ram, log: seq<Event>)
    requires RamInv(size, num, s) && Traced(RamDevice(size, num), s, log)
    ensures !Stalled(log)
  {
    if Stalled(log) {
      var n := |log| - 1;
      var before, e := log[..n], log[n];
      if e.Polled? {
        forall i | 0 <= i < n && before[i].Polled? && before[i].id == e.id ensures before[i].status != Done {
          if before[i].status == Done {
            SameRequest(size, num, s, before, before[i].blk, e.blk, e.id);
          }
        }
        assert Open(before, e.id);
        OpenIsCompleted(size, num, s, before, e.id);
      }
    }
  }

  lemma SameRequest(size: nat, num: nat, s: Ram, log: seq<Event>, b: nat, c: nat, id: nat)
    requires RamInv(size, num, s) && Traced(RamDevice(size, num), s, log) && AcceptedAs(log, b, id)
    requires AcceptedAs(log, c, id)
    ensures b == c
  {
    var i :| 0 <= i < |log| && Accepts(log[i]) && log[i].blk == b && log[i].request == Ok(id);
    var j :| 0 <= j < |log| && Accepts(log[j]) && log[j].blk == c && log[j].request == Ok(id);
    if i < j {
      IdsDiffer(size, num, s, log, i, j);
    } else if j < i {
      IdsDiffer(size, num, s, log, j, i);
    }
  }

  // ----- write_blocks and read_blocks -----

  /** What one chunk of a write reports. */
  lemma WriteReport(size: nat, num: nat, s: Ram, chunks: seq<Chunk>, out: seq<Status>, log: seq<Event>, k: nat)
    requires RamInv(size, num, s) && Traced(RamDevice(size, num), s, log) && Whole(WriteOutcome(chunks, out, log))
    requires k < |chunks|
    requires forall i :: 0 <= i < |chunks| ==> |chunks[i].data| == size
    ensures out[k] == if chunks[k].blk < num then Done else Broken(InvalidBlockIndex(chunks[k].blk))
    ensures chunks[k].blk < num ==>
              exists i :: 0 <= i < |log| && WritesTo(log[i], chunks[k].blk) && log[i].kind.data == chunks[k].data
  {
    var c := chunks[k];
    assert WriteResult(log, c, out[k]);
    match out[k]
    case Done =>
      var id :| Submitted(c.blk, Write(c.data), Ok(id)) in log && Polled(c.blk, id, Done) in log;
      var i :| 0 <= i < |log| && log[i] == Submitted(c.blk, Write(c.data), Ok(id));
      TracedAt(RamDevice(size, num), s, log, i);
      assert WritesTo(log[i], c.blk);
    case Broken(e) =>
      var i :| 0 <= i < |log| && log[i].blk == c.blk && Fails(log[i], e);
      TracedAt(RamDevice(size, num), s, log, i);
      ReplayInv(size, num, s, log[..i]);
      assert Carried(log[i], chunks);
      if c.blk < num {
        BlocksFit(Replay(RamDevice(size, num), s, log[..i]).storage, c.blk, size, num);
      }
  }

  /** `write_blocks`: block by block the array is updated, a block past the end is refused
      without touching the others, and the first poll is ready. */
  method WriteBlocks(queue: CmdQueue<Ram>, size: nat, num: nat, first: nat, data: seq<Byte>) returns (out: seq<Status>)
    requires queue.dev == RamDevice(size, num) && RamInv(size, num, queue.state) && |data| % size == 0
    modifies queue
    ensures RamInv(size, num, queue.state) && |out| == |data| / size
    ensures forall i :: 0 <= i < |out| ==>
              out[i] == if first + i < num then Done else Broken(InvalidBlockIndex(first + i))
    ensures forall b :: 0 <= b < num ==> Whole(Updated(old(queue.state), queue.state, b, size, first, data))
    ensures queue.state.refusals == old(queue.state.refusals)
  {
    ghost var s := queue.state;
    var chunks := SplitBlocks(first, data, size);
    var future := new WriteFuture(queue, chunks);
    var r := future.Poll();
    ghost var log := future.log;
    if r.Pending? {
      NeverStalled(size, num, s, log);
      assert false;
    }
    out := r.value;
    ReplayInv(size, num, s, log);
    forall i | 0 <= i < |out|
      ensures out[i] == if first + i < num then Done else Broken(InvalidBlockIndex(first + i))
    {
      WriteReport(size, num, s, chunks, out, log, i);
    }
    forall b | 0 <= b < num ensures Updated(s, queue.state, b, size, first, data) {
      WriteUpdates(size, num, s, chunks, out, log, first, data, b);
    }
    NoAllocations(size, num, s, log);
  }

  /** Block `b` before and after `data` was written from block `first` on. */
  ghost predicate Updated(before: Ram, after: Ram, b: nat, size: nat, first: nat, data: seq<Byte>) {
    && InStorage(before.storage, b, size) && InStorage(after.storage, b, size)
    && BlockAt(after.storage, b, size) == Content(BlockAt(before.storage, b, size), b, size, first, data)
  }

  /** Block `b` of a device on which `data` was written from block `first` on, over `was`. */
  function Content(was: seq<Byte>, b: nat, size: nat, first: nat, data: seq<Byte>): seq<Byte> {
    if first <= b && (b - first + 1) * size <= |data| then
      SliceBound(b - first, b - first + 1, size);
      data[(b - first) * size..(b - first + 1) * size]
    else was
  }

  lemma WriteUpdates(size: nat, num: nat, s: Ram, chunks: seq<Chunk>, out: seq<Status>, log: seq<Event>, first: nat,
                     data: seq<Byte>, b: nat)
    requires RamInv(size, num, s) && Traced(RamDevice(size, num), s, log) && Whole(WriteOutcome(chunks, out, log))
    requires b < num
    requires |data| % size == 0 && |chunks| == |data| / size && Sliced(chunks, first, data, size)
    ensures Updated(s, Replay(RamDevice(size, num), s, log), b, size, first, data)
  {
    LatestWrite(size, num, s, log, b);
    if first <= b && b - first < |chunks| {
      SliceWritten(size, num, s, chunks, out, log, first, data, b, BlockAt(s.storage, b, size));
    } else {
      BlockKept(chunks, log, size, first, data, b, BlockAt(s.storage, b, size));
    }
  }

  lemma SliceWritten(size: nat, num: nat, s: Ram, chunks: seq<Chunk>, out: seq<Status>, log: seq<Event>, first: nat,
                     data: seq<Byte>, b: nat, was: seq<Byte>)
    requires RamInv(size, num, s) && Traced(RamDevice(size, num), s, log) && Whole(WriteOutcome(chunks, out, log))
    requires first <= b < num && b - first < |chunks| && Sliced(chunks, first, data, size)
    ensures LastWrite(log, b, was) == Content(was, b, size, first, data)
  {
    SlicesSized(chunks, first, data, size);
    SliceContent(chunks, was, b, size, first, data);
    WrittenLast(size, num, s, chunks, out, log, b - first, was);
  }

  lemma SlicesSized(chunks: seq<Chunk>, first: nat, data: seq<Byte>, size: nat)
    requires Sliced(chunks, first, data, size)
    ensures forall i :: 0 <= i < |chunks| ==> |chunks[i].data| == size
  {
  }

  lemma SliceContent(chunks: seq<Chunk>, was: seq<Byte>, b: nat, size: nat, first: nat, data: seq<Byte>)
    requires first <= b && b - first < |chunks| && Sliced(chunks, first, data, size)
    ensures chunks[b - first].blk == b && Content(was, b, size, first, data) == chunks[b - first].data
  {
    assert IsSlice(chunks[b - first], first, data, size, b - first);
  }

  lemma BlockKept(chunks: seq<Chunk>, log: seq<Event>, size: nat, first: nat, data: seq<Byte>, b: nat, was: seq<Byte>)
    requires size > 0 && |data| % size == 0 && |chunks| == |data| / size
    requires Carries(log, chunks) && Sliced(chunks, first, data, size) && !(first <= b && b - first < |chunks|)
    ensures LastWrite(log, b, was) == Content(was, b, size, first, data)
  {
    NotWritten(chunks, first, data, size, log, b);
    LastWriteNone(log, b, was);
    if first <= b {
      ChunkHere(size, first, data, b);
    }
  }

  lemma WrittenLast(size: nat, num: nat, s: Ram, chunks: seq<Chunk>, out: seq<Status>, log: seq<Event>, k: nat,
                    initial: seq<Byte>)
    requires RamInv(size, num, s) && Traced(RamDevice(size, num), s, log) && Whole(WriteOutcome(chunks, out, log))
    requires k < |chunks| && chunks[k].blk < num && forall i :: 0 <= i < |chunks| ==> |chunks[i].data| == size
    ensures LastWrite(log, chunks[k].blk, initial) == chunks[k].data
  {
    WriteReport(size, num, s, chunks, out, log, k);
    var i :| 0 <= i < |log| && WritesTo(log[i], chunks[k].blk) && log[i].kind.data == chunks[k].data;
    LastWriteIs(log, chunks[k].blk, initial, i);
  }

  lemma NotWritten(chunks: seq<Chunk>, first: nat, data: seq<Byte>, size: nat, log: seq<Event>, b: nat)
    requires Carries(log, chunks) && Sliced(chunks, first, data, size) && !(first <= b && b - first < |chunks|)
    ensures forall i :: 0 <= i < |log| ==> !WritesTo(log[i], b)
  {
    forall i | 0 <= i < |log| ensures !WritesTo(log[i], b) {
      assert Carried(log[i], chunks);
      if log[i].Submitted? {
        var k :| 0 <= k < |chunks| && chunks[k] == Chunk(log[i].blk, log[i].kind.data);
        assert IsSlice(chunks[k], first, data, size, k);
      }
    }
  }

  lemma ChunkHere(size: nat, first: nat, data: seq<Byte>, b: nat)
    requires size > 0 && |data| % size == 0 && first <= b
    ensures (b - first + 1) * size <= |data| <==> b - first < |data| / size
  {
    var k, n := b - first, |data| / size;
    DivModDef(|data|, size);
    if k < n {
      MulMono(k + 1, n, size);
    } else {
      MulMono(n + 1, k + 1, size);
      assert (n + 1) * size == n * size + size;
    }
  }

  lemma {:induction false} NoAllocations(size: nat, num: nat, s: Ram, log: seq<Event>)
    requires forall i :: 0 <= i < |log| ==> !log[i].Allocated?
    ensures Replay(RamDevice(size, num), s, log).refusals == s.refusals
  {
    if log != [] {
      NoAllocations(size, num, s, log[..|log| - 1]);
    }
  }

  /** What one block of a read reports. */
  lemma ReadReport(size: nat, num: nat, s: Ram, blks: seq<nat>, out: seq<Result<BlockData>>, log: seq<Event>, k: nat)
    requires RamInv(size, num, s) && Traced(RamDevice(size, num), s, log) && Whole(ReadOutcome(blks, out, log))
    requires k < |blks|
    ensures out[k].Ok? ==> Delivered(size, num, s, Replay(RamDevice(size, num), s, log), blks[k], out[k].value)
    ensures out[k].Err? ==>
              || out[k].error == NoMemory || out[k].error == Other
              || (blks[k] >= num && out[k].error == InvalidBlockIndex(blks[k]))
    ensures out[k].Err? && s.refusals == [] ==> blks[k] >= num
  {
    var b := blks[k];
    assert ReadResult(log, b, out[k]);
    match out[k]
    case Ok(d) =>
      var id :| Submitted(b, Read(d.buffer), Ok(id)) in log && Polled(b, id, Done) in log;
      var i :| 0 <= i < |log| && log[i] == Submitted(b, Read(d.buffer), Ok(id));
      ReadDelivers(size, num, s, log, i);
    case Err(e) =>
      var i :| 0 <= i < |log| && log[i].blk == b && Fails(log[i], e);
      ReadFailure(size, num, s, log, i, e);
  }

  /** The buffer holds what the block held when the read began. */
  ghost predicate Delivered(size: nat, num: nat, before: Ram, after: Ram, b: nat, d: BlockData) {
    && d.blk == b < num && InStorage(before.storage, b, size)
    && d.buffer in after.memory && after.memory[d.buffer] == BlockAt(before.storage, b, size)
  }

  lemma ReadsOnly(log: seq<Event>, n: nat, b: nat, initial: seq<Byte>)
    requires Paired(log) && n <= |log|
    ensures LastWrite(log[..n], b, initial) == initial
  {
    forall i | 0 <= i < n ensures !WritesTo(log[..n][i], b) {
      assert log[i].Submitted? ==> Pairs(log[..i], log[i]);
    }
    LastWriteNone(log[..n], b, initial);
  }

  lemma {:induction false} TracedPrefix<S>(dev: Device<S>, s: S, log: seq<Event>, n: nat)
    requires Traced(dev, s, log) && n <= |log|
    ensures Traced(dev, s, log[..n])
  {
    if n < |log| {
      TracedAt(dev, s, log, n);
    } else {
      assert log[..n] == log;
    }
  }

  lemma ReadDelivers(size: nat, num: nat, s: Ram, log: seq<Event>, i: nat)
    requires RamInv(size, num, s) && Traced(RamDevice(size, num), s, log) && Paired(log)
    requires i < |log| && Accepts(log[i]) && log[i].kind.Read?
    ensures Delivered(size, num, s, Replay(RamDevice(size, num), s, log), log[i].blk,
                      BlockData(log[i].blk, log[i].kind.buffer))
  {
    var b := log[i].blk;
    ReadContents(size, num, s, log, i);
    TracedPrefix(RamDevice(size, num), s, log, i);
    LatestWrite(size, num, s, log[..i], b);
    ReadsOnly(log, i, b, BlockAt(s.storage, b, size));
  }

  lemma ReadFailure(size: nat, num: nat, s: Ram, log: seq<Event>, i: nat, e: BlkError)
    requires RamInv(size, num, s) && Traced(RamDevice(size, num), s, log) && Paired(log)
    requires i < |log| && Fails(log[i], e) && e != Retry
    ensures e == NoMemory || e == Other || (log[i].blk >= num && e == InvalidBlockIndex(log[i].blk))
    ensures s.refusals == [] ==> log[i].blk >= num
  {
    var dev := RamDevice(size, num);
    TracedAt(dev, s, log, i);
    if log[i].Submitted? {
      assert Pairs(log[..i], log[i]) && log[..i][i - 1] == log[i - 1];
      TracedAt(dev, s, log, i - 1);
      ReplayInv(size, num, s, log[..i - 1]);
      ReplayInv(size, num, s, log[..i]);
      assert log[..i - 1 + 1] == log[..i];
      if log[i].blk < num {
        BlocksFit(Replay(dev, s, log[..i]).storage, log[i].blk, size, num);
      }
    }
    if s.refusals == [] {
      NoRefusals(size, num, s, log[..i]);
    }
  }

  lemma {:induction false} NoRefusals(size: nat, num: nat, s: Ram, log: seq<Event>)
    requires s.refusals == []
    ensures Replay(RamDevice(size, num), s, log).refusals == []
  {
    if log != [] {
      NoRefusals(size, num, s, log[..|log| - 1]);
    }
  }

  /** `read_blocks`: the disk stays as it is, every delivered buffer holds its block, and as long
      as the pool grants buffers exactly the blocks past the end are refused. */
  method ReadBlocks(queue: CmdQueue<Ram>, size: nat, num: nat, first: nat,
                    count: nat) returns (out: seq<Result<BlockData>>)
    requires queue.dev == RamDevice(size, num) && RamInv(size, num, queue.state)
    modifies queue
    ensures RamInv(size, num, queue.state) && |out| == count
    ensures forall i :: 0 <= i < count && out[i].Ok? ==>
              Whole(Delivered(size, num, old(queue.state), queue.state, first + i, out[i].value))
    ensures forall i :: 0 <= i < count && out[i].Err? ==>
              || out[i].error == NoMemory || out[i].error == Other
              || (first + i >= num && out[i].error == InvalidBlockIndex(first + i))
    ensures old(queue.state.refusals) == [] ==> forall i :: 0 <= i < count ==> (out[i].Ok? <==> first + i < num)
    ensures forall b :: 0 <= b < num ==> Whole(Updated(old(queue.state), queue.state, b, size, first, []))
  {
    ghost var s := queue.state;
    var future := new ReadFuture(queue, first, count);
    var r := future.Poll();
    ghost var log := future.log;
    if r.Pending? {
      NeverStalled(size, num, s, log);
      assert false;
    }
    out := r.value;
    ReplayInv(size, num, s, log);
    forall i | 0 <= i < count
      ensures out[i].Ok? ==> Delivered(size, num, s, queue.state, first + i, out[i].value)
      ensures out[i].Err? ==>
                || out[i].error == NoMemory || out[i].error == Other
                || (first + i >= num && out[i].error == InvalidBlockIndex(first + i))
      ensures out[i].Err? && s.refusals == [] ==> first + i >= num
    {
      ReadReport(size, num, s, BlockRange(first, count), out, log, i);
    }
    forall b | 0 <= b < num ensures Updated(s, queue.state, b, size, first, []) {
      LatestWrite(size, num, s, log, b);
      ReadsOnly(log, |log|, b, BlockAt(s.storage, b, size));
      assert log[..|log|] == log;
      NothingWritten(b - first + 1, size);
    }
  }

  lemma NothingWritten(k: int, size: nat)
    requires size > 0
    ensures k >= 1 ==> k * size > 0
  {
    if k >= 1 {
      MulMono(1, k, size);
    }
  }

  /** The i-th result of a read is a buffer with the i-th piece of `data`. */
  predicate HoldsPiece(r: Result<BlockData>, memory: map<nat, seq<Byte>>, data: seq<Byte>, i: nat, size: nat) {
    && r.Ok? && r.value.buffer in memory
    && i * size <= (i + 1) * size <= |data|
    && memory[r.value.buffer] == data[i * size..(i + 1) * size]
  }

  /** A read returns the latest write. */
  method WriteThenRead(queue: CmdQueue<Ram>, size: nat, num: nat, first: nat,
                       data: seq<Byte>) returns (out: seq<Result<BlockData>>)
    requires queue.dev == RamDevice(size, num) && RamInv(size, num, queue.state) && |data| % size == 0
    requires queue.state.refusals == []
    modifies queue
    ensures |out| == |data| / size
    ensures forall i :: 0 <= i < |out| && first + i < num ==> HoldsPiece(out[i], queue.state.memory, data, i, size)
  {
    ghost var s0 := queue.state;
    var written := WriteBlocks(queue, size, num, first, data);
    ghost var s1 := queue.state;
    out := ReadBlocks(queue, size, num, first, |data| / size);
    forall i | 0 <= i < |out| && first + i < num ensures HoldsPiece(out[i], queue.state.memory, data, i, size) {
      assert Whole(Updated(s0, s1, first + i, size, first, data));
      assert Whole(Delivered(size, num, s1, queue.state, first + i, out[i].value));
      ChunkHere(size, first, data, first + i);
      SliceBound(i, |data| / size, size);
    }
  }

  // ----- the queue that changes the disk in place -----

  /** `RamQueue` over `RamInner`; every method is one critical section. */
  class RamQueue {
    const size: nat
    const num: nat
    const storage: array<Byte>
    var completedReads: seq<nat>
    var completedWrites: seq<nat>
    var nextId: nat

    // The pool the requests' buffers come from.
    var memory: map<nat, seq<Byte>>
    var nextBuffer: nat
    var refusals: seq<Option<DmaError>>

    ghost function View(): Ram
      reads this, storage
    {
      Ram(storage[..], completedReads, completedWrites, nextId, memory, nextBuffer, refusals)
    }

    ghost predicate Valid()
      reads this, storage
    {
      RamInv(size, num, View())
    }

    constructor (size: nat, num: nat)
      requires size > 0
      ensures Valid() && View() == NewRam(size, num, []) && this.size == size && this.num == num && fresh(storage)
    {
      this.size, this.num := size, num;
      storage := new Byte[num * size](k => (k / size % 256) as Byte);
      completedReads, completedWrites, nextId := [], [], 1;
      memory, nextBuffer, refusals := map[], 0, [];
      new;
      assert storage[..] == NewRam(size, num, []).storage;
    }

    /** The copy of a block into the storage. */
    method CopyIn(b: nat, data: seq<Byte>)
      requires InStorage(storage[..], b, size) && |data| == size
      modifies storage
      ensures storage[..] == PutBlock(old(storage[..]), b, size, data)
    {
      var offset := b * size;
      SliceBound(b, b + 1, size);
      assert (b + 1) * size == offset + size;
      forall i | 0 <= i < size {
        storage[offset + i] := data[i];
      }
      Copied(old(storage[..]), storage[..], b, size, data);
    }

    method SubmitRequest(b: nat, kind: RequestKind) returns (r: Result<nat>)
      requires Valid()
      modifies this, storage
      ensures (View(), r) == RamSubmit(size, num, old(View()), b, kind)
      ensures Valid()
    {
      StepInv(size, num, View(), Submitted(b, kind, Err(Other)));
      if b >= num {
        return Err(InvalidBlockIndex(b));
      }
      BlocksFit(storage[..], b, size, num);
      var id := nextId;
      nextId := nextId + 1;
      match kind {
        case Read(buffer) =>
          if buffer !in memory || |memory[buffer]| < size {
            return Err(NotSupported);
          }
          SliceBound(b, b + 1, size);
          memory := memory[buffer := storage[b * size..(b + 1) * size] + memory[buffer][size..]];
          completedReads := completedReads + [id];
        case Write(data) =>
          if |data| != size {
            return Err(NotSupported);
          }
          CopyIn(b, data);
          completedWrites := completedWrites + [id];
      }
      return Ok(id);
    }

    method PollRequest(id: nat) returns (r: Status)
      requires Valid()
      modifies this`completedReads, this`completedWrites
      ensures (View(), r) == RamPoll(old(View()), id)
      ensures Valid()
    {
      StepInv(size, num, View(), Polled(0, id, Done));
      if id in completedReads {
        completedReads := RemoveFirst(completedReads, id);
        return Done;
      } else if id in completedWrites {
        completedWrites := RemoveFirst(completedWrites, id);
        return Done;
      }
      return Broken(Retry);
    }
  }

  lemma Copied(before: seq<Byte>, after: seq<Byte>, b: nat, size: nat, data: seq<Byte>)
    requires InStorage(before, b, size) && |data| == size && |after| == |before| && (b + 1) * size == b * size + size
    requires forall k :: 0 <= k < |after| ==>
               after[k] == if b * size <= k < b * size + size then data[k - b * size] else before[k]
    ensures after == PutBlock(before, b, size, data)
  {
  }
}
