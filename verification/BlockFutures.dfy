/**
 `ReadFuture` and `WriteFuture`: resumable requests for several blocks over any device.
 */
module BlockFutures {
  import opened Arith
  import opened Options
  import opened BlockLog

  class CmdQueue<!S> {
    const dev: Device<S>
    var state: S

    constructor (dev: Device<S>, state: S)
      ensures this.dev == dev && this.state == state
    {
      this.dev, this.state := dev, state;
    }
  }

  datatype Poll<+T> = Pending | Ready(value: T)

  datatype BlockData = BlockData(blk: nat, buffer: nat)

  /** `blk_id..blk_id + blk_count` */
  function BlockRange(start: nat, count: nat): (r: seq<nat>)
    ensures |r| == count && forall i :: 0 <= i < count ==> r[i] == start + i
  {
    seq(count, i requires 0 <= i => start + i)
  }

  predicate Ascending(s: seq<nat>) {
    forall i, j :: 0 <= i < j < |s| ==> s[i] < s[j]
  }

  /** The call that made block `b` fail with `e`. */
  predicate Fails(ev: Event, e: BlkError) {
    match ev
    case Allocated(_, r) => (r == Failed(DmaNoMemory) && e == NoMemory) || (r == Failed(DmaOther) && e == Other)
    case Submitted(_, _, r) => r == Err(e)
    case Polled(_, _, r) => r == Broken(e)
  }

  predicate FailedWith(log: seq<Event>, b: nat, e: BlkError) {
    e != Retry && exists i :: 0 <= i < |log| && log[i].blk == b && Fails(log[i], e)
  }

  predicate OpenReads(t: int) {
    true
  }

  predicate OpenWrites(t: int) {
    true
  }

  // ----- reading -----

  /** What the result for block `b` rests on: a buffer submitted for that block whose completion
      was consumed, or an error of a call for that block. */
  ghost predicate ReadResult(log: seq<Event>, b: nat, r: Result<BlockData>) {
    match r
    case Ok(d) => d.blk == b && exists id ::
      Submitted(b, Read(d.buffer), Ok(id)) in log && Polled(b, id, Done) in log
    case Err(e) => FailedWith(log, b, e)
  }

  /** Every buffer that is submitted was allocated just before, for the same block. */
  predicate Paired(log: seq<Event>) {
    forall i :: 0 <= i < |log| && log[i].Submitted? ==> Pairs(log[..i], log[i])
  }

  predicate Pairs(log: seq<Event>, ev: Event) {
    ev.Submitted? ==> ev.kind.Read? && log != [] && log[|log| - 1] == Allocated(ev.blk, Buffer(ev.kind.buffer))
  }

  lemma PairedMore(log: seq<Event>, ev: Event)
    requires Paired(log) && Pairs(log, ev)
    ensures Paired(log + [ev])
  {
    var more := log + [ev];
    forall i | 0 <= i < |more| && more[i].Submitted? ensures Pairs(more[..i], more[i]) {
      if i < |log| {
        assert more[..i] == log[..i] && more[i] == log[i];
      } else {
        assert more[..i] == log;
      }
    }
  }

  ghost predicate ReadsOk(requested: map<nat, Option<nat>>, ids: map<nat, nat>, results: map<nat, Result<BlockData>>,
                          log: seq<Event>) {
    forall t {:trigger OpenReads(t)} :: OpenReads(t) ==>
      && (forall b :: b in requested && requested[b].Some? ==>
            b in ids && Submitted(b, Read(requested[b].value), Ok(ids[b])) in log)
      && (forall b :: b in requested && requested[b].None? ==> b in results)
      && (forall b :: b in results ==> ReadResult(log, b, results[b]))
      && Paired(log)
  }

  lemma FailedMore(log: seq<Event>, ev: Event, b: nat, e: BlkError)
    requires FailedWith(log, b, e) || (ev.blk == b && Fails(ev, e) && e != Retry)
    ensures FailedWith(log + [ev], b, e)
  {
    if FailedWith(log, b, e) {
      var i :| 0 <= i < |log| && log[i].blk == b && Fails(log[i], e);
      assert (log + [ev])[i] == log[i];
    } else {
      assert (log + [ev])[|log|] == ev;
    }
  }

  lemma ReadResultMore(log: seq<Event>, ev: Event, b: nat, r: Result<BlockData>)
    requires ReadResult(log, b, r)
    ensures ReadResult(log + [ev], b, r)
  {
    if r.Err? {
      FailedMore(log, ev, b, r.error);
    } else {
      var id :| Submitted(b, Read(r.value.buffer), Ok(id)) in log && Polled(b, id, Done) in log;
      assert Submitted(b, Read(r.value.buffer), Ok(id)) in log + [ev];
    }
  }

  lemma ReadsMore(requested: map<nat, Option<nat>>, ids: map<nat, nat>, results: map<nat, Result<BlockData>>,
                  log: seq<Event>, ev: Event)
    requires Whole(ReadsOk(requested, ids, results, log)) && Pairs(log, ev)
    ensures ReadsOk(requested, ids, results, log + [ev])
  {
    assert OpenReads(0);
    PairedMore(log, ev);
    forall b | b in results ensures ReadResult(log + [ev], b, results[b]) {
      ReadResultMore(log, ev, b, results[b]);
    }
  }

  lemma ReadsFail(requested: map<nat, Option<nat>>, ids: map<nat, nat>, results: map<nat, Result<BlockData>>,
                  log: seq<Event>, ev: Event, e: BlkError)
    requires Whole(ReadsOk(requested, ids, results, log)) && Fails(ev, e) && e != Retry && Pairs(log, ev)
    ensures ReadsOk(requested, ids, results[ev.blk := Err(e)], log + [ev])
  {
    assert OpenReads(0);
    PairedMore(log, ev);
    FailedMore(log, ev, ev.blk, e);
    forall b | b in results ensures ReadResult(log + [ev], b, results[b]) {
      ReadResultMore(log, ev, b, results[b]);
    }
  }

  lemma ReadsAccept(requested: map<nat, Option<nat>>, ids: map<nat, nat>, results: map<nat, Result<BlockData>>,
                    log: seq<Event>,
                    b: nat, buffer: nat, id: nat)
    requires Whole(ReadsOk(requested, ids, results, log)) && Pairs(log, Submitted(b, Read(buffer), Ok(id)))
    ensures ReadsOk(requested[b := Some(buffer)], ids[b := id], results, log + [Submitted(b, Read(buffer), Ok(id))])
  {
    var ev := Submitted(b, Read(buffer), Ok(id));
    assert OpenReads(0);
    PairedMore(log, ev);
    forall k | k in results ensures ReadResult(log + [ev], k, results[k]) {
      ReadResultMore(log, ev, k, results[k]);
    }
    assert ev in log + [ev];
  }

  lemma ReadsComplete(requested: map<nat, Option<nat>>, ids: map<nat, nat>, results: map<nat, Result<BlockData>>,
                      log: seq<Event>, b: nat)
    requires Whole(ReadsOk(requested, ids, results, log)) && b in requested && requested[b].Some? && b in ids
    ensures ReadsOk(requested[b := None], ids, results[b := Ok(BlockData(b, requested[b].value))],
                    log + [Polled(b, ids[b], Done)])
  {
    var ev := Polled(b, ids[b], Done);
    assert OpenReads(0);
    PairedMore(log, ev);
    forall k | k in results ensures ReadResult(log + [ev], k, results[k]) {
      ReadResultMore(log, ev, k, results[k]);
    }
    assert ev in log + [ev];
    assert Submitted(b, Read(requested[b].value), Ok(ids[b])) in log + [ev];
  }

  lemma ReadsBuffer(requested: map<nat, Option<nat>>, ids: map<nat, nat>, results: map<nat, Result<BlockData>>,
                    log: seq<Event>, b: nat)
    requires Whole(ReadsOk(requested, ids, results, log)) && b in requested && b !in results
    ensures requested[b].Some?
  {
    assert OpenReads(0);
  }

  /** The maps of a read future and the calls it has made fit together. */
  ghost predicate ReadInv(blks: seq<nat>, requested: map<nat, Option<nat>>, ids: map<nat, nat>,
                          results: map<nat, Result<BlockData>>, log: seq<Event>) {
    && Whole(Core(blks, requested.Keys, ids, results.Keys, log))
    && Whole(ReadsOk(requested, ids, results, log))
  }

  lemma ReadIdle(blks: seq<nat>, requested: map<nat, Option<nat>>, ids: map<nat, nat>,
                 results: map<nat, Result<BlockData>>, log: seq<Event>, ev: Event)
    requires Whole(ReadInv(blks, requested, ids, results, log)) && !Accepts(ev) && !Completes(ev) && ev.blk in blks
    requires Pairs(log, ev)
    ensures ReadInv(blks, requested, ids, results, log + [ev])
  {
    CoreSettle(blks, requested.Keys, ids, results.Keys, log, ev);
    ReadsMore(requested, ids, results, log, ev);
  }

  lemma ReadReject(blks: seq<nat>, requested: map<nat, Option<nat>>, ids: map<nat, nat>,
                   results: map<nat, Result<BlockData>>, log: seq<Event>, ev: Event, e: BlkError)
    requires Whole(ReadInv(blks, requested, ids, results, log)) && !Accepts(ev) && !Completes(ev) && ev.blk in blks
    requires Fails(ev, e) && e != Retry && ev.blk !in requested && Pairs(log, ev)
    ensures ReadInv(blks, requested, ids, results[ev.blk := Err(e)], log + [ev])
  {
    CoreSettle(blks, requested.Keys, ids, results.Keys, log, ev);
    ReadsFail(requested, ids, results, log, ev, e);
    assert results[ev.blk := Err(e)].Keys == results.Keys + {ev.blk};
  }

  lemma ReadAccept(blks: seq<nat>, requested: map<nat, Option<nat>>, ids: map<nat, nat>,
                   results: map<nat, Result<BlockData>>, log: seq<Event>,
                   b: nat, buffer: nat, id: nat)
    requires Whole(ReadInv(blks, requested, ids, results, log)) && b in blks && b !in requested && b !in results
    requires Pairs(log, Submitted(b, Read(buffer), Ok(id)))
    ensures ReadInv(blks, requested[b := Some(buffer)], ids[b := id], results,
                    log + [Submitted(b, Read(buffer), Ok(id))])
  {
    CoreAccept(blks, requested.Keys, ids, results.Keys, log, Submitted(b, Read(buffer), Ok(id)));
    ReadsAccept(requested, ids, results, log, b, buffer, id);
    assert requested[b := Some(buffer)].Keys == requested.Keys + {b};
  }

  lemma ReadFacts(blks: seq<nat>, requested: map<nat, Option<nat>>, ids: map<nat, nat>,
                  results: map<nat, Result<BlockData>>, log: seq<Event>, b: nat)
    requires Whole(ReadInv(blks, requested, ids, results, log)) && b in requested && b !in results
    ensures b in ids && b in blks && requested[b].Some?
  {
    CoreFacts(blks, requested.Keys, ids, results.Keys, log);
    ReadsBuffer(requested, ids, results, log, b);
  }

  lemma ReadOpen(blks: seq<nat>, requested: map<nat, Option<nat>>, ids: map<nat, nat>,
                 results: map<nat, Result<BlockData>>, log: seq<Event>, b: nat)
    requires Whole(ReadInv(blks, requested, ids, results, log)) && b in requested && b !in results && b in ids
    ensures !CompletedIn(log, b) && AcceptedAs(log, b, ids[b]) && Linked(log)
  {
    CoreOpen(blks, requested.Keys, ids, results.Keys, log, b);
  }

  lemma ReadComplete(blks: seq<nat>, requested: map<nat, Option<nat>>, ids: map<nat, nat>,
                     results: map<nat, Result<BlockData>>, log: seq<Event>, b: nat)
    requires Whole(ReadInv(blks, requested, ids, results, log)) && b in requested && b !in results && b in ids
    requires requested[b].Some?
    ensures ReadInv(blks, requested[b := None], ids, results[b := Ok(BlockData(b, requested[b].value))],
                    log + [Polled(b, ids[b], Done)])
  {
    CoreComplete(blks, requested.Keys, ids, results.Keys, log, Polled(b, ids[b], Done));
    ReadsComplete(requested, ids, results, log, b);
    assert requested[b := None].Keys == requested.Keys;
    assert results[b := Ok(BlockData(b, requested[b].value))].Keys == results.Keys + {b};
  }

  lemma ReadFail(blks: seq<nat>, requested: map<nat, Option<nat>>, ids: map<nat, nat>,
                 results: map<nat, Result<BlockData>>, log: seq<Event>, b: nat, e: BlkError)
    requires Whole(ReadInv(blks, requested, ids, results, log)) && b in requested && b !in results && b in ids
    requires e != Retry
    ensures ReadInv(blks, requested, ids, results[b := Err(e)], log + [Polled(b, ids[b], Broken(e))])
  {
    CoreComplete(blks, requested.Keys, ids, results.Keys, log, Polled(b, ids[b], Broken(e)));
    ReadsFail(requested, ids, results, log, Polled(b, ids[b], Broken(e)), e);
    assert results[b := Err(e)].Keys == results.Keys + {b};
  }

  class ReadFuture<!S> {
    const queue: CmdQueue<S>
    const blks: seq<nat>
    var requested: map<nat, Option<nat>>
    var ids: map<nat, nat>
    var results: map<nat, Result<BlockData>>

    // The calls this future has made, from the state it found the device in.
    ghost const start: S
    ghost var log: seq<Event>

    ghost predicate Valid()
      reads this, queue
    {
      && Ascending(blks)
      && Whole(ReadInv(blks, requested, ids, results, log))
      && Whole(Tracks(queue.dev, start, log, queue.state))
    }

    constructor (queue: CmdQueue<S>, first: nat, count: nat)
      ensures Valid() && this.queue == queue && blks == BlockRange(first, count) && start == queue.state && log == []
    {
      this.queue, blks := queue, BlockRange(first, count);
      requested, ids, results := map[], map[], map[];
      start, log := queue.state, [];
    }

    /** The submission of one block; true when the device asks to retry. */
    method SubmitOne(b: nat) returns (retry: bool)
      requires Valid() && b in blks && b !in results && b !in requested
      modifies this`requested, this`ids, this`results, this`log, queue
      ensures Valid() && old(log) <= log
      ensures old(requested.Keys) <= requested.Keys && old(results.Keys) <= results.Keys
      ensures !retry ==> b in requested || b in results
      ensures retry ==> Whole(Stalled(log))
    {
      var (s, r) := queue.dev.alloc(queue.state);
      ghost var ev := Allocated(b, r);
      TracksNext(queue.dev, start, log, queue.state, ev);
      if r.Failed? {
        ReadReject(blks, requested, ids, results, log, ev, FromDma(r.error));
        queue.state, log := s, log + [ev];
        results := results[b := Err(FromDma(r.error))];
        return false;
      }
      ReadIdle(blks, requested, ids, results, log, ev);
      queue.state, log := s, log + [ev];
      retry := SubmitBuffer(b, r.id);
    }

    method SubmitBuffer(b: nat, buffer: nat) returns (retry: bool)
      requires Valid() && b in blks && b !in results && b !in requested
      requires log != [] && log[|log| - 1] == Allocated(b, Buffer(buffer))
      modifies this`requested, this`ids, this`results, this`log, queue
      ensures Valid() && old(log) <= log
      ensures old(requested.Keys) <= requested.Keys && old(results.Keys) <= results.Keys
      ensures !retry ==> b in requested || b in results
      ensures retry ==> Whole(Stalled(log))
    {
      var (s, r) := queue.dev.submit(queue.state, b, Read(buffer));
      ghost var ev := Submitted(b, Read(buffer), r);
      TracksNext(queue.dev, start, log, queue.state, ev);
      if r.Ok? {
        ReadAccept(blks, requested, ids, results, log, b, buffer, r.value);
        queue.state, log := s, log + [ev];
        ids := ids[b := r.value];
        requested := requested[b := Some(buffer)];
        return false;
      }
      if r.error == Retry {
        ReadIdle(blks, requested, ids, results, log, ev);
        queue.state, log := s, log + [ev];
        return true;
      }
      ReadReject(blks, requested, ids, results, log, ev, r.error);
      queue.state, log := s, log + [ev];
      results := results[b := Err(r.error)];
      return false;
    }

    /** The poll of one submitted block; its buffer is always there to take. */
    method PollOne(b: nat) returns (retry: bool)
      requires Valid() && b in requested && b !in results
      modifies this`requested, this`results, this`log, queue
      ensures Valid() && old(log) <= log && requested.Keys == old(requested.Keys)
      ensures results.Keys == if retry then old(results.Keys) else old(results.Keys) + {b}
      ensures retry ==> Whole(Stalled(log))
    {
      ReadFacts(blks, requested, ids, results, log, b);
      var (s, r) := queue.dev.poll(queue.state, ids[b]);
      ghost var ev := Polled(b, ids[b], r);
      TracksNext(queue.dev, start, log, queue.state, ev);
      if r == Broken(Retry) {
        ReadOpen(blks, requested, ids, results, log, b);
        StalledPoll(log, b, ids[b]);
        ReadIdle(blks, requested, ids, results, log, ev);
        queue.state, log := s, log + [ev];
        return true;
      }
      match r
      case Done =>
        ReadComplete(blks, requested, ids, results, log, b);
        var buffer := requested[b].value;
        queue.state, log := s, log + [ev];
        requested := requested[b := None];
        results := results[b := Ok(BlockData(b, buffer))];
        return false;
      case Broken(e) =>
        ReadFail(blks, requested, ids, results, log, b, e);
        queue.state, log := s, log + [ev];
        results := results[b := Err(e)];
        return false;
    }

    /** The first loop of `poll`: everything gets submitted, once. */
    method SubmitAll() returns (retry: bool)
      requires Valid()
      modifies this`requested, this`ids, this`results, this`log, queue
      ensures Valid() && old(log) <= log
      ensures !retry ==> forall k :: 0 <= k < |blks| ==> blks[k] in requested || blks[k] in results
      ensures retry ==> Whole(Stalled(log))
    {
      var i := 0;
      while i < |blks|
        invariant i <= |blks| && Valid() && old(log) <= log
        invariant forall k :: 0 <= k < i ==> blks[k] in requested || blks[k] in results
      {
        if blks[i] !in results && blks[i] !in requested {
          retry := SubmitOne(blks[i]);
          if retry {
            return true;
          }
        }
        i := i + 1;
      }
      return false;
    }

    /** The second loop of `poll`; the requested blocks in ascending order are those of `blks`. */
    method PollAll() returns (retry: bool)
      requires Valid() && forall k :: 0 <= k < |blks| ==> blks[k] in requested || blks[k] in results
      modifies this`requested, this`results, this`log, queue
      ensures Valid() && old(log) <= log
      ensures !retry ==> forall k :: 0 <= k < |blks| ==> blks[k] in results
      ensures retry ==> Whole(Stalled(log))
    {
      var i := 0;
      while i < |blks|
        invariant i <= |blks| && Valid() && old(log) <= log
        invariant forall k :: 0 <= k < |blks| ==> blks[k] in requested || blks[k] in results
        invariant forall k :: 0 <= k < i ==> blks[k] in results
      {
        if blks[i] in requested && blks[i] !in results {
          retry := PollOne(blks[i]);
          if retry {
            return true;
          }
        }
        i := i + 1;
      }
      return false;
    }

    /** The last loop of `poll`: every block has a result to take out. */
    method Collect() returns (out: seq<Result<BlockData>>)
      requires Valid() && forall k :: 0 <= k < |blks| ==> blks[k] in results
      modifies this`results
      ensures Whole(ReadOutcome(blks, out, log))
    {
      ReadEnd(blks, requested, ids, results, log);
      ghost var before := results;
      out := [];
      var i := 0;
      while i < |blks|
        invariant i <= |blks| && |out| == i
        invariant forall k :: 0 <= k < i ==> out[k] == before[blks[k]]
        invariant forall k :: i <= k < |blks| ==> blks[k] in results && results[blks[k]] == before[blks[k]]
      {
        out := out + [results[blks[i]]];
        results := results - {blks[i]};
        i := i + 1;
      }
    }

    /** `ReadFuture::poll` */
    method Poll() returns (r: Poll<seq<Result<BlockData>>>)
      requires Valid()
      modifies this, queue
      ensures old(log) <= log && Whole(Tracks(queue.dev, start, log, queue.state))
      ensures r.Pending? ==> Valid() && Whole(Stalled(log))
      ensures r.Ready? ==> Whole(ReadOutcome(blks, r.value, log))
    {
      var retry := SubmitAll();
      if retry {
        return Pending;
      }
      retry := PollAll();
      if retry {
        return Pending;
      }
      var out := Collect();
      return Ready(out);
    }
  }

  /** One result per block, in request order, each resting on the calls for that block; nothing
      was accepted or completed twice, and what was accepted was completed. */
  ghost predicate ReadOutcome(blks: seq<nat>, out: seq<Result<BlockData>>, log: seq<Event>) {
    && |out| == |blks|
    && (forall k :: 0 <= k < |out| ==> ReadResult(log, blks[k], out[k]))
    && OnceEach(log) && Paired(log)
    && (forall b :: AcceptedIn(log, b) <==> CompletedIn(log, b))
  }

  lemma ReadEnd(blks: seq<nat>, requested: map<nat, Option<nat>>, ids: map<nat, nat>,
                results: map<nat, Result<BlockData>>, log: seq<Event>)
    requires Whole(ReadInv(blks, requested, ids, results, log)) && forall k :: 0 <= k < |blks| ==> blks[k] in results
    ensures forall k :: 0 <= k < |blks| ==> ReadResult(log, blks[k], results[blks[k]])
    ensures OnceEach(log) && Paired(log) && forall b :: AcceptedIn(log, b) <==> CompletedIn(log, b)
  {
    assert OpenReads(0);
    CoreFacts(blks, requested.Keys, ids, results.Keys, log);
    forall b: nat ensures AcceptedIn(log, b) <==> CompletedIn(log, b) {
      if b in requested {
        var k :| 0 <= k < |blks| && blks[k] == b;
      }
    }
  }

  // ----- writing -----

  /** The blocks of a write request in order, with what is to be written. */
  datatype Chunk = Chunk(blk: nat, data: seq<Byte>)

  function Blks(chunks: seq<Chunk>): (r: seq<nat>)
    ensures |r| == |chunks| && forall i :: 0 <= i < |chunks| ==> r[i] == chunks[i].blk
  {
    seq(|chunks|, i requires 0 <= i < |chunks| => chunks[i].blk)
  }

  /** `c` is the i-th block of the data, for the i-th block number. */
  predicate IsSlice(c: Chunk, first: nat, data: seq<Byte>, size: nat, i: nat) {
    && 0 <= i * size <= (i + 1) * size <= |data|
    && c == Chunk(first + i, data[i * size..(i + 1) * size]) && |c.data| == size
  }

  predicate Sliced(chunks: seq<Chunk>, first: nat, data: seq<Byte>, size: nat) {
    forall i :: 0 <= i < |chunks| ==> IsSlice(chunks[i], first, data, size, i)
  }

  function Joined(chunks: seq<Chunk>): seq<Byte> {
    if chunks == [] then [] else Joined(chunks[..|chunks| - 1]) + chunks[|chunks| - 1].data
  }

  lemma SliceBound(i: nat, n: nat, size: nat)
    requires i < n
    ensures 0 <= i * size <= (i + 1) * size == i * size + size <= n * size
  {
    MulMono(i + 1, n, size);
  }

  lemma JoinedMore(chunks: seq<Chunk>, c: Chunk, data: seq<Byte>, lo: nat, hi: nat)
    requires lo <= hi <= |data| && Joined(chunks) == data[..lo] && c.data == data[lo..hi]
    ensures Joined(chunks + [c]) == data[..hi]
  {
    assert (chunks + [c])[..|chunks|] == chunks;
    assert data[..hi] == data[..lo] + data[lo..hi];
  }

  /** The loop of `write_blocks` that slices the data: the slices are blocks for consecutive block
      numbers, and joined they are the data. */
  method SplitBlocks(first: nat, data: seq<Byte>, size: nat) returns (chunks: seq<Chunk>)
    requires size > 0 && |data| % size == 0
    ensures |chunks| == |data| / size && Joined(chunks) == data
    ensures Sliced(chunks, first, data, size) && Ascending(Blks(chunks))
  {
    var count := |data| / size;
    DivModDef(|data|, size);
    chunks := [];
    for i := 0 to count
      invariant |chunks| == i && i * size <= |data| && Joined(chunks) == data[..i * size]
      invariant Sliced(chunks, first, data, size)
    {
      SliceBound(i, count, size);
      var c := Chunk(first + i, data[i * size..(i + 1) * size]);
      JoinedMore(chunks, c, data, i * size, (i + 1) * size);
      assert IsSlice(c, first, data, size, i);
      chunks := chunks + [c];
    }
    assert data[..count * size] == data;
    SlicesAscend(chunks, first, data, size);
  }

  lemma SlicesAscend(chunks: seq<Chunk>, first: nat, data: seq<Byte>, size: nat)
    requires Sliced(chunks, first, data, size)
    ensures Ascending(Blks(chunks))
  {
    forall i | 0 <= i < |chunks| ensures Blks(chunks)[i] == first + i {
      assert IsSlice(chunks[i], first, data, size, i);
    }
  }

  /** Only the data given for a block is ever submitted for it. */
  predicate Carries(log: seq<Event>, chunks: seq<Chunk>) {
    forall i :: 0 <= i < |log| ==> Carried(log[i], chunks)
  }

  predicate Carried(ev: Event, chunks: seq<Chunk>) {
    !ev.Allocated? && (ev.Submitted? ==> ev.kind.Write? && Chunk(ev.blk, ev.kind.data) in chunks)
  }

  /** What the result for a chunk rests on. */
  ghost predicate WriteResult(log: seq<Event>, c: Chunk, r: Status) {
    match r
    case Done => exists id :: Submitted(c.blk, Write(c.data), Ok(id)) in log && Polled(c.blk, id, Done) in log
    case Broken(e) => FailedWith(log, c.blk, e)
  }

  ghost predicate WritesOk(chunks: seq<Chunk>, ids: map<nat, nat>, results: map<nat, Status>, log: seq<Event>) {
    forall t {:trigger OpenWrites(t)} :: OpenWrites(t) ==>
      && Carries(log, chunks)
      && (forall c :: c in chunks && c.blk in ids ==> Submitted(c.blk, Write(c.data), Ok(ids[c.blk])) in log)
      && (forall c :: c in chunks && c.blk in results ==> WriteResult(log, c, results[c.blk]))
  }

  ghost predicate WriteInv(chunks: seq<Chunk>, requested: set<nat>, ids: map<nat, nat>, results: map<nat, Status>,
                           log: seq<Event>) {
    && Whole(Core(Blks(chunks), requested, ids, results.Keys, log))
    && Whole(WritesOk(chunks, ids, results, log))
  }

  lemma OneChunk(chunks: seq<Chunk>, c: Chunk, d: Chunk)
    requires Ascending(Blks(chunks)) && c in chunks && d in chunks && c.blk == d.blk
    ensures c == d
  {
    var i :| 0 <= i < |chunks| && chunks[i] == c;
    var j :| 0 <= j < |chunks| && chunks[j] == d;
    assert Blks(chunks)[i] == Blks(chunks)[j];
  }

  lemma WriteResultMore(log: seq<Event>, ev: Event, c: Chunk, r: Status)
    requires WriteResult(log, c, r)
    ensures WriteResult(log + [ev], c, r)
  {
    if r.Broken? {
      FailedMore(log, ev, c.blk, r.error);
    } else {
      var id :| Submitted(c.blk, Write(c.data), Ok(id)) in log && Polled(c.blk, id, Done) in log;
      assert Submitted(c.blk, Write(c.data), Ok(id)) in log + [ev];
    }
  }

  lemma WritesMore(chunks: seq<Chunk>, ids: map<nat, nat>, results: map<nat, Status>, log: seq<Event>, ev: Event)
    requires Whole(WritesOk(chunks, ids, results, log)) && Carried(ev, chunks)
    ensures WritesOk(chunks, ids, results, log + [ev])
  {
    assert OpenWrites(0);
    forall c | c in chunks && c.blk in results ensures WriteResult(log + [ev], c, results[c.blk]) {
      WriteResultMore(log, ev, c, results[c.blk]);
    }
  }

  lemma WritesFail(chunks: seq<Chunk>, ids: map<nat, nat>, results: map<nat, Status>, log: seq<Event>, ev: Event,
                   e: BlkError)
    requires Whole(WritesOk(chunks, ids, results, log)) && Carried(ev, chunks) && Fails(ev, e) && e != Retry
    ensures WritesOk(chunks, ids, results[ev.blk := Broken(e)], log + [ev])
  {
    assert OpenWrites(0);
    FailedMore(log, ev, ev.blk, e);
    forall c | c in chunks && c.blk in results ensures WriteResult(log + [ev], c, results[c.blk]) {
      WriteResultMore(log, ev, c, results[c.blk]);
    }
  }

  lemma WritesAccept(chunks: seq<Chunk>, ids: map<nat, nat>, results: map<nat, Status>, log: seq<Event>, c: Chunk,
                     id: nat)
    requires Whole(WritesOk(chunks, ids, results, log)) && Ascending(Blks(chunks)) && c in chunks
    ensures WritesOk(chunks, ids[c.blk := id], results, log + [Submitted(c.blk, Write(c.data), Ok(id))])
  {
    var ev := Submitted(c.blk, Write(c.data), Ok(id));
    WritesMore(chunks, ids, results, log, ev);
    assert OpenWrites(0);
    forall d | d in chunks && d.blk in ids[c.blk := id]
      ensures Submitted(d.blk, Write(d.data), Ok(ids[c.blk := id][d.blk])) in log + [ev]
    {
      if d.blk == c.blk {
        OneChunk(chunks, c, d);
        assert ev in log + [ev];
      } else {
        assert Submitted(d.blk, Write(d.data), Ok(ids[d.blk])) in log;
      }
    }
  }

  lemma WritesComplete(chunks: seq<Chunk>, ids: map<nat, nat>, results: map<nat, Status>, log: seq<Event>, b: nat)
    requires Whole(WritesOk(chunks, ids, results, log)) && b in ids
    ensures WritesOk(chunks, ids, results[b := Done], log + [Polled(b, ids[b], Done)])
  {
    var ev := Polled(b, ids[b], Done);
    WritesMore(chunks, ids, results, log, ev);
    assert OpenWrites(0);
    assert ev in log + [ev];
  }

  lemma WriteIdle(chunks: seq<Chunk>, requested: set<nat>, ids: map<nat, nat>, results: map<nat, Status>,
                  log: seq<Event>, ev: Event)
    requires Whole(WriteInv(chunks, requested, ids, results, log)) && !Accepts(ev) && !Completes(ev)
    requires ev.blk in Blks(chunks) && Carried(ev, chunks)
    ensures WriteInv(chunks, requested, ids, results, log + [ev])
  {
    CoreSettle(Blks(chunks), requested, ids, results.Keys, log, ev);
    WritesMore(chunks, ids, results, log, ev);
  }

  lemma WriteReject(chunks: seq<Chunk>, requested: set<nat>, ids: map<nat, nat>, results: map<nat, Status>,
                    log: seq<Event>, ev: Event, e: BlkError)
    requires Whole(WriteInv(chunks, requested, ids, results, log)) && !Accepts(ev) && !Completes(ev)
    requires ev.blk in Blks(chunks) && Carried(ev, chunks)
    requires Fails(ev, e) && e != Retry && ev.blk !in requested
    ensures WriteInv(chunks, requested, ids, results[ev.blk := Broken(e)], log + [ev])
  {
    CoreSettle(Blks(chunks), requested, ids, results.Keys, log, ev);
    WritesFail(chunks, ids, results, log, ev, e);
    assert results[ev.blk := Broken(e)].Keys == results.Keys + {ev.blk};
  }

  lemma WriteAccept(chunks: seq<Chunk>, requested: set<nat>, ids: map<nat, nat>, results: map<nat, Status>,
                    log: seq<Event>, c: Chunk, id: nat)
    requires Whole(WriteInv(chunks, requested, ids, results, log)) && Ascending(Blks(chunks)) && c in chunks
    requires c.blk in Blks(chunks)
    requires c.blk !in requested && c.blk !in results
    ensures WriteInv(chunks, requested + {c.blk}, ids[c.blk := id], results,
                     log + [Submitted(c.blk, Write(c.data), Ok(id))])
  {
    CoreAccept(Blks(chunks), requested, ids, results.Keys, log, Submitted(c.blk, Write(c.data), Ok(id)));
    WritesAccept(chunks, ids, results, log, c, id);
  }

  lemma WriteSettle(chunks: seq<Chunk>, requested: set<nat>, ids: map<nat, nat>, results: map<nat, Status>,
                    log: seq<Event>, b: nat, r: Status)
    requires Whole(WriteInv(chunks, requested, ids, results, log)) && b in requested && b !in results && b in ids
    requires r != Broken(Retry)
    ensures WriteInv(chunks, requested, ids, results[b := r], log + [Polled(b, ids[b], r)])
  {
    CoreComplete(Blks(chunks), requested, ids, results.Keys, log, Polled(b, ids[b], r));
    if r.Done? {
      WritesComplete(chunks, ids, results, log, b);
    } else {
      WritesFail(chunks, ids, results, log, Polled(b, ids[b], r), r.error);
    }
    assert results[b := r].Keys == results.Keys + {b};
  }

  lemma WriteFacts(chunks: seq<Chunk>, requested: set<nat>, ids: map<nat, nat>, results: map<nat, Status>,
                   log: seq<Event>, b: nat)
    requires Whole(WriteInv(chunks, requested, ids, results, log)) && b in requested
    ensures b in ids && b in Blks(chunks)
  {
    CoreFacts(Blks(chunks), requested, ids, results.Keys, log);
  }

  lemma WriteOpen(chunks: seq<Chunk>, requested: set<nat>, ids: map<nat, nat>, results: map<nat, Status>,
                  log: seq<Event>, b: nat)
    requires Whole(WriteInv(chunks, requested, ids, results, log)) && b in requested && b !in results && b in ids
    ensures !CompletedIn(log, b) && AcceptedAs(log, b, ids[b]) && Linked(log)
  {
    CoreOpen(Blks(chunks), requested, ids, results.Keys, log, b);
  }

  /** One result per chunk, in request order; what was accepted was completed, each once. */
  ghost predicate WriteOutcome(chunks: seq<Chunk>, out: seq<Status>, log: seq<Event>) {
    && |out| == |chunks|
    && (forall k :: 0 <= k < |out| ==> WriteResult(log, chunks[k], out[k]))
    && OnceEach(log) && Carries(log, chunks)
    && (forall b :: AcceptedIn(log, b) <==> CompletedIn(log, b))
  }

  lemma WriteEnd(chunks: seq<Chunk>, requested: set<nat>, ids: map<nat, nat>, results: map<nat, Status>,
                 log: seq<Event>)
    requires Whole(WriteInv(chunks, requested, ids, results, log))
    requires forall k :: 0 <= k < |chunks| ==> chunks[k].blk in results
    ensures forall k :: 0 <= k < |chunks| ==> WriteResult(log, chunks[k], results[chunks[k].blk])
    ensures OnceEach(log) && Carries(log, chunks) && forall b :: AcceptedIn(log, b) <==> CompletedIn(log, b)
  {
    assert OpenWrites(0);
    CoreFacts(Blks(chunks), requested, ids, results.Keys, log);
    forall b: nat ensures AcceptedIn(log, b) <==> CompletedIn(log, b) {
      if b in requested {
        var k :| 0 <= k < |Blks(chunks)| && Blks(chunks)[k] == b;
        assert chunks[k].blk == b;
      }
    }
  }

  class WriteFuture<!S> {
    const queue: CmdQueue<S>
    const chunks: seq<Chunk>
    var requested: set<nat>
    var ids: map<nat, nat>
    var results: map<nat, Status>

    ghost const start: S
    ghost var log: seq<Event>

    ghost predicate Valid()
      reads this, queue
    {
      && Ascending(Blks(chunks))
      && Whole(WriteInv(chunks, requested, ids, results, log))
      && Whole(Tracks(queue.dev, start, log, queue.state))
    }

    constructor (queue: CmdQueue<S>, chunks: seq<Chunk>)
      requires Ascending(Blks(chunks))
      ensures Valid() && this.queue == queue && this.chunks == chunks && start == queue.state && log == []
    {
      this.queue, this.chunks := queue, chunks;
      requested, ids, results := {}, map[], map[];
      start, log := queue.state, [];
    }

    method SubmitOne(c: Chunk) returns (retry: bool)
      requires Valid() && c in chunks && c.blk in Blks(chunks) && c.blk !in results && c.blk !in requested
      modifies this`requested, this`ids, this`results, this`log, queue
      ensures Valid() && old(log) <= log
      ensures old(requested) <= requested && old(results.Keys) <= results.Keys
      ensures !retry ==> c.blk in requested || c.blk in results
      ensures retry ==> Whole(Stalled(log))
    {
      var (s, r) := queue.dev.submit(queue.state, c.blk, Write(c.data));
      ghost var ev := Submitted(c.blk, Write(c.data), r);
      TracksNext(queue.dev, start, log, queue.state, ev);
      if r.Ok? {
        WriteAccept(chunks, requested, ids, results, log, c, r.value);
        queue.state, log := s, log + [ev];
        ids := ids[c.blk := r.value];
        requested := requested + {c.blk};
        return false;
      }
      if r.error == Retry {
        WriteIdle(chunks, requested, ids, results, log, ev);
        queue.state, log := s, log + [ev];
        return true;
      }
      WriteReject(chunks, requested, ids, results, log, ev, r.error);
      queue.state, log := s, log + [ev];
      results := results[c.blk := Broken(r.error)];
      return false;
    }

    method PollOne(b: nat) returns (retry: bool)
      requires Valid() && b in requested && b !in results
      modifies this`results, this`log, queue
      ensures Valid() && old(log) <= log
      ensures results.Keys == if retry then old(results.Keys) else old(results.Keys) + {b}
      ensures retry ==> Whole(Stalled(log))
    {
      WriteFacts(chunks, requested, ids, results, log, b);
      var (s, r) := queue.dev.poll(queue.state, ids[b]);
      ghost var ev := Polled(b, ids[b], r);
      TracksNext(queue.dev, start, log, queue.state, ev);
      if r == Broken(Retry) {
        WriteOpen(chunks, requested, ids, results, log, b);
        StalledPoll(log, b, ids[b]);
        WriteIdle(chunks, requested, ids, results, log, ev);
        queue.state, log := s, log + [ev];
        return true;
      }
      WriteSettle(chunks, requested, ids, results, log, b, r);
      queue.state, log := s, log + [ev];
      results := results[b := r];
      return false;
    }

    method SubmitAll() returns (retry: bool)
      requires Valid()
      modifies this`requested, this`ids, this`results, this`log, queue
      ensures Valid() && old(log) <= log
      ensures !retry ==> forall k :: 0 <= k < |chunks| ==> chunks[k].blk in requested || chunks[k].blk in results
      ensures retry ==> Whole(Stalled(log))
    {
      var i := 0;
      while i < |chunks|
        invariant i <= |chunks| && Valid() && old(log) <= log
        invariant forall k :: 0 <= k < i ==> chunks[k].blk in requested || chunks[k].blk in results
      {
        if chunks[i].blk !in results && chunks[i].blk !in requested {
          assert Blks(chunks)[i] == chunks[i].blk;
          retry := SubmitOne(chunks[i]);
          if retry {
            return true;
          }
        }
        i := i + 1;
      }
      return false;
    }

    method PollAll() returns (retry: bool)
      requires Valid() && forall k :: 0 <= k < |chunks| ==> chunks[k].blk in requested || chunks[k].blk in results
      modifies this`results, this`log, queue
      ensures Valid() && old(log) <= log
      ensures !retry ==> forall k :: 0 <= k < |chunks| ==> chunks[k].blk in results
      ensures retry ==> Whole(Stalled(log))
    {
      var i := 0;
      while i < |chunks|
        invariant i <= |chunks| && Valid() && old(log) <= log
        invariant forall k :: 0 <= k < |chunks| ==> chunks[k].blk in requested || chunks[k].blk in results
        invariant forall k :: 0 <= k < i ==> chunks[k].blk in results
      {
        if chunks[i].blk in requested && chunks[i].blk !in results {
          retry := PollOne(chunks[i].blk);
          if retry {
            return true;
          }
        }
        i := i + 1;
      }
      return false;
    }

    method Collect() returns (out: seq<Status>)
      requires Valid() && forall k :: 0 <= k < |chunks| ==> chunks[k].blk in results
      modifies this`results
      ensures Whole(WriteOutcome(chunks, out, log))
    {
      WriteEnd(chunks, requested, ids, results, log);
      ghost var before := results;
      out := [];
      var i := 0;
      while i < |chunks|
        invariant i <= |chunks| && |out| == i
        invariant forall k :: 0 <= k < i ==> out[k] == before[chunks[k].blk]
        invariant forall k :: i <= k < |chunks| ==>
                    chunks[k].blk in results && results[chunks[k].blk] == before[chunks[k].blk]
      {
        forall k | i < k < |chunks| ensures chunks[k].blk != chunks[i].blk {
          assert Blks(chunks)[i] < Blks(chunks)[k];
        }
        out := out + [results[chunks[i].blk]];
        results := results - {chunks[i].blk};
        i := i + 1;
      }
    }

    /** `WriteFuture::poll` */
    method Poll() returns (r: Poll<seq<Status>>)
      requires Valid()
      modifies this, queue
      ensures old(log) <= log && Whole(Tracks(queue.dev, start, log, queue.state))
      ensures r.Pending? ==> Valid() && Whole(Stalled(log))
      ensures r.Ready? ==> Whole(WriteOutcome(chunks, r.value, log))
    {
      var retry := SubmitAll();
      if retry {
        return Pending;
      }
      retry := PollAll();
      if retry {
        return Pending;
      }
      var out := Collect();
      return Ready(out);
    }
  }
}
