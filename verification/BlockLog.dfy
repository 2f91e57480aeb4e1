/**
 What a block request future has asked of its device so far, as a log of calls and replies,
 and the bookkeeping that ties the log to the future's maps.
 */
module BlockLog {
  import opened Arith

  newtype Byte = x: int | 0 <= x < 256

  datatype BlkError = NotSupported | Retry | NoMemory | InvalidBlockIndex(id: nat) | Other

  datatype Result<+T> = Ok(value: T) | Err(error: BlkError)

  /** `Result<(), BlkError>` */
  datatype Status = Done | Broken(error: BlkError)

  datatype DmaError = DmaNoMemory | DmaOther

  /** `From<DmaError> for BlkError` */
  function FromDma(e: DmaError): BlkError {
    if e.DmaNoMemory? then NoMemory else Other
  }

  datatype DmaResult = Buffer(id: nat) | Failed(error: DmaError)

  datatype RequestKind = Read(buffer: nat) | Write(data: seq<Byte>)

  /** Any device: three calls that may answer anything and change its state in any way. */
  datatype Device<!S> = Device(
    alloc: S -> (S, DmaResult),
    submit: (S, nat, RequestKind) -> (S, Result<nat>),
    poll: (S, nat) -> (S, Status))

  /** One call and its reply. */
  datatype Event =
    | Allocated(blk: nat, buffer: DmaResult)
    | Submitted(blk: nat, kind: RequestKind, request: Result<nat>)
    | Polled(blk: nat, id: nat, status: Status)

  // ----- the log belongs to the device -----

  ghost function After<S>(dev: Device<S>, s: S, e: Event): S {
    match e
    case Allocated(_, _) => dev.alloc(s).0
    case Submitted(b, kind, _) => dev.submit(s, b, kind).0
    case Polled(_, id, _) => dev.poll(s, id).0
  }

  ghost predicate Honest<S>(dev: Device<S>, s: S, e: Event) {
    match e
    case Allocated(_, r) => r == dev.alloc(s).1
    case Submitted(b, kind, r) => r == dev.submit(s, b, kind).1
    case Polled(_, id, r) => r == dev.poll(s, id).1
  }

  ghost function Replay<S>(dev: Device<S>, s: S, log: seq<Event>): S {
    if log == [] then s else After(dev, Replay(dev, s, log[..|log| - 1]), log[|log| - 1])
  }

  /** Every reply in the log is the device's own. */
  ghost predicate Traced<S>(dev: Device<S>, s: S, log: seq<Event>) {
    log == [] || (Traced(dev, s, log[..|log| - 1]) && Honest(dev, Replay(dev, s, log[..|log| - 1]), log[|log| - 1]))
  }

  /** From `start`, the calls of the log have brought the device to `now`. */
  ghost predicate Tracks<S>(dev: Device<S>, start: S, log: seq<Event>, now: S) {
    Traced(dev, start, log) && now == Replay(dev, start, log)
  }

  lemma TracksNext<S>(dev: Device<S>, start: S, log: seq<Event>, now: S, e: Event)
    requires Whole(Tracks(dev, start, log, now)) && Honest(dev, now, e)
    ensures Tracks(dev, start, log + [e], After(dev, now, e))
  {
    assert (log + [e])[..|log|] == log;
  }

  // ----- acceptances and completions -----

  predicate Accepts(e: Event) {
    e.Submitted? && e.request.Ok?
  }

  /** A completion is consumed by any answer but Retry. */
  predicate Completes(e: Event) {
    e.Polled? && e.status != Broken(Retry)
  }

  predicate AcceptedIn(log: seq<Event>, b: nat) {
    exists i :: 0 <= i < |log| && Accepts(log[i]) && log[i].blk == b
  }

  predicate CompletedIn(log: seq<Event>, b: nat) {
    exists i :: 0 <= i < |log| && Completes(log[i]) && log[i].blk == b
  }

  /** No block is accepted twice and no completion is consumed twice. */
  predicate OnceEach(log: seq<Event>) {
    && (forall i, j :: 0 <= i < j < |log| && Accepts(log[i]) && Accepts(log[j]) ==> log[i].blk != log[j].blk)
    && (forall i, j :: 0 <= i < j < |log| && Completes(log[i]) && Completes(log[j]) ==> log[i].blk != log[j].blk)
  }

  /** Holds always. A definition of the form `forall t {:trigger OpenX(t)} :: OpenX(t) ==> ...`
      stays closed to the verifier until a proof writes `assert OpenX(0)`. */
  predicate OpenCore(t: int) {
    true
  }

  /** `requested` blocks are the accepted ones, with their request ids; a requested block is done
      exactly when its completion was consumed. */
  ghost predicate Core(blks: seq<nat>, requested: set<nat>, ids: map<nat, nat>, done: set<nat>, log: seq<Event>) {
    forall t {:trigger OpenCore(t)} :: OpenCore(t) ==>
      && ids.Keys == requested
      && (forall b :: b in requested || b in done ==> b in blks)
      && (forall i :: 0 <= i < |log| ==> log[i].blk in blks)
      && (forall b :: b in requested <==> AcceptedIn(log, b))
      && (forall i :: 0 <= i < |log| && Accepts(log[i]) ==> log[i].blk in ids && log[i].request == Ok(ids[log[i].blk]))
      && (forall i :: 0 <= i < |log| && Completes(log[i]) ==>
            log[i].blk in requested && log[i].blk in done && log[i].id == ids[log[i].blk])
      && (forall b :: b in requested && b in done ==> CompletedIn(log, b))
      && OnceEach(log)
  }

  lemma InMore(log: seq<Event>, e: Event, b: nat)
    ensures AcceptedIn(log + [e], b) <==> AcceptedIn(log, b) || (Accepts(e) && e.blk == b)
    ensures CompletedIn(log + [e], b) <==> CompletedIn(log, b) || (Completes(e) && e.blk == b)
  {
    var more := log + [e];
    if AcceptedIn(log, b) {
      var i :| 0 <= i < |log| && Accepts(log[i]) && log[i].blk == b;
      assert more[i] == log[i];
    }
    if CompletedIn(log, b) {
      var i :| 0 <= i < |log| && Completes(log[i]) && log[i].blk == b;
      assert more[i] == log[i];
    }
    assert more[|log|] == e;
  }

  lemma AllMore(log: seq<Event>, e: Event)
    ensures forall b :: AcceptedIn(log + [e], b) <==> AcceptedIn(log, b) || (Accepts(e) && e.blk == b)
    ensures forall b :: CompletedIn(log + [e], b) <==> CompletedIn(log, b) || (Completes(e) && e.blk == b)
  {
    forall b: nat
      ensures AcceptedIn(log + [e], b) <==> AcceptedIn(log, b) || (Accepts(e) && e.blk == b)
      ensures CompletedIn(log + [e], b) <==> CompletedIn(log, b) || (Completes(e) && e.blk == b)
    {
      InMore(log, e, b);
    }
  }

  lemma CoreAccept(blks: seq<nat>, requested: set<nat>, ids: map<nat, nat>, done: set<nat>, log: seq<Event>, e: Event)
    requires Whole(Core(blks, requested, ids, done, log)) && Accepts(e) && e.blk in blks && e.blk !in requested
    requires e.blk !in done
    ensures Core(blks, requested + {e.blk}, ids[e.blk := e.request.value], done, log + [e])
  {
    assert OpenCore(0);
    AllMore(log, e);
    forall i | 0 <= i < |log| && Accepts(log[i]) ensures log[i].blk != e.blk {
      assert AcceptedIn(log, log[i].blk);
    }
  }

  /** A call that neither accepts nor completes; it may settle a block that was not accepted. */
  lemma CoreSettle(blks: seq<nat>, requested: set<nat>, ids: map<nat, nat>, done: set<nat>, log: seq<Event>, e: Event)
    requires Whole(Core(blks, requested, ids, done, log)) && !Accepts(e) && !Completes(e) && e.blk in blks
    ensures Core(blks, requested, ids, done, log + [e])
    ensures e.blk !in requested ==> Core(blks, requested, ids, done + {e.blk}, log + [e])
  {
    assert OpenCore(0);
    AllMore(log, e);
  }

  lemma CoreComplete(blks: seq<nat>, requested: set<nat>, ids: map<nat, nat>, done: set<nat>, log: seq<Event>, e: Event)
    requires Whole(Core(blks, requested, ids, done, log)) && Completes(e) && e.blk in requested && e.blk !in done
    requires e.blk in ids && e.id == ids[e.blk]
    ensures Core(blks, requested, ids, done + {e.blk}, log + [e])
  {
    assert OpenCore(0);
    AllMore(log, e);
    forall i | 0 <= i < |log| && Completes(log[i]) ensures log[i].blk != e.blk {
      assert CompletedIn(log, log[i].blk);
    }
  }

  lemma CoreFacts(blks: seq<nat>, requested: set<nat>, ids: map<nat, nat>, done: set<nat>, log: seq<Event>)
    requires Whole(Core(blks, requested, ids, done, log))
    ensures ids.Keys == requested && OnceEach(log)
    ensures forall b :: b in requested || b in done ==> b in blks
    ensures forall b :: b in requested <==> AcceptedIn(log, b)
    ensures forall b :: CompletedIn(log, b) <==> b in requested && b in done
  {
    assert OpenCore(0);
    forall b | CompletedIn(log, b) ensures b in requested && b in done {
      var i :| 0 <= i < |log| && Completes(log[i]) && log[i].blk == b;
    }
  }

  // ----- stopping at a retry -----

  predicate AcceptedAs(log: seq<Event>, b: nat, id: nat) {
    exists i :: 0 <= i < |log| && Accepts(log[i]) && log[i].blk == b && log[i].request == Ok(id)
  }

  /** Completions are consumed only for accepted requests. */
  predicate Linked(log: seq<Event>) {
    forall i :: 0 <= i < |log| && Completes(log[i]) ==> AcceptedAs(log, log[i].blk, log[i].id)
  }

  /** The last call was answered with Retry, and if it was a poll, for a request that is still open. */
  predicate Stalled(log: seq<Event>) {
    log != [] &&
    var before, e := log[..|log| - 1], log[|log| - 1];
    || (e.Submitted? && e.request == Err(Retry))
    || (&& e.Polled? && e.status == Broken(Retry) && !CompletedIn(before, e.blk)
        && AcceptedAs(before, e.blk, e.id) && Linked(before))
  }

  lemma CoreOpen(blks: seq<nat>, requested: set<nat>, ids: map<nat, nat>, done: set<nat>, log: seq<Event>, b: nat)
    requires Whole(Core(blks, requested, ids, done, log)) && b in requested && b !in done && b in ids
    ensures !CompletedIn(log, b) && AcceptedAs(log, b, ids[b]) && Linked(log)
  {
    assert OpenCore(0);
    forall i | 0 <= i < |log| && Completes(log[i]) ensures AcceptedAs(log, log[i].blk, log[i].id) {
      var j :| 0 <= j < |log| && Accepts(log[j]) && log[j].blk == log[i].blk;
    }
    var j :| 0 <= j < |log| && Accepts(log[j]) && log[j].blk == b;
  }

  lemma StalledPoll(log: seq<Event>, b: nat, id: nat)
    requires !CompletedIn(log, b) && AcceptedAs(log, b, id) && Linked(log)
    ensures Stalled(log + [Polled(b, id, Broken(Retry))])
  {
    assert (log + [Polled(b, id, Broken(Retry))])[..|log|] == log;
  }
}
