/**
 `SingleCpuExecutor`: a wake queue filled from interrupts and futures, a heap of queued
 tasks and a registry. Wakes may arrive between any two critical sections and during a poll.
 */
module Executor {
  import opened Arith
  import opened Options

  datatype TaskState = Pending | Woken | Running | Completed

  /** `TaskMetadata` */
  datatype Task = Task(state: TaskState, createdAt: nat, lastWakeAt: nat, lastRunAt: Option<nat>, runCount: nat)

  /** `PriorityTaskWrapper`: the priority when the task was queued. */
  datatype Entry = Entry(isWoken: bool, timestamp: nat, id: nat)

  /** What happens to tasks: they are spawned, woken, and polled. `Wake` is a call of the waker, or
      the push that ends `spawn`. A poll has a begin, with the time and whether a wake of the task is
      still in the wake queue, and an end, which says whether it completed. */
  datatype Event = Spawn(id: nat) | Wake(id: nat) | Begin(id: nat, at: nat, queued: bool) | End(id: nat, ready: bool)

  const MAX_TASKS_PER_TICK: nat := 10

  // ----- the order of the heap -----

  /** Derived `Ord` of `TaskPriority`; false comes before true. */
  predicate Less(a: Entry, b: Entry) {
    || (!a.isWoken && b.isWoken)
    || (a.isWoken == b.isWoken && (a.timestamp < b.timestamp || (a.timestamp == b.timestamp && a.id < b.id)))
  }

  /** What `pop` returns: the order is reversed, so the greatest is the least priority value. */
  predicate Top(e: Entry, heap: multiset<Entry>) {
    e in heap && forall x {:trigger heap[x]} :: x in heap ==> !Less(x, e)
  }

  lemma TopExists(heap: multiset<Entry>) returns (e: Entry)
    requires heap != multiset{}
    ensures Top(e, heap)
    decreases |heap|
  {
    var x :| x in heap;
    var rest := heap - multiset{x};
    if rest == multiset{} {
      e := x;
      assert heap == multiset{x};
    } else {
      var y := TopExists(rest);
      e := if Less(x, y) then x else y;
      forall z | z in heap ensures !Less(z, e) {
        assert z == x || z in rest;
      }
    }
  }

  /** The entries that come before `x`. */
  ghost function Ahead(heap: multiset<Entry>, x: Entry): (f: multiset<Entry>)
    ensures forall e {:trigger f[e]} :: f[e] == if Less(e, x) then heap[e] else 0
    decreases |heap|
  {
    if heap == multiset{} then multiset{}
    else
      var e :| e in heap;
      var rest := Ahead(heap - multiset{e}, x);
      if Less(e, x) then rest + multiset{e} else rest
  }

  /** Queued at or after tick `clock`, for a task spawned since. */
  predicate IsLate(e: Entry, clock: nat, nextId: nat) {
    e.isWoken && e.timestamp >= clock && e.id >= nextId
  }

  predicate Late(added: multiset<Entry>, clock: nat, nextId: nat) {
    forall e {:trigger added[e]} :: e in added ==> IsLate(e, clock, nextId)
  }

  /** One round brings an entry that was not popped one place forward, whatever was added. */
  lemma OnePlaceForward(heap: multiset<Entry>, x: Entry, popped: Entry, added: multiset<Entry>, clock: nat, nextId: nat)
    requires Top(popped, heap) && x in heap && popped != x && Late(added, clock, nextId)
    requires x.isWoken && x.timestamp <= clock && x.id < nextId
    ensures var heap' := heap - multiset{popped} + added;
            x in heap' && |Ahead(heap', x)| == |Ahead(heap, x)| - 1
  {
    var rest := heap - multiset{popped};
    assert heap[x] > 0;
    assert rest[x] == heap[x];
    AheadPopped(heap, x, popped);
    LateIsBehind(rest, x, added, clock, nextId);
  }

  lemma AheadPopped(heap: multiset<Entry>, x: Entry, popped: Entry)
    requires popped in heap && !Less(x, popped) && popped != x
    ensures |Ahead(heap - multiset{popped}, x)| == |Ahead(heap, x)| - 1
  {
    var rest := heap - multiset{popped};
    assert Less(popped, x);
    forall e ensures Ahead(heap, x)[e] == (Ahead(rest, x) + multiset{popped})[e] {
    }
    assert Ahead(heap, x) == Ahead(rest, x) + multiset{popped};
  }

  lemma LateIsBehind(heap: multiset<Entry>, x: Entry, added: multiset<Entry>, clock: nat, nextId: nat)
    requires Late(added, clock, nextId) && x.isWoken && x.timestamp <= clock && x.id < nextId
    ensures Ahead(heap + added, x) == Ahead(heap, x)
  {
    forall e ensures Ahead(heap + added, x)[e] == Ahead(heap, x)[e] {
      assert added[e] > 0 ==> IsLate(e, clock, nextId);
    }
  }

  /** Queued at or after tick `clock`. */
  predicate Newer(added: multiset<Entry>, clock: nat) {
    forall e {:trigger added[e]} :: e in added ==> e.isWoken && e.timestamp >= clock
  }

  /** Once the clock has passed the timestamp of an entry, nothing new comes ahead of it. */
  lemma NewerIsBehind(heap: multiset<Entry>, x: Entry, added: multiset<Entry>, clock: nat)
    requires Newer(added, clock) && x.isWoken && x.timestamp < clock
    ensures Ahead(heap + added, x) == Ahead(heap, x)
  {
    forall e ensures Ahead(heap + added, x)[e] == Ahead(heap, x)[e] {
      assert added[e] > 0 ==> e.isWoken && e.timestamp >= clock;
    }
  }

  predicate Queued(heap: multiset<Entry>, id: nat) {
    exists e {:trigger heap[e]} :: e in heap && e.id == id
  }

  // ----- histories -----

  /** The task was spawned and no poll of it has completed. */
  predicate Live(h: seq<Event>, id: nat) {
    Spawn(id) in h && End(id, true) !in h
  }

  /** What one more event does to the owed tasks. */
  function OwedAfter(owed: set<nat>, h: seq<Event>, e: Event): set<nat> {
    match e
    case Spawn(_) => owed
    case Wake(id) => if Live(h, id) then owed + {id} else owed
    case Begin(id, _, _) => owed - {id}
    case End(id, ready) => if ready then owed - {id} else owed
  }

  /** The live tasks that were woken since their last poll began. */
  function OwedIn(h: seq<Event>): set<nat> {
    if h == [] then {}
    else OwedAfter(OwedIn(h[..|h| - 1]), h[..|h| - 1], h[|h| - 1])
  }

  /** The tasks polled, in the order in which the polls began. */
  function Begins(h: seq<Event>): seq<nat> {
    if h == [] then []
    else Begins(h[..|h| - 1]) + if h[|h| - 1].Begin? then [h[|h| - 1].id] else []
  }

  function CountSpawns(h: seq<Event>): nat {
    if h == [] then 0 else CountSpawns(h[..|h| - 1]) + if h[|h| - 1].Spawn? then 1 else 0
  }

  /** How many polls completed. */
  function CountDone(h: seq<Event>): nat {
    if h == [] then 0
    else CountDone(h[..|h| - 1]) + if h[|h| - 1].End? && h[|h| - 1].ready then 1 else 0
  }

  lemma HistoryNext(h: seq<Event>, e: Event)
    ensures OwedIn(h + [e]) == OwedAfter(OwedIn(h), h, e)
    ensures Begins(h + [e]) == if e.Begin? then Begins(h) + [e.id] else Begins(h)
    ensures CountSpawns(h + [e]) == CountSpawns(h) + if e.Spawn? then 1 else 0
    ensures CountDone(h + [e]) == CountDone(h) + if e.End? && e.ready then 1 else 0
  {
    assert (h + [e])[..|h|] == h;
  }

  /** From `h` to `h'` no poll began or ended, and nothing owed was forgotten. */
  ghost predicate Quiet(h: seq<Event>, h': seq<Event>) {
    h <= h' && Begins(h') == Begins(h) && OwedIn(h) <= OwedIn(h')
  }

  lemma QuietTrans(h: seq<Event>, h1: seq<Event>, h2: seq<Event>)
    requires Quiet(h, h1) && Quiet(h1, h2)
    ensures Quiet(h, h2)
  {
  }

  lemma QuietNext(h: seq<Event>, e: Event)
    requires e.Spawn? || e.Wake?
    ensures Quiet(h, h + [e])
  {
    HistoryNext(h, e);
  }

  /** From `h` to `h'` at most one poll began, that of `id`, and no other task stopped being owed. */
  ghost predicate OnePoll(h: seq<Event>, h': seq<Event>, id: nat) {
    || Quiet(h, h')
    || (h <= h' && Begins(h') == Begins(h) + [id] && OwedIn(h) <= OwedIn(h') + {id})
  }

  /** Between `h` and `h'` a poll of the task began. */
  ghost predicate Begun(h: seq<Event>, h': seq<Event>, id: nat) {
    |Begins(h)| <= |Begins(h')| && id in Begins(h')[|Begins(h)|..]
  }

  lemma BegunOn(h: seq<Event>, h1: seq<Event>, h2: seq<Event>, p: nat, id: nat)
    requires |Begins(h)| <= |Begins(h1)| && OnePoll(h1, h2, p)
    ensures |Begins(h1)| <= |Begins(h2)| <= |Begins(h1)| + 1
    ensures Begun(h, h1, id) ==> Begun(h, h2, id)
    ensures Begun(h, h2, id) ==> Begun(h, h1, id) || id == p
    ensures !Quiet(h1, h2) ==> Begun(h, h2, p)
  {
    if !Quiet(h1, h2) {
      var n := |Begins(h)|;
      assert Begins(h2)[n..] == Begins(h1)[n..] + [p];
      assert (Begins(h1)[n..] + [p])[|Begins(h1)| - n] == p;
    }
  }

  lemma BegunLater(h: seq<Event>, h1: seq<Event>, h2: seq<Event>, id: nat)
    requires Begins(h) <= Begins(h1) <= Begins(h2)
    ensures Begun(h, h1, id) || Begun(h1, h2, id) ==> Begun(h, h2, id)
  {
    var n := |Begins(h)|;
    assert Begins(h2)[n..] == Begins(h1)[n..] + Begins(h2)[|Begins(h1)|..];
  }

  predicate IsBegin(e: Event, id: nat) {
    e.Begin? && e.id == id
  }

  /** No poll of a task begins after one of its polls has completed. */
  predicate NoPollAfterReady(h: seq<Event>) {
    forall i, j :: 0 <= i < j < |h| && h[i].End? && h[i].ready ==> !IsBegin(h[j], h[i].id)
  }

  // ----- no poll without a reason -----

  /** When the last poll of the task began. */
  function LastBegin(h: seq<Event>, id: nat): Option<nat> {
    if h == [] then None
    else if IsBegin(h[|h| - 1], id) then Some(h[|h| - 1].at)
    else LastBegin(h[..|h| - 1], id)
  }

  function CountPolls(h: seq<Event>, id: nat): nat {
    if h == [] then 0 else CountPolls(h[..|h| - 1], id) + if IsBegin(h[|h| - 1], id) then 1 else 0
  }

  /** Since its last poll began the task was spawned or woken, or a wake was waiting even then. */
  predicate Stirred(h: seq<Event>, id: nat) {
    if h == [] then false
    else
      match h[|h| - 1]
      case Begin(x, _, queued) => if x == id then queued else Stirred(h[..|h| - 1], id)
      case End(_, _) => Stirred(h[..|h| - 1], id)
      case _ => h[|h| - 1].id == id || Stirred(h[..|h| - 1], id)
  }

  /** A poll of the task at `clock` has a reason: a wake, or the task has not run for too long. */
  predicate MayPoll(h: seq<Event>, id: nat, clock: nat, timeout: nat) {
    Stirred(h, id) || (LastBegin(h, id).Some? && clock - LastBegin(h, id).value > timeout)
  }

  predicate AllReasoned(h: seq<Event>, timeout: nat) {
    forall j :: 0 <= j < |h| && h[j].Begin? ==> MayPoll(h[..j], h[j].id, h[j].at, timeout)
  }

  /** A task is spawned before its first poll. */
  predicate SpawnedFirst(h: seq<Event>) {
    forall i, j :: 0 <= i < j < |h| && h[i].Begin? && h[j].Spawn? ==> h[i].id != h[j].id
  }

  lemma PollsNext(h: seq<Event>, e: Event, id: nat)
    ensures LastBegin(h + [e], id) == if IsBegin(e, id) then Some(e.at) else LastBegin(h, id)
    ensures CountPolls(h + [e], id) == CountPolls(h, id) + if IsBegin(e, id) then 1 else 0
    ensures Stirred(h + [e], id) <==>
            if IsBegin(e, id) then e.queued else Stirred(h, id) || (e.id == id && (e.Spawn? || e.Wake?))
  {
    assert (h + [e])[..|h|] == h;
  }

  lemma ReasonedNext(h: seq<Event>, e: Event, timeout: nat)
    requires AllReasoned(h, timeout) && (e.Begin? ==> MayPoll(h, e.id, e.at, timeout))
    ensures AllReasoned(h + [e], timeout)
  {
    forall j | 0 <= j < |h + [e]| && (h + [e])[j].Begin?
      ensures MayPoll((h + [e])[..j], (h + [e])[j].id, (h + [e])[j].at, timeout)
    {
      assert (h + [e])[..j] == h[..j] || j == |h|;
      assert (h + [e])[..|h|] == h;
      if j < |h| {
        assert h[j] == (h + [e])[j];
      }
    }
  }

  lemma {:induction false} LastBeginIs(h: seq<Event>, i: nat, id: nat)
    requires i < |h| && IsBegin(h[i], id) && forall k :: i < k < |h| ==> !IsBegin(h[k], id)
    ensures LastBegin(h, id) == Some(h[i].at)
  {
    if i < |h| - 1 {
      LastBeginIs(h[..|h| - 1], i, id);
    }
  }

  lemma {:induction false} StirredBy(h: seq<Event>, i: nat, id: nat)
    requires i < |h| && IsBegin(h[i], id) && (forall k :: i < k < |h| ==> !IsBegin(h[k], id)) && Stirred(h, id)
    ensures h[i].queued || exists k :: i < k < |h| && (h[k] == Wake(id) || h[k] == Spawn(id))
  {
    var n := |h| - 1;
    if i < n && h[n] != Wake(id) && h[n] != Spawn(id) {
      StirredBy(h[..n], i, id);
      if !h[i].queued {
        var k :| i < k < n && (h[..n][k] == Wake(id) || h[..n][k] == Spawn(id));
        assert h[k] == h[..n][k];
      }
    }
  }

  /** Between two polls of a task that began one after the other it was woken, or a wake was still in
      the wake queue when the first began, or more than the timeout lies between them. */
  lemma NoSpuriousPoll(h: seq<Event>, timeout: nat, i: nat, j: nat, id: nat)
    requires AllReasoned(h, timeout) && SpawnedFirst(h)
    requires i < j < |h| && IsBegin(h[i], id) && IsBegin(h[j], id) && forall k :: i < k < j ==> !IsBegin(h[k], id)
    ensures (exists k :: i < k < j && h[k] == Wake(id)) || h[i].queued || h[j].at - h[i].at > timeout
  {
    var past := h[..j];
    assert MayPoll(past, id, h[j].at, timeout);
    LastBeginIs(past, i, id);
    if Stirred(past, id) {
      StirredBy(past, i, id);
      if !h[i].queued {
        var k :| i < k < j && (past[k] == Wake(id) || past[k] == Spawn(id));
        assert h[k] == past[k];
      }
    }
  }

  /** The first poll of a task comes after its spawn. */
  lemma FirstPoll(h: seq<Event>, timeout: nat, j: nat, id: nat)
    requires AllReasoned(h, timeout) && j < |h| && IsBegin(h[j], id) && forall k :: 0 <= k < j ==> !IsBegin(h[k], id)
    ensures exists k :: 0 <= k < j && (h[k] == Wake(id) || h[k] == Spawn(id))
  {
    assert MayPoll(h[..j], id, h[j].at, timeout);
    NeverBegun(h[..j], id);
    var k :| 0 <= k < j && (h[..j][k] == Wake(id) || h[..j][k] == Spawn(id));
    assert h[k] == h[..j][k];
  }

  lemma {:induction false} NeverBegun(h: seq<Event>, id: nat)
    requires forall k :: 0 <= k < |h| ==> !IsBegin(h[k], id)
    ensures LastBegin(h, id) == None && CountPolls(h, id) == 0
    ensures Stirred(h, id) ==> exists k :: 0 <= k < |h| && (h[k] == Wake(id) || h[k] == Spawn(id))
  {
    if h != [] {
      var n := |h| - 1;
      NeverBegun(h[..n], id);
      if Stirred(h, id) && h[n] != Wake(id) && h[n] != Spawn(id) {
        var k :| 0 <= k < n && (h[..n][k] == Wake(id) || h[..n][k] == Spawn(id));
        assert h[k] == h[..n][k];
      }
    }
  }

  /** A live task that was woken and whose last wake was not followed by a poll is owed. */
  lemma {:induction false} WokenIsOwed(h: seq<Event>, i: nat, id: nat)
    requires i < |h| && h[i] == Wake(id) && Spawn(id) in h[..i] && Live(h, id)
    requires forall j :: i < j < |h| ==> !IsBegin(h[j], id)
    ensures id in OwedIn(h)
  {
    var past := h[..|h| - 1];
    if i == |h| - 1 {
      assert Live(past, id);
    } else {
      assert past[i] == h[i] && past[..i] == h[..i];
      assert Live(past, id) by {
        var k :| 0 <= k < i && h[..i][k] == Spawn(id);
        assert past[k] == Spawn(id);
      }
      WokenIsOwed(past, i, id);
    }
  }

  // ----- the invariant -----

  /** Hold always. A definition of the form `forall t {:trigger OpenX(t)} :: OpenX(t) ==> ...`
      stays closed to the verifier until a proof writes `assert OpenX(0)`. */
  predicate OpenTasks(t: int) {
    true
  }

  predicate OpenWakes(t: int) {
    true
  }

  predicate OpenLog(t: int) {
    true
  }

  predicate OpenPolls(t: int) {
    true
  }

  predicate Distinct(s: seq<nat>) {
    forall i, j :: 0 <= i < j < |s| ==> s[i] != s[j]
  }

  /** A wake of the task is on record: in the wake queue, or in the heap with the task Woken.
      `held` has just been taken off the wake queue; `bag` also holds an entry just popped. */
  ghost predicate Recorded(id: nat, held: Option<nat>, queue: seq<nat>, bag: multiset<Entry>, tasks: map<nat, Task>) {
    || held == Some(id)
    || id in queue
    || (id in tasks && tasks[id].state.Woken? && Queued(bag, id))
  }

  /** `owed` are the live tasks woken since their last poll began. */
  ghost predicate WakesOk(owed: set<nat>, held: Option<nat>, queue: seq<nat>, bag: multiset<Entry>,
                          tasks: map<nat, Task>) {
    forall t {:trigger OpenWakes(t)} :: OpenWakes(t) ==>
      && Distinct(queue)
      && (forall id :: id in owed ==>
            id in tasks && !tasks[id].state.Completed? && Recorded(id, held, queue, bag, tasks))
  }

  function Finished(tasks: map<nat, Task>): set<nat> {
    set id | id in tasks && tasks[id].state.Completed?
  }

  /** The tasks are those of the history, in state Completed exactly when a poll completed, and
      nothing is polled after that. */
  ghost predicate HistOk(h: seq<Event>, tasks: map<nat, Task>) {
    forall t {:trigger OpenLog(t)} :: OpenLog(t) ==>
      Matches(h, tasks) && NoPollAfterReady(h) && |tasks| == CountSpawns(h) && |Finished(tasks)| == CountDone(h)
  }

  /** Every poll had a reason; a task in the wake queue was woken, a Woken one may be polled, and a
      task that is not Woken has been polled. */
  ghost predicate PollsOk(h: seq<Event>, held: Option<nat>, queue: seq<nat>, tasks: map<nat, Task>, clock: nat,
                          timeout: nat) {
    forall t {:trigger OpenPolls(t)} :: OpenPolls(t) ==>
      && AllReasoned(h, timeout) && SpawnedFirst(h)
      && (forall i :: 0 <= i < |h| && h[i].Begin? ==> h[i].id in tasks)
      && (forall id :: id in queue || held == Some(id) ==> Stirred(h, id))
      && (forall id :: id in tasks ==> PollOk(h, id, tasks[id], clock, timeout))
  }

  ghost predicate PollOk(h: seq<Event>, id: nat, task: Task, clock: nat, timeout: nat) {
    && task.lastRunAt == LastBegin(h, id) && task.runCount == CountPolls(h, id)
    && (task.lastRunAt.None? ==> task.state.Woken?)
    && (task.state.Woken? ==> MayPoll(h, id, clock, timeout))
  }

  /** An event, other than of a poll of a task that is Woken, and what it does to one task. */
  lemma PollsStep(h: seq<Event>, held: Option<nat>, queue: seq<nat>, tasks: map<nat, Task>, clock: nat, timeout: nat,
                  e: Event, task: Task)
    requires Whole(PollsOk(h, held, queue, tasks, clock, timeout)) && e.id in tasks
    requires e.End? || (e.Begin? && MayPoll(h, e.id, clock, timeout) && e.at == clock && (e.queued <==> e.id in queue))
    requires held == None && PollOk(h + [e], e.id, task, clock, timeout)
    ensures PollsOk(h + [e], held, queue, tasks[e.id := task], clock, timeout)
  {
    assert OpenPolls(0);
    ReasonedNext(h, e, timeout);
    forall id: nat
      ensures LastBegin(h + [e], id) == if IsBegin(e, id) then Some(e.at) else LastBegin(h, id)
      ensures CountPolls(h + [e], id) == CountPolls(h, id) + if IsBegin(e, id) then 1 else 0
      ensures Stirred(h + [e], id) <==> if IsBegin(e, id) then e.queued else Stirred(h, id)
    {
      PollsNext(h, e, id);
    }
  }

  lemma PollsWake(h: seq<Event>, held: Option<nat>, queue: seq<nat>, tasks: map<nat, Task>, clock: nat, timeout: nat,
                  id: nat, queue': seq<nat>)
    requires Whole(PollsOk(h, held, queue, tasks, clock, timeout))
    requires queue' == queue || queue' == queue + [id]
    ensures PollsOk(h + [Wake(id)], held, queue', tasks, clock, timeout)
  {
    assert OpenPolls(0);
    ReasonedNext(h, Wake(id), timeout);
    forall x: nat
      ensures LastBegin(h + [Wake(id)], x) == LastBegin(h, x) && CountPolls(h + [Wake(id)], x) == CountPolls(h, x)
      ensures Stirred(h + [Wake(id)], x) <==> Stirred(h, x) || x == id
    {
      PollsNext(h, Wake(id), x);
    }
  }

  lemma PollsSpawn(h: seq<Event>, held: Option<nat>, queue: seq<nat>, tasks: map<nat, Task>, clock: nat, timeout: nat,
                   id: nat)
    requires Whole(PollsOk(h, held, queue, tasks, clock, timeout)) && id !in tasks
    ensures PollsOk(h + [Spawn(id)], held, queue, tasks[id := NewTask(clock)], clock, timeout)
  {
    assert OpenPolls(0);
    ReasonedNext(h, Spawn(id), timeout);
    forall x: nat
      ensures LastBegin(h + [Spawn(id)], x) == LastBegin(h, x) && CountPolls(h + [Spawn(id)], x) == CountPolls(h, x)
      ensures Stirred(h + [Spawn(id)], x) <==> Stirred(h, x) || x == id
    {
      PollsNext(h, Spawn(id), x);
    }
    NeverBegun(h, id);
  }

  lemma PollsLater(h: seq<Event>, held: Option<nat>, queue: seq<nat>, tasks: map<nat, Task>, clock: nat, timeout: nat,
                   clock': nat)
    requires Whole(PollsOk(h, held, queue, tasks, clock, timeout)) && clock <= clock'
    ensures PollsOk(h, held, queue, tasks, clock', timeout)
  {
    assert OpenPolls(0);
    forall id | id in tasks ensures PollOk(h, id, tasks[id], clock', timeout) {
      assert PollOk(h, id, tasks[id], clock, timeout);
    }
  }

  lemma PollsTake(h: seq<Event>, queue: seq<nat>, tasks: map<nat, Task>, clock: nat, timeout: nat)
    requires Whole(PollsOk(h, None, queue, tasks, clock, timeout)) && queue != []
    ensures PollsOk(h, Some(queue[0]), queue[1..], tasks, clock, timeout)
  {
    assert OpenPolls(0);
  }

  /** A wake that was taken off the queue, or an expired task, makes the task Woken. */
  lemma PollsMark(h: seq<Event>, held: Option<nat>, queue: seq<nat>, tasks: map<nat, Task>, clock: nat, timeout: nat,
                  id: nat, task: Task)
    requires Whole(PollsOk(h, held, queue, tasks, clock, timeout)) && id in tasks
    requires held == Some(id) || Expired(tasks[id], clock, timeout) || tasks[id].state.Woken?
    requires task.state.Woken? && task.lastRunAt == tasks[id].lastRunAt && task.runCount == tasks[id].runCount
    ensures PollsOk(h, None, queue, tasks[id := task], clock, timeout)
  {
    assert OpenPolls(0);
    assert PollOk(h, id, tasks[id], clock, timeout);
  }

  lemma PollsDrop(h: seq<Event>, held: Option<nat>, queue: seq<nat>, tasks: map<nat, Task>, clock: nat, timeout: nat)
    requires Whole(PollsOk(h, held, queue, tasks, clock, timeout))
    ensures PollsOk(h, None, queue, tasks, clock, timeout)
  {
    assert OpenPolls(0);
  }

  lemma PollsFacts(h: seq<Event>, held: Option<nat>, queue: seq<nat>, tasks: map<nat, Task>, clock: nat, timeout: nat,
                   id: nat)
    requires Whole(PollsOk(h, held, queue, tasks, clock, timeout)) && id in tasks
    ensures PollOk(h, id, tasks[id], clock, timeout)
  {
    assert OpenPolls(0);
  }

  ghost predicate Matches(h: seq<Event>, tasks: map<nat, Task>) {
    && (forall id :: id in tasks <==> Spawn(id) in h)
    && (forall id :: id in tasks && tasks[id].state.Completed? <==> End(id, true) in h)
  }

  lemma MatchesNext(h: seq<Event>, tasks: map<nat, Task>, e: Event, task: Task)
    requires Matches(h, tasks) && (e.id in tasks ==> !tasks[e.id].state.Completed?) && (e.id !in tasks <==> e.Spawn?)
    requires task.state.Completed? <==> e.End? && e.ready
    ensures Matches(h + [e], tasks[e.id := task])
  {
    var h', tasks' := h + [e], tasks[e.id := task];
    assert h'[|h|] == e;
    forall x: nat ensures Spawn(x) in h' <==> Spawn(x) in h || e == Spawn(x) {
    }
    forall x: nat ensures End(x, true) in h' <==> End(x, true) in h || e == End(x, true) {
    }
  }

  lemma MatchesWake(h: seq<Event>, tasks: map<nat, Task>, id: nat)
    requires Matches(h, tasks)
    ensures Matches(h + [Wake(id)], tasks)
  {
    forall x: nat ensures Spawn(x) in h + [Wake(id)] <==> Spawn(x) in h {
    }
    forall x: nat ensures End(x, true) in h + [Wake(id)] <==> End(x, true) in h {
    }
  }

  lemma FinishedNext(tasks: map<nat, Task>, id: nat, task: Task)
    requires id in tasks ==> !tasks[id].state.Completed?
    ensures |Finished(tasks[id := task])| == |Finished(tasks)| + if task.state.Completed? then 1 else 0
    ensures |tasks[id := task]| == |tasks| + if id in tasks then 0 else 1
  {
    assert Finished(tasks[id := task]) == if task.state.Completed? then Finished(tasks) + {id} else Finished(tasks);
  }

  lemma NoPollNext(h: seq<Event>, e: Event)
    requires NoPollAfterReady(h) && (e.Begin? ==> End(e.id, true) !in h)
    ensures NoPollAfterReady(h + [e])
  {
  }

  /** The registry holds the tasks that have not completed. `busy` is the task between the start
      of its poll and its removal from the registry. */
  ghost predicate TasksOk(tasks: map<nat, Task>, registry: set<nat>, heap: multiset<Entry>, nextId: nat, clock: nat,
                          busy: Option<nat>) {
    forall t {:trigger OpenTasks(t)} :: OpenTasks(t) ==>
      && (forall id :: id in tasks ==> id < nextId)
      && (forall id :: id in registry ==> id in tasks)
      && (forall id :: id in tasks && !tasks[id].state.Completed? ==> id in registry)
      && (forall id :: id in tasks && Some(id) != busy ==>
            !tasks[id].state.Running? && (id in registry ==> !tasks[id].state.Completed?))
      && (forall e {:trigger heap[e]} :: e in heap ==> e.isWoken && e.id in tasks && e.timestamp <= clock)
      && (forall id :: id in tasks ==>
            tasks[id].createdAt <= clock && (tasks[id].lastRunAt.Some? ==> tasks[id].lastRunAt.value <= clock))
  }

  // ----- what each step does to it -----

  lemma QueuedMore(bag: multiset<Entry>, e: Entry, id: nat)
    ensures Queued(bag + multiset{e}, id) <==> Queued(bag, id) || e.id == id
  {
    if Queued(bag, id) {
      var x :| x in bag && x.id == id;
      assert x in bag + multiset{e};
    }
    if e.id == id {
      assert e in bag + multiset{e};
    }
  }

  lemma TasksLater(tasks: map<nat, Task>, registry: set<nat>, heap: multiset<Entry>, nextId: nat, clock: nat,
                   busy: Option<nat>, clock': nat)
    requires Whole(TasksOk(tasks, registry, heap, nextId, clock, busy)) && clock <= clock'
    ensures TasksOk(tasks, registry, heap, nextId, clock', busy)
  {
    assert OpenTasks(0);
  }

  lemma WakesEnqueue(owed: set<nat>, held: Option<nat>, queue: seq<nat>, bag: multiset<Entry>, tasks: map<nat, Task>,
                     id: nat, queue': seq<nat>)
    requires Whole(WakesOk(owed, held, queue, bag, tasks))
    requires queue' == if id in queue then queue else queue + [id]
    ensures WakesOk(owed, held, queue', bag, tasks)
    ensures id in tasks && !tasks[id].state.Completed? ==> WakesOk(owed + {id}, held, queue', bag, tasks)
  {
    assert OpenWakes(0);
  }

  lemma HistLive(h: seq<Event>, tasks: map<nat, Task>, id: nat)
    requires Whole(HistOk(h, tasks))
    ensures Live(h, id) <==> id in tasks && !tasks[id].state.Completed?
  {
    assert OpenLog(0);
  }

  /** A change from one live state to another needs no event. */
  lemma HistSame(h: seq<Event>, tasks: map<nat, Task>, id: nat, task: Task)
    requires Whole(HistOk(h, tasks)) && id in tasks && !task.state.Completed? && !tasks[id].state.Completed?
    ensures HistOk(h, tasks[id := task])
  {
    assert OpenLog(0);
    FinishedNext(tasks, id, task);
  }

  lemma HistWake(h: seq<Event>, tasks: map<nat, Task>, id: nat)
    requires Whole(HistOk(h, tasks))
    ensures HistOk(h + [Wake(id)], tasks)
  {
    assert OpenLog(0);
    MatchesWake(h, tasks, id);
    NoPollNext(h, Wake(id));
    HistoryNext(h, Wake(id));
  }

  /** A spawn, or the begin or end of a poll, with the state the task then has. */
  lemma HistNext(h: seq<Event>, tasks: map<nat, Task>, e: Event, task: Task)
    requires Whole(HistOk(h, tasks)) && !e.Wake? && (e.id !in tasks <==> e.Spawn?)
    requires e.id in tasks ==> !tasks[e.id].state.Completed?
    requires task.state.Completed? <==> e.End? && e.ready
    ensures HistOk(h + [e], tasks[e.id := task])
  {
    assert OpenLog(0);
    MatchesNext(h, tasks, e, task);
    FinishedNext(tasks, e.id, task);
    NoPollNext(h, e);
    HistoryNext(h, e);
  }

  lemma TasksSpawn(tasks: map<nat, Task>, registry: set<nat>, heap: multiset<Entry>, nextId: nat, clock: nat,
                   busy: Option<nat>)
    requires Whole(TasksOk(tasks, registry, heap, nextId, clock, busy))
    ensures TasksOk(tasks[nextId := NewTask(clock)], registry + {nextId}, heap, nextId + 1, clock, busy)
    ensures nextId !in tasks
  {
    assert OpenTasks(0);
    assert nextId !in tasks;
  }

  lemma TasksPush(tasks: map<nat, Task>, registry: set<nat>, heap: multiset<Entry>, nextId: nat, clock: nat,
                  busy: Option<nat>, e: Entry)
    requires Whole(TasksOk(tasks, registry, heap, nextId, clock, busy)) && e.isWoken && e.id in tasks
    requires e.timestamp <= clock
    ensures TasksOk(tasks, registry, heap + multiset{e}, nextId, clock, busy)
  {
    assert OpenTasks(0);
  }

  lemma TasksPop(tasks: map<nat, Task>, registry: set<nat>, heap: multiset<Entry>, nextId: nat, clock: nat,
                 busy: Option<nat>, e: Entry)
    requires Whole(TasksOk(tasks, registry, heap, nextId, clock, busy)) && e in heap
    ensures TasksOk(tasks, registry, heap - multiset{e}, nextId, clock, busy)
    ensures e.isWoken && e.id in tasks
  {
    assert OpenTasks(0);
  }

  /** A live task changes state; only the busy one may run. */
  lemma TasksChange(tasks: map<nat, Task>, registry: set<nat>, heap: multiset<Entry>, nextId: nat, clock: nat,
                    busy: Option<nat>,
                    id: nat, task: Task, busy': Option<nat>)
    requires Whole(TasksOk(tasks, registry, heap, nextId, clock, busy)) && id in tasks && !tasks[id].state.Completed?
    requires busy == None || busy == Some(id)
    requires busy' == Some(id) || (busy' == None && !task.state.Running? && !task.state.Completed?)
    requires task.createdAt <= clock && (task.lastRunAt.Some? ==> task.lastRunAt.value <= clock)
    ensures TasksOk(tasks[id := task], registry, heap, nextId, clock, busy')
  {
    assert OpenTasks(0);
  }

  lemma TasksRetire(tasks: map<nat, Task>, registry: set<nat>, heap: multiset<Entry>, nextId: nat, clock: nat,
                    busy: Option<nat>, id: nat)
    requires Whole(TasksOk(tasks, registry, heap, nextId, clock, busy)) && id in tasks && tasks[id].state.Completed?
    requires busy == None || busy == Some(id)
    ensures TasksOk(tasks, registry - {id}, heap, nextId, clock, None)
  {
    assert OpenTasks(0);
  }

  lemma TasksFacts(tasks: map<nat, Task>, registry: set<nat>, heap: multiset<Entry>, nextId: nat, clock: nat,
                   busy: Option<nat>, id: nat)
    requires Whole(TasksOk(tasks, registry, heap, nextId, clock, busy))
    ensures id in registry ==> id in tasks
    ensures id in tasks && !tasks[id].state.Completed? ==> id in registry
    ensures id in registry && busy == None ==> !tasks[id].state.Completed?
    ensures id in tasks && busy == None ==> !tasks[id].state.Running?
    ensures id in tasks ==>
              tasks[id].createdAt <= clock && (tasks[id].lastRunAt.Some? ==> tasks[id].lastRunAt.value <= clock)
  {
    assert OpenTasks(0);
  }

  lemma WakesSpawn(owed: set<nat>, held: Option<nat>, queue: seq<nat>, bag: multiset<Entry>, tasks: map<nat, Task>,
                   id: nat, task: Task)
    requires Whole(WakesOk(owed, held, queue, bag, tasks)) && id !in tasks
    ensures WakesOk(owed, held, queue, bag, tasks[id := task])
  {
    assert OpenWakes(0);
  }

  lemma WakesTake(owed: set<nat>, queue: seq<nat>, bag: multiset<Entry>, tasks: map<nat, Task>)
    requires Whole(WakesOk(owed, None, queue, bag, tasks)) && queue != []
    ensures WakesOk(owed, Some(queue[0]), queue[1..], bag, tasks)
  {
    assert OpenWakes(0);
    forall id | id in owed ensures Recorded(id, Some(queue[0]), queue[1..], bag, tasks) {
      if id in queue {
        var i :| 0 <= i < |queue| && queue[i] == id;
        if i > 0 {
          assert queue[1..][i - 1] == id;
        }
      }
    }
  }

  /** The task is marked Woken and an entry for it is pushed. */
  lemma WakesPush(owed: set<nat>, held: Option<nat>, queue: seq<nat>, bag: multiset<Entry>, tasks: map<nat, Task>,
                  e: Entry, task: Task)
    requires Whole(WakesOk(owed, held, queue, bag, tasks)) && e.id in tasks && !tasks[e.id].state.Completed?
    requires task.state.Woken?
    requires held == None || held == Some(e.id)
    ensures WakesOk(owed, None, queue, bag + multiset{e}, tasks[e.id := task])
    ensures WakesOk(owed + {e.id}, None, queue, bag + multiset{e}, tasks[e.id := task])
  {
    assert OpenWakes(0);
    forall id: nat ensures Queued(bag + multiset{e}, id) <==> Queued(bag, id) || e.id == id {
      QueuedMore(bag, e, id);
    }
  }

  lemma WakesDrop(owed: set<nat>, id: nat, queue: seq<nat>, bag: multiset<Entry>, tasks: map<nat, Task>)
    requires Whole(WakesOk(owed, Some(id), queue, bag, tasks)) && (id in tasks ==> tasks[id].state.Completed?)
    ensures WakesOk(owed, None, queue, bag, tasks)
  {
    assert OpenWakes(0);
  }

  /** An entry of a task that is not Woken, or owes nothing any more, can go. */
  lemma WakesForget(owed: set<nat>, queue: seq<nat>, heap: multiset<Entry>, tasks: map<nat, Task>, e: Entry)
    requires Whole(WakesOk(owed, None, queue, heap + multiset{e}, tasks))
    requires e.id in owed && e.id in tasks ==> !tasks[e.id].state.Woken?
    ensures WakesOk(owed, None, queue, heap, tasks)
  {
    assert OpenWakes(0);
    forall id: nat ensures Queued(heap + multiset{e}, id) <==> Queued(heap, id) || e.id == id {
      QueuedMore(heap, e, id);
    }
  }

  /** A poll begins, or a task that was already polled goes back to Pending or completes. */
  lemma WakesChange(owed: set<nat>, queue: seq<nat>, bag: multiset<Entry>, tasks: map<nat, Task>, id: nat, task: Task)
    requires Whole(WakesOk(owed, None, queue, bag, tasks)) && id in tasks
    ensures WakesOk(owed - {id}, None, queue, bag, tasks[id := task])
    ensures !tasks[id].state.Completed? && !task.state.Completed? && (tasks[id].state.Woken? ==> task.state.Woken?) ==>
              WakesOk(owed, None, queue, bag, tasks[id := task])
  {
    assert OpenWakes(0);
  }

  function NewTask(clock: nat): Task {
    Task(Woken, clock, clock, None, 0)
  }

  function EntryOf(id: nat, task: Task): Entry {
    Entry(task.state.Woken?, task.lastWakeAt, id)
  }

  /** `is_expired` */
  predicate Expired(task: Task, clock: nat, timeout: nat) {
    clock - (if task.lastRunAt.Some? then task.lastRunAt.value else task.createdAt) > timeout
  }

  /** `process_one_task` polls the task if it pops an entry of it. */
  predicate Ready(tasks: map<nat, Task>, clock: nat, timeout: nat, id: nat) {
    id in tasks && !tasks[id].state.Completed? && (tasks[id].state.Woken? || Expired(tasks[id], clock, timeout))
  }

  /** The last poll of the task began more than the timeout ago. */
  predicate Overdue(h: seq<Event>, clock: nat, timeout: nat, id: nat) {
    LastBegin(h, id).Some? && clock - LastBegin(h, id).value > timeout
  }

  /** In terms of the history: a task is ready if it is Woken or its last poll is too long ago. A task
      that was never polled is Woken, so the time of its creation never decides. */
  lemma ReadyMeans(h: seq<Event>, queue: seq<nat>, tasks: map<nat, Task>, clock: nat, timeout: nat, id: nat)
    requires Whole(PollsOk(h, None, queue, tasks, clock, timeout)) && id in tasks && !tasks[id].state.Completed?
    ensures Ready(tasks, clock, timeout, id) <==> tasks[id].state.Woken? || Overdue(h, clock, timeout, id)
  {
    PollsFacts(h, None, queue, tasks, clock, timeout, id);
  }

  /** No task but `id` changed, none was forgotten, and new ones are Woken. */
  ghost predicate OnlyChanged(tasks: map<nat, Task>, tasks': map<nat, Task>, id: nat) {
    && (forall k :: k in tasks ==> k in tasks' && (k != id ==> tasks'[k] == tasks[k]))
    && (forall k :: k in tasks' && k !in tasks ==> tasks'[k].state.Woken?)
  }

  /** Where an executor stands after the first `at` events of its history. */
  datatype Mark = Mark(at: nat, tasks: map<nat, Task>, registry: set<nat>, queue: seq<nat>, heap: multiset<Entry>,
                       clock: nat)

  class SingleCpuExecutor {
    var wakeQueue: seq<nat>
    var heap: multiset<Entry>
    var registry: set<nat>
    var tasks: map<nat, Task>
    var nextId: nat
    var clock: nat
    const timeout: nat

    // Everything that has happened to tasks so far.
    ghost var history: seq<Event>

    ghost predicate Inv(busy: Option<nat>, held: Option<nat>, taken: multiset<Entry>)
      reads this
    {
      && Whole(TasksOk(tasks, registry, heap, nextId, clock, busy))
      && Whole(WakesOk(OwedIn(history), held, wakeQueue, heap + taken, tasks))
      && Whole(HistOk(history, tasks))
      && Whole(PollsOk(history, held, wakeQueue, tasks, clock, timeout))
    }

    ghost predicate Valid()
      reads this
    {
      Inv(None, None, multiset{})
    }

    ghost function Here(): Mark
      reads this
    {
      Mark(|history|, tasks, registry, wakeQueue, heap, clock)
    }

    constructor (timeout: nat)
      ensures Valid() && history == [] && Here() == Mark(0, map[], {}, [], multiset{}, 0) && this.timeout == timeout
      ensures nextId == 1
    {
      this.timeout := timeout;
      wakeQueue, heap, registry, tasks, nextId, clock := [], multiset{}, {}, map[], 1, 0;
      history := [];
    }

    /** `enqueue_task_wakeup`, which every Waker calls. */
    method Enqueue(id: nat, ghost busy: Option<nat>, ghost held: Option<nat>, ghost taken: multiset<Entry>)
      requires Inv(busy, held, taken)
      modifies this`wakeQueue, this`history
      ensures Inv(busy, held, taken)
      ensures wakeQueue == if id in old(wakeQueue) then old(wakeQueue) else old(wakeQueue) + [id]
      ensures history == old(history) + [Wake(id)] && Quiet(old(history), history)
    {
      WakesEnqueue(OwedIn(history), held, wakeQueue, heap + taken, tasks, id,
                   if id in wakeQueue then wakeQueue else wakeQueue + [id]);
      HistLive(history, tasks, id);
      HistWake(history, tasks, id);
      HistoryNext(history, Wake(id));
      QuietNext(history, Wake(id));
      PollsWake(history, held, wakeQueue, tasks, clock, timeout, id,
                if id in wakeQueue then wakeQueue else wakeQueue + [id]);
      if id !in wakeQueue {
        wakeQueue := wakeQueue + [id];
      }
      history := history + [Wake(id)];
    }

    /** Whatever happens between two critical sections: time passes and any tasks are woken,
        `budget` of them at most. */
    method Preempt(budget: nat, ghost busy: Option<nat>, ghost held: Option<nat>,
                   ghost taken: multiset<Entry>) returns (left: nat)
      requires Inv(busy, held, taken)
      modifies this`wakeQueue, this`history, this`clock
      ensures Inv(busy, held, taken)
      ensures left + |wakeQueue| <= budget + |old(wakeQueue)| && left <= budget
      ensures Quiet(old(history), history) && clock >= old(clock) && old(wakeQueue) <= wakeQueue
    {
      var n: nat := *;
      left := budget;
      while n > 0 && left > 0
        invariant Inv(busy, held, taken)
        invariant left + |wakeQueue| <= budget + |old(wakeQueue)| && left <= budget
        invariant Quiet(old(history), history) && clock == old(clock) && old(wakeQueue) <= wakeQueue
      {
        var id: nat := *;
        ghost var h := history;
        Enqueue(id, busy, held, taken);
        QuietTrans(old(history), h, history);
        n, left := n - 1, left - 1;
      }
      var passed: nat :| passed >= 0;
      TasksLater(tasks, registry, heap, nextId, clock, busy, clock + passed);
      PollsLater(history, held, wakeQueue, tasks, clock, timeout, clock + passed);
      clock := clock + passed;
    }

    /** The first critical section of `spawn`. */
    method Register(ghost busy: Option<nat>) returns (id: nat)
      requires Inv(busy, None, multiset{})
      modifies this`tasks, this`registry, this`nextId, this`history
      ensures Inv(busy, None, multiset{})
      ensures id !in old(tasks) && tasks == old(tasks)[id := Task(Woken, clock, clock, None, 0)]
      ensures registry == old(registry) + {id}
      ensures id == old(nextId) && nextId == old(nextId) + 1
      ensures history == old(history) + [Spawn(id)]
    {
      id := nextId;
      TasksSpawn(tasks, registry, heap, nextId, clock, busy);
      WakesSpawn(OwedIn(history), None, wakeQueue, heap + multiset{}, tasks, id, NewTask(clock));
      HistNext(history, tasks, Spawn(id), NewTask(clock));
      PollsSpawn(history, None, wakeQueue, tasks, clock, timeout, id);
      HistoryNext(history, Spawn(id));
      nextId := nextId + 1;
      tasks := tasks[id := NewTask(clock)];
      registry := registry + {id};
      history := history + [Spawn(id)];
    }

    /** `add_task_to_queue` for a task that has just been spawned. */
    method AddTaskToQueue(id: nat, ghost busy: Option<nat>)
      requires Inv(busy, None, multiset{})
      requires id in registry && id in tasks && tasks[id].state.Woken? && tasks[id].lastWakeAt <= clock
      modifies this`heap, this`history
      ensures Inv(busy, None, multiset{})
      ensures heap == old(heap) + multiset{EntryOf(id, tasks[id])}
      ensures history == old(history) + [Wake(id)] && Quiet(old(history), history)
    {
      var e := EntryOf(id, tasks[id]);
      TasksPush(tasks, registry, heap, nextId, clock, busy, e);
      WakesPush(OwedIn(history), None, wakeQueue, heap + multiset{}, tasks, e, tasks[id]);
      HistLive(history, tasks, id);
      HistWake(history, tasks, id);
      HistoryNext(history, Wake(id));
      QuietNext(history, Wake(id));
      PollsWake(history, None, wakeQueue, tasks, clock, timeout, id, wakeQueue);
      assert tasks[id := tasks[id]] == tasks;
      assert heap + multiset{} + multiset{e} == heap + multiset{e} + multiset{};
      heap := heap + multiset{e};
      history := history + [Wake(id)];
    }

    /** `spawn`, from anywhere, also from inside a poll. */
    method SpawnTask(budget: nat, ghost busy: Option<nat>) returns (id: nat, left: nat, ghost e: Entry)
      requires Inv(busy, None, multiset{})
      modifies this`tasks, this`registry, this`nextId, this`heap, this`wakeQueue, this`history, this`clock
      ensures Inv(busy, None, multiset{})
      ensures id !in old(tasks) && tasks == old(tasks)[id := NewTask(old(clock))]
      ensures id in OwedIn(history) && left <= budget
      ensures old(history) + [Spawn(id)] <= history && Quiet(old(history), history)
      ensures heap == old(heap) + multiset{e} && e == Entry(true, old(clock), id) && id >= old(nextId)
      ensures clock >= old(clock) && nextId >= old(nextId)
      ensures registry == old(registry) + {id} && old(wakeQueue) <= wakeQueue
    {
      id := Register(busy);
      e := EntryOf(id, tasks[id]);
      ghost var h := history;
      left := Preempt(budget, busy, None, multiset{});
      ghost var h1 := history;
      StillRegistered(id, busy);
      AddTaskToQueue(id, busy);
      SpawnedQuietly(old(history), id, h, h1, history);
    }

    static lemma SpawnedQuietly(h0: seq<Event>, id: nat, h: seq<Event>, h1: seq<Event>, h2: seq<Event>)
      requires h == h0 + [Spawn(id)] && Quiet(h, h1) && h2 == h1 + [Wake(id)] && Quiet(h1, h2) && Live(h1, id)
      ensures Quiet(h0, h2) && h <= h2 && id in OwedIn(h2)
    {
      QuietNext(h0, Spawn(id));
      QuietTrans(h0, h, h1);
      QuietTrans(h0, h1, h2);
      HistoryNext(h1, Wake(id));
    }

    lemma StillRegistered(id: nat, busy: Option<nat>)
      requires Inv(busy, None, multiset{}) || Inv(busy, Some(id), multiset{})
      requires id in tasks && !tasks[id].state.Completed?
      ensures id in registry && Live(history, id)
    {
      TasksFacts(tasks, registry, heap, nextId, clock, busy, id);
      HistLive(history, tasks, id);
    }

    /** `queue.pop_front()` in `process_wake_queue` */
    method Take() returns (id: nat)
      requires Valid() && wakeQueue != []
      modifies this`wakeQueue
      ensures Inv(None, Some(id), multiset{}) && id == old(wakeQueue)[0] && wakeQueue == old(wakeQueue)[1..]
    {
      WakesTake(OwedIn(history), wakeQueue, heap + multiset{}, tasks);
      PollsTake(history, wakeQueue, tasks, clock, timeout);
      id := wakeQueue[0];
      wakeQueue := wakeQueue[1..];
    }

    /** The critical section of `process_wake_queue` after an id was taken off the queue. */
    method Move(id: nat)
      requires Inv(None, Some(id), multiset{})
      modifies this`tasks, this`heap
      ensures Valid()
      ensures id in registry ==>
                && id in old(tasks)
                && tasks == old(tasks)[id := old(tasks)[id].(state := Woken, lastWakeAt := clock)]
                && heap == old(heap) + multiset{Entry(true, clock, id)}
      ensures id !in registry ==> tasks == old(tasks) && heap == old(heap)
    {
      TasksFacts(tasks, registry, heap, nextId, clock, None, id);
      if id in registry {
        var task := tasks[id].(state := Woken, lastWakeAt := clock);
        var e := EntryOf(id, task);
        TasksChange(tasks, registry, heap, nextId, clock, None, id, task, None);
        TasksPush(tasks[id := task], registry, heap, nextId, clock, None, e);
        WakesPush(OwedIn(history), Some(id), wakeQueue, heap + multiset{}, tasks, e, task);
        HistSame(history, tasks, id, task);
        PollsMark(history, Some(id), wakeQueue, tasks, clock, timeout, id, task);
        assert heap + multiset{} + multiset{e} == heap + multiset{e} + multiset{};
        tasks := tasks[id := task];
        heap := heap + multiset{e};
      } else {
        WakesDrop(OwedIn(history), id, wakeQueue, heap + multiset{}, tasks);
        PollsDrop(history, Some(id), wakeQueue, tasks, clock, timeout);
      }
    }

    /** `process_wake_queue`; it ends once the wakes that keep arriving do. */
    method ProcessWakeQueue(budget: nat) returns (left: nat, ghost added: multiset<Entry>)
      requires Valid()
      modifies this`tasks, this`heap, this`wakeQueue, this`history, this`clock
      ensures Valid() && wakeQueue == [] && left <= budget && clock >= old(clock)
      ensures Quiet(old(history), history)
      ensures heap == old(heap) + added && Newer(added, old(clock))
      ensures Whole(Moved(old(wakeQueue), registry, [], heap, []))
      ensures Whole(Marked(old(tasks), old(wakeQueue), registry, [], tasks))
    {
      left, added := budget, multiset{};
      MovedNone(wakeQueue, registry, heap);
      MarkedNone(tasks, wakeQueue, registry);
      while true
        invariant Valid() && left <= budget && Quiet(old(history), history) && clock >= old(clock)
        invariant heap == old(heap) + added && Newer(added, old(clock))
        invariant Whole(Moved(old(wakeQueue), registry, wakeQueue, heap, []))
        invariant Whole(Marked(old(tasks), old(wakeQueue), registry, wakeQueue, tasks))
        decreases left + |wakeQueue|
      {
        if wakeQueue == [] {
          return;
        }
        ghost var queue0 := wakeQueue;
        var id := Take();
        ghost var h := history;
        left := Preempt(left, None, Some(id), multiset{});
        QuietTrans(old(history), h, history);
        ghost var heap1, tasks1 := heap, tasks;
        if id in registry {
          added := added + multiset{Entry(true, clock, id)};
        }
        Move(id);
        MovedOne(old(wakeQueue), registry, queue0, wakeQueue, heap1, heap, Entry(true, clock, id));
        MarkedOne(old(tasks), old(wakeQueue), registry, queue0, wakeQueue, tasks1, tasks);
        queue0 := wakeQueue;
        h := history;
        left := Preempt(left, None, None, multiset{});
        QuietTrans(old(history), h, history);
        MovedMore(old(wakeQueue), registry, queue0, wakeQueue, heap);
        MarkedMore(old(tasks), old(wakeQueue), registry, queue0, wakeQueue, tasks);
      }
    }

    /** What a future may do while it is polled: anything can be woken or spawned. */
    method RunFuture(budget: nat, ghost id: nat) returns (left: nat, ghost added: multiset<Entry>)
      requires Inv(Some(id), None, multiset{}) && id in tasks
      modifies this`tasks, this`registry, this`nextId, this`heap, this`wakeQueue, this`history, this`clock
      ensures Inv(Some(id), None, multiset{})
      ensures id in tasks && tasks[id] == old(tasks)[id] && Quiet(old(history), history) && left <= budget
      ensures clock >= old(clock) && OnlyChanged(old(tasks), tasks, id)
      ensures heap == old(heap) + added && Late(added, old(clock), old(nextId))
    {
      left := Preempt(budget, Some(id), None, multiset{});
      added := multiset{};
      var steps: nat := *;
      while steps > 0
        invariant Inv(Some(id), None, multiset{})
        invariant id in tasks && tasks[id] == old(tasks)[id] && Quiet(old(history), history) && left <= budget
        invariant heap == old(heap) + added && Late(added, old(clock), old(nextId))
        invariant clock >= old(clock) && nextId >= old(nextId) && OnlyChanged(old(tasks), tasks, id)
      {
        ghost var h := history;
        var _, rest, e := SpawnTask(left, Some(id));
        QuietTrans(old(history), h, history);
        added := added + multiset{e};
        h := history;
        left := Preempt(rest, Some(id), None, multiset{});
        QuietTrans(old(history), h, history);
        steps := steps - 1;
      }
    }

    /** The start of `TaskRef::poll`: from here on an older wake is answered. */
    method BeginPoll(id: nat, ghost e: Entry)
      requires Inv(None, None, multiset{e}) && id == e.id && id in tasks && tasks[id].state.Woken?
      modifies this`tasks, this`history
      ensures Inv(Some(id), None, multiset{})
      ensures tasks == old(tasks)[id := old(tasks)[id].(state := Running, lastRunAt := Some(clock),
                                                        runCount := old(tasks)[id].runCount + 1)]
      ensures history == old(history) + [Begin(id, clock, id in wakeQueue)]
    {
      TasksFacts(tasks, registry, heap, nextId, clock, None, id);
      var task := tasks[id].(state := Running, lastRunAt := Some(clock), runCount := tasks[id].runCount + 1);
      TasksChange(tasks, registry, heap, nextId, clock, None, id, task, Some(id));
      WakesChange(OwedIn(history), wakeQueue, heap + multiset{e}, tasks, id, task);
      WakesForget(OwedIn(history) - {id}, wakeQueue, heap, tasks[id := task], e);
      assert heap + multiset{} == heap;
      ghost var begin := Begin(id, clock, id in wakeQueue);
      HistNext(history, tasks, begin, task);
      HistoryNext(history, begin);
      PollsFacts(history, None, wakeQueue, tasks, clock, timeout, id);
      PollsNext(history, begin, id);
      PollsStep(history, None, wakeQueue, tasks, clock, timeout, begin, task);
      tasks := tasks[id := task];
      history := history + [begin];
    }

    /** The end of `TaskRef::poll`. */
    method EndPoll(id: nat, ready: bool)
      requires Inv(Some(id), None, multiset{}) && id in tasks && tasks[id].state.Running?
      modifies this`tasks, this`history
      ensures Inv(if ready then Some(id) else None, None, multiset{})
      ensures tasks == old(tasks)[id := old(tasks)[id].(state := if ready then Completed else Pending)]
      ensures history == old(history) + [End(id, ready)]
    {
      TasksFacts(tasks, registry, heap, nextId, clock, Some(id), id);
      var task := tasks[id].(state := if ready then Completed else Pending);
      TasksChange(tasks, registry, heap, nextId, clock, Some(id), id, task, if ready then Some(id) else None);
      WakesChange(OwedIn(history), wakeQueue, heap + multiset{}, tasks, id, task);
      HistNext(history, tasks, End(id, ready), task);
      HistoryNext(history, End(id, ready));
      PollsFacts(history, None, wakeQueue, tasks, clock, timeout, id);
      PollsNext(history, End(id, ready), id);
      PollsStep(history, None, wakeQueue, tasks, clock, timeout, End(id, ready), task);
      tasks := tasks[id := task];
      history := history + [End(id, ready)];
    }

    /** `TaskRef::poll` */
    method Poll(id: nat, budget: nat, ghost e: Entry) returns (ready: bool, left: nat, ghost added: multiset<Entry>)
      requires Inv(None, None, multiset{e}) && id == e.id && id in tasks && tasks[id].state.Woken?
      modifies this
      ensures Inv(if ready then Some(id) else None, None, multiset{})
      ensures id in tasks && (ready ==> tasks[id].state.Completed?) && left <= budget && clock >= old(clock)
      ensures OnePoll(old(history), history, id) && !Quiet(old(history), history)
      ensures OnlyChanged(old(tasks), tasks, id)
      ensures heap == old(heap) + added && Late(added, old(clock), old(nextId))
    {
      ghost var begin := Begin(id, clock, id in wakeQueue);
      BeginPoll(id, e);
      ghost var h1 := history;
      left, added := RunFuture(budget, id);
      ghost var h2 := history;
      ready := *;
      EndPoll(id, ready);
      PollSpan(old(history), begin, h1, h2, history, id, ready);
    }

    /** Whether a popped task is to be polled; an expired one is promoted. */
    method ShouldExecute(id: nat, ghost e: Entry) returns (yes: bool)
      requires Inv(None, None, multiset{e}) && id == e.id && id in tasks && !tasks[id].state.Completed?
      modifies this`tasks
      ensures Inv(None, None, if yes then multiset{e} else multiset{})
      ensures tasks == old(tasks) ||
              tasks == old(tasks)[id := old(tasks)[id].(state := Woken, lastWakeAt := clock)]
      ensures yes ==> tasks[id].state.Woken?
      ensures !yes ==> tasks == old(tasks)
      ensures yes <==> old(tasks)[id].state.Woken? || Expired(old(tasks)[id], clock, timeout)
      ensures yes <==> old(tasks)[id].state.Woken? || Overdue(history, clock, timeout, id)
    {
      ReadyMeans(history, wakeQueue, tasks, clock, timeout, id);
      if tasks[id].state.Woken? {
        return true;
      }
      TasksFacts(tasks, registry, heap, nextId, clock, None, id);
      if Expired(tasks[id], clock, timeout) {
        var task := tasks[id].(state := Woken, lastWakeAt := clock);
        TasksChange(tasks, registry, heap, nextId, clock, None, id, task, None);
        WakesChange(OwedIn(history), wakeQueue, heap + multiset{e}, tasks, id, task);
        HistSame(history, tasks, id, task);
        PollsMark(history, None, wakeQueue, tasks, clock, timeout, id, task);
        tasks := tasks[id := task];
        return true;
      }
      WakesForget(OwedIn(history), wakeQueue, heap, tasks, e);
      assert heap + multiset{} == heap;
      return false;
    }

    /** `queue.pop()`: the entry that was woken first. */
    method Pop() returns (e: Entry)
      requires Valid() && heap != multiset{}
      modifies this`heap
      ensures Inv(None, None, multiset{e}) && heap == old(heap) - multiset{e}
      ensures Top(e, old(heap)) && e.isWoken && e.id in tasks
    {
      ghost var top := TopExists(heap);
      e :| e in heap && Top(e, heap);
      TasksPop(tasks, registry, heap, nextId, clock, None, e);
      assert heap - multiset{e} + multiset{e} == heap + multiset{};
      heap := heap - multiset{e};
    }

    /** A task that is to be polled, and removed from the registry if it completes. */
    method Execute(id: nat, budget: nat, ghost e: Entry) returns (left: nat, ghost added: multiset<Entry>)
      requires Inv(None, None, multiset{e}) && id == e.id && id in tasks && tasks[id].state.Woken?
      modifies this
      ensures Valid() && left <= budget && clock >= old(clock)
      ensures OnePoll(old(history), history, id) && !Quiet(old(history), history)
      ensures OnlyChanged(old(tasks), tasks, id)
      ensures heap == old(heap) + added && Late(added, old(clock), old(nextId))
    {
      ghost var h0 := history;
      left := Preempt(budget, None, None, multiset{e});
      ghost var h1 := history;
      var ready;
      ready, left, added := Poll(id, left, e);
      ghost var h2 := history;
      if ready {
        left := Preempt(left, Some(id), None, multiset{});
        TasksRetire(tasks, registry, heap, nextId, clock, Some(id), id);
        registry := registry - {id};
      }
      PollBetween(h0, h1, h2, history, id);
    }

    /** What follows the pop: nothing for a stale entry, else one poll. */
    method Serve(e: Entry, budget: nat) returns (left: nat, ghost added: multiset<Entry>)
      requires Inv(None, None, multiset{e}) && e.id in tasks
      modifies this
      ensures Valid() && left <= budget && clock >= old(clock)
      ensures OnePoll(old(history), history, e.id) && OnlyChanged(old(tasks), tasks, e.id)
      ensures Ready(old(tasks), old(clock), timeout, e.id) ==> !Quiet(old(history), history)
      ensures heap == old(heap) + added && Late(added, old(clock), old(nextId))
    {
      var id := e.id;
      left, added := budget, multiset{};
      assert Quiet(history, history);
      if tasks[id].state.Completed? {
        TasksRetire(tasks, registry, heap, nextId, clock, None, id);
        WakesFinished(OwedIn(history), wakeQueue, heap, tasks, e);
        registry := registry - {id};
        return;
      }
      var yes := ShouldExecute(id, e);
      if yes {
        left, added := Execute(id, left, e);
      }
    }

    /** `process_one_task` */
    method ProcessOneTask(budget: nat) returns (popped: Option<Entry>, left: nat, ghost added: multiset<Entry>)
      requires Valid()
      modifies this
      ensures Valid() && left <= budget && clock >= old(clock)
      ensures popped.None? <==> old(heap) == multiset{}
      ensures popped.None? ==>
                history == old(history) && heap == old(heap) && clock == old(clock) && tasks == old(tasks)
      ensures popped.Some? ==> Top(popped.value, old(heap)) && heap == old(heap) - multiset{popped.value} + added
      ensures popped.Some? ==> Late(added, old(clock), old(nextId)) && OnePoll(old(history), history, popped.value.id)
      ensures popped.Some? ==> popped.value.id in old(tasks) && OnlyChanged(old(tasks), tasks, popped.value.id)
      ensures popped.Some? && Ready(old(tasks), old(clock), timeout, popped.value.id) ==> !Quiet(old(history), history)
    {
      added := multiset{};
      if heap == multiset{} {
        return None, budget, added;
      }
      ghost var h0 := history;
      var e := Pop();
      left := Preempt(budget, None, None, multiset{e});
      ghost var h1 := history;
      left, added := Serve(e, left);
      PollAfter(h0, h1, history, e.id);
      return Some(e), left, added;
    }

    /** An entry with `n` entries before it is popped within `n + 1` calls of `process_one_task`, and
        by then its task has been polled if it was to be. */
    method ServeEntry(x: Entry, budget: nat) returns (rounds: nat, left: nat, popped: Option<Entry>)
      requires Valid() && x in heap
      modifies this
      ensures Valid() && popped == Some(x) && rounds <= |old(Ahead(heap, x))| + 1
      ensures Ready(old(tasks), old(clock), timeout, x.id) ==> Begun(old(history), history, x.id)
    {
      rounds, left, popped := 0, budget, None;
      ghost var h0, ready := history, Ready(tasks, clock, timeout, x.id);
      while true
        invariant Valid() && x in heap && rounds + |Ahead(heap, x)| <= |old(Ahead(heap, x))|
        invariant |Begins(h0)| <= |Begins(history)|
        invariant ready ==> Ready(tasks, clock, timeout, x.id) || Begun(h0, history, x.id)
        decreases |Ahead(heap, x)|
      {
        ghost var heap0, clock0, nextId0, h1 := heap, clock, nextId, history;
        QueuedEntry(tasks, registry, heap, nextId, clock, x);
        ghost var added;
        popped, left, added := ProcessOneTask(left);
        rounds := rounds + 1;
        BegunOn(h0, h1, history, popped.value.id, x.id);
        if popped == Some(x) {
          return;
        }
        OnePlaceForward(heap0, x, popped.value, added, clock0, nextId0);
      }
    }

    /** `tick`. It pops ten entries, or all there are. Every popped entry of a task that is to be
        polled leads to a poll in this tick, and an entry older than the tick is popped or comes
        forward by as many places as entries were popped. */
    method Tick(budget: nat) returns (left: nat, popped: seq<Entry>)
      requires Valid()
      modifies this
      ensures Valid() && left <= budget && old(history) <= history
      ensures TickDone(old(history), history, timeout, old(Here()), Here(), popped)
    {
      ghost var h0, from := history, Here();
      ghost var added;
      left, added := ProcessWakeQueue(budget);
      popped := [];
      ServedStart(from.heap, from.clock, heap, added);
      BegunStart(h0, history);
      AttendedStart(h0, history, timeout, from, tasks, clock);
      while |popped| < MAX_TASKS_PER_TICK
        invariant |popped| <= MAX_TASKS_PER_TICK && Valid() && left <= budget && clock >= from.clock
        invariant Whole(Served(from.heap, from.clock, heap, popped)) && from.heap <= heap + multiset(popped)
        invariant Whole(Moved(from.queue, from.registry, [], heap, popped))
        invariant Whole(OwedOrBegun(h0, history)) && h0 <= history
        invariant Whole(Attended(h0, history, timeout, from, tasks, clock, popped))
      {
        ghost var h1, heap1, clock1, nextId1, tasks1 := history, heap, clock, nextId, tasks;
        ServedFacts(tasks, registry, heap, nextId, clock);
        var e;
        e, left, added := ProcessOneTask(left);
        if e.None? {
          break;
        }
        ServedStep(from.heap, from.clock, heap1, popped, e.value, added, heap, clock1, nextId1);
        MovedPop(from.queue, from.registry, heap1, popped, e.value, added, heap);
        BegunStep(h0, h1, history, e.value.id);
        AttendedStep(h0, h1, history, timeout, from, tasks1, clock1, tasks, clock, popped, e.value);
        popped := popped + [e.value];
      }
    }

    /** One tick, and what may happen before the next, seen from an old entry. */
    method TickFor(x: Entry, budget: nat) returns (left: nat, popped: seq<Entry>)
      requires Valid() && x in heap && x.timestamp < clock
      modifies this
      ensures Valid() && Begins(old(history)) <= Begins(history) && x.timestamp < clock
      ensures x in popped || (x in heap && |Ahead(heap, x)| + 10 <= |old(Ahead(heap, x))|)
      ensures Ready(old(tasks), old(clock), timeout, x.id) ==>
                && (Ready(tasks, clock, timeout, x.id) || Begun(old(history), history, x.id))
                && (x in popped ==> Begun(old(history), history, x.id))
    {
      QueuedEntry(tasks, registry, heap, nextId, clock, x);
      ghost var h0, from := history, Here();
      left, popped := Tick(budget);
      TickServes(h0, history, timeout, from, Here(), popped, x);
      left := Preempt(left, None, None, multiset{});
    }

    /** The same in ticks, with wakes at any time: once the clock has passed its timestamp, an entry
        with `n` entries before it is popped within `n / 10 + 1` ticks, and by then its task has been
        polled if it was to be. */
    method ServeInTicks(x: Entry, budget: nat) returns (ticks: nat, left: nat, popped: seq<Entry>)
      requires Valid() && x in heap && x.timestamp < clock
      modifies this
      ensures Valid() && x in popped && ticks <= |old(Ahead(heap, x))| / 10 + 1
      ensures Ready(old(tasks), old(clock), timeout, x.id) ==> Begun(old(history), history, x.id)
    {
      ticks, left, popped := 0, budget, [];
      ghost var h0, ready := history, Ready(tasks, clock, timeout, x.id);
      while true
        invariant Valid() && x in heap && x.timestamp < clock
        invariant MAX_TASKS_PER_TICK * ticks + |Ahead(heap, x)| <= |old(Ahead(heap, x))|
        invariant Begins(h0) <= Begins(history)
        invariant ready ==> Ready(tasks, clock, timeout, x.id) || Begun(h0, history, x.id)
        decreases |Ahead(heap, x)|
      {
        ghost var h1 := history;
        left, popped := TickFor(x, left);
        ticks := ticks + 1;
        BegunLater(h0, h1, history, x.id);
        if x in popped {
          return;
        }
      }
    }
  }

  /** Every registered task of the wake queue `before` is still in `queue`, or has an entry in the
      heap, or its entry was popped. */
  ghost predicate Moved(before: seq<nat>, registry: set<nat>, queue: seq<nat>, heap: multiset<Entry>,
                        popped: seq<Entry>) {
    forall id :: id in before && id in registry ==>
      id in queue || Queued(heap, id) || exists k :: 0 <= k < |popped| && popped[k].id == id
  }

  lemma MovedNone(queue: seq<nat>, registry: set<nat>, heap: multiset<Entry>)
    ensures Moved(queue, registry, queue, heap, [])
  {
  }

  lemma MovedMore(before: seq<nat>, registry: set<nat>, queue: seq<nat>, queue': seq<nat>, heap: multiset<Entry>)
    requires Whole(Moved(before, registry, queue, heap, [])) && queue <= queue'
    ensures Moved(before, registry, queue', heap, [])
  {
  }

  lemma MovedOne(before: seq<nat>, registry: set<nat>, queue: seq<nat>, queue': seq<nat>, heap: multiset<Entry>,
                 heap': multiset<Entry>, e: Entry)
    requires Whole(Moved(before, registry, queue, heap, [])) && queue != [] && queue[0] == e.id
    requires queue[1..] <= queue' && heap' == if e.id in registry then heap + multiset{e} else heap
    ensures Moved(before, registry, queue', heap', [])
  {
    forall id | id in before && id in registry ensures id in queue' || Queued(heap', id) {
      if Queued(heap, id) || id == e.id {
        QueuedMore(heap, e, id);
      } else {
        var i :| 0 <= i < |queue| && queue[i] == id;
        assert queue[1..][i - 1] == id && queue'[i - 1] == queue[1..][i - 1];
      }
    }
  }

  lemma MovedPop(before: seq<nat>, registry: set<nat>, heap: multiset<Entry>, popped: seq<Entry>, e: Entry,
                 added: multiset<Entry>, heap': multiset<Entry>)
    requires Whole(Moved(before, registry, [], heap, popped)) && heap' == heap - multiset{e} + added
    ensures Moved(before, registry, [], heap', popped + [e])
  {
    forall id | id in before && id in registry
      ensures Queued(heap', id) || exists k :: 0 <= k < |popped + [e]| && (popped + [e])[k].id == id
    {
      if Queued(heap, id) {
        var x :| x in heap && x.id == id;
        if x == e {
          assert (popped + [e])[|popped|].id == id;
        } else {
          assert heap'[x] > 0;
        }
      } else {
        var k :| 0 <= k < |popped| && popped[k].id == id;
        assert (popped + [e])[k].id == id;
      }
    }
  }

  /** What `process_wake_queue` does to the tasks: it marks Woken the registered ones of the queue
      `before`, but for those still in `queue`, and only ever marks Woken. */
  ghost predicate Marked(tasks: map<nat, Task>, before: seq<nat>, registry: set<nat>, queue: seq<nat>,
                         tasks': map<nat, Task>) {
    && tasks'.Keys == tasks.Keys
    && forall id :: id in tasks ==>
         && (tasks'[id] == tasks[id] || tasks'[id].state.Woken?)
         && (id in before && id in registry ==> tasks'[id].state.Woken? || id in queue)
  }

  lemma MarkedNone(tasks: map<nat, Task>, queue: seq<nat>, registry: set<nat>)
    ensures Marked(tasks, queue, registry, queue, tasks)
  {
  }

  lemma MarkedMore(tasks: map<nat, Task>, before: seq<nat>, registry: set<nat>, queue: seq<nat>, queue': seq<nat>,
                   tasks': map<nat, Task>)
    requires Whole(Marked(tasks, before, registry, queue, tasks')) && queue <= queue'
    ensures Marked(tasks, before, registry, queue', tasks')
  {
  }

  lemma MarkedOne(tasks: map<nat, Task>, before: seq<nat>, registry: set<nat>, queue: seq<nat>, queue': seq<nat>,
                  tasks1: map<nat, Task>, tasks2: map<nat, Task>)
    requires Whole(Marked(tasks, before, registry, queue, tasks1)) && queue != [] && queue[1..] <= queue'
    requires if queue[0] in registry
             then queue[0] in tasks1 && exists t: Task :: t.state.Woken? && tasks2 == tasks1[queue[0] := t]
             else tasks2 == tasks1
    ensures Marked(tasks, before, registry, queue', tasks2)
  {
    forall id | id in tasks && id in before && id in registry ensures tasks2[id].state.Woken? || id in queue' {
      if id in queue && id != queue[0] {
        var i :| 0 <= i < |queue| && queue[i] == id;
        assert queue[1..][i - 1] == id && queue'[i - 1] == queue[1..][i - 1];
      }
    }
  }

  lemma PollSpan(h0: seq<Event>, begin: Event, h1: seq<Event>, h2: seq<Event>, h3: seq<Event>, id: nat, ready: bool)
    requires h1 == h0 + [begin] && IsBegin(begin, id) && Quiet(h1, h2) && h3 == h2 + [End(id, ready)]
    ensures OnePoll(h0, h3, id) && !Quiet(h0, h3)
  {
    HistoryNext(h0, begin);
    HistoryNext(h2, End(id, ready));
    assert |Begins(h3)| == |Begins(h0)| + 1;
  }

  lemma PollAfter(h0: seq<Event>, h1: seq<Event>, h2: seq<Event>, id: nat)
    requires Quiet(h0, h1) && OnePoll(h1, h2, id)
    ensures OnePoll(h0, h2, id) && (!Quiet(h1, h2) ==> !Quiet(h0, h2))
  {
    if Begins(h2) == Begins(h1) + [id] {
      assert |Begins(h2)| == |Begins(h0)| + 1;
    }
  }

  lemma PollBetween(h0: seq<Event>, h1: seq<Event>, h2: seq<Event>, h3: seq<Event>, id: nat)
    requires Quiet(h0, h1) && OnePoll(h1, h2, id) && !Quiet(h1, h2) && Quiet(h2, h3)
    ensures OnePoll(h0, h3, id) && !Quiet(h0, h3)
  {
    assert |Begins(h3)| == |Begins(h0)| + 1;
  }

  lemma QueuedEntry(tasks: map<nat, Task>, registry: set<nat>, heap: multiset<Entry>, nextId: nat, clock: nat, x: Entry)
    requires Whole(TasksOk(tasks, registry, heap, nextId, clock, None)) && x in heap
    ensures x.isWoken && x.timestamp <= clock && x.id < nextId
  {
    assert OpenTasks(0);
    assert heap[x] > 0;
  }

  lemma WakesFinished(owed: set<nat>, queue: seq<nat>, heap: multiset<Entry>, tasks: map<nat, Task>, e: Entry)
    requires Whole(WakesOk(owed, None, queue, heap + multiset{e}, tasks)) && e.id in tasks
    requires tasks[e.id].state.Completed?
    ensures WakesOk(owed, None, queue, heap + multiset{}, tasks)
  {
    WakesForget(owed, queue, heap, tasks, e);
    assert heap + multiset{} == heap;
  }

  // ----- ticks -----

  predicate OpenServed(t: int) {
    true
  }

  /** Every entry of `before` that is older than `clock` was popped, or has come forward by as many
      places as entries were popped. */
  ghost predicate Served(before: multiset<Entry>, clock: nat, after: multiset<Entry>, popped: seq<Entry>) {
    forall t {:trigger OpenServed(t)} :: OpenServed(t) ==>
      forall x {:trigger before[x]} :: x in before && x.isWoken && x.timestamp < clock ==>
        x in popped || (x in after && |Ahead(after, x)| + |popped| <= |Ahead(before, x)|)
  }

  lemma ServedEntry(before: multiset<Entry>, clock: nat, after: multiset<Entry>, popped: seq<Entry>, x: Entry)
    requires Whole(Served(before, clock, after, popped)) && x in before && x.isWoken && x.timestamp < clock
    requires |popped| < 10 ==> after == multiset{}
    ensures x in popped || (x in after && |Ahead(after, x)| + 10 <= |Ahead(before, x)|)
  {
    assert OpenServed(0) && before[x] > 0;
  }

  lemma ServedStart(before: multiset<Entry>, clock: nat, after: multiset<Entry>, added: multiset<Entry>)
    requires after == before + added && Newer(added, clock)
    ensures Served(before, clock, after, [])
  {
    forall x | x in before && x.isWoken && x.timestamp < clock
      ensures x in after && |Ahead(after, x)| <= |Ahead(before, x)|
    {
      NewerIsBehind(before, x, added, clock);
    }
  }

  predicate Known(heap: multiset<Entry>, nextId: nat) {
    forall x {:trigger heap[x]} :: x in heap ==> x.isWoken && x.id < nextId
  }

  lemma ServedFacts(tasks: map<nat, Task>, registry: set<nat>, heap: multiset<Entry>, nextId: nat, clock: nat)
    requires Whole(TasksOk(tasks, registry, heap, nextId, clock, None))
    ensures Known(heap, nextId)
  {
    assert OpenTasks(0);
  }

  lemma ServedStep(before: multiset<Entry>, clock: nat, heap: multiset<Entry>, popped: seq<Entry>, e: Entry,
                   added: multiset<Entry>, heap': multiset<Entry>, clock1: nat, nextId: nat)
    requires Whole(Served(before, clock, heap, popped)) && Top(e, heap) && heap' == heap - multiset{e} + added
    requires Late(added, clock1, nextId) && clock <= clock1 && Known(heap, nextId)
    ensures Served(before, clock, heap', popped + [e])
  {
    assert OpenServed(0);
    forall x | x in before && x.isWoken && x.timestamp < clock
      ensures x in popped + [e] || (x in heap' && |Ahead(heap', x)| + |popped + [e]| <= |Ahead(before, x)|)
    {
      assert before[x] > 0;
      if x !in popped && x != e {
        assert heap[x] > 0;
        OnePlaceForward(heap, x, e, added, clock1, nextId);
      } else if x == e {
        assert (popped + [e])[|popped|] == x;
      }
    }
  }

  /** Every task owed in `h` is owed in `h'`, or a poll of it began in between. */
  ghost predicate OwedOrBegun(h: seq<Event>, h': seq<Event>) {
    && Begins(h) <= Begins(h')
    && forall id :: id in OwedIn(h) ==> id in OwedIn(h') || Begun(h, h', id)
  }

  lemma BegunStart(h: seq<Event>, h': seq<Event>)
    requires Quiet(h, h')
    ensures OwedOrBegun(h, h')
  {
  }

  lemma BegunStep(h: seq<Event>, h1: seq<Event>, h2: seq<Event>, id: nat)
    requires Whole(OwedOrBegun(h, h1)) && OnePoll(h1, h2, id)
    ensures OwedOrBegun(h, h2) && h1 <= h2
  {
    if Begins(h2) == Begins(h1) + [id] {
      var n := |Begins(h)|;
      assert Begins(h2)[n..] == Begins(h1)[n..] + [id];
    }
  }

  /** An entry of the task that is popped in a tick that starts at `from` leads to a poll: the task is
      ready, or a wake of it is queued, or it is spawned in the tick. */
  ghost predicate Due(from: Mark, timeout: nat, id: nat) {
    || id !in from.tasks
    || Ready(from.tasks, from.clock, timeout, id)
    || (id in from.queue && id in from.registry)
  }

  predicate OpenAttended(t: int) {
    true
  }

  /** From `from`, with history `h`, on: a task that is due is ready or its poll has begun, it has
      begun if an entry of it was popped, and no poll began but of popped tasks. */
  ghost predicate Attended(h: seq<Event>, h': seq<Event>, timeout: nat, from: Mark, tasks: map<nat, Task>, clock: nat,
                           popped: seq<Entry>) {
    forall t {:trigger OpenAttended(t)} :: OpenAttended(t) ==>
      && |Begins(h)| <= |Begins(h')| <= |Begins(h)| + |popped|
      && (forall id :: id in from.tasks ==> id in tasks)
      && (forall id :: id in tasks && Due(from, timeout, id) ==> Ready(tasks, clock, timeout, id) || Begun(h, h', id))
      && (forall k :: 0 <= k < |popped| && Due(from, timeout, popped[k].id) ==> Begun(h, h', popped[k].id))
      && (forall id :: Begun(h, h', id) ==> exists k :: 0 <= k < |popped| && popped[k].id == id)
  }

  lemma AttendedStart(h: seq<Event>, h': seq<Event>, timeout: nat, from: Mark, tasks: map<nat, Task>, clock: nat)
    requires Quiet(h, h') && Whole(Marked(from.tasks, from.queue, from.registry, [], tasks)) && from.clock <= clock
    ensures Attended(h, h', timeout, from, tasks, clock, [])
  {
    forall id | id in tasks && Due(from, timeout, id) ensures Ready(tasks, clock, timeout, id) {
      assert tasks[id] == from.tasks[id] || tasks[id].state.Woken?;
    }
  }

  lemma AttendedStep(h: seq<Event>, h1: seq<Event>, h2: seq<Event>, timeout: nat, from: Mark, tasks1: map<nat, Task>,
                     clock1: nat, tasks2: map<nat, Task>, clock2: nat, popped: seq<Entry>, e: Entry)
    requires Whole(Attended(h, h1, timeout, from, tasks1, clock1, popped)) && OnePoll(h1, h2, e.id)
    requires e.id in tasks1 && OnlyChanged(tasks1, tasks2, e.id) && clock1 <= clock2
    requires Ready(tasks1, clock1, timeout, e.id) ==> !Quiet(h1, h2)
    ensures Attended(h, h2, timeout, from, tasks2, clock2, popped + [e])
  {
    assert OpenAttended(0);
    var popped' := popped + [e];
    forall id: nat
      ensures Begun(h, h1, id) ==> Begun(h, h2, id)
      ensures Begun(h, h2, id) ==> Begun(h, h1, id) || id == e.id
      ensures !Quiet(h1, h2) ==> Begun(h, h2, e.id)
    {
      BegunOn(h, h1, h2, e.id, id);
    }
    BegunOn(h, h1, h2, e.id, e.id);
    assert Due(from, timeout, e.id) ==> Begun(h, h2, e.id);
    forall id | id in tasks2 && Due(from, timeout, id)
      ensures Ready(tasks2, clock2, timeout, id) || Begun(h, h2, id)
    {
      if id != e.id && id in tasks1 {
        assert tasks2[id] == tasks1[id];
      }
    }
    forall id | Begun(h, h2, id) ensures exists k :: 0 <= k < |popped'| && popped'[k].id == id {
      if Begun(h, h1, id) {
        var k :| 0 <= k < |popped| && popped[k].id == id;
        assert popped'[k].id == id;
      } else {
        assert popped'[|popped|].id == id;
      }
    }
  }

  /** A tick from `from`, with history `h`, to `to`, with history `h'`. */
  ghost predicate TickDone(h: seq<Event>, h': seq<Event>, timeout: nat, from: Mark, to: Mark, popped: seq<Entry>) {
    && h <= h' && from.clock <= to.clock
    && |popped| <= 10 && (|popped| < 10 ==> to.heap == multiset{})
    && from.heap <= to.heap + multiset(popped)
    && Whole(Served(from.heap, from.clock, to.heap, popped))
    && Whole(Moved(from.queue, from.registry, [], to.heap, popped))
    && Whole(OwedOrBegun(h, h'))
    && Whole(Attended(h, h', timeout, from, to.tasks, to.clock, popped))
  }

  /** What a tick does for one old entry, and for its task if that is ready. */
  lemma TickServes(h: seq<Event>, h': seq<Event>, timeout: nat, from: Mark, to: Mark, popped: seq<Entry>, x: Entry)
    requires TickDone(h, h', timeout, from, to, popped) && x in from.heap && x.isWoken && x.timestamp < from.clock
    ensures Begins(h) <= Begins(h') && from.clock <= to.clock
    ensures x in popped || (x in to.heap && |Ahead(to.heap, x)| + 10 <= |Ahead(from.heap, x)|)
    ensures Ready(from.tasks, from.clock, timeout, x.id) ==>
              && (Ready(to.tasks, to.clock, timeout, x.id) || Begun(h, h', x.id))
              && (x in popped ==> Begun(h, h', x.id))
  {
    ServedEntry(from.heap, from.clock, to.heap, popped, x);
    assert OpenAttended(0);
  }

  // ----- what the invariant says at rest -----

  /** Every wake of a live task is followed by a poll of it, or on record. */
  ghost predicate NoWakeLost(h: seq<Event>, queue: seq<nat>, heap: multiset<Entry>, tasks: map<nat, Task>) {
    forall i :: 0 <= i < |h| && h[i].Wake? && Spawn(h[i].id) in h[..i] && Live(h, h[i].id) ==>
      || (exists j :: i < j < |h| && IsBegin(h[j], h[i].id))
      || h[i].id in queue
      || (h[i].id in tasks && tasks[h[i].id].state.Woken? && Queued(heap, h[i].id))
  }

  lemma NoLostWakeup(h: seq<Event>, queue: seq<nat>, heap: multiset<Entry>, tasks: map<nat, Task>)
    requires WakesOk(OwedIn(h), None, queue, heap + multiset{}, tasks)
    ensures NoWakeLost(h, queue, heap, tasks)
  {
    assert OpenWakes(0);
    assert heap + multiset{} == heap;
    forall i | 0 <= i < |h| && h[i].Wake? && Spawn(h[i].id) in h[..i] && Live(h, h[i].id)
             && (forall j :: i < j < |h| ==> !IsBegin(h[j], h[i].id))
      ensures h[i].id in OwedIn(h)
    {
      WokenIsOwed(h, i, h[i].id);
    }
  }

  /** Every queued entry was Woken when it was queued, so that `pop` returns the entry that was
      woken first, whatever the order of the `is_woken` flag. */
  lemma OldestFirst(tasks: map<nat, Task>, registry: set<nat>, heap: multiset<Entry>, nextId: nat, clock: nat,
                    e: Entry, x: Entry)
    requires TasksOk(tasks, registry, heap, nextId, clock, None) && Top(e, heap) && x in heap
    ensures e.timestamp < x.timestamp || (e.timestamp == x.timestamp && e.id <= x.id)
  {
    assert OpenTasks(0);
    assert heap[x] > 0 && heap[e] > 0;
  }

  lemma Split(all: set<nat>, a: set<nat>, b: set<nat>)
    requires a !! b && a + b == all
    ensures |a| == |all| - |b|
  {
  }

  lemma RegistryLive(tasks: map<nat, Task>, registry: set<nat>, heap: multiset<Entry>, nextId: nat, clock: nat)
    requires Whole(TasksOk(tasks, registry, heap, nextId, clock, None))
    ensures registry !! Finished(tasks) && registry + Finished(tasks) == tasks.Keys
  {
    assert OpenTasks(0);
  }

  lemma HistCounts(h: seq<Event>, tasks: map<nat, Task>)
    requires Whole(HistOk(h, tasks))
    ensures |tasks.Keys| == CountSpawns(h) && |Finished(tasks)| == CountDone(h)
  {
    assert OpenLog(0);
    assert |tasks.Keys| == |tasks|;
  }

  /** `task_count` is the number of spawns less the number of polls that completed. */
  lemma TaskCount(h: seq<Event>, tasks: map<nat, Task>, registry: set<nat>, heap: multiset<Entry>, nextId: nat,
                  clock: nat)
    requires Whole(TasksOk(tasks, registry, heap, nextId, clock, None)) && Whole(HistOk(h, tasks))
    ensures |registry| == CountSpawns(h) - CountDone(h)
  {
    RegistryLive(tasks, registry, heap, nextId, clock);
    HistCounts(h, tasks);
    Split(tasks.Keys, registry, Finished(tasks));
  }

  // ----- whole runs -----

  datatype Call = SpawnCall | WakeCall(id: nat) | TickCall

  /** A call that took the executor from `from`, with history `h`, to `to`, with history `h'`. */
  ghost predicate CallDone(c: Call, h: seq<Event>, h': seq<Event>, timeout: nat, from: Mark, to: Mark) {
    && h <= h' && from.clock <= to.clock
    && match c
       case SpawnCall =>
         && Quiet(h, h') && |h| < |h'| && h'[|h|].Spawn? && from.queue <= to.queue
         && var id := h'[|h|].id;
            && id !in from.tasks && id in OwedIn(h')
            && to.tasks == from.tasks[id := NewTask(from.clock)] && to.registry == from.registry + {id}
            && to.heap == from.heap + multiset{Entry(true, from.clock, id)}
       case WakeCall(id) =>
         && Quiet(h, h') && |h| < |h'| && h'[|h|] == Wake(id) && from.queue <= to.queue && id in to.queue
         && to.tasks == from.tasks && to.registry == from.registry && to.heap == from.heap
       case TickCall => exists popped :: TickDone(h, h', timeout, from, to, popped)
  }

  ghost predicate Traced(h: seq<Event>, timeout: nat, calls: seq<Call>, marks: seq<Mark>) {
    && |marks| == |calls| + 1 && marks[0] == Mark(0, map[], {}, [], multiset{}, 0) && marks[|calls|].at == |h|
    && (forall k :: 0 <= k < |marks| ==> marks[k].at <= |h|)
    && (forall k :: 0 <= k < |calls| ==>
          CallDone(calls[k], h[..marks[k].at], h[..marks[k + 1].at], timeout, marks[k], marks[k + 1]))
  }

  lemma TracedMore(h: seq<Event>, h': seq<Event>, timeout: nat, calls: seq<Call>, marks: seq<Mark>, c: Call, to: Mark)
    requires Traced(h, timeout, calls, marks) && h <= h' && to.at == |h'|
    requires CallDone(c, h, h', timeout, marks[|calls|], to)
    ensures Traced(h', timeout, calls + [c], marks + [to])
  {
    var calls', marks' := calls + [c], marks + [to];
    forall k | 0 <= k < |calls'|
      ensures CallDone(calls'[k], h'[..marks'[k].at], h'[..marks'[k + 1].at], timeout, marks'[k], marks'[k + 1])
    {
      assert h'[..marks'[k].at] == h[..marks[k].at];
      if k < |calls| {
        assert h'[..marks'[k + 1].at] == h[..marks[k + 1].at];
      } else {
        assert h[..marks[k].at] == h && h'[..to.at] == h';
      }
    }
  }

  /** Wakes and time after a call belong to it. */
  lemma TickLater(h: seq<Event>, h1: seq<Event>, h2: seq<Event>, timeout: nat, from: Mark, to: Mark, to': Mark,
                  popped: seq<Entry>)
    requires TickDone(h, h1, timeout, from, to, popped) && Quiet(h1, h2) && to.clock <= to'.clock
    requires to' == to.(at := to'.at, queue := to'.queue, clock := to'.clock)
    ensures TickDone(h, h2, timeout, from, to', popped)
  {
    assert OwedOrBegun(h, h2);
    AttendedLater(h, h1, h2, timeout, from, to.tasks, to.clock, to'.clock, popped);
  }

  lemma AttendedLater(h: seq<Event>, h1: seq<Event>, h2: seq<Event>, timeout: nat, from: Mark, tasks: map<nat, Task>,
                      clock: nat, clock': nat, popped: seq<Entry>)
    requires Whole(Attended(h, h1, timeout, from, tasks, clock, popped)) && Quiet(h1, h2) && clock <= clock'
    ensures Attended(h, h2, timeout, from, tasks, clock', popped)
  {
    assert OpenAttended(0);
    forall id: nat ensures Begun(h, h2, id) <==> Begun(h, h1, id) {
    }
    forall id | id in tasks && Due(from, timeout, id) ensures Ready(tasks, clock', timeout, id) || Begun(h, h2, id) {
      if !Begun(h, h1, id) {
        assert Ready(tasks, clock, timeout, id);
      }
    }
  }

  lemma InPrefix(id: nat, queue: seq<nat>, queue': seq<nat>)
    requires id in queue && queue <= queue'
    ensures id in queue'
  {
    var i :| 0 <= i < |queue| && queue[i] == id;
    assert queue'[i] == id;
  }

  /** One call from outside, and whatever happens until the next. */
  method Perform(x: SingleCpuExecutor, c: Call, budget: nat) returns (left: nat)
    requires x.Valid()
    modifies x
    ensures x.Valid() && old(x.history) <= x.history
    ensures CallDone(c, old(x.history), x.history, x.timeout, old(x.Here()), x.Here())
  {
    ghost var h0, from := x.history, x.Here();
    match c
    case SpawnCall =>
      var _, rest, _ := x.SpawnTask(budget, None);
      ghost var h1 := x.history;
      left := x.Preempt(rest, None, None, multiset{});
      QuietTrans(h0, h1, x.history);
    case WakeCall(id) =>
      x.Enqueue(id, None, None, multiset{});
      ghost var h1, queue := x.history, x.wakeQueue;
      assert id in queue;
      left := x.Preempt(budget, None, None, multiset{});
      QuietTrans(h0, h1, x.history);
      InPrefix(id, queue, x.wakeQueue);
    case TickCall =>
      var popped;
      left, popped := x.Tick(budget);
      ghost var h1, to := x.history, x.Here();
      left := x.Preempt(left, None, None, multiset{});
      TickLater(h0, h1, x.history, x.timeout, from, to, x.Here(), popped);
  }

  /** Any sequence of calls from outside, with wakes arriving at any point: no wake is lost, nothing
      is polled after it completed, and the registry holds what was spawned and has not completed. */
  method Run(timeout: nat, calls: seq<Call>, budget: nat) returns (x: SingleCpuExecutor, ghost marks: seq<Mark>)
    ensures x.Valid() && x.timeout == timeout
    ensures Traced(x.history, timeout, calls, marks) && marks[|calls|] == x.Here()
    ensures NoWakeLost(x.history, x.wakeQueue, x.heap, x.tasks)
    ensures NoPollAfterReady(x.history) && AllReasoned(x.history, timeout) && SpawnedFirst(x.history)
    ensures |x.registry| == CountSpawns(x.history) - CountDone(x.history)
  {
    x := new SingleCpuExecutor(timeout);
    var left, i := budget, 0;
    marks := [x.Here()];
    while i < |calls|
      invariant fresh(x) && x.Valid() && x.timeout == timeout
      invariant i <= |calls| && Traced(x.history, timeout, calls[..i], marks) && marks[i] == x.Here()
    {
      ghost var h := x.history;
      left := Perform(x, calls[i], left);
      TracedMore(h, x.history, timeout, calls[..i], marks, calls[i], x.Here());
      assert calls[..i + 1] == calls[..i] + [calls[i]];
      marks := marks + [x.Here()];
      i := i + 1;
    }
    assert calls[..i] == calls;
    NoLostWakeup(x.history, x.wakeQueue, x.heap, x.tasks);
    TaskCount(x.history, x.tasks, x.registry, x.heap, x.nextId, x.clock);
    assert OpenLog(0) && OpenPolls(0);
  }

  // ----- service over whole runs -----

  function CountTicks(calls: seq<Call>): nat {
    if calls == [] then 0 else (if calls[0].TickCall? then 1 else 0) + CountTicks(calls[1..])
  }

  /** What one call does for an old entry of a task that is ready: the task is polled, or the entry
      waits on, ten places further on after a tick, and the task stays ready. */
  lemma CallServes(c: Call, h: seq<Event>, h': seq<Event>, timeout: nat, from: Mark, to: Mark, x: Entry)
    requires CallDone(c, h, h', timeout, from, to) && x in from.heap && x.isWoken && x.timestamp < from.clock
    requires Ready(from.tasks, from.clock, timeout, x.id)
    ensures Begins(h) <= Begins(h') && x.timestamp < to.clock
    ensures Begun(h, h', x.id)
         || (&& x in to.heap && Ready(to.tasks, to.clock, timeout, x.id)
             && |Ahead(to.heap, x)| + (if c.TickCall? then 10 else 0) <= |Ahead(from.heap, x)|)
  {
    match c
    case SpawnCall =>
      NewerIsBehind(from.heap, x, multiset{Entry(true, from.clock, h'[|h|].id)}, from.clock);
    case WakeCall(_) =>
    case TickCall =>
      var popped :| TickDone(h, h', timeout, from, to, popped);
      TickServes(h, h', timeout, from, to, popped, x);
  }

  lemma TicksFrom(calls: seq<Call>, k: nat, n: nat)
    requires k < n <= |calls|
    ensures CountTicks(calls[k..n]) == CountTicks(calls[k + 1..n]) + if calls[k].TickCall? then 1 else 0
  {
    assert calls[k..n][1..] == calls[k + 1..n] && calls[k..n][0] == calls[k];
  }

  // One call of a run.
  lemma StepServes(h: seq<Event>, timeout: nat, calls: seq<Call>, marks: seq<Mark>, k: nat, x: Entry)
    requires Traced(h, timeout, calls, marks) && k < |calls|
    requires x in marks[k].heap && x.isWoken && x.timestamp < marks[k].clock
    requires Ready(marks[k].tasks, marks[k].clock, timeout, x.id)
    ensures var h0, h1 := h[..marks[k].at], h[..marks[k + 1].at];
            && Begins(h0) <= Begins(h1) && x.timestamp < marks[k + 1].clock
            && (|| Begun(h0, h1, x.id)
                || (&& x in marks[k + 1].heap && Ready(marks[k + 1].tasks, marks[k + 1].clock, timeout, x.id)
                    && |Ahead(marks[k + 1].heap, x)| + (if calls[k].TickCall? then 10 else 0)
                       <= |Ahead(marks[k].heap, x)|))
  {
    CallServes(calls[k], h[..marks[k].at], h[..marks[k + 1].at], timeout, marks[k], marks[k + 1], x);
  }

  /** In every run a task that is ready and has an entry older than the clock, with `n` entries before
      it, is polled by the time of the `n / 10 + 1`st tick, whatever is spawned and woken meanwhile. */
  lemma {:induction false} RunServes(h: seq<Event>, timeout: nat, calls: seq<Call>, marks: seq<Mark>, k: nat, n: nat,
                                     x: Entry)
    requires Traced(h, timeout, calls, marks) && k <= n <= |calls|
    requires x in marks[k].heap && x.isWoken && x.timestamp < marks[k].clock
    requires Ready(marks[k].tasks, marks[k].clock, timeout, x.id)
    requires 10 * CountTicks(calls[k..n]) > |Ahead(marks[k].heap, x)|
    ensures Begun(h[..marks[k].at], h[..marks[n].at], x.id)
    decreases n - k
  {
    if k < n {
      var h0, h1, h2 := h[..marks[k].at], h[..marks[k + 1].at], h[..marks[n].at];
      TicksFrom(calls, k, n);
      StepServes(h, timeout, calls, marks, k, x);
      RunGrows(h, timeout, calls, marks, k + 1, n);
      if !Begun(h0, h1, x.id) {
        RunServes(h, timeout, calls, marks, k + 1, n, x);
      }
      BegunLater(h0, h1, h2, x.id);
    }
  }

  lemma {:induction false} RunGrows(h: seq<Event>, timeout: nat, calls: seq<Call>, marks: seq<Mark>, k: nat, n: nat)
    requires Traced(h, timeout, calls, marks) && k <= n <= |calls|
    ensures Begins(h[..marks[k].at]) <= Begins(h[..marks[n].at])
    decreases n - k
  {
    if k < n {
      RunGrows(h, timeout, calls, marks, k + 1, n);
      assert CallDone(calls[k], h[..marks[k].at], h[..marks[k + 1].at], timeout, marks[k], marks[k + 1]);
    }
  }

  /** The only entry is popped and the poll of its task, which is Woken, begins. */
  method BeginOnly(x: SingleCpuExecutor, e: Entry)
    requires x.Valid() && x.heap == multiset{e} && e.id in x.tasks && x.tasks[e.id].state.Woken?
    modifies x`heap, x`tasks, x`history
    ensures x.Inv(Some(e.id), None, multiset{}) && x.heap == multiset{}
    ensures e.id in x.tasks && x.tasks[e.id].state.Running?
    ensures x.history == old(x.history) + [Begin(e.id, x.clock, e.id in x.wakeQueue)]
  {
    var top := x.Pop();
    assert top == e;
    var yes := x.ShouldExecute(e.id, e);
    x.BeginPoll(e.id, e);
  }

  /** A task that is woken again right after it was spawned, when the wake queue has been drained. */
  method WokenLate() returns (x: SingleCpuExecutor, e: Entry)
    ensures fresh(x) && x.Valid() && x.timeout == 1000 && x.clock == 0 && e == Entry(true, 0, 1)
    ensures x.heap == multiset{e} && 1 in x.tasks && x.tasks[1].state.Woken? && x.wakeQueue == [1]
    ensures x.history == [Spawn(1), Wake(1), Wake(1)]
  {
    x := new SingleCpuExecutor(1000);
    var id := x.Register(None);
    x.AddTaskToQueue(id, None);
    x.Enqueue(id, None, None, multiset{});
    e := Entry(true, 0, 1);
  }

  /** A wake alone does not separate two polls. Here one arrives after the wake queue was drained and
      before the task, woken already, is polled; it stays in the queue and brings a second poll at the
      same time, with no wake between the two. */
  method PolledTwice() returns (x: SingleCpuExecutor)
    ensures x.history == [Spawn(1), Wake(1), Wake(1), Begin(1, 0, true), End(1, false), Begin(1, 0, false)]
  {
    var e;
    x, e := WokenLate();
    BeginOnly(x, e);
    x.EndPoll(1, false);
    var id := x.Take();
    x.StillRegistered(id, None);
    x.Move(id);
    BeginOnly(x, e);
  }
}
