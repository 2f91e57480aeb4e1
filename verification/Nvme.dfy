/**
 An NVMe submission/completion queue pair: the host side of `NvmeQueue` and any controller
 that executes commands in order and tags completions with a phase that flips on every wrap
 (sections 4.1 and 4.6 of the NVM Express Base Specification 1.4).
 */
module Nvme {
  import opened Arith
  import opened Options

  /** `NvmeCompletion`, reduced to what the host looks at; bit 0 of the status is the phase tag. */
  datatype Completion = Completion(result: nat, status: nat)

  const ZEROED := Completion(0, 0)

  predicate Phase(c: Completion) {
    c.status % 2 == 1
  }

  /** `CompletionStatus::is_success` */
  predicate IsSuccess(status: nat) {
    status / 2 % 2 == 0
  }

  /** What the controller answers: a result and the status field above the phase tag. */
  datatype Answer = Answer(result: nat, field: nat)

  function Tagged(a: Answer, tag: bool): Completion {
    Completion(a.result, 2 * a.field + if tag then 1 else 0)
  }

  // ----- counters modulo the ring -----

  lemma Advance(n: nat, len: nat)
    requires len > 0
    ensures (n + 1) % len == if n % len + 1 >= len then 0 else n % len + 1
    ensures (n + 1) / len == if n % len + 1 >= len then n / len + 1 else n / len
  {
    DivModDef(n, len);
    if n % len + 1 >= len {
      DivModUnique(n + 1, len, n / len + 1, 0);
    } else {
      DivModUnique(n + 1, len, n / len, n % len + 1);
    }
  }

  lemma Apart(i: nat, j: nat, len: nat)
    requires i < j < i + len
    ensures i % len != j % len
  {
    if i % len == j % len {
      var k := SameModGap(i, j, len);
      if k <= 0 {
        MulMono(k, 0, len);
      } else {
        MulMono(1, k, len);
      }
    }
  }

  /** The tag of the n-th completion. */
  predicate TagOf(n: nat, len: nat)
    requires len > 0
  {
    n / len % 2 == 0
  }

  lemma TagFlips(n: nat, len: nat)
    requires len > 0 && n >= len
    ensures TagOf(n - len, len) != TagOf(n, len) && (n - len) % len == n % len
  {
    ModAddMul(n - len, 1, len);
  }

  lemma SmallCount(n: nat, len: nat)
    requires n < len
    ensures n % len == n && TagOf(n, len)
  {
    DivModUnique(n, len, 0, n);
  }

  /** A ring of `len` slots holds the last `len` of the items written so far, and `blank` where
      none was written yet. */
  ghost predicate Holds<T>(ring: seq<T>, items: seq<T>, blank: T) {
    && |ring| > 0
    && (forall j {:trigger items[j]} :: 0 <= j < |items| && |items| - |ring| <= j ==> ring[j % |ring|] == items[j])
    && (forall i :: |items| <= i < |ring| ==> ring[i] == blank)
  }

  lemma HoldsNext<T>(ring: seq<T>, items: seq<T>, blank: T, x: T)
    requires Whole(Holds(ring, items, blank))
    ensures Holds(ring[|items| % |ring| := x], items + [x], blank)
  {
    var len, n := |ring|, |items|;
    var ring', items' := ring[n % len := x], items + [x];
    forall j | 0 <= j < |items'| && |items'| - len <= j ensures ring'[j % len] == items'[j] {
      if j < n {
        Apart(j, n, len);
        assert items'[j] == items[j];
      }
    }
    forall i | n + 1 <= i < len ensures ring'[i] == blank {
      SmallCount(n, len);
    }
  }

  /** The j-th completion is the tagged answer to the j-th command. */
  ghost predicate InOrder(posted: seq<Completion>, answers: seq<Answer>, len: nat) {
    len > 0 && |posted| <= |answers| && forall j :: 0 <= j < |posted| ==> posted[j] == Tagged(answers[j], TagOf(j, len))
  }

  lemma InOrderNext(posted: seq<Completion>, answers: seq<Answer>, len: nat, tag: bool)
    requires Whole(InOrder(posted, answers, len)) && |posted| < |answers| && tag == TagOf(|posted|, len)
    ensures InOrder(posted + [Tagged(answers[|posted|], tag)], answers, len)
  {
  }

  lemma InOrderMore(posted: seq<Completion>, answers: seq<Answer>, len: nat, a: Answer)
    requires Whole(InOrder(posted, answers, len))
    ensures InOrder(posted, answers + [a], len)
  {
  }

  lemma TagNext(n: nat, len: nat)
    requires len >= 2
    ensures TagOf(n + 1, len) == if n % len + 1 >= len then !TagOf(n, len) else TagOf(n, len)
    ensures (n + 1) % len == if n % len + 1 >= len then 0 else n % len + 1
    ensures (n + 1) % len != n % len
  {
    Advance(n, len);
    Apart(n, n + 1, len);
  }

  lemma PhaseOf(a: Answer, tag: bool)
    ensures Phase(Tagged(a, tag)) == tag && Tagged(a, tag).status / 2 == a.field
  {
  }

  /** What the host finds where the next completion will be: a stale entry of the previous lap or
      a zeroed one, and in either case the wrong phase. */
  lemma NextSlot(cq: seq<Completion>, posted: seq<Completion>, answers: seq<Answer>)
    requires Whole(Holds(cq, posted, ZEROED)) && Whole(InOrder(posted, answers, |cq|))
    ensures Phase(cq[|posted| % |cq|]) != TagOf(|posted|, |cq|)
  {
    var len, n := |cq|, |posted|;
    if n >= len {
      TagFlips(n, len);
      assert posted[n - len] == cq[n % len];
    } else {
      SmallCount(n, len);
    }
  }

  class QueuePair<C(!new)> {
    // Shared memory and the two doorbell registers.
    const sq: array<C>
    const cq: array<Completion>
    var sqTailDoorbell: nat
    var cqHeadDoorbell: nat

    // The host.
    var tail: nat
    var head: nat
    var phase: bool

    // The controller.
    var fetchHead: nat
    var postTail: nat
    var tag: bool
    var pending: Option<Answer>

    // Everything that ever went through the rings.
    ghost const blank: C
    ghost var submitted: seq<C>
    ghost var executed: seq<C>
    ghost var answers: seq<Answer>
    ghost var posted: seq<Completion>
    ghost var consumed: nat

    ghost predicate HostOk()
      requires sq.Length > 0 && cq.Length > 0
      reads this
    {
      && tail == |submitted| % sq.Length
      && head == consumed % cq.Length && phase == !TagOf(consumed, cq.Length)
    }

    ghost predicate ControllerOk()
      requires sq.Length > 0 && cq.Length > 0
      reads this
    {
      && executed <= submitted
      && fetchHead == |executed| % sq.Length
      && postTail == |posted| % cq.Length && tag == TagOf(|posted|, cq.Length)
      && |answers| == |executed|
      && |posted| + (if pending.Some? then 1 else 0) == |executed|
      && (pending.Some? ==> pending.value == answers[|answers| - 1])
      && Whole(InOrder(posted, answers, cq.Length))
    }

    /** At most one command is under way. */
    ghost predicate Synchronous()
      reads this
    {
      consumed <= |posted| <= |submitted| <= consumed + 1
    }

    ghost predicate Valid()
      reads this, sq, cq
    {
      && sq.Length >= 2 && cq.Length >= 2 && (sq as object) != (cq as object)
      && Whole(Holds(sq[..], submitted, blank))
      && Whole(Holds(cq[..], posted, ZEROED))
      && HostOk() && ControllerOk() && Synchronous()
      && sqTailDoorbell == tail
    }

    /** Between two commands. */
    ghost predicate Idle()
      reads this, sq, cq
    {
      Valid() && consumed == |submitted| && cqHeadDoorbell == head
    }

    /** `NvmeQueue::new` on zeroed memory, and a freshly created queue in the controller. */
    constructor (sqLen: nat, cqLen: nat, zero: C)
      requires sqLen >= 2 && cqLen >= 2
      ensures Idle() && submitted == [] && executed == [] && fresh(sq) && fresh(cq)
    {
      sq := new C[sqLen](_ => zero);
      cq := new Completion[cqLen](_ => ZEROED);
      blank := zero;
      sqTailDoorbell, cqHeadDoorbell, tail, head, phase := 0, 0, 0, 0, false;
      fetchHead, postTail, tag, pending := 0, 0, true, None;
      submitted, executed, answers, posted, consumed := [], [], [], [], 0;
      new;
      assert sq[..] == seq(sqLen, _ => zero) && cq[..] == seq(cqLen, _ => ZEROED);
      SmallCount(0, sqLen);
      SmallCount(0, cqLen);
    }

    // ----- the controller -----

    /** Fetches and executes the next command, if the doorbell says there is one. */
    method Fetch() returns (did: bool)
      requires Valid() && pending.None?
      modifies this`fetchHead, this`pending, this`executed, this`answers
      ensures Valid()
      ensures did <==> old(|executed| < |submitted|)
      ensures executed == if did then old(executed) + [submitted[|old(executed)|]] else old(executed)
      ensures did ==> pending.Some?
      ensures old(answers) <= answers
    {
      SameCount(|executed|, |submitted|, sq.Length);
      if fetchHead == sqTailDoorbell {
        return false;
      }
      Advance(|executed|, sq.Length);
      assert sq[..][|executed| % sq.Length] == submitted[|executed|];
      var command := sq[fetchHead];
      fetchHead := if fetchHead + 1 >= sq.Length then 0 else fetchHead + 1;
      var result: nat := *;
      var field: nat := *;
      InOrderMore(posted, answers, cq.Length, Answer(result, field));
      pending := Some(Answer(result, field));
      executed := executed + [command];
      answers := answers + [Answer(result, field)];
      return true;
    }

    /** Posts the completion of the command it executed, if the host has left room. */
    method Post() returns (did: bool)
      requires Valid() && pending.Some? && cqHeadDoorbell == head && consumed == |posted|
      modifies this`postTail, this`tag, this`pending, this`posted, cq
      ensures Valid() && did && pending.None?
      ensures |posted| == |old(posted)| + 1
    {
      TagNext(|posted|, cq.Length);
      if (if postTail + 1 >= cq.Length then 0 else postTail + 1) == cqHeadDoorbell {
        return false;
      }
      var c := Tagged(pending.value, tag);
      HoldsNext(cq[..], posted, ZEROED, c);
      InOrderNext(posted, answers, cq.Length, tag);
      ghost var ring := cq[..][postTail := c];
      cq[postTail] := c;
      assert cq[..] == ring;
      postTail := if postTail + 1 >= cq.Length then 0 else postTail + 1;
      tag := if postTail == 0 then !tag else tag;
      pending := None;
      posted := posted + [c];
      return true;
    }

    /** The next thing the controller has to do. */
    method Work()
      requires Valid() && |submitted| == consumed + 1 && |posted| == consumed && cqHeadDoorbell == head
      modifies this`fetchHead, this`pending, this`executed, this`answers, this`postTail, this`tag, this`posted, cq
      ensures Valid()
      ensures old(answers) <= answers
      ensures old(pending.None?) ==> pending.Some? && |posted| == consumed
      ensures old(pending.Some?) ==> pending.None? && |posted| == consumed + 1
    {
      var did;
      if pending.None? {
        did := Fetch();
      } else {
        did := Post();
      }
    }

    // ----- the host -----

    /** `submit_admin_data`: `SubmitQueue::submit` and the doorbell. */
    method SubmitAdminData(data: C)
      requires Idle()
      modifies this`tail, this`sqTailDoorbell, this`submitted, sq
      ensures Valid() && cqHeadDoorbell == head
      ensures submitted == old(submitted) + [data]
    {
      Advance(|submitted|, sq.Length);
      HoldsNext(sq[..], submitted, blank, data);
      ghost var ring := sq[..][tail := data];
      sq[tail] := data;
      assert sq[..] == ring;
      tail := tail + 1;
      if tail >= sq.Length {
        tail := 0;
      }
      submitted := submitted + [data];
      sqTailDoorbell := tail;
    }

    /** `CompleteQueue::complete`: never a stale entry. */
    method Complete() returns (r: Option<Completion>)
      requires Valid()
      ensures r.Some? <==> consumed < |posted|
      ensures r.Some? ==> r.value == posted[consumed]
    {
      var cqe := cq[head];
      if consumed == |posted| {
        NextSlot(cq[..], posted, answers);
        assert cq[..][head] == cqe;
      } else {
        assert cq[..][consumed % cq.Length] == posted[consumed];
        PhaseOf(answers[consumed], TagOf(consumed, cq.Length));
      }
      if Phase(cqe) != phase {
        return Some(cqe);
      }
      return None;
    }

    /** The head moves on, and the expected phase with it when it wraps. */
    method Consume()
      requires Valid() && consumed < |posted|
      modifies this`head, this`phase, this`consumed
      ensures Valid() && consumed == old(consumed) + 1 == |posted| && executed == submitted
    {
      TagNext(consumed, cq.Length);
      var nextHead := head + 1;
      if nextHead >= cq.Length {
        head := 0;
        phase := !phase;
      } else {
        head := nextHead;
      }
      consumed := consumed + 1;
      assert executed == submitted[..|submitted|] == submitted;
    }

    /** `spin_for_complete`, against a controller that idles at most `delay` times. */
    method SpinForComplete(delay: nat) returns (e: Completion)
      requires Valid() && |submitted| == consumed + 1 && |posted| == consumed && cqHeadDoorbell == head
      modifies this, cq
      ensures Valid() && consumed == old(consumed) + 1 == |posted| && e == posted[old(consumed)]
      ensures submitted == old(submitted) && executed == submitted && old(answers) <= answers
    {
      var idle, work := delay, if pending.None? then 2 else 1;
      while true
        invariant Valid() && submitted == old(submitted) && consumed == old(consumed) && cqHeadDoorbell == head
        invariant |submitted| == consumed + 1 && old(answers) <= answers
        invariant |posted| == consumed + (if work == 0 then 1 else 0)
        invariant work == if |posted| > consumed then 0 else if pending.None? then 2 else 1
        decreases idle + work
      {
        var c := Complete();
        if c.Some? {
          Consume();
          return c.value;
        }
        var wait: bool := *;
        if wait && idle > 0 {
          idle := idle - 1;
        } else {
          Work();
          work := work - 1;
        }
      }
    }

    /** `command_sync`: the k-th call returns the completion of the k-th command, and by then every
        command has been executed once, in order. */
    method CommandSync(data: C, delay: nat) returns (ok: bool)
      requires Idle()
      modifies this, sq, cq
      ensures Idle()
      ensures submitted == old(submitted) + [data] && executed == submitted
      ensures old(answers) <= answers && |answers| == |submitted|
      ensures ok <==> answers[|old(submitted)|].field % 2 == 0
    {
      SubmitAdminData(data);
      var complete := SpinForComplete(delay);
      cqHeadDoorbell := head;
      PhaseOf(answers[consumed - 1], TagOf(consumed - 1, cq.Length));
      ok := IsSuccess(complete.status);
    }
  }

  lemma SameCount(e: nat, n: nat, len: nat)
    requires e <= n <= e + 1 && len >= 2
    ensures e % len == n % len <==> e == n
  {
    if e < n {
      Apart(e, n, len);
    }
  }

  /** Any number of commands, through any number of wraps. */
  method RunCommands<C(!new)>(sqLen: nat, cqLen: nat, zero: C, commands: seq<C>,
                       delays: seq<nat>) returns (q: QueuePair<C>, oks: seq<bool>)
    requires sqLen >= 2 && cqLen >= 2 && |delays| == |commands|
    ensures q.Idle() && q.executed == commands && |q.answers| == |oks| == |commands|
    ensures forall k :: 0 <= k < |commands| ==> (oks[k] <==> q.answers[k].field % 2 == 0)
  {
    q := new QueuePair(sqLen, cqLen, zero);
    oks := [];
    var i := 0;
    while i < |commands|
      invariant i <= |commands| && fresh(q) && fresh(q.sq) && fresh(q.cq) && q.Idle()
      invariant q.executed == q.submitted == commands[..i] && |oks| == i == |q.answers|
      invariant forall k :: 0 <= k < i ==> (oks[k] <==> q.answers[k].field % 2 == 0)
    {
      var ok := q.CommandSync(commands[i], delays[i]);
      assert commands[..i + 1] == commands[..i] + [commands[i]];
      oks := oks + [ok];
      i := i + 1;
    }
    assert commands[..i] == commands;
  }

  // ----- what counts as success -----

  /** A zero status code of the generic type, in section 4.6.1 of the standard. */
  predicate Succeeded(field: nat) {
    field % 0x800 == 0
  }

  /** Status code 2, an invalid field in the command, is reported as success. */
  lemma FailureReportedAsSuccess()
    ensures IsSuccess(Tagged(Answer(0, 2), true).status) && !Succeeded(2)
  {
  }

  /** The report is right exactly for a zero code and type and for the odd status codes. */
  lemma ReportIsRight(a: Answer, tag: bool)
    ensures (IsSuccess(Tagged(a, tag).status) <==> Succeeded(a.field)) <==> (a.field % 0x800 == 0 || a.field % 2 == 1)
  {
    PhaseOf(a, tag);
    assert a.field == 0x800 * (a.field / 0x800) + a.field % 0x800;
  }
}
