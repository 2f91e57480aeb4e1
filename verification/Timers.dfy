/**
 `TimerManager`: one-shot timers kept in two maps, and the hardware timer armed on demand.
 Tick counts are read by the callers and passed in.
 */
module Timers {
  import opened Arith
  import opened Options

  /** `TimerKey`, ordered by deadline and then by id. */
  datatype Key = Key(deadline: nat, id: nat)

  predicate Before(a: Key, b: Key) {
    a.deadline < b.deadline || (a.deadline == b.deadline && a.id < b.id)
  }

  predicate Least(k: Key, keys: set<Key>) {
    k in keys && forall x {:trigger x in keys} :: x in keys ==> x == k || Before(k, x)
  }

  lemma LeastBefore(k: Key, keys: set<Key>)
    requires Least(k, keys)
    ensures forall x :: x in keys - {k} ==> Before(k, x)
  {
  }

  predicate OpenFirst(t: int) {
    true
  }

  /** `Least`, kept closed outside the proofs that need it. */
  ghost predicate IsFirst(k: Key, keys: set<Key>) {
    forall t {:trigger OpenFirst(t)} :: OpenFirst(t) ==> Least(k, keys)
  }

  lemma LeastExists(keys: set<Key>) returns (k: Key)
    requires keys != {}
    ensures Least(k, keys)
    decreases |keys|
  {
    var x :| x in keys;
    if keys == {x} {
      k := x;
    } else {
      var rest := keys - {x};
      assert |rest| < |keys|;
      assert keys == rest + {x};
      if rest == {} {
        k := x;
      } else {
        var y := LeastExists(rest);
        k := if Before(x, y) then x else y;
      }
    }
  }

  /** Holds always. A definition of the form `forall t {:trigger OpenX(t)} :: OpenX(t) ==> ...`
      stays closed to the verifier until a proof writes `assert OpenX(0)`. */
  predicate OpenAgree(t: int) {
    true
  }

  /** The two maps describe the same set of timers. */
  ghost predicate Agree<C>(timers: map<Key, C>, index: map<nat, nat>) {
    forall t {:trigger OpenAgree(t)} :: OpenAgree(t) ==>
      && (forall k :: k in timers ==> k.id in index && index[k.id] == k.deadline)
      && (forall id :: id in index ==> Key(index[id], id) in timers)
  }

  lemma AgreeAdd<C>(timers: map<Key, C>, index: map<nat, nat>, k: Key, c: C)
    requires Whole(Agree(timers, index)) && k.id !in index
    ensures Agree(timers[k := c], index[k.id := k.deadline])
  {
    assert OpenAgree(0);
  }

  lemma AgreeRemove<C>(timers: map<Key, C>, index: map<nat, nat>, k: Key)
    requires Whole(Agree(timers, index)) && (k in timers || (k.id in index && index[k.id] == k.deadline))
    ensures Agree(timers - {k}, index - {k.id}) && |index - {k.id}| <= |index|
    ensures k in timers && k.id in index && index[k.id] == k.deadline
  {
    assert OpenAgree(0);
    SubsetSize((index - {k.id}).Keys, index.Keys);
  }

  /** The shortest interval that is programmed, about 100 microseconds. */
  function MinDelay(freq: nat): nat {
    Max(freq / 10_000, 1)
  }

  /** The interrupt comes at the deadline if that is more than a tick and more than a 10_000th of a
      second away, and otherwise a 10_000th of a second after arming, rounded down to whole ticks but
      at least one. */
  ghost predicate Prompt(deadline: nat, armedAt: nat, interval: nat, freq: nat) {
    if deadline > armedAt + 1 && 10_000 * (deadline - armedAt) > freq then armedAt + interval == deadline
    else if freq < 10_000 then interval == 1
    else 10_000 * interval <= freq < 10_000 * (interval + 1)
  }

  lemma DelayIsPrompt(deadline: nat, now: nat, freq: nat)
    ensures Prompt(deadline, now, Max(if deadline >= now then deadline - now else 0, MinDelay(freq)), freq)
  {
    DivModDef(freq, 10_000);
  }

  /** The hardware timer is programmed for the earliest deadline. */
  ghost predicate ArmedFor(keys: set<Key>, enabled: bool, armedAt: nat, interval: nat, freq: nat) {
    if keys == {} then !enabled
    else enabled && exists k :: IsFirst(k, keys) && Prompt(k.deadline, armedAt, interval, freq)
  }

  /** How early and how late the interrupt is: not before the earliest deadline, and for no pending
      timer later than its deadline unless it is a tick or a 10_000th of a second after arming. */
  lemma HowLate(keys: set<Key>, enabled: bool, armedAt: nat, interval: nat, freq: nat)
    requires Whole(ArmedFor(keys, enabled, armedAt, interval, freq)) && keys != {}
    ensures enabled && interval >= 1
    ensures exists k :: k in keys && k.deadline <= armedAt + interval
    ensures forall k :: k in keys ==>
              armedAt + interval <= k.deadline || interval == 1 || 10_000 * interval <= freq
  {
    assert OpenFirst(0);
    var first :| IsFirst(first, keys) && Prompt(first.deadline, armedAt, interval, freq);
    assert Least(first, keys);
    assert first in keys && first.deadline <= armedAt + interval;
  }

  // Adding a key that is not earlier, or removing one that is not the first, changes nothing.
  lemma StaysArmed(keys: set<Key>, keys': set<Key>, first: Key, first': Key, enabled: bool, armedAt: nat,
                   interval: nat, freq: nat)
    requires Whole(ArmedFor(keys, enabled, armedAt, interval, freq)) && Whole(IsFirst(first, keys))
    requires Whole(IsFirst(first', keys')) && first'.deadline == first.deadline
    ensures ArmedFor(keys', enabled, armedAt, interval, freq)
  {
    assert OpenFirst(0);
    var k :| IsFirst(k, keys) && Prompt(k.deadline, armedAt, interval, freq);
    assert k == first;
  }

  lemma FirstIsEarliest(first: Key, keys: set<Key>)
    requires Whole(IsFirst(first, keys))
    ensures forall k :: k in keys ==> first.deadline <= k.deadline
  {
    assert OpenFirst(0);
  }

  lemma FirstAdd(keys: set<Key>, keys': set<Key>, first: Key, key: Key) returns (first': Key)
    requires Whole(IsFirst(first, keys)) && first.deadline <= key.deadline && keys' == keys + {key}
    ensures Whole(IsFirst(first', keys')) && first'.deadline == first.deadline
  {
    assert OpenFirst(0);
    first' := if Before(key, first) then key else first;
    assert Least(first', keys');
  }

  lemma OneFirst(a: Key, b: Key, keys: set<Key>)
    requires Whole(IsFirst(a, keys)) && Whole(IsFirst(b, keys))
    ensures a == b
  {
    assert OpenFirst(0);
    assert Least(a, keys) && Least(b, keys);
  }

  lemma FirstRemove(keys: set<Key>, keys': set<Key>, first: Key, key: Key)
    requires Whole(IsFirst(first, keys)) && key != first && keys' == keys - {key}
    ensures Whole(IsFirst(first, keys'))
  {
    assert OpenFirst(0);
    assert Least(first, keys');
  }

  /** The earlier deadline comes first, and of two equal ones the timer scheduled first. */
  ghost predicate EarlierOrOlder(a: Key, b: Key) {
    a.deadline < b.deadline || (a.deadline == b.deadline && a.id < b.id)
  }

  predicate OpenDrained(t: int) {
    true
  }

  /** From `before` the timers in `gone` have been taken out in key order; their callbacks are
      `callbacks`, and what is left comes after them. */
  ghost predicate Drained<C>(before: map<Key, C>, left: map<Key, C>, gone: seq<Key>, callbacks: seq<C>, now: nat) {
    forall t {:trigger OpenDrained(t)} :: OpenDrained(t) ==>
      && |gone| == |callbacks|
      && (forall i :: 0 <= i < |gone| ==>
            gone[i].deadline <= now && gone[i] in before && callbacks[i] == before[gone[i]])
      && (forall i, j :: 0 <= i < j < |gone| ==> EarlierOrOlder(gone[i], gone[j]))
      && (forall k :: k in left ==> k in before && left[k] == before[k])
      && (forall k :: k in before ==> k in left || exists i :: 0 <= i < |gone| && gone[i] == k)
      && (forall i, k :: 0 <= i < |gone| && k in left ==> Before(gone[i], k))
  }

  lemma DrainNext<C>(before: map<Key, C>, left: map<Key, C>, gone: seq<Key>, callbacks: seq<C>, now: nat, k: Key)
    requires Whole(Drained(before, left, gone, callbacks, now)) && Whole(IsFirst(k, left.Keys)) && k in left
    requires k.deadline <= now
    ensures Drained(before, left - {k}, gone + [k], callbacks + [left[k]], now)
  {
    assert OpenDrained(0) && OpenFirst(0);
    var gone' := gone + [k];
    forall x | x in before ensures x in left - {k} || exists i :: 0 <= i < |gone'| && gone'[i] == x {
      if x == k {
        assert gone'[|gone|] == k;
      } else if x !in left {
        var i :| 0 <= i < |gone| && gone[i] == x;
        assert gone'[i] == x;
      }
    }
  }

  /** Exactly the timers due at `now` are gone. */
  ghost predicate Collected<C>(before: map<Key, C>, left: map<Key, C>, gone: seq<Key>, callbacks: seq<C>, now: nat) {
    && Whole(Drained(before, left, gone, callbacks, now))
    && (forall k :: k in left <==> k in before && k.deadline > now)
    && (forall k :: k in before && k.deadline <= now ==> exists i :: 0 <= i < |gone| && gone[i] == k)
  }

  lemma DrainEnd<C>(before: map<Key, C>, left: map<Key, C>, gone: seq<Key>, callbacks: seq<C>, now: nat,
                    first: Option<Key>)
    requires Whole(Drained(before, left, gone, callbacks, now))
    requires first.None? ==> left == map[]
    requires first.Some? ==> Whole(IsFirst(first.value, left.Keys)) && first.value.deadline > now
    ensures Collected(before, left, gone, callbacks, now)
  {
    assert OpenDrained(0) && OpenFirst(0);
    assert forall k :: k in left ==> k == first.value || Before(first.value, k);
  }

  /** An interrupt that comes no earlier than programmed finds a due timer. */
  lemma IrqFindsDue<C>(before: map<Key, C>, left: map<Key, C>, gone: seq<Key>, callbacks: seq<C>, now: nat,
                       enabled: bool, armedAt: nat, interval: nat, freq: nat)
    requires Whole(ArmedFor(before.Keys, enabled, armedAt, interval, freq)) && before != map[]
    requires Whole(Collected(before, left, gone, callbacks, now)) && now >= armedAt + interval
    ensures callbacks != []
  {
    assert OpenFirst(0) && OpenDrained(0);
    var k :| IsFirst(k, before.Keys) && Prompt(k.deadline, armedAt, interval, freq);
    assert k in before;
  }

  /** What the hardware timer was told, and when. */
  datatype Hardware = Hardware(enabled: bool, armedAt: nat, interval: nat)

  class TimerManager<C(!new)> {
    var nextId: nat
    var timers: map<Key, C>
    var index: map<nat, nat>

    // The hardware timer.
    const freq: nat
    var interval: nat
    var armedAt: nat
    var irqEnabled: bool

    ghost predicate Indexed()
      reads this
    {
      nextId < USIZE_LIMIT && |index| < USIZE_LIMIT && Whole(Agree(timers, index))
    }

    ghost predicate Valid()
      reads this
    {
      && Indexed()
      && Whole(ArmedFor(timers.Keys, irqEnabled, armedAt, interval, freq))
    }

    ghost function Programmed(): Hardware
      reads this
    {
      Hardware(irqEnabled, armedAt, interval)
    }

    constructor (freq: nat)
      ensures Valid() && timers == map[] && index == map[] && nextId == 1 && this.freq == freq
    {
      this.freq := freq;
      nextId, timers, index := 1, map[], map[];
      interval, armedAt, irqEnabled := 0, 0, false;
    }

    /** `timers.keys().next()` */
    method First() returns (r: Option<Key>)
      ensures r.None? <==> timers == map[]
      ensures r.Some? ==> r.value in timers && Whole(IsFirst(r.value, timers.Keys))
    {
      if timers.Keys == {} {
        return None;
      }
      ghost var least := LeastExists(timers.Keys);
      var k :| k in timers.Keys && Least(k, timers.Keys);
      assert IsFirst(k, timers.Keys);
      return Some(k);
    }

    /** `arm_hardware_timer` */
    method ArmHardwareTimer(now: nat)
      modifies this`interval, this`armedAt, this`irqEnabled
      ensures Whole(ArmedFor(timers.Keys, irqEnabled, armedAt, interval, freq)) && armedAt == now
      ensures timers == map[] ==> interval == USIZE_LIMIT - 1
    {
      var first := First();
      armedAt := now;
      if first.Some? {
        var delay := if first.value.deadline >= now then first.value.deadline - now else 0;
        interval := Max(delay, MinDelay(freq));
        DelayIsPrompt(first.value.deadline, now, freq);
        irqEnabled := true;
      } else {
        interval := USIZE_LIMIT - 1;
        irqEnabled := false;
      }
    }

    /** `next_timer_id`: the search ends, on an id that is not pending, even after wrapping. */
    method NextTimerId() returns (id: nat)
      requires Indexed()
      modifies this`nextId
      ensures id < USIZE_LIMIT && id !in index && Indexed()
      ensures nextId == (id + 1) % USIZE_LIMIT
      ensures forall x :: Passed(old(nextId), (id - old(nextId)) % USIZE_LIMIT, x) ==> x in index
      ensures old(nextId) !in index ==> id == old(nextId)
    {
      ghost var tried: set<nat> := {};
      ghost var start := nextId;
      while true
        invariant nextId < USIZE_LIMIT && |tried| < USIZE_LIMIT
        invariant tried <= index.Keys
        invariant nextId == Step(start, |tried|)
        invariant forall x :: x in tried <==> Passed(start, |tried|, x)
        invariant start !in index ==> tried == {}
        decreases |index| - |tried|
      {
        id := nextId;
        nextId := (nextId + 1) % USIZE_LIMIT;
        if id !in index {
          StepDistance(start, |tried|, id);
          return;
        }
        forall x: nat ensures Passed(start, |tried| + 1, x) <==> Passed(start, |tried|, x) || x == id {
          PassedNext(start, |tried|, x);
        }
        StepNext(start, |tried|);
        PassedNext(start, |tried|, id);
        tried := tried + {id};
        SubsetSize(tried, index.Keys);
      }
    }

    /** `schedule_at_internal`; `armNow` is the tick count read while arming. */
    method ScheduleAt(deadline: nat, callback: C, armNow: nat) returns (id: nat)
      requires Valid() && |index| + 1 < USIZE_LIMIT
      modifies this
      ensures Valid()
      ensures id !in old(index) && timers == old(timers)[Key(deadline, id) := callback]
      ensures index == old(index)[id := deadline]
      ensures nextId == (id + 1) % USIZE_LIMIT && (old(nextId) !in old(index) ==> id == old(nextId))
      ensures if exists k :: k in old(timers) && k.deadline <= deadline
              then armedAt == old(armedAt) && interval == old(interval) && irqEnabled == old(irqEnabled)
              else armedAt == armNow
    {
      id := NextTimerId();
      var key := Key(deadline, id);
      var first := First();
      var isEarliest := first.None? || deadline < first.value.deadline;
      ghost var timers0 := timers;
      AgreeAdd(timers, index, key, callback);
      timers := timers[key := callback];
      index := index[id := deadline];
      if isEarliest {
        if first.Some? {
          FirstIsEarliest(first.value, old(timers.Keys));
        }
        ArmHardwareTimer(armNow);
      } else {
        assert first.value in old(timers) && first.value.deadline <= deadline;
        assert timers.Keys == timers0.Keys + {key};
        ghost var first' := FirstAdd(timers0.Keys, timers.Keys, first.value, key);
        StaysArmed(timers0.Keys, timers.Keys, first.value, first', irqEnabled, armedAt, interval, freq);
      }
    }

    /** `schedule_after` */
    method ScheduleAfter(delay: nat, callback: C, now: nat, armNow: nat) returns (r: Option<nat>)
      requires Valid() && |index| + 1 < USIZE_LIMIT
      modifies this
      ensures Valid()
      ensures r.None? <==> now + delay >= USIZE_LIMIT
      ensures r.None? ==> timers == old(timers) && index == old(index) && nextId == old(nextId)
      ensures r.None? ==> armedAt == old(armedAt) && interval == old(interval) && irqEnabled == old(irqEnabled)
      ensures r.Some? ==> r.value !in old(index) && timers == old(timers)[Key(now + delay, r.value) := callback]
      ensures r.Some? ==> index == old(index)[r.value := now + delay]
      ensures r.Some? ==>
                nextId == (r.value + 1) % USIZE_LIMIT && (old(nextId) !in old(index) ==> r.value == old(nextId))
      ensures r.Some? ==>
                if exists k :: k in old(timers) && k.deadline <= now + delay
                then armedAt == old(armedAt) && interval == old(interval) && irqEnabled == old(irqEnabled)
                else armedAt == armNow
    {
      if now + delay >= USIZE_LIMIT {
        return None;
      }
      var id := ScheduleAt(now + delay, callback, armNow);
      return Some(id);
    }

    /** The removal in `cancel`; unless the first timer went, the hardware needs nothing. */
    method Unlist(key: Key) returns (wasFirst: bool)
      requires Valid() && key.id in index && index[key.id] == key.deadline
      modifies this`timers, this`index
      ensures Indexed()
      ensures !wasFirst ==> Whole(ArmedFor(timers.Keys, irqEnabled, armedAt, interval, freq))
      ensures wasFirst <==> Whole(IsFirst(key, old(timers.Keys)))
      ensures index == old(index) - {key.id} && timers == old(timers) - {key}
    {
      ghost var keys := timers.Keys;
      AgreeRemove(timers, index, key);
      index := index - {key.id};
      var first := First();
      wasFirst := first == Some(key);
      if Whole(IsFirst(key, keys)) {
        OneFirst(key, first.value, keys);
      }
      timers := timers - {key};
      if !wasFirst {
        FirstRemove(keys, timers.Keys, first.value, key);
        StaysArmed(keys, timers.Keys, first.value, first.value, irqEnabled, armedAt, interval, freq);
      }
    }

    /** `cancel` */
    method Cancel(id: nat, armNow: nat) returns (ok: bool)
      requires Valid()
      modifies this
      ensures Valid()
      ensures ok == (id in old(index))
      ensures ok ==> index == old(index) - {id} && timers == old(timers) - {Key(old(index)[id], id)}
      ensures !ok ==> index == old(index) && timers == old(timers)
      ensures if ok && Whole(IsFirst(Key(old(index)[id], id), old(timers.Keys))) then armedAt == armNow
              else armedAt == old(armedAt) && interval == old(interval) && irqEnabled == old(irqEnabled)
      ensures nextId == old(nextId)
    {
      if id !in index {
        return false;
      }
      var wasFirst := Unlist(Key(index[id], id));
      if wasFirst {
        ArmHardwareTimer(armNow);
      }
      return true;
    }

    /** One round of the loop of `handle_irq`. */
    method Expire(key: Key, now: nat) returns (callback: C)
      requires Indexed() && key in timers && key.deadline <= now
      modifies this`timers, this`index
      ensures Indexed() && callback == old(timers)[key] && timers == old(timers) - {key} && |index| <= |old(index)|
    {
      AgreeRemove(timers, index, key);
      callback := timers[key];
      timers := timers - {key};
      index := index - {key.id};
    }

    /** The loop of `handle_irq`. */
    method Drain(now: nat) returns (expired: seq<C>, ghost gone: seq<Key>)
      requires Indexed()
      modifies this`timers, this`index
      ensures Indexed() && |index| <= |old(index)|
      ensures Whole(Collected(old(timers), timers, gone, expired, now))
    {
      expired, gone := [], [];
      ghost var timers0 := timers;
      while true
        invariant Indexed() && |index| <= |old(index)|
        invariant Whole(Drained(timers0, timers, gone, expired, now))
        decreases |timers|
      {
        var key := First();
        if key.None? || key.value.deadline > now {
          DrainEnd(timers0, timers, gone, expired, now, key);
          return;
        }
        DrainNext(timers0, timers, gone, expired, now, key.value);
        var callback := Expire(key.value, now);
        expired := expired + [callback];
        gone := gone + [key.value];
      }
    }

    /** `handle_irq`: the callbacks of exactly the due timers, in (deadline, id) order. */
    method HandleIrq(now: nat, armNow: nat) returns (expired: seq<C>, ghost gone: seq<Key>)
      requires Valid()
      modifies this
      ensures Valid() && nextId == old(nextId) && |index| <= |old(index)|
      ensures Whole(Collected(old(timers), timers, gone, expired, now))
      ensures old(timers) != map[] && now >= old(armedAt) + old(interval) ==> expired != []
      ensures armedAt == armNow
    {
      ghost var timers0 := timers;
      expired, gone := Drain(now);
      if timers0 != map[] && now >= armedAt + interval {
        IrqFindsDue(timers0, timers, gone, expired, now, irqEnabled, armedAt, interval, freq);
      }
      ArmHardwareTimer(armNow);
    }

    /** `snapshot` */
    method Snapshot(now: nat) returns (list: seq<(Key, nat)>)
      ensures |list| == |timers|
      ensures forall i :: 0 <= i < |list| ==>
                list[i].0 in timers && list[i].1 == if list[i].0.deadline >= now then list[i].0.deadline - now else 0
      ensures forall i, j :: 0 <= i < j < |list| ==> EarlierOrOlder(list[i].0, list[j].0)
    {
      var rest := timers.Keys;
      list := [];
      while rest != {}
        invariant rest <= timers.Keys && |list| + |rest| == |timers.Keys|
        invariant forall i :: 0 <= i < |list| ==>
                    && list[i].0 in timers
                    && list[i].1 == if list[i].0.deadline >= now then list[i].0.deadline - now else 0
        invariant forall i, j :: 0 <= i < j < |list| ==> Before(list[i].0, list[j].0)
        invariant forall i, k :: 0 <= i < |list| && k in rest ==> Before(list[i].0, k)
        decreases |rest|
      {
        ghost var least := LeastExists(rest);
        var k :| k in rest && Least(k, rest);
        LeastBefore(k, rest);
        list := list + [(k, if k.deadline >= now then k.deadline - now else 0)];
        rest := rest - {k};
      }
    }
  }

  /** The id tried after `n` others. */
  function Step(start: nat, n: nat): nat {
    (start + n) % USIZE_LIMIT
  }

  /** `x` is one of the first `n` ids tried. */
  predicate Passed(start: nat, n: nat, x: nat) {
    x < USIZE_LIMIT && (x - start) % USIZE_LIMIT < n
  }

  lemma StepDistance(start: nat, n: nat, id: nat)
    requires start < USIZE_LIMIT && n < USIZE_LIMIT && id == Step(start, n)
    ensures (id - start) % USIZE_LIMIT == n
  {
  }

  lemma PassedNext(start: nat, n: nat, x: nat)
    requires start < USIZE_LIMIT && n < USIZE_LIMIT
    ensures Passed(start, n + 1, x) <==> Passed(start, n, x) || x == Step(start, n)
    ensures !Passed(start, n, Step(start, n))
  {
  }

  lemma StepNext(start: nat, n: nat)
    ensures Step(start, n + 1) == (Step(start, n) + 1) % USIZE_LIMIT
  {
  }

  lemma SubsetSize<T>(a: set<T>, b: set<T>)
    requires a <= b
    ensures |a| <= |b|
    decreases |b|
  {
    if b != {} {
      var x :| x in b;
      SubsetSize(a - {x}, b - {x});
    }
  }

  // ----- whole runs -----

  datatype Event<C> =
    | After(delay: nat, callback: C)
    | At(deadline: nat, callback: C)
    | CancelTimer(id: nat)
    | Irq

  datatype Answer<C> = Scheduled(id: Option<nat>) | Cancelled(ok: bool) | Expired(callbacks: seq<C>)

  /** What a caller can know: how many handles were given out and which timers are pending. */
  datatype State<C> = State(count: nat, pending: map<Key, C>)

  ghost predicate HasId<C>(pending: map<Key, C>, id: nat) {
    exists k :: k in pending && k.id == id
  }

  /** `s` gives out the next handle. */
  function Added<C>(s: State<C>, deadline: nat, callback: C): State<C> {
    State(s.count + 1, s.pending[Key(deadline, s.count + 1) := callback])
  }

  /** One call at tick `now`: what it answers and what is pending afterwards. */
  ghost predicate Steps<C(!new)>(s: State<C>, e: Event<C>, now: nat, a: Answer<C>, s': State<C>) {
    match e
    case After(delay, callback) =>
      if now + delay >= USIZE_LIMIT then a == Scheduled(None) && s' == s
      else a == Scheduled(Some(s.count + 1)) && s' == Added(s, now + delay, callback)
    case At(deadline, callback) => a == Scheduled(Some(s.count + 1)) && s' == Added(s, deadline, callback)
    case CancelTimer(id) =>
      && a.Cancelled? && (a.ok <==> HasId(s.pending, id))
      && s'.count == s.count && s'.pending == map k | k in s.pending && k.id != id :: s.pending[k]
    case Irq =>
      && a.Expired? && s'.count == s.count
      && exists gone :: Whole(Collected(s.pending, s'.pending, gone, a.callbacks, now))
  }

  /** Between any two calls the hardware is armed for the earliest pending timer, since the last call
      or as before it. */
  ghost predicate AllArmed<C(!new)>(states: seq<State<C>>, ticks: seq<(nat, nat)>, hw: seq<Hardware>, freq: nat) {
    && |states| == |hw| == |ticks| + 1
    && (forall k :: 0 <= k < |states| ==>
          Whole(ArmedFor(states[k].pending.Keys, hw[k].enabled, hw[k].armedAt, hw[k].interval, freq)))
    && (forall k :: 0 <= k < |ticks| ==> hw[k + 1] == hw[k] || hw[k + 1].armedAt == ticks[k].1)
  }

  lemma ArmedMore<C(!new)>(states: seq<State<C>>, ticks: seq<(nat, nat)>, hw: seq<Hardware>, freq: nat, i: nat,
                           s': State<C>, h: Hardware)
    requires i < |ticks| && AllArmed(states, ticks[..i], hw, freq) && (h == hw[i] || h.armedAt == ticks[i].1)
    requires Whole(ArmedFor(s'.pending.Keys, h.enabled, h.armedAt, h.interval, freq))
    ensures AllArmed(states + [s'], ticks[..i + 1], hw + [h], freq)
  {
    forall k | 0 <= k < i + 1 ensures (hw + [h])[k + 1] == (hw + [h])[k] || (hw + [h])[k + 1].armedAt == ticks[k].1 {
      if k < i {
        assert ticks[..i][k] == ticks[k] && (hw[k + 1] == hw[k] || hw[k + 1].armedAt == ticks[..i][k].1);
      }
    }
  }

  /** The calls were made one after the other, from the state of a new manager on. */
  ghost predicate Chain<C(!new)>(states: seq<State<C>>, events: seq<Event<C>>, ticks: seq<(nat, nat)>,
                                 answers: seq<Answer<C>>) {
    && |events| == |ticks| == |answers| && |states| == |events| + 1
    && states[0] == State(0, map[])
    && forall k :: 0 <= k < |events| ==> Steps(states[k], events[k], ticks[k].0, answers[k], states[k + 1])
  }

  /** Pending ids were given out, and each belongs to one timer. */
  ghost predicate Distinct<C>(s: State<C>) {
    && (forall k :: k in s.pending ==> 0 < k.id <= s.count)
    && (forall j, k :: j in s.pending && k in s.pending && j.id == k.id ==> j == k)
  }

  lemma LeftIsDue<C>(before: map<Key, C>, left: map<Key, C>, gone: seq<Key>, callbacks: seq<C>, now: nat)
    requires Whole(Collected(before, left, gone, callbacks, now))
    ensures forall k :: k in left <==> k in before && k.deadline > now
    ensures forall k :: k in left ==> left[k] == before[k]
  {
    assert OpenDrained(0);
  }

  /** Keys that stay pending keep their callbacks; the only new one is that of a new handle. */
  lemma StepKeeps<C(!new)>(s: State<C>, e: Event<C>, now: nat, a: Answer<C>, s': State<C>)
    requires Steps(s, e, now, a, s') && Distinct(s)
    ensures Distinct(s') && s.count <= s'.count
    ensures forall k :: k in s'.pending && k.id <= s.count ==> k in s.pending && s'.pending[k] == s.pending[k]
    ensures forall k :: k in s.pending && k !in s'.pending ==>
              e == CancelTimer(k.id) || (e.Irq? && k.deadline <= now)
    ensures forall k :: k in s.pending && (e == CancelTimer(k.id) || (e.Irq? && k.deadline <= now)) ==> k !in s'.pending
  {
    if e.Irq? {
      var gone :| Whole(Collected(s.pending, s'.pending, gone, a.callbacks, now));
      LeftIsDue(s.pending, s'.pending, gone, a.callbacks, now);
    }
  }

  lemma {:induction false} AllDistinct<C(!new)>(states: seq<State<C>>, events: seq<Event<C>>, ticks: seq<(nat, nat)>,
                                                answers: seq<Answer<C>>, n: nat)
    requires Chain(states, events, ticks, answers) && n < |states|
    ensures Distinct(states[n])
    ensures forall i :: 0 <= i <= n ==> states[i].count <= states[n].count
  {
    if n > 0 {
      AllDistinct(states, events, ticks, answers, n - 1);
      StepKeeps(states[n - 1], events[n - 1], ticks[n - 1].0, answers[n - 1], states[n]);
    }
  }

  /** Call `j` is an interrupt that takes out the timer `key`. */
  ghost predicate FiresAt<C>(states: seq<State<C>>, events: seq<Event<C>>, ticks: seq<(nat, nat)>, j: int, key: Key) {
    && 0 <= j < |events| && j < |states| && j < |ticks|
    && events[j].Irq? && key in states[j].pending && key.deadline <= ticks[j].0
  }

  /** Call `j` is a successful cancel of the handle. */
  predicate CancelsAt<C(==)>(events: seq<Event<C>>, answers: seq<Answer<C>>, j: int, id: nat) {
    0 <= j < |events| && j < |answers| && events[j] == CancelTimer(id) && answers[j] == Cancelled(true)
  }

  ghost predicate EndsAt<C(!new)>(states: seq<State<C>>, events: seq<Event<C>>, ticks: seq<(nat, nat)>,
                                  answers: seq<Answer<C>>, j: int, key: Key) {
    FiresAt(states, events, ticks, j, key) || CancelsAt(events, answers, j, key.id)
  }

  /** Call `k` scheduled the timer `key`. */
  ghost predicate StartsAt<C(!new)>(events: seq<Event<C>>, ticks: seq<(nat, nat)>, answers: seq<Answer<C>>, k: int,
                                    key: Key, callback: C) {
    && 0 <= k < |events| && k < |ticks| && k < |answers| && answers[k] == Scheduled(Some(key.id))
    && match events[k]
       case After(delay, c) => key.deadline == ticks[k].0 + delay && c == callback
       case At(deadline, c) => key.deadline == deadline && c == callback
       case _ => false
  }

  /** Up to call `n` the timer is pending and nothing has ended it, or one call has. */
  ghost predicate Fate<C(!new)>(states: seq<State<C>>, events: seq<Event<C>>, ticks: seq<(nat, nat)>,
                                answers: seq<Answer<C>>, k: nat, key: Key, callback: C, n: nat)
    requires n < |states|
  {
    || (&& key in states[n].pending && states[n].pending[key] == callback
        && forall j :: 0 <= j < n ==> !EndsAt(states, events, ticks, answers, j, key))
    || (&& !HasId(states[n].pending, key.id)
        && exists j :: k < j < n && EndsAt(states, events, ticks, answers, j, key)
                       && forall i :: 0 <= i < n && EndsAt(states, events, ticks, answers, i, key) ==> i == j)
  }

  /** Before its handle is given out nothing can end a timer. */
  lemma NoneEarlier<C(!new)>(states: seq<State<C>>, events: seq<Event<C>>, ticks: seq<(nat, nat)>,
                             answers: seq<Answer<C>>, k: nat, key: Key, callback: C, j: nat)
    requires Chain(states, events, ticks, answers) && StartsAt(events, ticks, answers, k, key, callback) && j <= k
    ensures !EndsAt(states, events, ticks, answers, j, key)
    ensures key.id == states[k].count + 1 && key in states[k + 1].pending && states[k + 1].pending[key] == callback
  {
    AllDistinct(states, events, ticks, answers, j);
    AllDistinct(states, events, ticks, answers, k);
    assert Steps(states[k], events[k], ticks[k].0, answers[k], states[k + 1]);
    assert Steps(states[j], events[j], ticks[j].0, answers[j], states[j + 1]);
  }

  /** What one call does to a timer: nothing, or it ends it. */
  lemma FateStep<C(!new)>(states: seq<State<C>>, events: seq<Event<C>>, ticks: seq<(nat, nat)>, answers: seq<Answer<C>>,
                          n: nat, key: Key)
    requires Chain(states, events, ticks, answers) && n < |events| && 0 < key.id <= states[n].count
    ensures !HasId(states[n].pending, key.id) ==>
              !HasId(states[n + 1].pending, key.id) && !EndsAt(states, events, ticks, answers, n, key)
    ensures key in states[n].pending ==>
              if EndsAt(states, events, ticks, answers, n, key) then !HasId(states[n + 1].pending, key.id)
              else key in states[n + 1].pending && states[n + 1].pending[key] == states[n].pending[key]
  {
    AllDistinct(states, events, ticks, answers, n);
    assert Steps(states[n], events[n], ticks[n].0, answers[n], states[n + 1]);
    StepKeeps(states[n], events[n], ticks[n].0, answers[n], states[n + 1]);
  }

  /** Every timer that was scheduled is, at every later time, either still pending with its
      callback, or was ended by exactly one call: an interrupt no earlier than its deadline, or a
      cancel that answered true. */
  lemma {:induction false} ExactlyOnce<C(!new)>(states: seq<State<C>>, events: seq<Event<C>>, ticks: seq<(nat, nat)>,
                                                answers: seq<Answer<C>>, k: nat, key: Key, callback: C, n: nat)
    requires Chain(states, events, ticks, answers) && StartsAt(events, ticks, answers, k, key, callback)
    requires k < n < |states|
    ensures Fate(states, events, ticks, answers, k, key, callback, n)
  {
    if n == k + 1 {
      FateStart(states, events, ticks, answers, k, key, callback);
    } else {
      ExactlyOnce(states, events, ticks, answers, k, key, callback, n - 1);
      GivenBefore(states, events, ticks, answers, k, key, callback, n - 1);
      FateStep(states, events, ticks, answers, n - 1, key);
      FateNext(states, events, ticks, answers, k, key, callback, n - 1);
    }
  }

  lemma FateStart<C(!new)>(states: seq<State<C>>, events: seq<Event<C>>, ticks: seq<(nat, nat)>,
                           answers: seq<Answer<C>>, k: nat, key: Key, callback: C)
    requires Chain(states, events, ticks, answers) && StartsAt(events, ticks, answers, k, key, callback)
    ensures Fate(states, events, ticks, answers, k, key, callback, k + 1)
  {
    forall j: int | 0 <= j < k + 1 ensures !EndsAt(states, events, ticks, answers, j, key) {
      NoneEarlier(states, events, ticks, answers, k, key, callback, j);
    }
    NoneEarlier(states, events, ticks, answers, k, key, callback, k);
  }

  lemma GivenBefore<C(!new)>(states: seq<State<C>>, events: seq<Event<C>>, ticks: seq<(nat, nat)>,
                             answers: seq<Answer<C>>, k: nat, key: Key, callback: C, n: nat)
    requires Chain(states, events, ticks, answers) && StartsAt(events, ticks, answers, k, key, callback)
    requires k < n < |states|
    ensures 0 < key.id <= states[n].count
  {
    NoneEarlier(states, events, ticks, answers, k, key, callback, k);
    AllDistinct(states, events, ticks, answers, n);
    assert Steps(states[k], events[k], ticks[k].0, answers[k], states[k + 1]);
  }

  lemma FateNext<C(!new)>(states: seq<State<C>>, events: seq<Event<C>>, ticks: seq<(nat, nat)>, answers: seq<Answer<C>>,
                          k: nat, key: Key, callback: C, n: nat)
    requires n + 1 < |states| && k < n && Fate(states, events, ticks, answers, k, key, callback, n)
    requires !HasId(states[n].pending, key.id) ==>
               !HasId(states[n + 1].pending, key.id) && !EndsAt(states, events, ticks, answers, n, key)
    requires key in states[n].pending ==>
               if EndsAt(states, events, ticks, answers, n, key) then !HasId(states[n + 1].pending, key.id)
               else key in states[n + 1].pending && states[n + 1].pending[key] == states[n].pending[key]
    ensures Fate(states, events, ticks, answers, k, key, callback, n + 1)
  {
    if !HasId(states[n].pending, key.id) {
      var j :| k < j < n && EndsAt(states, events, ticks, answers, j, key)
               && forall i :: 0 <= i < n && EndsAt(states, events, ticks, answers, i, key) ==> i == j;
      assert k < j < n + 1 && EndsAt(states, events, ticks, answers, j, key);
    } else if EndsAt(states, events, ticks, answers, n, key) {
      assert k < n < n + 1;
    }
  }

  /** What an interrupt returns: the callbacks of the timers it takes out, in (deadline, id) order,
      each the one its timer was scheduled with, and no others. */
  lemma FiredCallbacks<C(!new)>(states: seq<State<C>>, events: seq<Event<C>>, ticks: seq<(nat, nat)>,
                                answers: seq<Answer<C>>, j: nat) returns (gone: seq<Key>)
    requires Chain(states, events, ticks, answers) && j < |events| && events[j].Irq?
    ensures answers[j].Expired? && |gone| == |answers[j].callbacks|
    ensures forall i :: 0 <= i < |gone| ==>
              FiresAt(states, events, ticks, j, gone[i]) && answers[j].callbacks[i] == states[j].pending[gone[i]]
    ensures forall key :: FiresAt(states, events, ticks, j, key) ==> key in gone
    ensures forall i, l :: 0 <= i < l < |gone| ==> EarlierOrOlder(gone[i], gone[l])
  {
    assert Steps(states[j], events[j], ticks[j].0, answers[j], states[j + 1]);
    gone :| Whole(Collected(states[j].pending, states[j + 1].pending, gone, answers[j].callbacks, ticks[j].0));
    assert OpenDrained(0);
    forall key | FiresAt(states, events, ticks, j, key) ensures key in gone {
      var i :| 0 <= i < |gone| && gone[i] == key;
    }
  }

  /** The manager after `count` handles, none of them used twice. */
  ghost predicate Counts<C(!new)>(m: TimerManager<C>, count: nat)
    reads m
  {
    m.nextId == count + 1 && forall id :: id in m.index ==> id <= count
  }

  lemma CancelledMap<C>(timers: map<Key, C>, index: map<nat, nat>, id: nat)
    requires Whole(Agree(timers, index))
    ensures HasId(timers, id) <==> id in index
    ensures (map k | k in timers && k.id != id :: timers[k]) ==
            if id in index then timers - {Key(index[id], id)} else timers
  {
    assert OpenAgree(0);
    if id in index {
      assert Key(index[id], id) in timers;
    }
  }

  lemma IrqIndex<C>(before: map<Key, C>, left: map<Key, C>, gone: seq<Key>, callbacks: seq<C>, now: nat,
                    index: map<nat, nat>, index': map<nat, nat>, count: nat)
    requires Whole(Collected(before, left, gone, callbacks, now)) && Whole(Agree(before, index))
    requires Whole(Agree(left, index'))
    requires forall id :: id in index ==> id <= count
    ensures forall id :: id in index' ==> id <= count
  {
    LeftIsDue(before, left, gone, callbacks, now);
    assert OpenAgree(0);
  }

  /** One call, with the tick counts it reads. */
  method Handle<C(!new)>(m: TimerManager<C>, e: Event<C>, now: nat, armNow: nat, ghost count: nat)
    returns (a: Answer<C>, ghost s': State<C>)
    requires m.Valid() && |m.index| + 1 < USIZE_LIMIT && Counts(m, count) && count + 2 < USIZE_LIMIT
    modifies m
    ensures m.Valid() && |m.index| <= |old(m.index)| + 1
    ensures Steps(State(count, old(m.timers)), e, now, a, s')
    ensures s'.pending == m.timers && Counts(m, s'.count) && s'.count <= count + 1
    ensures m.Programmed() == old(m.Programmed()) || m.armedAt == armNow
  {
    match e
    case After(delay, callback) =>
      var r := m.ScheduleAfter(delay, callback, now, armNow);
      return Scheduled(r), State(if r.Some? then count + 1 else count, m.timers);
    case At(deadline, callback) =>
      var id := m.ScheduleAt(deadline, callback, armNow);
      return Scheduled(Some(id)), State(count + 1, m.timers);
    case CancelTimer(id) =>
      SubsetSize((m.index - {id}).Keys, m.index.Keys);
      CancelledMap(m.timers, m.index, id);
      var ok := m.Cancel(id, armNow);
      return Cancelled(ok), State(count, m.timers);
    case Irq =>
      ghost var before, index, gone := m.timers, m.index, [];
      var callbacks;
      callbacks, gone := m.HandleIrq(now, armNow);
      IrqIndex(before, m.timers, gone, callbacks, now, index, m.index, count);
      return Expired(callbacks), State(count, m.timers);
  }

  /** Any sequence of calls on a new manager: every answer and every change of the pending timers is
      that of `Steps`, and after every call the hardware is armed for the earliest pending timer. */
  method Run<C(!new)>(freq: nat, events: seq<Event<C>>, ticks: seq<(nat, nat)>)
    returns (m: TimerManager<C>, answers: seq<Answer<C>>, ghost states: seq<State<C>>, ghost hw: seq<Hardware>)
    requires |ticks| == |events| < USIZE_LIMIT - 2
    ensures m.Valid() && m.freq == freq
    ensures Chain(states, events, ticks, answers) && states[|events|].pending == m.timers
    ensures AllArmed(states, ticks, hw, freq) && hw[|events|] == m.Programmed()
  {
    m := new TimerManager(freq);
    answers, states, hw := [], [State(0, map[])], [m.Programmed()];
    var i := 0;
    while i < |events|
      invariant i <= |events| && fresh(m) && m.Valid() && |m.index| <= i && m.freq == freq
      invariant |answers| == i && |states| == i + 1 && states[i].pending == m.timers
      invariant Counts(m, states[i].count) && states[i].count <= i
      invariant Chain(states, events[..i], ticks[..i], answers)
      invariant AllArmed(states, ticks[..i], hw, freq) && hw[i] == m.Programmed()
    {
      var a, s' := Handle(m, events[i], ticks[i].0, ticks[i].1, states[i].count);
      ChainMore(states, events, ticks, answers, i, a, s');
      ArmedMore(states, ticks, hw, freq, i, s', m.Programmed());
      answers, states, hw := answers + [a], states + [s'], hw + [m.Programmed()];
      i := i + 1;
    }
    assert events[..i] == events && ticks[..i] == ticks;
  }

  lemma ChainMore<C(!new)>(states: seq<State<C>>, events: seq<Event<C>>, ticks: seq<(nat, nat)>,
                           answers: seq<Answer<C>>, i: nat, a: Answer<C>, s': State<C>)
    requires |events| == |ticks| && i < |events| && |answers| == i && |states| == i + 1
    requires Chain(states, events[..i], ticks[..i], answers) && Steps(states[i], events[i], ticks[i].0, a, s')
    ensures Chain(states + [s'], events[..i + 1], ticks[..i + 1], answers + [a])
  {
    var states', answers' := states + [s'], answers + [a];
    forall k | 0 <= k <= i
      ensures Steps(states'[k], events[..i + 1][k], ticks[..i + 1][k].0, answers'[k], states'[k + 1])
    {
      if k < i {
        assert states'[k] == states[k] && states'[k + 1] == states[k + 1] && answers'[k] == answers[k];
        assert events[..i][k] == events[k] && ticks[..i][k] == ticks[k];
      }
    }
  }
}
