/**
 `PageTableWalker`: an iterator over the entries of a page table with an explicit stack of
 tables, and `walk_valid` on top of it.
 */
module PageWalk {
  import opened Arith
  import opened Options
  import opened Paging
  import opened PageTree
  import opened MapHeap
  import opened FrameStores
  import opened WalkSpec
  import opened WalkEntries

  const MAX_WALK_DEPTH := 8

  datatype WalkState = WalkState(frame: nat, level: nat, index: nat, base: nat)

  /** The stack holds a table of every level, and the address of every entry of every frame is
      below 2^64, also of entries that no index selects. */
  predicate WalkFits(m: Meta) {
    && m.Shaped() && 1 <= m.Levels() <= 8
    && (forall k :: 0 <= k < |m.fan| ==> m.size[|m.fan|] - m.size[k + 1] + m.len * m.size[k] <= USIZE_LIMIT)
  }

  /** What the stacked tables still have to list, the top of the stack first. */
  ghost function Remaining(m: Meta, mem: FrameMemory, stack: seq<WalkState>, start: int): seq<PteInfo> {
    if stack == [] then []
    else
      var s := stack[|stack| - 1];
      (if m.HasLevel(s.level) then Entries(m, mem, s.frame, s.level, s.base, s.index, start) else [])
      + Remaining(m, mem, stack[..|stack| - 1], start)
  }

  ghost predicate GoodState(m: Meta, mem: FrameMemory, s: WalkState) {
    && m.HasLevel(s.level) && s.index <= m.len
    && Wf(m, Abs(m, mem, s.frame, s.level), s.level)
    && s.base % m.Span(s.level) == 0 && s.base + m.Span(s.level) <= m.Span(m.Levels())
  }

  predicate OpenStack(k: int) {
    true
  }

  /** The stack holds one table per level, from the root down. */
  ghost predicate GoodStack(m: Meta, mem: FrameMemory, stack: seq<WalkState>) {
    forall o {:trigger OpenStack(o)} :: OpenStack(o) ==>
      forall k :: 0 <= k < |stack| ==> stack[k].level == m.Levels() - k && GoodState(m, mem, stack[k])
  }

  lemma TopKnown(m: Meta, mem: FrameMemory, stack: seq<WalkState>)
    requires m.Wf() && Whole(GoodStack(m, mem, stack)) && stack != []
    ensures var s := stack[|stack| - 1];
            && m.HasLevel(s.level) && s.frame in mem && |mem[s.frame]| == m.len && GoodState(m, mem, s)
    ensures Whole(GoodStack(m, mem, stack[..|stack| - 1]))
  {
    assert OpenStack(0);
    assert GoodState(m, mem, stack[|stack| - 1]);
    m.IndexInFrame(0, stack[|stack| - 1].level);
  }

  lemma RemainingPush(m: Meta, mem: FrameMemory, stack: seq<WalkState>, s: WalkState, start: int)
    requires m.HasLevel(s.level)
    ensures Remaining(m, mem, stack + [s], start)
         == Entries(m, mem, s.frame, s.level, s.base, s.index, start) + Remaining(m, mem, stack, start)
  {
    assert (stack + [s])[..|stack|] == stack;
  }

  lemma TopExhausted(m: Meta, mem: FrameMemory, stack: seq<WalkState>, start: int)
    requires stack != [] && stack[|stack| - 1].index >= m.len
    ensures Remaining(m, mem, stack, start) == Remaining(m, mem, stack[..|stack| - 1], start)
  {
    assert [] + Remaining(m, mem, stack[..|stack| - 1], start) == Remaining(m, mem, stack[..|stack| - 1], start);
  }

  lemma EntriesStep(m: Meta, mem: FrameMemory, s: WalkState, start: int, w: Word, v: int, below: seq<PteInfo>,
                    rest: seq<PteInfo>)
    requires m.HasLevel(s.level) && s.index < m.len
    requires s.frame in mem && s.index < |mem[s.frame]| && w == mem[s.frame][s.index]
    requires v == s.base + s.index * m.LevelSize(s.level)
    requires rest == Entries(m, mem, s.frame, s.level, s.base, s.index + 1, start)
    requires var c := m.codec.toConfig(w, s.level > 1);
             below == if c.valid && !c.huge && s.level > 1
                      then Entries(m, mem, c.paddr, s.level - 1, v, 0, start) else []
    ensures Entries(m, mem, s.frame, s.level, s.base, s.index, start) ==
            if v < start then rest else [InfoOf(m, w, s.level, v)] + below + rest
  {
  }

  lemma Regroup(head: seq<PteInfo>, below: seq<PteInfo>, mine: seq<PteInfo>, others: seq<PteInfo>)
    ensures (head + below + mine) + others == head + (below + (mine + others))
    ensures (head + [] + mine) + others == head + (mine + others)
  {
  }

  /** Taking entry `s.index` off the top table. */
  lemma TakeEntry(m: Meta, mem: FrameMemory, rest: seq<WalkState>, s: WalkState, start: int, w: Word, v: nat)
    requires m.Wf() && m.HasLevel(s.level) && s.index < m.len
    requires s.frame in mem && s.index < |mem[s.frame]| && w == mem[s.frame][s.index]
    requires v == s.base + s.index * m.LevelSize(s.level)
    ensures var s' := s.(index := s.index + 1);
            var c := m.codec.toConfig(w, s.level > 1);
            var before := Remaining(m, mem, rest + [s], start);
            var after := Remaining(m, mem, rest + [s'], start);
            if v < start then before == after
            else if c.valid && !c.huge && s.level > 1 then
              before == [InfoOf(m, w, s.level, v)]
                        + Remaining(m, mem, rest + [s'] + [WalkState(c.paddr, s.level - 1, 0, v)], start)
            else before == [InfoOf(m, w, s.level, v)] + after
  {
    var s' := s.(index := s.index + 1);
    var c := m.codec.toConfig(w, s.level > 1);
    var below := if c.valid && !c.huge && s.level > 1 then Entries(m, mem, c.paddr, s.level - 1, v, 0, start) else [];
    RemainingPush(m, mem, rest, s, start);
    RemainingPush(m, mem, rest, s', start);
    var mine := Entries(m, mem, s.frame, s.level, s.base, s.index + 1, start);
    EntriesStep(m, mem, s, start, w, v, below, mine);
    Regroup([InfoOf(m, w, s.level, v)], below, mine, Remaining(m, mem, rest, start));
    if c.valid && !c.huge && s.level > 1 {
      RemainingPush(m, mem, rest + [s'], WalkState(c.paddr, s.level - 1, 0, v), start);
    }
  }

  lemma EntryFits(m: Meta, level: nat, base: int, i: nat, v: int)
    requires m.Wf() && WalkFits(m) && m.HasLevel(level) && i < m.len && v == base + i * m.LevelSize(level)
    requires 0 <= base && base + m.Span(level) <= m.Span(m.Levels())
    ensures 0 <= v && v + m.LevelSize(level) <= USIZE_LIMIT
  {
    var ls := m.LevelSize(level);
    MulMono(0, i, ls);
    MulMono(i + 1, m.len, ls);
    assert (i + 1) * ls == i * ls + ls;
    assert m.size[|m.fan|] - m.size[level - 1 + 1] + m.len * m.size[level - 1] <= USIZE_LIMIT;
  }

  lemma ChildState(m: Meta, mem: FrameMemory, s: WalkState, w: Word, v: int)
    requires m.Wf() && WalkFits(m) && GoodState(m, mem, s) && s.index < m.len
    requires s.frame in mem && s.index < |mem[s.frame]| && w == mem[s.frame][s.index]
    requires v == s.base + s.index * m.LevelSize(s.level)
    ensures 0 <= v && v + m.LevelSize(s.level) <= USIZE_LIMIT
    ensures var c := m.codec.toConfig(w, s.level > 1);
            c.valid && !c.huge && s.level > 1 ==> GoodState(m, mem, WalkState(c.paddr, s.level - 1, 0, v))
  {
    EntryFits(m, s.level, s.base, s.index, v);
    SlotOfWord(m, mem, s.frame, s.level, s.index);
    if s.index < m.Fan(s.level) {
      SlotAddress(m, s.level, s.base, s.index, v);
      assert WfSlot(m, Abs(m, mem, s.frame, s.level).slots[s.index], s.level);
    }
  }

  ghost function Work(m: Meta, stack: seq<WalkState>): nat {
    if stack == [] then 0
    else (if stack[|stack| - 1].index < m.len then m.len - stack[|stack| - 1].index else 0) + 1
         + Work(m, stack[..|stack| - 1])
  }

  /** How the top table moves past its current entry. */
  ghost function Moved(m: Meta, stack: seq<WalkState>, w: Word, v: nat, descend: bool): seq<WalkState>
    requires stack != [] && stack[|stack| - 1].level >= 1
  {
    var s := stack[|stack| - 1];
    var moved := stack[..|stack| - 1] + [s.(index := s.index + 1)];
    if descend then moved + [WalkState(m.codec.toConfig(w, true).paddr, s.level - 1, 0, v)] else moved
  }

  lemma GoodMoved(m: Meta, mem: FrameMemory, stack: seq<WalkState>, w: Word, v: nat, descend: bool)
    requires m.Wf() && WalkFits(m) && Whole(GoodStack(m, mem, stack)) && stack != []
    requires AtTop(m, mem, stack, w, v) && (descend ==> Descends(m, stack, w))
    ensures stack[|stack| - 1].level >= 1 && Whole(GoodStack(m, mem, Moved(m, stack, w, v, descend)))
    ensures |Moved(m, stack, w, v, descend)| <= m.Levels()
  {
    assert OpenStack(0);
    var s := stack[|stack| - 1];
    assert GoodState(m, mem, s);
    ChildState(m, mem, s, w, v);
    assert GoodState(m, mem, s.(index := s.index + 1));
    assert GoodStack(m, mem, Moved(m, stack, w, v, descend));
  }

  lemma CutStep(info: PteInfo, after: seq<PteInfo>, end: int)
    ensures Cut([info] + after, end) == if info.vaddr >= end then [] else [info] + Cut(after, end)
  {
    assert ([info] + after)[1..] == after;
  }

  /** The entries still to come. */
  ghost function Pending(m: Meta, mem: FrameMemory, stack: seq<WalkState>, start: int, end: int,
                         finished: bool): seq<PteInfo>
  {
    if finished then [] else Cut(Remaining(m, mem, stack, start), end)
  }

  /** `r` is taken off the front of `before`, or nothing is. */
  predicate Yields(before: seq<PteInfo>, r: Option<PteInfo>, after: seq<PteInfo>) {
    match r
    case None => after == before
    case Some(p) => before != [] && p == before[0] && after == before[1..]
  }

  /** The top table stands at the entry `w` of address `v`. */
  ghost predicate AtTop(m: Meta, mem: FrameMemory, stack: seq<WalkState>, w: Word, v: int) {
    && stack != []
    && var s := stack[|stack| - 1];
       && m.HasLevel(s.level) && s.index < m.len
       && s.frame in mem && s.index < |mem[s.frame]| && w == mem[s.frame][s.index]
       && v == s.base + s.index * m.LevelSize(s.level)
  }

  /** `w` points to a table. */
  predicate Descends(m: Meta, stack: seq<WalkState>, w: Word)
    requires stack != []
  {
    stack[|stack| - 1].level > 1 && m.codec.toConfig(w, true).valid && !m.codec.toConfig(w, true).huge
  }

  lemma TopOff(stack: seq<WalkState>)
    requires stack != []
    ensures stack == stack[..|stack| - 1] + [stack[|stack| - 1]]
  {
  }

  // Where the walk goes on, with the top table apart from the rest.
  lemma MovedIs(m: Meta, rest: seq<WalkState>, s: WalkState, w: Word, v: nat, descend: bool)
    requires s.level >= 1
    ensures var moved := rest + [s.(index := s.index + 1)];
            Moved(m, rest + [s], w, v, descend) ==
            if descend then moved + [WalkState(m.codec.toConfig(w, true).paddr, s.level - 1, 0, v)] else moved
  {
    assert (rest + [s])[..|rest|] == rest;
  }

  /** An entry below the start is passed over, with everything under it. */
  lemma SkipStep(m: Meta, mem: FrameMemory, stack: seq<WalkState>, start: int, end: int, w: Word, v: nat)
    requires m.Wf() && AtTop(m, mem, stack, w, v) && v < start
    ensures Yields(Pending(m, mem, stack, start, end, false), None,
                   Pending(m, mem, Moved(m, stack, w, v, false), start, end, false))
  {
    TopOff(stack);
    MovedIs(m, stack[..|stack| - 1], stack[|stack| - 1], w, v, false);
    TakeEntry(m, mem, stack[..|stack| - 1], stack[|stack| - 1], start, w, v);
  }

  /** Any other entry is the next one to come. */
  lemma EntryStep(m: Meta, mem: FrameMemory, stack: seq<WalkState>, start: int, w: Word, v: nat)
    requires m.Wf() && AtTop(m, mem, stack, w, v) && start <= v
    ensures Remaining(m, mem, stack, start) == [InfoOf(m, w, stack[|stack| - 1].level, v)]
              + Remaining(m, mem, Moved(m, stack, w, v, Descends(m, stack, w)), start)
  {
    TopOff(stack);
    MovedIs(m, stack[..|stack| - 1], stack[|stack| - 1], w, v, Descends(m, stack, w));
    TakeEntry(m, mem, stack[..|stack| - 1], stack[|stack| - 1], start, w, v);
  }

  /** An entry at or past the end ends the walk. */
  lemma FinishStep(m: Meta, mem: FrameMemory, stack: seq<WalkState>, start: int, end: int, w: Word, v: nat)
    requires m.Wf() && AtTop(m, mem, stack, w, v) && start <= v && end <= v
    ensures Pending(m, mem, stack, start, end, false) == []
  {
    EntryStep(m, mem, stack, start, w, v);
    CutStep(InfoOf(m, w, stack[|stack| - 1].level, v),
            Remaining(m, mem, Moved(m, stack, w, v, Descends(m, stack, w)), start), end);
  }

  /** An entry of the range is listed. */
  lemma ListStep(m: Meta, mem: FrameMemory, stack: seq<WalkState>, start: int, end: int, w: Word, v: nat)
    requires m.Wf() && AtTop(m, mem, stack, w, v) && start <= v < end
    ensures Yields(Pending(m, mem, stack, start, end, false), Some(InfoOf(m, w, stack[|stack| - 1].level, v)),
                   Pending(m, mem, Moved(m, stack, w, v, Descends(m, stack, w)), start, end, false))
  {
    var info, after := InfoOf(m, w, stack[|stack| - 1].level, v),
      Remaining(m, mem, Moved(m, stack, w, v, Descends(m, stack, w)), start);
    EntryStep(m, mem, stack, start, w, v);
    CutStep(info, after, end);
    assert ([info] + Cut(after, end))[0] == info && ([info] + Cut(after, end))[1..] == Cut(after, end);
  }

  lemma WorkMoved(m: Meta, stack: seq<WalkState>, w: Word, v: nat)
    requires stack != [] && stack[|stack| - 1].level >= 1 && stack[|stack| - 1].index < m.len
    ensures Work(m, Moved(m, stack, w, v, false)) < Work(m, stack)
  {
    var s := stack[|stack| - 1];
    var moved := stack[..|stack| - 1] + [s.(index := s.index + 1)];
    assert moved[..|moved| - 1] == stack[..|stack| - 1];
  }

  lemma RootStack(m: Meta, mem: FrameMemory, root: nat, start: int)
    requires m.Wf() && WalkFits(m) && Wf(m, Abs(m, mem, root, m.Levels()), m.Levels())
    ensures GoodStack(m, mem, [WalkState(root, m.Levels(), 0, 0)])
    ensures Remaining(m, mem, [WalkState(root, m.Levels(), 0, 0)], start) ==
            Entries(m, mem, root, m.Levels(), 0, 0, start)
  {
    var s := WalkState(root, m.Levels(), 0, 0);
    DivModUnique(0, m.Span(m.Levels()), 0, 0);
    RemainingPush(m, mem, [], s, start);
    assert [] + [s] == [s];
    assert Remaining(m, mem, [], start) == [];
  }

  class Walker {
    const m: Meta
    const st: FrameStore
    const start: nat
    const end: nat
    var stack: seq<WalkState>
    var finished: bool

    ghost predicate Valid()
      reads this, st
    {
      && m.Wf() && WalkFits(m)
      && Whole(GoodStack(m, st.mem, stack))
    }

    /** The entries still to come. */
    ghost function Listed(): seq<PteInfo>
      reads this, st
    {
      Pending(m, st.mem, stack, start, end, finished)
    }

    constructor (m: Meta, st: FrameStore, root: nat, start: nat, end: nat)
      requires m.Wf() && WalkFits(m) && Wf(m, Abs(m, st.mem, root, m.Levels()), m.Levels())
      ensures Valid() && this.m == m && this.st == st && this.start == start && this.end == end
      ensures Listed() == if start < end then Cut(Entries(m, st.mem, root, m.Levels(), 0, 0, start), end) else []
    {
      this.m, this.st, this.start, this.end := m, st, start, end;
      finished := !(start < end);
      stack := if start < end then [WalkState(root, m.Levels(), 0, 0)] else [];
      new;
      if start < end {
        RootStack(m, st.mem, root, start);
      }
      assert GoodStack(m, st.mem, stack);
    }

    /** Moves past the current entry of the top table. */
    method Advance() returns (r: Option<PteInfo>)
      requires Valid() && !finished && stack != [] && stack[|stack| - 1].index < m.len
      modifies this
      ensures Valid()
      ensures Yields(old(Listed()), r, Listed()) && (finished ==> Listed() == [])
      ensures r.None? ==> Work(m, stack) < old(Work(m, stack))
    {
      var state := stack[|stack| - 1];
      ghost var stack0 := stack;
      TopKnown(m, st.mem, stack);
      var pte := st.mem[state.frame][state.index];
      var vaddr := state.base + state.index * m.LevelSize(state.level);
      assert AtTop(m, st.mem, stack0, pte, vaddr);
      GoodMoved(m, st.mem, stack0, pte, vaddr, false);
      WorkMoved(m, stack0, pte, vaddr);
      stack := stack[|stack| - 1 := state.(index := state.index + 1)];
      assert stack == Moved(m, stack0, pte, vaddr, false);
      if vaddr < start {
        SkipStep(m, st.mem, stack0, start, end, pte, vaddr);
        return None;
      }
      if vaddr >= end {
        FinishStep(m, st.mem, stack0, start, end, pte, vaddr);
        finished := true;
        return None;
      }
      ListStep(m, st.mem, stack0, start, end, pte, vaddr);
      Push(pte, vaddr, state, stack0);
      return Some(InfoOf(m, pte, state.level, vaddr));
    }

    /** Goes into the table that the entry just passed points to, if it does. */
    method Push(pte: Word, vaddr: nat, state: WalkState, ghost stack0: seq<WalkState>)
      requires Valid() && AtTop(m, st.mem, stack0, pte, vaddr) && state == stack0[|stack0| - 1]
      requires Whole(GoodStack(m, st.mem, stack0)) && stack == Moved(m, stack0, pte, vaddr, false)
      modifies this`stack
      ensures Valid() && state.level >= 1 && stack == Moved(m, stack0, pte, vaddr, Descends(m, stack0, pte))
    {
      var config := m.codec.toConfig(pte, state.level > 1);
      if config.valid && !config.huge && state.level > 1 {
        GoodMoved(m, st.mem, stack0, pte, vaddr, true);
        if |stack| < MAX_WALK_DEPTH {
          stack := stack + [WalkState(config.paddr, state.level - 1, 0, vaddr)];
        }
      }
    }

    /** `find_next_entry` */
    method Next() returns (r: Option<PteInfo>)
      requires Valid()
      modifies this
      ensures Valid()
      ensures if old(Listed()) == [] then r == None && Listed() == []
              else r == Some(old(Listed())[0]) && Listed() == old(Listed())[1..]
    {
      while true
        invariant Valid() && Listed() == old(Listed())
        decreases Work(m, stack)
      {
        if finished {
          return None;
        }
        if stack == [] {
          finished := true;
          return None;
        }
        var state := stack[|stack| - 1];
        if state.index >= m.len {
          TopKnown(m, st.mem, stack);
          TopExhausted(m, st.mem, stack, start);
          stack := stack[..|stack| - 1];
          continue;
        }
        r := Advance();
        if r.Some? || finished {
          return;
        }
      }
    }
  }

  // ----- walk_valid -----

  predicate AllBelow(s: seq<PteInfo>, end: int) {
    forall k :: 0 <= k < |s| ==> s[k].vaddr < end
  }

  lemma CutNothing(s: seq<PteInfo>, end: int)
    requires AllBelow(s, end)
    ensures Cut(s, end) == s
  {
  }

  /** No listed address comes near the end of the address space. */
  lemma {:induction false} EntriesFit(m: Meta, mem: FrameMemory, frame: nat, level: nat, base: nat, i: nat, start: int)
    requires m.Wf() && WalkFits(m) && m.PageSize() >= 2 && Wf(m, Abs(m, mem, frame, level), level) && i <= m.len
    requires base % m.Span(level) == 0 && base + m.Span(level) <= m.Span(m.Levels())
    ensures AllBelow(Entries(m, mem, frame, level, base, i, start), USIZE_LIMIT - 1)
    decreases level, m.len - i
  {
    if i < m.len && frame in mem && i < |mem[frame]| {
      EntriesFit(m, mem, frame, level, base, i + 1, start);
      var v, child := EntryBelow(m, mem, frame, level, base, i);
      if child.Some? {
        EntriesFit(m, mem, child.value, level - 1, v, 0, start);
      }
      StepBelow(m, mem, WalkState(frame, level, i, base), start, v, child);
    }
  }

  /** Where entry `i` lies, and the table under it. */
  lemma EntryBelow(m: Meta, mem: FrameMemory, frame: nat, level: nat, base: nat, i: nat)
    returns (v: nat, child: Option<nat>)
    requires m.Wf() && WalkFits(m) && m.PageSize() >= 2 && Wf(m, Abs(m, mem, frame, level), level) && i < m.len
    requires base % m.Span(level) == 0 && base + m.Span(level) <= m.Span(m.Levels())
    requires frame in mem && i < |mem[frame]|
    ensures v == base + i * m.LevelSize(level) && v < USIZE_LIMIT - 1
    ensures var c := m.codec.toConfig(mem[frame][i], level > 1);
            child == if c.valid && !c.huge && level > 1 then Some(c.paddr) else None
    ensures child.Some? ==>
              && level > 1 && Wf(m, Abs(m, mem, child.value, level - 1), level - 1)
              && v % m.Span(level - 1) == 0 && v + m.Span(level - 1) <= m.Span(m.Levels())
  {
    EntryFits(m, level, base, i, base + i * m.LevelSize(level));
    m.LevelSizePages(level);
    v := base + i * m.LevelSize(level);
    var c := m.codec.toConfig(mem[frame][i], level > 1);
    child := if c.valid && !c.huge && level > 1 then Some(c.paddr) else None;
    ChildState(m, mem, WalkState(frame, level, i, base), mem[frame][i], v);
  }

  lemma StepBelow(m: Meta, mem: FrameMemory, s: WalkState, start: int, v: int, child: Option<nat>)
    requires m.HasLevel(s.level) && s.index < m.len && s.frame in mem && s.index < |mem[s.frame]|
    requires v == s.base + s.index * m.LevelSize(s.level) && v < USIZE_LIMIT - 1
    requires var c := m.codec.toConfig(mem[s.frame][s.index], s.level > 1);
             child == if c.valid && !c.huge && s.level > 1 then Some(c.paddr) else None
    requires child.Some? ==> AllBelow(Entries(m, mem, child.value, s.level - 1, v, 0, start), USIZE_LIMIT - 1)
    requires AllBelow(Entries(m, mem, s.frame, s.level, s.base, s.index + 1, start), USIZE_LIMIT - 1)
    ensures AllBelow(Entries(m, mem, s.frame, s.level, s.base, s.index, start), USIZE_LIMIT - 1)
  {
    var below := if child.Some? then Entries(m, mem, child.value, s.level - 1, v, 0, start) else [];
    EntriesStep(m, mem, s, start, mem[s.frame][s.index], v, below,
                Entries(m, mem, s.frame, s.level, s.base, s.index + 1, start));
  }

  lemma MoveOne(seen: seq<PteInfo>, listed: seq<PteInfo>)
    ensures listed == [] ==> seen + listed == seen
    ensures listed != [] ==> seen + listed == (seen + [listed[0]]) + listed[1..]
  {
  }

  lemma FinalsNext(m: Meta, seen: seq<PteInfo>, p: PteInfo)
    ensures Finals(m, seen + [p]) ==
            Finals(m, seen) + if m.codec.toConfig(p.pte, false).valid && p.isFinal then [p] else []
  {
    FinalsConcat(m, seen, [p]);
  }

  /** Everything a walk lists, filtered as `walk_valid` does. */
  method Collect(walker: Walker) returns (out: seq<PteInfo>)
    requires walker.Valid()
    modifies walker
    ensures out == Finals(walker.m, old(walker.Listed()))
  {
    ghost var all, seen := walker.Listed(), [];
    out := [];
    while true
      invariant walker.Valid()
      invariant seen + walker.Listed() == all
      invariant out == Finals(walker.m, seen)
      decreases |walker.Listed()|
    {
      MoveOne(seen, walker.Listed());
      var p := walker.Next();
      if p.None? {
        return;
      }
      FinalsNext(walker.m, seen, p.value);
      seen := seen + [p.value];
      if walker.m.codec.toConfig(p.value.pte, false).valid && p.value.isFinal {
        out := out + [p.value];
      }
    }
  }

  /** `out` lists every final entry of the table once, in address order, each as it is stored and
      translating over its whole extent as the table does, together covering all that is mapped. */
  ghost predicate ListsAll(m: Meta, mem: FrameMemory, root: nat, out: seq<PteInfo>)
    requires m.HasLevel(m.Levels())
  {
    && (forall k :: 0 <= k < |out| ==> out[k].isFinal && StoredAs(m, mem, root, m.Levels(), out[k]))
    && exists es :: Describes(m, out, es)
                    && Lists(m, Abs(m, mem, root, m.Levels()), m.Levels(), es, 0, m.Span(m.Levels()))
  }

  lemma {:induction false} FinalsIn(m: Meta, s: seq<PteInfo>, k: nat) returns (i: nat)
    requires k < |Finals(m, s)|
    ensures i < |s| && s[i] == Finals(m, s)[k] && s[i].isFinal && m.codec.toConfig(s[i].pte, false).valid
  {
    var first := if m.codec.toConfig(s[0].pte, false).valid && s[0].isFinal then 1 else 0;
    if k < first {
      i := 0;
    } else {
      i := FinalsIn(m, s[1..], k - first);
      i := i + 1;
    }
  }

  lemma FinalsStored(m: Meta, mem: FrameMemory, root: nat, k: nat)
    requires m.Wf() && Wf(m, Abs(m, mem, root, m.Levels()), m.Levels())
    requires k < |Finals(m, Entries(m, mem, root, m.Levels(), 0, 0, 0))|
    ensures var p := Finals(m, Entries(m, mem, root, m.Levels(), 0, 0, 0))[k];
            p.isFinal && StoredAs(m, mem, root, m.Levels(), p)
  {
    var i := FinalsIn(m, Entries(m, mem, root, m.Levels(), 0, 0, 0), k);
    DivModUnique(0, m.Span(m.Levels()), 0, 0);
    WalkStores(m, mem, root, m.Levels(), 0, 0, 0, i);
    assert Lawful(m.codec);
  }

  lemma WalkLists(m: Meta, mem: FrameMemory, root: nat)
    requires m.Wf() && WalkFits(m) && m.PageSize() >= 2 && Wf(m, Abs(m, mem, root, m.Levels()), m.Levels())
    ensures Cut(Entries(m, mem, root, m.Levels(), 0, 0, 0), USIZE_LIMIT - 1) ==
            Entries(m, mem, root, m.Levels(), 0, 0, 0)
    ensures ListsAll(m, mem, root, Finals(m, Entries(m, mem, root, m.Levels(), 0, 0, 0)))
  {
    var out := Finals(m, Entries(m, mem, root, m.Levels(), 0, 0, 0));
    forall k | 0 <= k < |out| ensures out[k].isFinal && StoredAs(m, mem, root, m.Levels(), out[k]) {
      FinalsStored(m, mem, root, k);
    }
    DivModUnique(0, m.Span(m.Levels()), 0, 0);
    EntriesFit(m, mem, root, m.Levels(), 0, 0, 0);
    CutNothing(Entries(m, mem, root, m.Levels(), 0, 0, 0), USIZE_LIMIT - 1);
    FinalsAreExtents(m, mem, root, m.Levels(), 0, 0);
    ExtentsList(m, Abs(m, mem, root, m.Levels()), m.Levels(), 0, 0, 0);
  }

  /** `walk_valid` */
  method WalkValid(m: Meta, st: FrameStore, root: nat) returns (out: seq<PteInfo>)
    requires m.Wf() && WalkFits(m) && m.PageSize() >= 2 && Wf(m, Abs(m, st.mem, root, m.Levels()), m.Levels())
    ensures ListsAll(m, st.mem, root, out)
  {
    var walker := new Walker(m, st, root, 0, USIZE_LIMIT - 1);
    WalkLists(m, st.mem, root);
    out := Collect(walker);
  }
}
