/**
 `Frame::unmap_range_recursive`: clears the entries of a range and gives back the tables
 that become empty. Each method is proved against `UnmapTree`.
 */
module PageUnmap {
  import opened Arith
  import opened Paging
  import opened PageTree
  import opened MapHeap
  import opened UnmapSpec
  import opened UnmapIff
  import opened UnmapHeap
  import opened FrameStores

  /** `Done(empty)` is the source's Ok(can_reclaim); `Overflow` is the arithmetic overflow
      panic of an address computation. */
  datatype Outcome = Done(empty: bool) | Overflow

  /** `is_frame_empty` */
  method FrameIsEmpty(m: Meta, st: FrameStore, frame: nat, ghost level: nat) returns (empty: bool)
    requires Lawful(m.codec) && frame in st.mem
    ensures empty <==> Empty(Abs(m, st.mem, frame, level))
  {
    var entries := st.mem[frame];
    for k := 0 to |entries|
      invariant forall i :: 0 <= i < k ==> Abs(m, st.mem, frame, level).slots[i].Invalid?
    {
      SlotOfWord(m, st.mem, frame, level, k);
      if m.codec.toConfig(entries[k], false).valid {
        return false;
      }
    }
    return true;
  }

  lemma DecodeInvalid(m: Meta, mem: FrameMemory, level: nat)
    requires Lawful(m.codec)
    ensures SlotAt(m, mem, m.codec.fromConfig(INVALID_CONFIG), level) == Invalid
  {
    assert !m.codec.valid(m.codec.fromConfig(INVALID_CONFIG));
  }

  // A whole entry of the table, as the state of a call knows it.
  lemma EntryKnown(m: Meta, j: Unmapping, mem: FrameMemory, free: set<nat>, v: int)
    requires Whole(UnmapState(m, j, mem, free, v)) && v < j.end
    ensures Wf(m, j.Now(m, mem), j.level)
    ensures 0 <= m.Index(v, j.level) < m.len == |j.Now(m, mem).slots|
    ensures j.Now(m, mem).slots[m.Index(v, j.level)] == SlotAt(m, mem, mem[j.t.frame][m.Index(v, j.level)], j.level)
  {
    m.IndexInFrame(v, j.level);
  }

  method ClearFinal(m: Meta, st: FrameStore, frame: nat, vaddr: nat, level: nat, ghost j: Unmapping)
    requires Whole(UnmapState(m, j, st.mem, st.free, vaddr)) && vaddr < j.end
    requires j.level == level && j.t.frame == frame && Wf(m, j.Now(m, st.mem), level)
    requires m.Index(vaddr, level) < |j.Now(m, st.mem).slots| && j.Now(m, st.mem).slots[m.Index(vaddr, level)].Leaf?
    requires vaddr + m.LevelSize(level) < USIZE_LIMIT
    modifies st`mem, st`free
    ensures Whole(UnmapState(m, j, st.mem, st.free, vaddr + m.LevelSize(level)))
    ensures j.Now(m, st.mem) == UnmapOne(m, old(j.Now(m, st.mem)), level, vaddr, j.end).0
  {
    var index := m.Index(vaddr, level);
    ghost var mem1 := st.mem;
    var w := m.codec.fromConfig(INVALID_CONFIG);
    st.Write(frame, index, w);
    DecodeInvalid(m, st.mem, level);
    ClearLeaf(m, j.t, j.Now(m, mem1), j.mem0, mem1, st.mem, j.free0, st.free, level, index, w);
    StateNext(m, j, mem1, st.free, vaddr, st.mem, st.free, vaddr + m.LevelSize(level));
  }

  /** Clears the entry of an empty child and gives its frame back. */
  method DropChild(m: Meta, st: FrameStore, frame: nat, index: nat, child: nat, level: nat, ghost j: Unmapping,
                   ghost c: Tree)
    requires Lawful(m.codec) && st.Valid() && j.level == level > 1 && j.t.frame == frame && frame in st.mem
    requires index < |st.mem[frame]| && child in st.mem && child != frame && c.frame == child && Empty(c)
    requires j.Now(m, st.mem).slots[index] == Sub(c)
    requires Whole(Shrunk(j.t, j.Now(m, st.mem), j.mem0, st.mem, j.free0, st.free))
    modifies st`mem, st`free
    ensures j.Now(m, st.mem) == Put(old(j.Now(m, st.mem)), index, Invalid)
    ensures Whole(Shrunk(j.t, j.Now(m, st.mem), j.mem0, st.mem, j.free0, st.free))
  {
    ghost var mem2, free2 := st.mem, st.free;
    var w := m.codec.fromConfig(INVALID_CONFIG);
    st.Write(frame, index, w);
    st.Release(child);
    DecodeInvalid(m, st.mem, level);
    DropTable(m, j.t, j.Now(m, mem2), j.mem0, mem2, st.mem, j.free0, free2, level, index, c, w);
  }

  /** One round of the loop that descends. `kept` says that the child stays in the table. */
  method UnmapTable(m: Meta, st: FrameStore, frame: nat, vaddr: nat, end: nat, level: nat, ghost j: Unmapping)
    returns (overflow: bool, next: nat, kept: bool)
    requires Whole(UnmapState(m, j, st.mem, st.free, vaddr)) && vaddr < j.end == end < USIZE_LIMIT
    requires j.level == level > 1 && j.t.frame == frame && Wf(m, j.Now(m, st.mem), level)
    requires m.Index(vaddr, level) < |j.Now(m, st.mem).slots| && j.Now(m, st.mem).slots[m.Index(vaddr, level)].Sub?
    modifies st`mem, st`free
    ensures overflow <==> OneOverflows(m, old(j.Now(m, st.mem)), level, vaddr, end)
    ensures !overflow ==> Whole(UnmapState(m, j, st.mem, st.free, next))
    ensures !overflow ==> UnmapOne(m, old(j.Now(m, st.mem)), level, vaddr, end) == (j.Now(m, st.mem), next)
    ensures !overflow && kept ==> m.Index(vaddr, level) < |j.Now(m, st.mem).slots|
                                  && j.Now(m, st.mem).slots[m.Index(vaddr, level)].Sub?
    decreases level, 0
  {
    var index := m.Index(vaddr, level);
    var entryEnd := (vaddr / m.LevelSize(level) + 1) * m.LevelSize(level);
    ghost var mem1, free1, t1 := st.mem, st.free, j.Now(m, st.mem);
    EntryKnown(m, j, st.mem, st.free, vaddr);
    next, kept := vaddr, false;
    if entryEnd >= USIZE_LIMIT {
      return true, next, kept;
    }
    next := Min(entryEnd, end);
    var child := m.codec.toConfig(st.mem[frame][index], true).paddr;
    ghost var c := Abs(m, st.mem, child, level - 1);
    ChildUnmapPre(m, j, st.mem, st.free, vaddr, c, next);
    var r := UnmapRange(m, st, child, vaddr, next, level - 1);
    if r.Overflow? {
      return true, next, kept;
    }
    ghost var mem2, free2, c' := st.mem, st.free, Abs(m, st.mem, child, level - 1);
    ChildShrunk(m, j, mem1, free1, vaddr, index, c, c', mem2, free2);
    if r.empty {
      DropChild(m, st, frame, index, child, level, j, c');
      assert Put(Put(t1, index, Sub(c')), index, Invalid) == Put(t1, index, Invalid);
    }
    assert j.Now(m, st.mem) == Put(t1, index, Pruned(c'));
    StateNext(m, j, mem1, free1, vaddr, st.mem, st.free, next);
    return false, next, !r.empty;
  }

  /** One round of the loop. */
  method UnmapEntry(m: Meta, st: FrameStore, frame: nat, vaddr: nat, end: nat, level: nat, ghost j: Unmapping)
    returns (overflow: bool, next: nat, kept: bool)
    requires Whole(UnmapState(m, j, st.mem, st.free, vaddr)) && vaddr < j.end == end < USIZE_LIMIT
    requires j.level == level && j.t.frame == frame && Wf(m, j.Now(m, st.mem), level)
    modifies st`mem, st`free
    ensures overflow <==> OneOverflows(m, old(j.Now(m, st.mem)), level, vaddr, end)
    ensures !overflow ==> Whole(UnmapState(m, j, st.mem, st.free, next))
    ensures !overflow ==> UnmapOne(m, old(j.Now(m, st.mem)), level, vaddr, end) == (j.Now(m, st.mem), next)
    ensures !overflow && kept ==> m.Index(vaddr, level) < |j.Now(m, st.mem).slots|
                                  && j.Now(m, st.mem).slots[m.Index(vaddr, level)].Sub?
    decreases level, 1
  {
    var index := m.Index(vaddr, level);
    EntryKnown(m, j, st.mem, st.free, vaddr);
    overflow, kept := false, false;
    var config := m.codec.toConfig(st.mem[frame][index], level > 1);
    if !config.valid {
      next := vaddr + Min(m.LevelSize(level), end - vaddr);
      StateNext(m, j, st.mem, st.free, vaddr, st.mem, st.free, next);
    } else if level == 1 || config.huge {
      next := vaddr + m.LevelSize(level);
      if next >= USIZE_LIMIT {
        overflow := true;
      } else {
        ClearFinal(m, st, frame, vaddr, level, j);
      }
    } else {
      overflow, next, kept := UnmapTable(m, st, frame, vaddr, end, level, j);
    }
  }

  /** A child was kept at `at`, behind the walk. */
  ghost predicate KeptAt(m: Meta, t: Tree, level: nat, start: int, v: int, end: int, at: int) {
    && m.HasLevel(level) && m.Index(at, level) < |t.slots|
    && start <= at < v && at < end && t.slots[m.Index(at, level)].Sub?
    && (v < end ==> at / m.LevelSize(level) < v / m.LevelSize(level))
  }

  lemma StillKept(m: Meta, t: Tree, t1: Tree, level: nat, start: int, v: int, next: int, end: int, at: int)
    requires m.Wf() && Wf(m, t, level) && v < end && (t1, next) == UnmapOne(m, t, level, v, end)
    requires OneTable(m, level, start, end) && start <= v
    requires KeptAt(m, t, level, start, v, end, at) || (at == v && t1.slots[m.Index(at, level)].Sub?)
    ensures KeptAt(m, t1, level, start, next, end, at)
  {
    var span := m.Span(level);
    var w := start / span * span;
    DivModDef(start, span);
    DivModUnique(w, span, start / span, 0);
    m.IndexInFrame(v, level);
    m.IndexInFrame(at, level);
    SlotsInWindow(m, level, w, at, v);
    if next < end {
      EntryLeft(m, t, level, v, end);
    }
  }

  method UnmapRange(m: Meta, st: FrameStore, frame: nat, start: nat, end: nat, level: nat) returns (r: Outcome)
    requires UnmapPre(m, st.mem, st.free, frame, start, end, level)
    modifies st`mem, st`free
    ensures r.Overflow? <==> UnmapOverflows(m, old(Abs(m, st.mem, frame, level)), level, start, end)
    ensures r.Done? ==> st.Valid()
    ensures r.Done? ==> Whole(UnmapPost(m, old(Abs(m, st.mem, frame, level)), Abs(m, st.mem, frame, level),
                                        start, end, level, r.empty))
    ensures r.Done? ==> Whole(Shrunk(old(Abs(m, st.mem, frame, level)), Abs(m, st.mem, frame, level),
                                     old(st.mem), st.mem, old(st.free), st.free))
    decreases level, 2
  {
    var vaddr, canReclaim := start, true;
    ghost var keptAt := start;
    ghost var j := Unmapping(Abs(m, st.mem, frame, level), st.mem, st.free, level, start, end);
    UnmapStart(m, j);
    while vaddr < end
      invariant start <= vaddr
      invariant Whole(UnmapState(m, j, st.mem, st.free, vaddr))
      invariant OneTable(m, level, start, end) && !canReclaim ==>
                  Whole(KeptAt(m, j.Now(m, st.mem), level, start, vaddr, end, keptAt))
    {
      ghost var mem1, free1, v1 := st.mem, st.free, vaddr;
      EntryKnown(m, j, st.mem, st.free, vaddr);
      var overflow, next, kept := UnmapEntry(m, st, frame, vaddr, end, level, j);
      if overflow {
        JobOverflow(m, j, mem1, free1, v1);
        return Overflow;
      }
      if kept {
        canReclaim, keptAt := false, vaddr;
      }
      vaddr := next;
      if OneTable(m, level, start, end) && !canReclaim {
        StillKept(m, j.Now(m, mem1), j.Now(m, st.mem), level, start, v1, vaddr, end, keptAt);
      }
    }
    if canReclaim {
      canReclaim := FrameIsEmpty(m, st, frame, level);
    }
    JobDone(m, j, st.mem, st.free, vaddr, canReclaim);
    return Done(canReclaim);
  }
}
