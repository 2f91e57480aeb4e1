/**
 What unmapping does to the frame memory: how clearing one entry, or giving back the frame
 of an emptied child, changes the tree that the memory represents.
 */
module UnmapHeap {
  import opened Arith
  import opened Paging
  import opened PageTree
  import opened MapHeap
  import opened UnmapSpec

  predicate OpenShrunk(k: int) {
    true
  }

  /** From (mem, free) to (mem', free') the tree shrank from t to t': every frame it no longer
      uses went back to the allocator, and nothing outside its own frames was written. */
  ghost predicate Shrunk(t: Tree, t': Tree, mem: FrameMemory, mem': FrameMemory, free: set<nat>, free': set<nat>) {
    forall k {:trigger OpenShrunk(k)} :: OpenShrunk(k) ==>
      var dropped := Footprint(t) - Footprint(t');
      && mem.Keys !! free && Footprint(t) <= mem.Keys && Separated(t)
      && mem'.Keys !! free' && Separated(t')
      && Footprint(t') <= Footprint(t)
      && mem'.Keys == mem.Keys - dropped
      && free' == free + dropped
      && Agree(mem, mem', mem.Keys - Footprint(t))
  }

  lemma ShrunkNothing(t: Tree, mem: FrameMemory, free: set<nat>)
    requires Separated(t) && mem.Keys !! free && Footprint(t) <= mem.Keys
    ensures Shrunk(t, t, mem, mem, free, free)
  {
  }

  lemma ShrinkSets(a: set<nat>, b: set<nat>, o: set<nat>, f: set<nat>,
                   keys0: set<nat>, keys1: set<nat>, keys2: set<nat>,
                   free0: set<nat>, free1: set<nat>, free2: set<nat>)
    requires b <= a && o <= b && f <= o && a <= keys0 && keys0 !! free0
    requires keys1 == keys0 - (a - b) && free1 == free0 + (a - b)
    requires keys2 == keys1 - (o - f) && free2 == free1 + (o - f)
    ensures f !! b - o
    ensures b - o + f <= a && b <= keys1
    ensures keys2 == keys0 - (a - (b - o + f)) && free2 == free0 + (a - (b - o + f)) && keys2 !! free2
  {
    assert a - (b - o + f) == (a - b) + (o - f);
  }

  /** Shrinking one slot shrinks the tree. */
  lemma ShrinkSlot(t: Tree, t1: Tree, i: nat, s: Slot,
                   mem0: FrameMemory, mem1: FrameMemory, mem2: FrameMemory,
                   free0: set<nat>, free1: set<nat>, free2: set<nat>)
    requires Whole(Shrunk(t, t1, mem0, mem1, free0, free1))
    requires i < |t1.slots| && SlotFrames(s) <= SlotFrames(t1.slots[i])
    requires s.Sub? ==> Separated(s.table)
    requires var dropped := SlotFrames(t1.slots[i]) - SlotFrames(s);
             mem2.Keys == mem1.Keys - dropped && free2 == free1 + dropped
    requires Agree(mem1, mem2, mem1.Keys - SlotFrames(t1.slots[i]) - {t1.frame})
    ensures Shrunk(t, Put(t1, i, s), mem0, mem2, free0, free2)
  {
    assert OpenShrunk(0);
    var a, b, o, f := Footprint(t), Footprint(t1), SlotFrames(t1.slots[i]), SlotFrames(s);
    SlotFramesIn(t1, i);
    ShrinkSets(a, b, o, f, mem0.Keys, mem1.Keys, mem2.Keys, free0, free1, free2);
    PutFrames(t1, i, s);
    assert t1.frame in b;
    forall x | x in mem0.Keys - a ensures x in mem2 && mem2[x] == mem0[x] {
      assert x in mem1.Keys - o - {t1.frame};
    }
  }

  /** Clearing a final entry. */
  lemma ClearLeaf(m: Meta, t: Tree, t1: Tree, mem0: FrameMemory, mem: FrameMemory, mem': FrameMemory,
                  free0: set<nat>, free: set<nat>, level: nat, i: nat, w: Word)
    requires Whole(Shrunk(t, t1, mem0, mem, free0, free))
    requires t1 == Abs(m, mem, t1.frame, level) && t1.frame in mem && i < |t1.slots|
    requires t1.slots[i].Leaf? && SlotAt(m, mem', w, level) == Invalid
    requires mem' == mem[t1.frame := PutWord(mem[t1.frame], i, w)]
    ensures Abs(m, mem', t1.frame, level) == Put(t1, i, Invalid)
    ensures Shrunk(t, Put(t1, i, Invalid), mem0, mem', free0, free)
  {
    assert OpenShrunk(0);
    AbsPut(m, mem, mem', t1.frame, level, i, w);
    ShrinkSlot(t, t1, i, Invalid, mem0, mem, mem', free0, free, free);
  }

  /** Keeping a child that a call has shrunk. */
  lemma KeepTable(m: Meta, t: Tree, t1: Tree, mem0: FrameMemory, mem: FrameMemory, mem': FrameMemory,
                  free0: set<nat>, free: set<nat>, free': set<nat>, level: nat, i: nat, c: Tree, c': Tree)
    requires level > 1
    requires Whole(Shrunk(t, t1, mem0, mem, free0, free))
    requires t1 == Abs(m, mem, t1.frame, level) && t1.frame in mem && i < |t1.slots|
    requires t1.slots[i] == Sub(c) && c' == Abs(m, mem', c.frame, level - 1)
    requires Whole(Shrunk(c, c', mem, mem', free, free'))
    ensures Abs(m, mem', t1.frame, level) == Put(t1, i, Sub(c'))
    ensures Shrunk(t, Put(t1, i, Sub(c')), mem0, mem', free0, free')
  {
    assert OpenShrunk(0);
    var w := mem[t1.frame][i];
    assert SlotAt(m, mem, w, level) == Sub(c);
    assert SlotAt(m, mem', w, level) == Sub(c');
    assert SlotFrames(t1.slots[i]) == Footprint(c);
    AbsPut(m, mem, mem', t1.frame, level, i, w);
    ShrinkSlot(t, t1, i, Sub(c'), mem0, mem, mem', free0, free, free');
  }

  /** Giving back the frame of a child that has become empty. */
  lemma DropTable(m: Meta, t: Tree, t1: Tree, mem0: FrameMemory, mem: FrameMemory, mem': FrameMemory,
                  free0: set<nat>, free: set<nat>, level: nat, i: nat, c: Tree, w: Word)
    requires level > 1
    requires Whole(Shrunk(t, t1, mem0, mem, free0, free))
    requires t1 == Abs(m, mem, t1.frame, level) && t1.frame in mem && i < |t1.slots|
    requires t1.slots[i] == Sub(c) && Empty(c)
    requires mem' == mem[t1.frame := PutWord(mem[t1.frame], i, w)] - {c.frame}
    requires SlotAt(m, mem', w, level) == Invalid
    ensures c.frame in mem && t1.frame != c.frame
    ensures Abs(m, mem', t1.frame, level) == Put(t1, i, Invalid)
    ensures Shrunk(t, Put(t1, i, Invalid), mem0, mem', free0, free + {c.frame})
  {
    assert OpenShrunk(0);
    SlotFramesIn(t1, i);
    assert SlotFrames(t1.slots[i]) == Footprint(c) == {c.frame};
    AbsPut(m, mem, mem', t1.frame, level, i, w);
    ShrinkSlot(t, t1, i, Invalid, mem0, mem, mem', free0, free, free + {c.frame});
  }

  // ----- the state of an unmap call -----

  datatype Unmapping = Unmapping(t: Tree, mem0: FrameMemory, free0: set<nat>, level: nat, start: int, end: int)
  {
    ghost function Now(m: Meta, mem: FrameMemory): Tree {
      Abs(m, mem, t.frame, level)
    }
  }

  /** Going on from `v` in `t1` amounts to what the call was asked to do in `t`. */
  ghost predicate SameJob(m: Meta, t: Tree, t1: Tree, level: nat, start: int, v: int, end: int) {
    && m.Wf() && Wf(m, t, level) && Wf(m, t1, level)
    && UnmapTree(m, t, level, start, end) == UnmapTree(m, t1, level, v, end)
    && (UnmapOverflows(m, t, level, start, end) <==> UnmapOverflows(m, t1, level, v, end))
  }

  ghost predicate UnmapState(m: Meta, j: Unmapping, mem: FrameMemory, free: set<nat>, v: int) {
    && m.Wf() && m.HasLevel(j.level) && 0 <= v
    && mem.Keys !! free
    && j.t.frame in mem && |mem[j.t.frame]| == m.len
    && Whole(SameJob(m, j.t, j.Now(m, mem), j.level, j.start, v, j.end))
    && Whole(Shrunk(j.t, j.Now(m, mem), j.mem0, mem, j.free0, free))
  }

  lemma UnmapStart(m: Meta, j: Unmapping)
    requires m.Wf() && j.mem0.Keys !! j.free0 && 0 <= j.start
    requires j.t == j.Now(m, j.mem0) && Wf(m, j.t, j.level) && Separated(j.t)
    ensures UnmapState(m, j, j.mem0, j.free0, j.start)
  {
    WfOwned(m, j.mem0, j.t.frame, j.level);
    m.IndexInFrame(0, j.level);
    ShrunkNothing(j.t, j.mem0, j.free0);
  }

  lemma JobStep(m: Meta, t: Tree, t1: Tree, level: nat, start: int, v: int, end: int, t2: Tree, next: int)
    requires Whole(SameJob(m, t, t1, level, start, v, end)) && v < end
    requires m.HasLevel(level) && Wf(m, t1, level) && UnmapOne(m, t1, level, v, end) == (t2, next)
    requires !OneOverflows(m, t1, level, v, end)
    ensures SameJob(m, t, t2, level, start, next, end)
  {
  }

  /** After one round that left `t2` behind. */
  lemma StateNext(m: Meta, j: Unmapping, mem: FrameMemory, free: set<nat>, v: int,
                  mem': FrameMemory, free': set<nat>, next: int)
    requires Whole(UnmapState(m, j, mem, free, v)) && v < j.end && Wf(m, j.Now(m, mem), j.level)
    requires UnmapOne(m, j.Now(m, mem), j.level, v, j.end) == (j.Now(m, mem'), next)
    requires !OneOverflows(m, j.Now(m, mem), j.level, v, j.end)
    requires Whole(Shrunk(j.t, j.Now(m, mem'), j.mem0, mem', j.free0, free'))
    ensures UnmapState(m, j, mem', free', next)
  {
    JobStep(m, j.t, j.Now(m, mem), j.level, j.start, v, j.end, j.Now(m, mem'), next);
    assert OpenShrunk(0);
    WfOwned(m, mem', j.t.frame, j.level);
    m.IndexInFrame(0, j.level);
  }

  // ----- the contract -----

  ghost predicate UnmapPre(m: Meta, mem: FrameMemory, free: set<nat>, frame: nat, start: nat, end: nat, level: nat) {
    && m.Wf() && m.HasLevel(level)
    && mem.Keys !! free
    && Wf(m, Abs(m, mem, frame, level), level)
    && Separated(Abs(m, mem, frame, level))
    && start <= end < USIZE_LIMIT
  }

  /** The range stays within one table of the level, as it always does below the root. */
  predicate OneTable(m: Meta, level: nat, start: int, end: int)
    requires m.HasLevel(level)
  {
    start % m.Span(level) + (end - start) <= m.Span(level)
  }

  ghost predicate UnmapPost(m: Meta, t: Tree, t': Tree, start: int, end: int, level: nat, empty: bool)
    requires m.HasLevel(level)
  {
    && m.Wf() && Wf(m, t, level)
    && t' == UnmapTree(m, t, level, start, end)
    && (empty ==> Empty(t'))
    && (OneTable(m, level, start, end) ==> (empty <==> Empty(t')))
  }

  lemma ChildUnmapPre(m: Meta, j: Unmapping, mem: FrameMemory, free: set<nat>, v: nat, c: Tree, next: nat)
    requires Whole(UnmapState(m, j, mem, free, v)) && v < j.end && j.level > 1
    requires m.Index(v, j.level) < |j.Now(m, mem).slots| && j.Now(m, mem).slots[m.Index(v, j.level)] == Sub(c)
    requires c == Abs(m, mem, c.frame, j.level - 1)
    requires next == Min((v / m.LevelSize(j.level) + 1) * m.LevelSize(j.level), j.end) < USIZE_LIMIT
    ensures UnmapPre(m, mem, free, c.frame, v, next, j.level - 1)
    ensures OneTable(m, j.level - 1, v, next)
  {
    assert OpenShrunk(0);
    assert WfSlot(m, j.Now(m, mem).slots[m.Index(v, j.level)], j.level);
    EntryAround(m, v, j.level);
  }

  /** The child has been unmapped; its entry still points to it. */
  lemma ChildShrunk(m: Meta, j: Unmapping, mem: FrameMemory, free: set<nat>, v: nat, i: nat, c: Tree, c': Tree,
                    mem': FrameMemory, free': set<nat>)
    requires Whole(UnmapState(m, j, mem, free, v)) && v < j.end && j.level > 1
    requires i < |j.Now(m, mem).slots| && j.Now(m, mem).slots[i] == Sub(c)
    requires c' == Abs(m, mem', c.frame, j.level - 1) && Whole(Shrunk(c, c', mem, mem', free, free'))
    ensures j.Now(m, mem') == Put(j.Now(m, mem), i, Sub(c'))
    ensures Shrunk(j.t, j.Now(m, mem'), j.mem0, mem', j.free0, free')
    ensures j.t.frame in mem' && |mem'[j.t.frame]| == m.len && mem'.Keys !! free'
    ensures c.frame in mem' && c.frame != j.t.frame
  {
    KeepTable(m, j.t, j.Now(m, mem), j.mem0, mem, mem', j.free0, free, free', j.level, i, c, c');
    assert OpenShrunk(0);
    assert SlotFrames(j.Now(m, mem).slots[i]) == Footprint(c);
    assert c.frame in Footprint(c') && j.t.frame in Footprint(j.Now(m, mem));
  }

  lemma JobOverflow(m: Meta, j: Unmapping, mem: FrameMemory, free: set<nat>, v: int)
    requires Whole(UnmapState(m, j, mem, free, v)) && v < j.end && Wf(m, j.Now(m, mem), j.level)
    requires OneOverflows(m, j.Now(m, mem), j.level, v, j.end)
    ensures m.Wf() && Wf(m, j.t, j.level) && UnmapOverflows(m, j.t, j.level, j.start, j.end)
  {
    assert SameJob(m, j.t, j.Now(m, mem), j.level, j.start, v, j.end);
  }

  lemma JobDone(m: Meta, j: Unmapping, mem: FrameMemory, free: set<nat>, v: int, empty: bool)
    requires Whole(UnmapState(m, j, mem, free, v)) && v >= j.end
    requires empty ==> Empty(j.Now(m, mem))
    requires OneTable(m, j.level, j.start, j.end) && !empty ==> !Empty(j.Now(m, mem))
    ensures UnmapPost(m, j.t, j.Now(m, mem), j.start, j.end, j.level, empty)
    ensures !UnmapOverflows(m, j.t, j.level, j.start, j.end)
  {
    assert SameJob(m, j.t, j.Now(m, mem), j.level, j.start, v, j.end);
  }
}
