/**
 `Frame::deallocate_recursive` and `deallocate_children`: tearing down a tree. Every frame
 of the tree goes back to the allocator, once, and no other frame does.
 */
module PageDealloc {
  import opened Arith
  import opened Paging
  import opened PageTree
  import opened MapHeap
  import opened UnmapHeap
  import opened FrameStores
  import PageUnmap

  /** The table with the children in slots `k` and up taken away. */
  function Stripped(t: Tree, k: int): (r: Tree)
    ensures r.frame == t.frame && |r.slots| == |t.slots|
  {
    t.(slots := seq(|t.slots|, i requires 0 <= i < |t.slots| =>
                if i >= k && t.slots[i].Sub? then Invalid else t.slots[i]))
  }

  lemma StripOne(t: Tree, k: nat)
    requires k < |t.slots|
    ensures Stripped(t, k) == if t.slots[k].Sub? then Put(Stripped(t, k + 1), k, Invalid) else Stripped(t, k + 1)
    ensures Stripped(t, k + 1).slots[k] == t.slots[k]
  {
  }

  /** A whole child goes. */
  lemma StripTable(m: Meta, t: Tree, t1: Tree, mem0: FrameMemory, mem: FrameMemory, mem': FrameMemory,
                   free0: set<nat>, free: set<nat>, level: nat, i: nat, c: Tree, w: Word)
    requires Whole(Shrunk(t, t1, mem0, mem, free0, free))
    requires t1 == Abs(m, mem, t1.frame, level) && t1.frame in mem && i < |t1.slots|
    requires t1.slots[i] == Sub(c)
    requires mem' == (mem - Footprint(c))[t1.frame := PutWord(mem[t1.frame], i, w)]
    requires SlotAt(m, mem', w, level) == Invalid
    ensures Abs(m, mem', t1.frame, level) == Put(t1, i, Invalid)
    ensures Shrunk(t, Put(t1, i, Invalid), mem0, mem', free0, free + Footprint(c))
  {
    assert OpenShrunk(0);
    SlotFramesIn(t1, i);
    assert SlotFrames(t1.slots[i]) == Footprint(c);
    assert t1.frame !in Footprint(c);
    AbsPut(m, mem, mem', t1.frame, level, i, w);
    ShrinkSlot(t, t1, i, Invalid, mem0, mem, mem', free0, free, free + Footprint(c));
  }

  ghost predicate Owns(m: Meta, mem: FrameMemory, free: set<nat>, frame: nat, level: nat) {
    && m.Wf() && mem.Keys !! free
    && Wf(m, Abs(m, mem, frame, level), level)
    && Separated(Abs(m, mem, frame, level))
  }

  lemma ChildOwned(m: Meta, t: Tree, t1: Tree, mem0: FrameMemory, mem: FrameMemory, free0: set<nat>, free: set<nat>,
                   level: nat, i: nat, c: Tree)
    requires m.Wf() && Wf(m, t, level) && i < |t.slots| && t.slots[i] == Sub(c)
    requires Whole(Shrunk(t, t1, mem0, mem, free0, free))
    requires i < |t1.slots| && t1.slots[i] == Sub(c) && c == Abs(m, mem, c.frame, level - 1) && level > 1
    ensures Owns(m, mem, free, c.frame, level - 1)
    ensures t1.frame !in Footprint(c) && t1.frame in Footprint(t1)
  {
    assert OpenShrunk(0);
    assert WfSlot(m, t.slots[i], level);
    assert SlotFrames(t1.slots[i]) == Footprint(c);
  }

  /** Frees the table below entry `i` with everything under it, and clears the entry. */
  method FreeChild(m: Meta, st: FrameStore, frame: nat, i: nat, child: nat, level: nat,
                   ghost t: Tree, ghost t1: Tree, ghost mem0: FrameMemory, ghost free0: set<nat>)
    requires m.Wf() && Wf(m, t, level) && level > 1 && st.Valid() && frame in st.mem && i < |st.mem[frame]|
    requires t1 == Abs(m, st.mem, frame, level) && i < |t.slots|
    requires t1.slots[i] == t.slots[i] == Sub(Abs(m, st.mem, child, level - 1))
    requires Whole(Shrunk(t, t1, mem0, st.mem, free0, st.free))
    modifies st`mem, st`free
    ensures st.Valid() && frame in st.mem && |st.mem[frame]| == old(|st.mem[frame]|)
    ensures Abs(m, st.mem, frame, level) == Put(t1, i, Invalid)
    ensures Whole(Shrunk(t, Put(t1, i, Invalid), mem0, st.mem, free0, st.free))
    decreases level, 0
  {
    ghost var mem1, free1, c := st.mem, st.free, Abs(m, st.mem, child, level - 1);
    ChildOwned(m, t, t1, mem0, st.mem, free0, st.free, level, i, c);
    DeallocateRecursive(m, st, child, level - 1);
    var w := m.codec.fromConfig(INVALID_CONFIG);
    st.Write(frame, i, w);
    PageUnmap.DecodeInvalid(m, st.mem, level);
    StripTable(m, t, t1, mem0, mem1, st.mem, free0, free1, level, i, c, w);
    ShrunkValid(t, Put(t1, i, Invalid), mem0, st.mem, free0, st.free);
  }

  method DeallocateChildren(m: Meta, st: FrameStore, frame: nat, level: nat)
    requires Owns(m, st.mem, st.free, frame, level)
    modifies st`mem, st`free
    ensures st.Valid() && frame in st.mem
    ensures Abs(m, st.mem, frame, level) == Stripped(old(Abs(m, st.mem, frame, level)), 0)
    ensures Whole(Shrunk(old(Abs(m, st.mem, frame, level)), Abs(m, st.mem, frame, level),
                         old(st.mem), st.mem, old(st.free), st.free))
    decreases level, 1
  {
    ghost var t, mem0, free0 := Abs(m, st.mem, frame, level), st.mem, st.free;
    WfOwned(m, st.mem, frame, level);
    m.IndexInFrame(0, level);
    ShrunkNothing(t, st.mem, st.free);
    assert Stripped(t, m.len) == t;
    for i := m.len downto 0
      invariant st.Valid() && frame in st.mem && |st.mem[frame]| == m.len
      invariant Abs(m, st.mem, frame, level) == Stripped(t, i)
      invariant Whole(Shrunk(t, Stripped(t, i), mem0, st.mem, free0, st.free))
    {
      StripOne(t, i);
      SlotOfWord(m, st.mem, frame, level, i);
      var config := m.codec.toConfig(st.mem[frame][i], level > 1);
      if config.valid && !(config.huge || level == 1) {
        FreeChild(m, st, frame, i, config.paddr, level, t, Stripped(t, i + 1), mem0, free0);
      }
    }
  }

  lemma ShrunkValid(t: Tree, t': Tree, mem: FrameMemory, mem': FrameMemory, free: set<nat>, free': set<nat>)
    requires Whole(Shrunk(t, t', mem, mem', free, free'))
    ensures mem'.Keys !! free'
  {
    assert OpenShrunk(0);
  }

  /** Frees each frame of the tree exactly once, and nothing else. */
  method DeallocateRecursive(m: Meta, st: FrameStore, frame: nat, level: nat)
    requires Owns(m, st.mem, st.free, frame, level)
    modifies st`mem, st`free
    ensures st.Valid()
    ensures st.mem == old(st.mem) - old(Footprint(Abs(m, st.mem, frame, level)))
    ensures st.free == old(st.free) + old(Footprint(Abs(m, st.mem, frame, level)))
    decreases level, 2
  {
    ghost var t, mem0, free0 := Abs(m, st.mem, frame, level), st.mem, st.free;
    DeallocateChildren(m, st, frame, level);
    ghost var mem1, free1 := st.mem, st.free;
    st.Release(frame);
    AllReleased(t, mem0, mem1, free0, free1);
  }

  lemma StrippedFrames(t: Tree)
    ensures Footprint(Stripped(t, 0)) == {t.frame}
  {
  }

  lemma AllReleased(t: Tree, mem0: FrameMemory, mem1: FrameMemory, free0: set<nat>, free1: set<nat>)
    requires Whole(Shrunk(t, Stripped(t, 0), mem0, mem1, free0, free1))
    ensures mem1 - {t.frame} == mem0 - Footprint(t)
    ensures free1 + {t.frame} == free0 + Footprint(t)
  {
    StrippedFrames(t);
    var frames := Footprint(t);
    assert mem1.Keys == mem0.Keys - (frames - {t.frame}) && free1 == free0 + (frames - {t.frame})
        && t.frame in frames && Agree(mem0, mem1, mem0.Keys - frames) by {
      assert OpenShrunk(0);
    }
    ReleasedSets(t.frame, frames, mem0, mem1, free0, free1);
  }

  lemma ReleasedSets(f: nat, frames: set<nat>, mem0: FrameMemory, mem1: FrameMemory, free0: set<nat>, free1: set<nat>)
    requires f in frames && mem1.Keys == mem0.Keys - (frames - {f}) && free1 == free0 + (frames - {f})
    requires Agree(mem0, mem1, mem0.Keys - frames)
    ensures mem1 - {f} == mem0 - frames
    ensures free1 + {f} == free0 + frames
  {
    assert (mem1 - {f}).Keys == (mem0 - frames).Keys;
  }
}
