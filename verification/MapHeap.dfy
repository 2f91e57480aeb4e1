/**
 What mapping does to the frame memory: how writing one entry, linking one frame or
 letting a call work on one child changes the tree that the memory represents.
 */
module MapHeap {
  import opened Arith
  import opened Paging
  import opened PageTree
  import opened MapSpec

  function BlockPte(template: PteConfig, paddr: nat): PteConfig {
    template.(paddr := paddr, valid := true, huge := true, isDir := true)
  }

  function PagePte(template: PteConfig, paddr: nat): PteConfig {
    template.(paddr := paddr, valid := true, huge := false, isDir := false)
  }

  function TablePte(template: PteConfig, paddr: nat): PteConfig {
    template.(paddr := paddr, valid := true, huge := false, isDir := true)
  }

  /** The codec can represent every final entry that mapping [lo, hi) may write. */
  ghost predicate CanEncode(m: Meta, template: PteConfig, allowHuge: bool, lo: int, hi: int)
    requires m.HasLevel(1)
  {
    forall p: nat :: lo <= p < hi && m.OnPage(p) ==>
      && m.codec.encodable(PagePte(template, p))
      && (allowHuge && m.maxBlockLevel > 1 ==> m.codec.encodable(BlockPte(template, p)))
  }

  /** ... and every table pointer to a frame of the allocator. */
  ghost predicate CanLink(m: Meta, template: PteConfig, frames: set<nat>) {
    forall f :: f in frames ==> m.codec.encodable(TablePte(template, f))
  }

  predicate OpenGrown(k: int) {
    true
  }

  predicate OpenExplains(k: int) {
    true
  }

  /** From (mem, free) to (mem', free') the tree grew from t to t': it took its new frames
      from the allocator and wrote nothing outside its own frames. */
  ghost predicate Grown(t: Tree, t': Tree, mem: FrameMemory, mem': FrameMemory, free: set<nat>, free': set<nat>) {
    forall k {:trigger OpenGrown(k)} :: OpenGrown(k) ==>
      var taken := Footprint(t') - Footprint(t);
      && mem.Keys !! free && Footprint(t) <= mem.Keys && Separated(t)
      && mem'.Keys !! free' && Footprint(t') <= mem'.Keys && Separated(t')
      && Footprint(t) <= Footprint(t')
      && taken <= free
      && free' == free - taken
      && mem'.Keys == mem.Keys + taken
      && Agree(mem, mem', mem.Keys - Footprint(t))
  }

  predicate OpenStems(k: int) {
    true
  }

  /** `w` encodes a valid entry with these attributes. */
  ghost predicate Carries(m: Meta, attrs: Attrs, w: Word) {
    exists g: PteConfig :: m.codec.fromConfig(g) == w && g.valid && AttrsOf(g) == attrs
  }

  /** Every word that was written, other than to clear a new frame, carries these attributes. */
  ghost predicate Stems(m: Meta, attrs: Attrs, mem: FrameMemory, mem': FrameMemory) {
    forall k {:trigger OpenStems(k)} :: OpenStems(k) ==>
      && mem.Keys <= mem'.Keys
      && forall f, i :: f in mem' && 0 <= i < |mem'[f]| ==>
           || Carries(m, attrs, mem'[f][i])
           || (if f in mem then i < |mem[f]| && mem'[f][i] == mem[f][i] else mem'[f][i] == 0)
  }

  lemma StemsSame(m: Meta, attrs: Attrs, mem: FrameMemory)
    ensures Stems(m, attrs, mem, mem)
  {
  }

  lemma StemsTrans(m: Meta, attrs: Attrs, mem: FrameMemory, mem1: FrameMemory, mem2: FrameMemory)
    requires Whole(Stems(m, attrs, mem, mem1)) && Whole(Stems(m, attrs, mem1, mem2))
    ensures Stems(m, attrs, mem, mem2)
  {
    assert OpenStems(0);
    forall f, i | f in mem2 && 0 <= i < |mem2[f]|
      ensures || Carries(m, attrs, mem2[f][i])
              || (if f in mem then i < |mem[f]| && mem2[f][i] == mem[f][i] else mem2[f][i] == 0)
    {
      if f in mem1 && i < |mem1[f]| {
        assert mem2[f][i] == mem1[f][i] || Carries(m, attrs, mem2[f][i]);
      }
    }
  }

  lemma StemsWrite(m: Meta, g: PteConfig, mem: FrameMemory, f: nat, i: nat)
    requires g.valid && f in mem && i < |mem[f]|
    ensures Stems(m, AttrsOf(g), mem, mem[f := PutWord(mem[f], i, m.codec.fromConfig(g))])
  {
    assert Carries(m, AttrsOf(g), m.codec.fromConfig(g));
  }

  lemma StemsNew(m: Meta, attrs: Attrs, mem: FrameMemory, f: nat, len: nat)
    requires f !in mem
    ensures Stems(m, attrs, mem, mem[f := ZeroFrame(len)])
  {
  }

  /** A table stands where a block was to be written for `va`. */
  ghost predicate TableInTheWay(m: Meta, t: Tree, level: nat, va: int)
    requires m.HasLevel(level)
    decreases level
  {
    var i := m.Index(va, level);
    && i < |t.slots|
    && t.slots[i].Sub?
    && level > 1
    && (level <= m.maxBlockLevel || TableInTheWay(m, t.slots[i].table, level - 1, va))
  }

  /** There is no table where a page of `va` would have its entry. */
  ghost predicate TableMissing(m: Meta, t: Tree, level: nat, va: int)
    requires m.HasLevel(level)
    decreases level
  {
    var i := m.Index(va, level);
    && i < |t.slots| && level > 1
    && (t.slots[i].Invalid? || (t.slots[i].Sub? && TableMissing(m, t.slots[i].table, level - 1, va)))
  }

  /** Why mapping stopped at `va`. */
  ghost predicate Explains(m: Meta, e: PagingError, t: Tree, level: nat, va: int, pa: int, allowHuge: bool) {
    forall k {:trigger OpenExplains(k)} :: OpenExplains(k) ==>
      && m.HasLevel(level)
      && match e
         case NoMemory => TableMissing(m, t, level, va)
         case MappingConflict(v, p) =>
           && v == va && p == pa
           && (Lookup(m, t, level, va).Some? || (allowHuge && TableInTheWay(m, t, level, va)))
         case HierarchyError => Lookup(m, t, level, va).Some?
         case _ => false
  }

  lemma {:induction false} WfOwned(m: Meta, mem: FrameMemory, frame: nat, level: nat)
    requires m.Wf() && Wf(m, Abs(m, mem, frame, level), level)
    ensures Footprint(Abs(m, mem, frame, level)) <= mem.Keys
    decreases level
  {
    var t := Abs(m, mem, frame, level);
    m.IndexInFrame(0, level);
    forall f | f in Footprint(t) ensures f in mem {
      if f != frame {
        var i :| 0 <= i < |t.slots| && f in SlotFrames(t.slots[i]);
        assert t.slots[i] == SlotAt(m, mem, mem[frame][i], level);
        WfOwned(m, mem, t.slots[i].table.frame, level - 1);
      }
    }
  }

  lemma GrownNothing(t: Tree, mem: FrameMemory, free: set<nat>)
    requires Separated(t) && mem.Keys !! free && Footprint(t) <= mem.Keys
    ensures Grown(t, t, mem, mem, free, free)
  {
  }

  /** Growing one slot grows the tree. */
  lemma GrowSlot(t: Tree, t1: Tree, i: nat, s: Slot,
                 mem0: FrameMemory, mem1: FrameMemory, mem2: FrameMemory,
                 free0: set<nat>, free1: set<nat>, free2: set<nat>)
    requires Whole(Grown(t, t1, mem0, mem1, free0, free1))
    requires i < |t1.slots| && SlotFrames(t1.slots[i]) <= SlotFrames(s)
    requires s.Sub? ==> Separated(s.table)
    requires var taken := SlotFrames(s) - SlotFrames(t1.slots[i]);
             && taken <= free1 && free2 == free1 - taken && mem2.Keys == mem1.Keys + taken
    requires Agree(mem1, mem2, mem1.Keys - SlotFrames(t1.slots[i]) - {t1.frame})
    ensures Grown(t, Put(t1, i, s), mem0, mem2, free0, free2)
  {
    assert OpenGrown(0);
    var a, b, o, f := Footprint(t), Footprint(t1), SlotFrames(t1.slots[i]), SlotFrames(s);
    SlotFramesIn(t1, i);
    GrowSets(a, b, o, f, mem0.Keys, mem1.Keys, mem2.Keys, free0, free1, free2);
    PutFrames(t1, i, s);
    assert Footprint(Put(t1, i, s)) == b + f;
    assert t1.frame in b;
    forall x | x in mem0.Keys - a ensures x in mem2 && mem2[x] == mem0[x] {
      assert x in mem1.Keys - o - {t1.frame};
    }
  }

  lemma GrowSets(a: set<nat>, b: set<nat>, o: set<nat>, f: set<nat>,
                 keys0: set<nat>, keys1: set<nat>, keys2: set<nat>,
                 free0: set<nat>, free1: set<nat>, free2: set<nat>)
    requires a <= b && o <= b && o <= f && a <= keys0 && keys0 !! free0
    requires b - a <= free0 && free1 == free0 - (b - a) && keys1 == keys0 + (b - a)
    requires f - o <= free1 && free2 == free1 - (f - o) && keys2 == keys1 + (f - o)
    ensures f !! b - o
    ensures b - o + f == b + f
    ensures b + f - a <= free0 && free2 == free0 - (b + f - a) && keys2 == keys0 + (b + f - a)
    ensures keys2 !! free2 && b + f <= keys2
    ensures b * keys0 == a
  {
    assert b <= keys1 && keys1 !! free1;
    assert b + f - a == (b - a) + (f - o);
  }


  // ----- one written entry -----

  /** Writing a final entry into an invalid slot. */
  lemma WriteLeaf(m: Meta, t: Tree, t1: Tree, mem0: FrameMemory, mem: FrameMemory, mem': FrameMemory,
                  free0: set<nat>, free: set<nat>, level: nat, i: nat, w: Word, s: Slot)
    requires Whole(Grown(t, t1, mem0, mem, free0, free))
    requires t1 == Abs(m, mem, t1.frame, level) && t1.frame in mem && i < |t1.slots|
    requires t1.slots[i].Invalid? && s.Leaf? && SlotAt(m, mem', w, level) == s
    requires mem' == mem[t1.frame := PutWord(mem[t1.frame], i, w)]
    ensures Abs(m, mem', t1.frame, level) == Put(t1, i, s)
    ensures Grown(t, Put(t1, i, s), mem0, mem', free0, free)
  {
    assert OpenGrown(0);
    AbsPut(m, mem, mem', t1.frame, level, i, w);
    GrowSlot(t, t1, i, s, mem0, mem, mem', free0, free, free);
  }

  lemma ZeroedTable(m: Meta, mem: FrameMemory, f: nat, level: nat)
    requires m.Wf() && m.HasLevel(level)
    requires f in mem && |mem[f]| == m.len && (forall k :: 0 <= k < m.len ==> mem[f][k] == 0)
    ensures var c := Abs(m, mem, f, level); Empty(c) && Separated(c) && Wf(m, c, level) && Footprint(c) == {f}
  {
    var c := Abs(m, mem, f, level);
    assert Lawful(m.codec) && !m.codec.valid(0);
    forall k | 0 <= k < |c.slots| ensures c.slots[k] == Invalid {
      assert c.slots[k] == SlotAt(m, mem, 0, level);
    }
  }

  /** Linking a zeroed frame into an invalid slot. */
  lemma LinkTable(m: Meta, t: Tree, t1: Tree, mem0: FrameMemory, mem: FrameMemory, mem': FrameMemory,
                  free0: set<nat>, free: set<nat>, level: nat, i: nat, w: Word, f: nat)
    requires m.Wf() && m.HasLevel(level) && level > 1
    requires Whole(Grown(t, t1, mem0, mem, free0, free)) && f in free
    requires t1 == Abs(m, mem, t1.frame, level) && t1.frame in mem && i < |t1.slots|
    requires t1.slots[i].Invalid? && SlotAt(m, mem', w, level) == Sub(Abs(m, mem', f, level - 1))
    requires mem' == mem[f := ZeroFrame(m.len)][t1.frame := PutWord(mem[t1.frame], i, w)]
    ensures var c := Abs(m, mem', f, level - 1);
            && Empty(c) && Separated(c) && Wf(m, c, level - 1) && Footprint(c) == {f}
            && Abs(m, mem', t1.frame, level) == Put(t1, i, Sub(c))
            && Grown(t, Put(t1, i, Sub(c)), mem0, mem', free0, free - {f})
  {
    var c := Abs(m, mem', f, level - 1);
    assert OpenGrown(0);
    ZeroedTable(m, mem', f, level - 1);
    assert SlotFrames(Sub(c)) == {f};
    AbsPut(m, mem, mem', t1.frame, level, i, w);
    GrowSlot(t, t1, i, Sub(c), mem0, mem, mem', free0, free, free - {f});
  }

  /** Replacing the table below slot i by what a call on it made of it. */
  lemma GrowTable(m: Meta, t: Tree, t1: Tree, mem0: FrameMemory, mem: FrameMemory, mem': FrameMemory,
                  free0: set<nat>, free: set<nat>, free': set<nat>, level: nat, i: nat, c: Tree, c': Tree)
    requires level > 1
    requires Whole(Grown(t, t1, mem0, mem, free0, free))
    requires t1 == Abs(m, mem, t1.frame, level) && t1.frame in mem && i < |t1.slots|
    requires t1.slots[i] == Sub(c) && c' == Abs(m, mem', c.frame, level - 1)
    requires Whole(Grown(c, c', mem, mem', free, free'))
    ensures Abs(m, mem', t1.frame, level) == Put(t1, i, Sub(c'))
    ensures Grown(t, Put(t1, i, Sub(c')), mem0, mem', free0, free')
  {
    assert OpenGrown(0);
    var w := mem[t1.frame][i];
    assert SlotAt(m, mem, w, level) == Sub(c);
    assert SlotAt(m, mem', w, level) == Sub(c');
    assert SlotFrames(t1.slots[i]) == Footprint(c);
    AbsPut(m, mem, mem', t1.frame, level, i, w);
    GrowSlot(t, t1, i, Sub(c'), mem0, mem, mem', free0, free, free');
  }

  // ----- what the codec law gives for the three kinds of entries -----

  lemma DecodeFinal(m: Meta, mem: FrameMemory, g: PteConfig, level: nat)
    requires Lawful(m.codec) && g.valid && m.codec.encodable(g) && g.isDir == g.huge == (level > 1)
    ensures SlotAt(m, mem, m.codec.fromConfig(g), level) == Leaf(g.paddr, m.Carried(g))
  {
    assert Recovers(m.codec.keeps, g, m.codec.toConfig(m.codec.fromConfig(g), g.isDir));
  }

  lemma DecodeTable(m: Meta, mem: FrameMemory, template: PteConfig, frame: nat, level: nat)
    requires Lawful(m.codec) && level > 1 && m.codec.encodable(TablePte(template, frame))
    ensures SlotAt(m, mem, m.codec.fromConfig(TablePte(template, frame)), level) == Sub(Abs(m, mem, frame, level - 1))
  {
    var g := TablePte(template, frame);
    assert Recovers(m.codec.keeps, g, m.codec.toConfig(m.codec.fromConfig(g), g.isDir));
  }

  lemma SlotOfWord(m: Meta, mem: FrameMemory, frame: nat, level: nat, i: nat)
    requires Lawful(m.codec) && frame in mem && i < |mem[frame]|
    ensures var s := Abs(m, mem, frame, level).slots[i];
            && s == SlotAt(m, mem, mem[frame][i], level)
            && (s.Invalid? <==> !m.codec.valid(mem[frame][i]))
  {
  }

  // ----- the entry around an address -----

  lemma EntryAround(m: Meta, v: int, level: nat)
    requires m.Wf() && m.HasLevel(level)
    ensures var ls := m.LevelSize(level);
            var e := (v / ls + 1) * ls;
            && v < e && v % ls + (e - v) == ls && e % ls == 0 && e % m.PageSize() == 0
  {
    var ls := m.LevelSize(level);
    DivModDef(v, ls);
    assert (v / ls + 1) * ls == (v / ls) * ls + ls;
    DivModUnique((v / ls + 1) * ls, ls, v / ls + 1, 0);
    m.MultipleOfLevel((v / ls + 1) * ls, level);
  }

  lemma SameEntry(m: Meta, v: int, x: int, level: nat)
    requires m.HasLevel(level) && v <= x && v % m.LevelSize(level) + (x - v) < m.LevelSize(level)
    ensures m.Index(x, level) == m.Index(v, level)
  {
    var ls := m.LevelSize(level);
    DivModDef(v, ls);
    DivModUnique(x, ls, v / ls, v % ls + (x - v));
  }

  /** Where the loop of one table goes on after the table below slot `v` has been handled. */
  lemma NextPosition(m: Meta, v: int, end: int, top: int, level: nat) returns (top': int)
    requires m.Wf() && m.HasLevel(level) && v < end && PageTop(m, end, top)
    ensures var ls := m.LevelSize(level);
            var next := Min((v / ls + 1) * ls, end);
            && v < next && PageTop(m, next, top') && top' <= top
            && v % ls + (top' - v) <= ls
            && (next < end ==> m.OnPage(next) && top' == next)
            && (next == end ==> top' == top)
  {
    var ls, ps := m.LevelSize(level), m.PageSize();
    var e := (v / ls + 1) * ls;
    EntryAround(m, v, level);
    if e < end {
      top' := e;
    } else {
      top' := top;
      if e < top {
        MultipleGap(e, top, ps);
      }
    }
  }

  lemma NothingToMap(m: Meta, start: int, top: int)
    requires m.Wf() && m.HasLevel(1) && m.OnPage(start) && PageTop(m, start, top)
    ensures top == start
  {
    if start < top {
      MultipleGap(start, top, m.PageSize());
    }
  }

  lemma NextPage(m: Meta, v: int, p: int, end: int, top: int)
    requires m.Wf() && m.HasLevel(1) && m.OnPage(v) && m.OnPage(p) && v < end && PageTop(m, end, top)
    ensures m.OnPage(v + m.PageSize()) && m.OnPage(p + m.PageSize()) && v + m.PageSize() <= top
    ensures v + m.PageSize() >= end ==> top == v + m.PageSize()
  {
    ModAddMul(v, 1, m.PageSize());
    ModAddMul(p, 1, m.PageSize());
    MultipleGap(v, top, m.PageSize());
    if v + m.PageSize() < top {
      MultipleGap(v + m.PageSize(), top, m.PageSize());
    }
  }

  lemma NextBlock(m: Meta, v: int, p: int, end: int, top: int, level: nat)
    requires m.Wf() && m.HasLevel(level) && v + m.LevelSize(level) <= end && PageTop(m, end, top)
    requires m.OnPage(v) && m.OnPage(p)
    ensures m.OnPage(v + m.LevelSize(level)) && m.OnPage(p + m.LevelSize(level))
    ensures v + m.LevelSize(level) <= top
    ensures v + m.LevelSize(level) == end ==> top == end
  {
    var ls, ps := m.LevelSize(level), m.PageSize();
    m.LevelSizePages(level);
    DivModDef(ls, ps);
    ModAddMul(v, ls / ps, ps);
    ModAddMul(p, ls / ps, ps);
    if v + ls == end && end < top {
      MultipleGap(end, top, ps);
    }
  }

  // ----- the state of a map call, bundled -----

  /** What a call was asked to do: map the range at `start` to `pa` with `attrs` in the tree
      `t` of the level, which was read off (mem0, free0). */
  datatype Job = Job(t: Tree, mem0: FrameMemory, free0: set<nat>, level: nat, start: int, pa: int, attrs: Attrs)
  {
    ghost function Now(m: Meta, mem: FrameMemory): Tree {
      Abs(m, mem, t.frame, level)
    }
  }

  /** `done` bytes have been mapped so far; the memory is now (mem, free). */
  ghost predicate MapCore(m: Meta, j: Job, mem: FrameMemory, free: set<nat>, done: nat) {
    && m.Wf() && m.HasLevel(j.level)
    && mem.Keys !! free && free <= j.free0
    && j.t.frame in mem && |mem[j.t.frame]| == m.len
    && Whole(Mapped(m, j.t, j.Now(m, mem), j.level, j.start, done, j.pa, j.attrs))
    && Whole(Grown(j.t, j.Now(m, mem), j.mem0, mem, j.free0, free))
  }

  lemma CoreIs(m: Meta, j: Job, mem: FrameMemory, free: set<nat>, done: nat)
    requires m.Wf() && m.HasLevel(j.level)
    requires Whole(Mapped(m, j.t, j.Now(m, mem), j.level, j.start, done, j.pa, j.attrs))
    requires Whole(Grown(j.t, j.Now(m, mem), j.mem0, mem, j.free0, free))
    ensures MapCore(m, j, mem, free, done)
  {
    assert OpenGrown(0) && OpenMapped(0);
    m.IndexInFrame(0, j.level);
  }

  ghost predicate MapState(m: Meta, j: Job, mem: FrameMemory, free: set<nat>, done: nat) {
    && Whole(MapCore(m, j, mem, free, done))
    && (NoEmpties(j.t) ==> NoEmpties(j.Now(m, mem)))
    && (done > 0 ==> !Empty(j.Now(m, mem)))
  }

  /** Entry `i` points to the table at `f`, which may still be empty. */
  ghost predicate LinkState(m: Meta, j: Job, mem: FrameMemory, free: set<nat>, done: nat, i: nat, f: nat) {
    && j.level > 1
    && Whole(MapCore(m, j, mem, free, done))
    && i < |j.Now(m, mem).slots|
    && j.Now(m, mem).slots[i] == Sub(Abs(m, mem, f, j.level - 1))
    && (NoEmpties(j.t) ==>
          forall k :: 0 <= k < |j.Now(m, mem).slots| && k != i ==> SlotNoEmpties(j.Now(m, mem).slots[k]))
    && (NoEmpties(j.t) ==> NoEmpties(Abs(m, mem, f, j.level - 1)))
  }

  lemma StateStart(m: Meta, j: Job)
    requires m.Wf() && j.mem0.Keys !! j.free0
    requires j.t == j.Now(m, j.mem0) && Wf(m, j.t, j.level) && Separated(j.t)
    ensures MapState(m, j, j.mem0, j.free0, 0)
  {
    WfOwned(m, j.mem0, j.t.frame, j.level);
    MappedNothing(m, j.t, j.level, j.start, j.pa, j.attrs);
    GrownNothing(j.t, j.mem0, j.free0);
    CoreIs(m, j, j.mem0, j.free0, 0);
  }

  lemma CoreLeaf(m: Meta, j: Job, mem: FrameMemory, free: set<nat>, done: nat, v: int, p: nat,
                 mem': FrameMemory, i: nat, w: Word)
    requires Whole(MapCore(m, j, mem, free, done))
    requires v == j.start + done && p == j.pa + done && v % m.LevelSize(j.level) == 0 && i == m.Index(v, j.level)
    requires i < |mem[j.t.frame]| && !m.codec.valid(mem[j.t.frame][i])
    requires mem' == mem[j.t.frame := PutWord(mem[j.t.frame], i, w)]
    requires SlotAt(m, mem', w, j.level) == Leaf(p, j.attrs)
    ensures Whole(MapCore(m, j, mem', free, done + m.LevelSize(j.level)))
    ensures j.Now(m, mem') == Put(j.Now(m, mem), i, Leaf(p, j.attrs))
  {
    var t1 := j.Now(m, mem);
    SlotOfWord(m, mem, j.t.frame, j.level, i);
    WriteLeaf(m, j.t, t1, j.mem0, mem, mem', j.free0, free, j.level, i, w, Leaf(p, j.attrs));
    assert j.Now(m, mem') == Put(t1, i, Leaf(p, j.attrs));
    MapLeaf(m, j.t, t1, j.level, j.start, done, j.pa, j.attrs, v, p, i);
    CoreIs(m, j, mem', free, done + m.LevelSize(j.level));
  }

  lemma StateLeaf(m: Meta, j: Job, mem: FrameMemory, free: set<nat>, done: nat, v: int, p: nat,
                  mem': FrameMemory, i: nat, w: Word)
    requires Whole(MapState(m, j, mem, free, done))
    requires v == j.start + done && p == j.pa + done && v % m.LevelSize(j.level) == 0 && i == m.Index(v, j.level)
    requires i < |mem[j.t.frame]| && !m.codec.valid(mem[j.t.frame][i])
    requires mem' == mem[j.t.frame := PutWord(mem[j.t.frame], i, w)]
    requires SlotAt(m, mem', w, j.level) == Leaf(p, j.attrs)
    ensures MapState(m, j, mem', free, done + m.LevelSize(j.level))
    ensures i < |j.Now(m, mem).slots| && j.Now(m, mem).slots[i].Invalid?
    ensures j.Now(m, mem') == Put(j.Now(m, mem), i, Leaf(p, j.attrs))
  {
    SlotOfWord(m, mem, j.t.frame, j.level, i);
    CoreLeaf(m, j, mem, free, done, v, p, mem', i, w);
    NoEmptiesPut(j.Now(m, mem), i, Leaf(p, j.attrs));
  }

  lemma StateLink(m: Meta, j: Job, mem: FrameMemory, free: set<nat>, done: nat, v: int,
                  mem': FrameMemory, i: nat, w: Word, f: nat)
    requires Whole(MapState(m, j, mem, free, done)) && j.level > 1
    requires v == j.start + done && i == m.Index(v, j.level) && f in free
    requires j.t.frame in mem && i < |mem[j.t.frame]| && !m.codec.valid(mem[j.t.frame][i])
    requires mem' == mem[f := ZeroFrame(m.len)][j.t.frame := PutWord(mem[j.t.frame], i, w)]
    requires SlotAt(m, mem', w, j.level) == Sub(Abs(m, mem', f, j.level - 1))
    ensures LinkState(m, j, mem', free - {f}, done, i, f)
    ensures i < |j.Now(m, mem).slots| && j.Now(m, mem).slots[i].Invalid?
    ensures j.Now(m, mem') == Put(j.Now(m, mem), i, Sub(Abs(m, mem', f, j.level - 1)))
  {
    var t1 := j.Now(m, mem);
    var c := Abs(m, mem', f, j.level - 1);
    SlotOfWord(m, mem, j.t.frame, j.level, i);
    LinkTable(m, j.t, t1, j.mem0, mem, mem', j.free0, free, j.level, i, w, f);
    MapLink(m, j.t, t1, j.level, j.start, done, j.pa, j.attrs, v, i, c);
    CoreIs(m, j, mem', free - {f}, done);
    EmptyHasNoEmpties(c);
  }

  lemma EmptyHasNoEmpties(t: Tree)
    requires Empty(t)
    ensures NoEmpties(t)
  {
  }

  lemma StateDescend(m: Meta, j: Job, mem: FrameMemory, free: set<nat>, done: nat, i: nat, f: nat)
    requires Whole(MapState(m, j, mem, free, done)) && j.level > 1
    requires i < |j.Now(m, mem).slots| && j.Now(m, mem).slots[i] == Sub(Abs(m, mem, f, j.level - 1))
    ensures LinkState(m, j, mem, free, done, i, f)
  {
    assert SlotNoEmpties(j.Now(m, mem).slots[i]) || !NoEmpties(j.t);
  }

  lemma ChildReady(m: Meta, j: Job, mem: FrameMemory, free: set<nat>, done: nat, i: nat, f: nat)
    requires Whole(LinkState(m, j, mem, free, done, i, f))
    ensures Wf(m, Abs(m, mem, f, j.level - 1), j.level - 1) && Separated(Abs(m, mem, f, j.level - 1))
  {
    assert OpenGrown(0) && OpenMapped(0);
    assert WfSlot(m, j.Now(m, mem).slots[i], j.level);
  }

  /** After a call on the child has mapped `n` bytes. */
  lemma StateChild(m: Meta, j: Job, mem: FrameMemory, free: set<nat>, done: nat, v: int, p: int, i: nat, f: nat,
                   mem': FrameMemory, free': set<nat>, n: nat)
    requires Whole(LinkState(m, j, mem, free, done, i, f))
    requires v == j.start + done && p == j.pa + done && i == m.Index(v, j.level)
    requires v % m.LevelSize(j.level) + n <= m.LevelSize(j.level)
    requires Whole(Mapped(m, Abs(m, mem, f, j.level - 1), Abs(m, mem', f, j.level - 1), j.level - 1, v, n, p, j.attrs))
    requires Whole(Grown(Abs(m, mem, f, j.level - 1), Abs(m, mem', f, j.level - 1), mem, mem', free, free'))
    ensures MapCore(m, j, mem', free', done + n)
    ensures j.Now(m, mem') == Put(j.Now(m, mem), i, Sub(Abs(m, mem', f, j.level - 1)))
  {
    var t1 := j.Now(m, mem);
    var c, c' := Abs(m, mem, f, j.level - 1), Abs(m, mem', f, j.level - 1);
    GrowTable(m, j.t, t1, j.mem0, mem, mem', j.free0, free, free', j.level, i, c, c');
    MapSub(m, j.t, t1, j.level, j.start, done, n, j.pa, j.attrs, v, p, i, c, c');
    CoreIs(m, j, mem', free', done + n);
  }

  lemma StateReturn(m: Meta, j: Job, mem: FrameMemory, free: set<nat>, done: nat, i: nat, f: nat,
                    mem': FrameMemory, free': set<nat>, n: nat)
    requires Whole(LinkState(m, j, mem, free, done, i, f))
    requires Whole(MapCore(m, j, mem', free', done + n))
    requires j.Now(m, mem') == Put(j.Now(m, mem), i, Sub(Abs(m, mem', f, j.level - 1)))
    requires NoEmpties(Abs(m, mem, f, j.level - 1)) ==>
               NoEmpties(Abs(m, mem', f, j.level - 1)) && !Empty(Abs(m, mem', f, j.level - 1))
    ensures MapState(m, j, mem', free', done + n)
  {
    assert j.Now(m, mem').slots[i].Sub?;
  }

  lemma NoEmptiesPut(t: Tree, i: nat, s: Slot)
    requires i < |t.slots|
    ensures NoEmpties(t) && SlotNoEmpties(s) ==> NoEmpties(Put(t, i, s))
    ensures !s.Invalid? ==> !Empty(Put(t, i, s))
  {
    assert Put(t, i, s).slots[i] == s;
  }

  // ----- the contract -----

  /** `top` is `end` rounded up to a page. */
  ghost predicate PageTop(m: Meta, end: int, top: int)
    requires m.HasLevel(1)
  {
    end <= top < end + m.PageSize() && m.OnPage(top)
  }

  /** What a call may rely on besides the tree itself. */
  ghost predicate MapPre(m: Meta, mem: FrameMemory, free: set<nat>, frame: nat, start: nat, paddr: nat, end: nat,
                         top: nat,
                         level: nat, allowHuge: bool, template: PteConfig)
  {
    && m.Wf() && m.HasLevel(level)
    && mem.Keys !! free
    && Wf(m, Abs(m, mem, frame, level), level)
    && Separated(Abs(m, mem, frame, level))
    && start <= end && m.OnPage(start) && m.OnPage(paddr)
    && PageTop(m, end, top)
    && end < USIZE_LIMIT
    && CanEncode(m, template, allowHuge, paddr, paddr + (top - start))
    && CanLink(m, template, free)
  }

  /** What a call ensures, whether or not it succeeds. */
  ghost predicate MapPost(m: Meta, t: Tree, t': Tree, start: nat, paddr: nat, end: nat, top: nat, level: nat,
                          allowHuge: bool, template: PteConfig, r: Result<()>, done: nat)
    requires m.HasLevel(level)
  {
    && Whole(Mapped(m, t, t', level, start, done, paddr, m.Carried(template)))
    && done <= top - start
    && (r.Ok? ==> done == top - start)
    && (r.Err? ==> start + done < end)
    && (r.Err? ==> Whole(Explains(m, r.error, t', level, start + done, paddr + done, allowHuge)))
    && (r.Ok? && start < end && NoEmpties(t) ==> NoEmpties(t') && !Empty(t'))
  }

  // ----- the position of the loop -----

  datatype Pos = Pos(vaddr: int, paddr: int, done: int)

  function Advance(at: Pos, n: int, mapped: int): Pos {
    Pos(at.vaddr + n, at.paddr + n, at.done + mapped)
  }

  /** The loop stands at `at.vaddr`; everything before it has been mapped. */
  ghost predicate At(m: Meta, j: Job, end: int, top: int, at: Pos)
    requires m.HasLevel(1)
  {
    && PageTop(m, end, top)
    && j.start <= at.vaddr <= top
    && at.paddr == j.pa + (at.vaddr - j.start)
    && (at.vaddr < end ==> m.OnPage(at.vaddr) && m.OnPage(at.paddr) && at.done == at.vaddr - j.start)
    && (at.vaddr >= end ==> at.done == top - j.start)
  }

  lemma AtStart(m: Meta, j: Job, end: int, top: int)
    requires m.Wf() && m.HasLevel(1) && PageTop(m, end, top)
    requires j.start <= end && m.OnPage(j.start) && m.OnPage(j.pa)
    ensures At(m, j, end, top, Pos(j.start, j.pa, 0))
  {
    if j.start == end {
      NothingToMap(m, j.start, top);
    }
  }

  lemma AtBlock(m: Meta, j: Job, end: int, top: int, at: Pos, level: nat)
    requires m.Wf() && m.HasLevel(level) && Whole(At(m, j, end, top, at))
    requires at.vaddr < end && m.LevelSize(level) <= end - at.vaddr
    ensures At(m, j, end, top, Advance(at, m.LevelSize(level), m.LevelSize(level)))
  {
    NextBlock(m, at.vaddr, at.paddr, end, top, level);
  }

  lemma AtPage(m: Meta, j: Job, end: int, top: int, at: Pos)
    requires m.Wf() && m.HasLevel(1) && Whole(At(m, j, end, top, at)) && at.vaddr < end
    ensures At(m, j, end, top, Advance(at, m.PageSize(), m.PageSize()))
  {
    NextPage(m, at.vaddr, at.paddr, end, top);
  }

  lemma AtFinal(m: Meta, j: Job, end: int, top: int, at: Pos, level: nat)
    requires m.Wf() && m.HasLevel(level) && Whole(At(m, j, end, top, at)) && at.vaddr < end
    requires level == 1 || m.LevelSize(level) <= end - at.vaddr
    ensures Whole(At(m, j, end, top, Advance(at, m.LevelSize(level), m.LevelSize(level))))
  {
    if level == 1 {
      AtPage(m, j, end, top, at);
    } else {
      AtBlock(m, j, end, top, at, level);
    }
  }

  /** The end of the part of the range below one entry. */
  function EntryEnd(m: Meta, vaddr: nat, end: int, level: nat): int
    requires m.HasLevel(level)
  {
    Min(SaturatingMul(SaturatingAdd(vaddr / m.LevelSize(level), 1), m.LevelSize(level)), end)
  }

  lemma EntryEndIs(m: Meta, vaddr: nat, end: int, level: nat)
    requires m.HasLevel(level) && vaddr < USIZE_LIMIT && end < USIZE_LIMIT
    ensures EntryEnd(m, vaddr, end, level) == Min((vaddr / m.LevelSize(level) + 1) * m.LevelSize(level), end)
  {
    var ls := m.LevelSize(level);
    if vaddr / ls + 1 >= USIZE_LIMIT {
      MulMono(1, ls, USIZE_LIMIT - 1);
      MulMono(1, ls, vaddr / ls + 1);
    }
  }

  lemma AtTable(m: Meta, j: Job, end: int, top: int, at: Pos, level: nat, next: int) returns (top': int)
    requires m.Wf() && m.HasLevel(level) && Whole(At(m, j, end, top, at))
    requires 0 <= at.vaddr < end < USIZE_LIMIT && next == EntryEnd(m, at.vaddr, end, level)
    ensures at.vaddr < next && PageTop(m, next, top') && top' <= top
    ensures at.vaddr % m.LevelSize(level) + (top' - at.vaddr) <= m.LevelSize(level)
    ensures At(m, j, end, top, Advance(at, next - at.vaddr, top' - at.vaddr))
  {
    EntryEndIs(m, at.vaddr, end, level);
    top' := NextPosition(m, at.vaddr, end, top, level);
    if next < end {
      OnPageShift(m, at.vaddr, next, at.paddr);
    }
  }

  lemma OnPageShift(m: Meta, a: int, b: int, p: int)
    requires m.Wf() && m.HasLevel(1) && m.OnPage(a) && m.OnPage(b) && m.OnPage(p)
    ensures m.OnPage(p + (b - a))
  {
    var ps := m.PageSize();
    DivModDef(a, ps);
    DivModDef(b, ps);
    ModAddMul(p, b / ps - a / ps, ps);
  }

  // ----- how a call ends -----

  lemma MapDone(m: Meta, j: Job, mem: FrameMemory, free: set<nat>, done: nat, end: nat, top: nat, at: Pos,
                start: nat, startPaddr: nat, allowHuge: bool, template: PteConfig)
    requires Whole(LoopState(m, j, mem, free, end, top, at, allowHuge, template)) && at.vaddr >= end && at.done == done
    requires start == j.start && startPaddr == j.pa
    ensures MapPost(m, j.t, j.Now(m, mem), start, startPaddr, end, top, j.level, allowHuge, template, Ok(()), done)
    ensures Grown(j.t, j.Now(m, mem), j.mem0, mem, j.free0, free)
  {
  }

  lemma MapFailed(m: Meta, j: Job, mem: FrameMemory, free: set<nat>, done: nat, end: nat, top: nat, v: int, p: int,
                  start: nat, startPaddr: nat, allowHuge: bool, template: PteConfig, e: PagingError)
    requires Whole(MapCore(m, j, mem, free, done)) && PageTop(m, end, top)
    requires v == j.start + done && p == j.pa + done && v < end
    requires Whole(Explains(m, e, j.Now(m, mem), j.level, v, p, allowHuge))
    requires start == j.start && startPaddr == j.pa && j.attrs == m.Carried(template)
    ensures MapPost(m, j.t, j.Now(m, mem), start, startPaddr, end, top, j.level, allowHuge, template, Err(e), done)
    ensures Grown(j.t, j.Now(m, mem), j.mem0, mem, j.free0, free)
  {
  }

  /** What every step of the loop relies on and keeps. */
  ghost predicate LoopState(m: Meta, j: Job, mem: FrameMemory, free: set<nat>, end: int, top: int, at: Pos,
                            allowHuge: bool, template: PteConfig)
  {
    && at.done >= 0 && at.vaddr >= 0 && at.paddr >= 0
    && m.Wf() && m.HasLevel(j.level)
    && Whole(MapState(m, j, mem, free, at.done))
    && Whole(At(m, j, end, top, at))
    && j.attrs == m.Carried(template)
    && end <= top && end < USIZE_LIMIT
    && CanEncode(m, template, allowHuge, j.pa, j.pa + (top - j.start))
    && CanLink(m, template, j.free0)
  }

  lemma LoopStart(m: Meta, j: Job, frame: nat, start: nat, paddr: nat, end: nat, top: nat, allowHuge: bool,
                  template: PteConfig)
    requires MapPre(m, j.mem0, j.free0, frame, start, paddr, end, top, j.level, allowHuge, template)
    requires j == Job(Abs(m, j.mem0, frame, j.level), j.mem0, j.free0, j.level, start, paddr, m.Carried(template))
    ensures LoopState(m, j, j.mem0, j.free0, end, top, Pos(start, paddr, 0), allowHuge, template)
  {
    StateStart(m, j);
    AtStart(m, j, end, top);
  }

  lemma LoopNext(m: Meta, j: Job, mem: FrameMemory, free: set<nat>, end: int, top: int, at: Pos,
                 allowHuge: bool, template: PteConfig, mem': FrameMemory, free': set<nat>, at': Pos)
    requires Whole(LoopState(m, j, mem, free, end, top, at, allowHuge, template))
    requires at'.done >= at.done && at'.vaddr >= at.vaddr && at'.paddr >= at.paddr
    requires Whole(MapState(m, j, mem', free', at'.done)) && Whole(At(m, j, end, top, at'))
    ensures LoopState(m, j, mem', free', end, top, at', allowHuge, template)
  {
  }

  /** A table call below the entry of `at.vaddr` may be made. */
  lemma ChildPre(m: Meta, j: Job, mem: FrameMemory, free: set<nat>, end: int, top: int, at: Pos,
                 allowHuge: bool, template: PteConfig, mem': FrameMemory, free': set<nat>, i: nat, f: nat,
                 vaddr: nat, paddr: nat, next: nat) returns (top': nat)
    requires Whole(LoopState(m, j, mem, free, end, top, at, allowHuge, template))
    requires Whole(LinkState(m, j, mem', free', at.done, i, f)) && free' <= free
    requires at.vaddr == vaddr < end && at.paddr == paddr && next == EntryEnd(m, vaddr, end, j.level)
    ensures MapPre(m, mem', free', f, vaddr, paddr, next, top', j.level - 1, allowHuge, template)
    ensures vaddr < next && vaddr % m.LevelSize(j.level) + (top' - vaddr) <= m.LevelSize(j.level) && top' >= next
    ensures Whole(At(m, j, end, top, Advance(at, next - at.vaddr, top' - at.vaddr)))
    ensures next <= end
  {
    top' := AtTable(m, j, end, top, at, j.level, next);
    ChildReady(m, j, mem', free', at.done, i, f);
  }

  lemma ChildExplains(m: Meta, t: Tree, i: nat, c: Tree, level: nat, v: int, x: int, p: int, e: PagingError,
                      allowHuge: bool)
    requires m.Wf() && m.HasLevel(level) && level > 1
    requires i == m.Index(v, level) < |t.slots| && t.slots[i] == Sub(c)
    requires v <= x && v % m.LevelSize(level) + (x - v) < m.LevelSize(level)
    requires Whole(Explains(m, e, c, level - 1, x, p, allowHuge))
    ensures Explains(m, e, t, level, x, p, allowHuge)
  {
    assert OpenExplains(0);
    SameEntry(m, v, x, level);
  }

  /** What is known when the call on the child returns. */
  ghost predicate ChildCalled(m: Meta, j: Job, allowHuge: bool, template: PteConfig, done: nat,
                              mem: FrameMemory, free: set<nat>, i: nat, f: nat, vaddr: nat, paddr: nat, next: nat,
                              top': nat,
                              mem': FrameMemory, free': set<nat>, r: Result<()>, n: nat)
  {
    && Whole(LinkState(m, j, mem, free, done, i, f)) && j.attrs == m.Carried(template)
    && vaddr == j.start + done && paddr == j.pa + done && i == m.Index(vaddr, j.level)
    && vaddr < next <= top' && vaddr % m.LevelSize(j.level) + (top' - vaddr) <= m.LevelSize(j.level)
    && Whole(MapPost(m, Abs(m, mem, f, j.level - 1), Abs(m, mem', f, j.level - 1),
                     vaddr, paddr, next, top', j.level - 1, allowHuge, template, r, n))
    && Whole(Grown(Abs(m, mem, f, j.level - 1), Abs(m, mem', f, j.level - 1), mem, mem', free, free'))
  }

  lemma TableMapped(m: Meta, j: Job, allowHuge: bool, template: PteConfig, done: nat,
                    mem: FrameMemory, free: set<nat>, i: nat, f: nat, vaddr: nat, paddr: nat, next: nat, top': nat,
                    mem': FrameMemory, free': set<nat>, r: Result<()>, n: nat, total: nat)
    requires Whole(ChildCalled(m, j, allowHuge, template, done, mem, free, i, f, vaddr, paddr, next, top', mem', free',
                               r, n))
    requires total == done + n
    ensures Whole(MapCore(m, j, mem', free', total))
    ensures r.Ok? ==> Whole(MapState(m, j, mem', free', total))
    ensures j.Now(m, mem') == Put(j.Now(m, mem), i, Sub(Abs(m, mem', f, j.level - 1)))
  {
    StateChild(m, j, mem, free, done, vaddr, paddr, i, f, mem', free', n);
    if r.Ok? {
      StateReturn(m, j, mem, free, done, i, f, mem', free', n);
    }
  }

  lemma TableExtends(m: Meta, j: Job, allowHuge: bool, template: PteConfig, done: nat,
                     mem: FrameMemory, free: set<nat>, i: nat, f: nat, vaddr: nat, paddr: nat, next: nat, top': nat,
                     mem': FrameMemory, free': set<nat>, r: Result<()>, n: nat)
    requires Whole(ChildCalled(m, j, allowHuge, template, done, mem, free, i, f, vaddr, paddr, next, top', mem', free',
                               r, n))
    requires j.Now(m, mem') == Put(j.Now(m, mem), i, Sub(Abs(m, mem', f, j.level - 1)))
    ensures Extends(j.Now(m, mem), j.Now(m, mem')) && n <= top' - vaddr
    ensures i < |j.Now(m, mem').slots| && j.Now(m, mem').slots[i] == Sub(Abs(m, mem', f, j.level - 1))
  {
    assert OpenMapped(0);
    ExtendsRefl(j.Now(m, mem));
  }

  lemma TableStopped(m: Meta, j: Job, allowHuge: bool, template: PteConfig, done: nat,
                     mem: FrameMemory, free: set<nat>, i: nat, f: nat, vaddr: nat, paddr: nat, next: nat, top': nat,
                     mem': FrameMemory, free': set<nat>, r: Result<()>, n: nat, x: int, p: int)
    requires Whole(ChildCalled(m, j, allowHuge, template, done, mem, free, i, f, vaddr, paddr, next, top', mem', free',
                               r, n))
    requires j.Now(m, mem') == Put(j.Now(m, mem), i, Sub(Abs(m, mem', f, j.level - 1)))
    requires r.Err? && x == vaddr + n && p == paddr + n
    ensures Whole(Explains(m, r.error, j.Now(m, mem'), j.level, x, p, allowHuge))
  {
    ChildExplains(m, j.Now(m, mem'), i, Abs(m, mem', f, j.level - 1), j.level, vaddr, x, p, r.error, allowHuge);
  }

  lemma TableNext(m: Meta, j: Job, mem: FrameMemory, free: set<nat>, end: int, top: int, at: Pos,
                  allowHuge: bool, template: PteConfig, mem': FrameMemory, free': set<nat>, next: int, top': int,
                  at': Pos)
    requires Whole(LoopState(m, j, mem, free, end, top, at, allowHuge, template))
    requires at.vaddr <= next && at.vaddr <= top' && at' == Advance(at, next - at.vaddr, top' - at.vaddr)
    requires Whole(MapState(m, j, mem', free', at'.done))
    requires Whole(At(m, j, end, top, Advance(at, next - at.vaddr, top' - at.vaddr)))
    ensures LoopState(m, j, mem', free', end, top, at', allowHuge, template)
  {
    LoopNext(m, j, mem, free, end, top, at, allowHuge, template, mem', free', at');
  }
}
