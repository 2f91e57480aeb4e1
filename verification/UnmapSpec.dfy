/**
 What unmapping a range does to a tree. `UnmapTree` is the walk of
 `Frame::unmap_range_recursive` on trees, with every branch of the source, including the
 ones that skip or clear more or less than the range.
 */
module UnmapSpec {
  import opened Arith
  import opened Options
  import opened Paging
  import opened PageTree
  import opened MapHeap

  ghost predicate SlotShrinks(a: Slot, b: Slot) {
    match b
    case Invalid => true
    case Leaf(_, _) => b == a
    case Sub(y) => a.Sub? && Shrinks(a.table, y)
  }

  /** Every entry of `b` was already there in `a`. */
  ghost predicate Shrinks(a: Tree, b: Tree) {
    && a.frame == b.frame
    && |a.slots| == |b.slots|
    && (forall i :: 0 <= i < |a.slots| ==> SlotShrinks(a.slots[i], b.slots[i]))
  }

  lemma {:induction false} ShrinksRefl(t: Tree)
    ensures Shrinks(t, t)
  {
    forall i | 0 <= i < |t.slots| ensures SlotShrinks(t.slots[i], t.slots[i]) {
      if t.slots[i].Sub? {
        ShrinksRefl(t.slots[i].table);
      }
    }
  }

  lemma {:induction false} SlotShrinksTrans(a: Slot, b: Slot, c: Slot)
    requires SlotShrinks(a, b) && SlotShrinks(b, c)
    ensures SlotShrinks(a, c)
    decreases c
  {
    if c.Sub? {
      ShrinksTrans(a.table, b.table, c.table);
    }
  }

  lemma {:induction false} ShrinksTrans(a: Tree, b: Tree, c: Tree)
    requires Shrinks(a, b) && Shrinks(b, c)
    ensures Shrinks(a, c)
    decreases c
  {
    forall i | 0 <= i < |a.slots| ensures SlotShrinks(a.slots[i], c.slots[i]) {
      SlotShrinksTrans(a.slots[i], b.slots[i], c.slots[i]);
    }
  }

  /** The entry left behind for a table: none once it is empty. */
  function Pruned(c: Tree): Slot {
    if Empty(c) then Invalid else Sub(c)
  }

  /** One round of the loop of a table: the new tree and the next position. */
  ghost function UnmapOne(m: Meta, t: Tree, level: nat, v: int, e: int): (r: (Tree, int))
    requires m.Wf() && Wf(m, t, level) && v < e
    ensures Wf(m, r.0, level) && Shrinks(t, r.0) && v < r.1
    decreases level, e - v, 0
  {
    m.IndexInFrame(v, level);
    ShrinksRefl(t);
    var ls := m.LevelSize(level);
    var i := m.Index(v, level);
    match t.slots[i]
    case Invalid => (t, v + Min(ls, e - v))
    case Leaf(_, _) => (Put(t, i, Invalid), v + ls)
    case Sub(c) =>
      EntryAround(m, v, level);
      assert WfSlot(m, t.slots[i], level);
      var next := Min((v / ls + 1) * ls, e);
      var c' := UnmapTree(m, c, level - 1, v, next);
      (Put(t, i, Pruned(c')), next)
  }

  ghost function UnmapTree(m: Meta, t: Tree, level: nat, v: int, e: int): (r: Tree)
    requires m.Wf() && Wf(m, t, level)
    ensures Wf(m, r, level) && Shrinks(t, r)
    decreases level, if v < e then e - v else 0, 1
  {
    if v >= e then
      ShrinksRefl(t);
      t
    else
      var (t1, next) := UnmapOne(m, t, level, v, e);
      var r := UnmapTree(m, t1, level, next, e);
      ShrinksTrans(t, t1, r);
      r
  }

  /** The address arithmetic of a round leaves usize, as map.rs does not guard it. */
  ghost predicate OneOverflows(m: Meta, t: Tree, level: nat, v: int, e: int)
    requires m.Wf() && Wf(m, t, level) && v < e
    decreases level, e - v, 0
  {
    m.IndexInFrame(v, level);
    var ls := m.LevelSize(level);
    var i := m.Index(v, level);
    match t.slots[i]
    case Invalid => false
    case Leaf(_, _) => v + ls >= USIZE_LIMIT
    case Sub(c) =>
      EntryAround(m, v, level);
      assert WfSlot(m, t.slots[i], level);
      var end := (v / ls + 1) * ls;
      end >= USIZE_LIMIT || UnmapOverflows(m, c, level - 1, v, Min(end, e))
  }

  ghost predicate UnmapOverflows(m: Meta, t: Tree, level: nat, v: int, e: int)
    requires m.Wf() && Wf(m, t, level)
    decreases level, if v < e then e - v else 0, 1
  {
    v < e && (OneOverflows(m, t, level, v, e) ||
              var (t1, next) := UnmapOne(m, t, level, v, e);
              UnmapOverflows(m, t1, level, next, e))
  }

  /** A range that ends at least one entry of its top level below 2^64 is safe. */
  lemma {:induction false} NoOverflow(m: Meta, t: Tree, level: nat, v: int, e: int)
    requires m.Wf() && Wf(m, t, level) && e + m.LevelSize(level) <= USIZE_LIMIT
    ensures !UnmapOverflows(m, t, level, v, e)
    decreases level, if v < e then e - v else 0
  {
    if v < e {
      var ls := m.LevelSize(level);
      var i := m.Index(v, level);
      m.IndexInFrame(v, level);
      EntryAround(m, v, level);
      if t.slots[i].Sub? {
        assert WfSlot(m, t.slots[i], level);
        m.SpanIs(level - 1);
        NoOverflow(m, t.slots[i].table, level - 1, v, Min((v / ls + 1) * ls, e));
      }
      var (t1, next) := UnmapOne(m, t, level, v, e);
      NoOverflow(m, t1, level, next, e);
    }
  }

  // ----- what it should do -----

  ghost function Erase(h: Option<Hit>, s: int, n: int, va: int, span: int): Option<Hit>
    requires span > 0
  {
    if Dist(s, va, span) < n then None else h
  }

  /** In `t'` the `n` bytes at `s` translate no more; every other address translates as in `t`. */
  ghost predicate Erased(m: Meta, t: Tree, t': Tree, level: nat, s: int, n: int)
    requires m.HasLevel(level)
  {
    forall va: int :: Lookup(m, t', level, va) == Erase(Lookup(m, t, level, va), s, n, va, m.Span(level))
  }

  lemma ErasedCompose(m: Meta, t: Tree, t1: Tree, t2: Tree, level: nat, s: int, n: nat, s1: int, n1: nat, total: int)
    requires m.HasLevel(level) && s1 == s + n && total == n + n1
    requires Erased(m, t, t1, level, s, n) && Erased(m, t1, t2, level, s1, n1)
    ensures Erased(m, t, t2, level, s, total)
  {
    forall va: int
      ensures Lookup(m, t2, level, va) == Erase(Lookup(m, t, level, va), s, total, va, m.Span(level))
    {
      DistAdd(s, n, n1, va, m.Span(level));
    }
  }

  /** The same for the one slot that holds `v`. */
  ghost predicate SlotErased(m: Meta, a: Slot, b: Slot, level: nat, v: int, n: int)
    requires m.HasLevel(level)
  {
    forall va: int :: m.Index(va, level) == m.Index(v, level) ==>
      SlotLookup(m, b, level, va) == Erase(SlotLookup(m, a, level, va), v, n, va, m.LevelSize(level))
  }

  lemma EraseSlot(m: Meta, t: Tree, level: nat, v: int, n: nat, i: nat, b: Slot)
    requires m.Wf() && Wf(m, t, level) && i == m.Index(v, level) < |t.slots|
    requires v % m.LevelSize(level) + n <= m.LevelSize(level)
    requires SlotErased(m, t.slots[i], b, level, v, n)
    ensures Erased(m, t, Put(t, i, b), level, v, n)
  {
    forall va: int
      ensures Lookup(m, Put(t, i, b), level, va) == Erase(Lookup(m, t, level, va), v, n, va, m.Span(level))
    {
      m.SpanIs(level);
      m.IndexInFrame(va, level);
      EntryDist(v, n, va, m.LevelSize(level), m.Fan(level), m.Span(level));
    }
  }

  lemma LeafErased(m: Meta, a: Slot, level: nat, v: int)
    requires m.HasLevel(level) && v % m.LevelSize(level) == 0
    ensures SlotErased(m, a, Invalid, level, v, m.LevelSize(level))
  {
  }

  lemma SubErased(m: Meta, c: Tree, c': Tree, level: nat, v: int, n: int)
    requires m.Wf() && m.HasLevel(level) && level > 1
    requires Erased(m, c, c', level - 1, v, n)
    ensures SlotErased(m, Sub(c), Pruned(c'), level, v, n)
  {
    forall va: int | m.Index(va, level) == m.Index(v, level)
      ensures SlotLookup(m, Pruned(c'), level, va) == Erase(Lookup(m, c, level - 1, va), v, n, va, m.LevelSize(level))
    {
      assert SlotLookup(m, Pruned(c'), level, va) == Lookup(m, c', level - 1, va);
    }
  }

  lemma NothingErased(m: Meta, t: Tree, level: nat, v: int, n: nat)
    requires m.Wf() && Wf(m, t, level) && m.Index(v, level) < |t.slots|
    requires t.slots[m.Index(v, level)] == Invalid && v % m.LevelSize(level) + n <= m.LevelSize(level)
    ensures Erased(m, t, t, level, v, n)
  {
    var i := m.Index(v, level);
    EraseSlot(m, t, level, v, n, i, Invalid);
    assert Put(t, i, Invalid) == t;
  }

  // ----- when it does -----

  /** `x` is not strictly inside a block. */
  ghost predicate NoSplit(m: Meta, t: Tree, level: nat, x: int)
    requires m.HasLevel(level)
    decreases level
  {
    var i := m.Index(x, level);
    i < |t.slots| ==>
      match t.slots[i]
      case Invalid => true
      case Leaf(_, _) => x % m.LevelSize(level) == 0
      case Sub(c) => level > 1 ==> NoSplit(m, c, level - 1, x)
  }

  // Entry boundaries of a level are boundaries of every level below.
  lemma {:induction false} NoSplitOnBoundary(m: Meta, t: Tree, level: nat, x: int)
    requires m.Wf() && m.HasLevel(level) && x % m.LevelSize(level) == 0
    ensures NoSplit(m, t, level, x)
    decreases level
  {
    var i := m.Index(x, level);
    if i < |t.slots| && t.slots[i].Sub? && level > 1 {
      m.SpanIs(level - 1);
      ModOfProduct(x, m.LevelSize(level - 1), m.Fan(level - 1));
      NoSplitOnBoundary(m, t.slots[i].table, level - 1, x);
    }
  }

  lemma {:induction false} NoSplitShrinks(m: Meta, t: Tree, t': Tree, level: nat, x: int)
    requires m.HasLevel(level) && Shrinks(t, t') && NoSplit(m, t, level, x)
    ensures NoSplit(m, t', level, x)
    decreases level
  {
    var i := m.Index(x, level);
    if i < |t.slots| && t'.slots[i].Sub? && level > 1 {
      assert SlotShrinks(t.slots[i], t'.slots[i]);
      NoSplitShrinks(m, t.slots[i].table, t'.slots[i].table, level - 1, x);
    }
  }

  lemma BoundaryBelow(m: Meta, level: nat, x: int)
    requires m.Wf() && m.HasLevel(level) && level > 1 && x % m.LevelSize(level) == 0
    ensures x % m.LevelSize(level - 1) == 0
  {
    m.SpanIs(level - 1);
    ModOfProduct(x, m.LevelSize(level - 1), m.Fan(level - 1));
  }

  // The end of the part of [v, e) below one entry does not split a block of that part.
  lemma NoSplitBelow(m: Meta, t: Tree, level: nat, v: int, e: int, next: int, c: Tree)
    requires m.Wf() && Wf(m, t, level) && level > 1 && v < e && NoSplit(m, t, level, e)
    requires m.Index(v, level) < |t.slots| && t.slots[m.Index(v, level)] == Sub(c)
    requires next == Min((v / m.LevelSize(level) + 1) * m.LevelSize(level), e)
    ensures NoSplit(m, c, level - 1, next)
  {
    EntryAround(m, v, level);
    if e < (v / m.LevelSize(level) + 1) * m.LevelSize(level) {
      SameEntry(m, v, e, level);
    } else {
      BoundaryBelow(m, level, next);
      NoSplitOnBoundary(m, c, level - 1, next);
    }
  }

  /** One round from an entry boundary erases exactly what it passes over. */
  lemma {:induction false} AlignedOne(m: Meta, t: Tree, level: nat, v: int, e: int)
    requires m.Wf() && Wf(m, t, level) && v < e
    requires v % m.LevelSize(level) == 0 && NoSplit(m, t, level, e)
    ensures var (t1, next) := UnmapOne(m, t, level, v, e);
            && next <= e && (next < e ==> next % m.LevelSize(level) == 0)
            && Erased(m, t, t1, level, v, next - v)
    decreases level, e - v, 0
  {
    var ls := m.LevelSize(level);
    var i := m.Index(v, level);
    m.IndexInFrame(v, level);
    ModAddMul(v, 1, ls);
    match t.slots[i]
    case Invalid =>
      NothingErased(m, t, level, v, Min(ls, e - v));
    case Leaf(_, _) =>
      if e < v + ls {
        SameEntry(m, v, e, level);
        DivModDef(v, ls);
        DivModUnique(e, ls, v / ls, e - v);
      }
      LeafErased(m, t.slots[i], level, v);
      EraseSlot(m, t, level, v, ls, i, Invalid);
    case Sub(c) =>
      EntryAround(m, v, level);
      assert WfSlot(m, t.slots[i], level);
      var next := Min((v / ls + 1) * ls, e);
      NoSplitBelow(m, t, level, v, e, next, c);
      BoundaryBelow(m, level, v);
      AlignedExact(m, c, level - 1, v, next);
      SubErased(m, c, UnmapTree(m, c, level - 1, v, next), level, v, next - v);
      EraseSlot(m, t, level, v, next - v, i, Pruned(UnmapTree(m, c, level - 1, v, next)));
  }

  lemma {:induction false} AlignedExact(m: Meta, t: Tree, level: nat, v: int, e: int)
    requires m.Wf() && Wf(m, t, level) && v <= e
    requires v < e ==> v % m.LevelSize(level) == 0 && NoSplit(m, t, level, e)
    ensures Erased(m, t, UnmapTree(m, t, level, v, e), level, v, e - v)
    decreases level, e - v, 1
  {
    if v < e {
      var (t1, next) := UnmapOne(m, t, level, v, e);
      AlignedOne(m, t, level, v, e);
      NoSplitShrinks(m, t, t1, level, e);
      AlignedExact(m, t1, level, next, e);
      ErasedCompose(m, t, t1, UnmapTree(m, t1, level, next, e), level, v, next - v, next, e - next, e - v);
    }
  }

  // One table and then, from an entry boundary on, the rest.
  lemma TableThenAligned(m: Meta, t: Tree, level: nat, v: int, e: int, c: Tree, next: int)
    requires m.Wf() && Wf(m, t, level) && level > 1 && v < e && NoSplit(m, t, level, e) && Wf(m, c, level - 1)
    requires m.Index(v, level) < |t.slots| && t.slots[m.Index(v, level)] == Sub(c)
    requires next == Min((v / m.LevelSize(level) + 1) * m.LevelSize(level), e) && v < next
    requires Erased(m, c, UnmapTree(m, c, level - 1, v, next), level - 1, v, next - v)
    ensures Erased(m, t, UnmapTree(m, t, level, v, e), level, v, e - v)
  {
    EntryAround(m, v, level);
    var i := m.Index(v, level);
    SubErased(m, c, UnmapTree(m, c, level - 1, v, next), level, v, next - v);
    EraseSlot(m, t, level, v, next - v, i, Pruned(UnmapTree(m, c, level - 1, v, next)));
    var (t1, next') := UnmapOne(m, t, level, v, e);
    NoSplitShrinks(m, t, t1, level, e);
    AlignedExact(m, t1, level, next, e);
    ErasedCompose(m, t, t1, UnmapTree(m, t1, level, next, e), level, v, next - v, next, e - next, e - v);
  }

  /** `x` is where the entry that holds it starts, whatever its level. */
  ghost predicate OnEntry(m: Meta, t: Tree, level: nat, x: int)
    requires m.HasLevel(level)
    decreases level
  {
    var i := m.Index(x, level);
    i < |t.slots| ==>
      match t.slots[i]
      case Invalid => x % m.LevelSize(level) == 0
      case Leaf(_, _) => x % m.LevelSize(level) == 0
      case Sub(c) => level > 1 ==> OnEntry(m, c, level - 1, x)
  }

  lemma {:induction false} OnEntryOnBoundary(m: Meta, t: Tree, level: nat, x: int)
    requires m.Wf() && m.HasLevel(level) && x % m.LevelSize(level) == 0
    ensures OnEntry(m, t, level, x)
    decreases level
  {
    var i := m.Index(x, level);
    if i < |t.slots| && t.slots[i].Sub? && level > 1 {
      BoundaryBelow(m, level, x);
      OnEntryOnBoundary(m, t.slots[i].table, level - 1, x);
    }
  }

  lemma {:induction false} MappedOnEntry(m: Meta, t: Tree, level: nat, x: int)
    requires m.HasLevel(level) && Lookup(m, t, level, x).Some?
    ensures OnEntry(m, t, level, x) <==> NoSplit(m, t, level, x)
    decreases level
  {
    var i := m.Index(x, level);
    if t.slots[i].Sub? {
      MappedOnEntry(m, t.slots[i].table, level - 1, x);
    }
  }

  /** From the start of an entry, unmapping is exact if the end splits no block. */
  lemma {:induction false} OnEntryExact(m: Meta, t: Tree, level: nat, v: int, e: int)
    requires m.Wf() && Wf(m, t, level) && v < e && OnEntry(m, t, level, v) && NoSplit(m, t, level, e)
    ensures Erased(m, t, UnmapTree(m, t, level, v, e), level, v, e - v)
    decreases level
  {
    var i := m.Index(v, level);
    m.IndexInFrame(v, level);
    if t.slots[i].Sub? {
      var c := t.slots[i].table;
      EntryAround(m, v, level);
      assert WfSlot(m, t.slots[i], level);
      var next := Min((v / m.LevelSize(level) + 1) * m.LevelSize(level), e);
      NoSplitBelow(m, t, level, v, e, next, c);
      OnEntryExact(m, c, level - 1, v, next);
      TableThenAligned(m, t, level, v, e, c, next);
    } else {
      AlignedExact(m, t, level, v, e);
    }
  }

  /** Unmapping is exact when the first page of the range is mapped and neither end of the
      range lies inside a block. */
  lemma UnmapExact(m: Meta, t: Tree, level: nat, v: int, e: int)
    requires m.Wf() && Wf(m, t, level) && v < e
    requires Lookup(m, t, level, v).Some? && NoSplit(m, t, level, v) && NoSplit(m, t, level, e)
    ensures Erased(m, t, UnmapTree(m, t, level, v, e), level, v, e - v)
  {
    MappedOnEntry(m, t, level, v);
    OnEntryExact(m, t, level, v, e);
  }
}
