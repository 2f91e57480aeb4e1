/**
 What mapping a range does to a tree: the translation function is overlaid on the
 mapped part and unchanged elsewhere, only addresses that did not translate before
 are touched, and no existing entry is replaced.
 */
module MapSpec {
  import opened Arith
  import opened Options
  import opened Paging
  import opened PageTree

  ghost predicate SlotExtends(a: Slot, b: Slot) {
    match a
    case Invalid => true
    case Leaf(_, _) => b == a
    case Sub(x) => b.Sub? && Extends(x, b.table)
  }

  /** Every entry of `a` is still there in `b`. */
  ghost predicate Extends(a: Tree, b: Tree) {
    && a.frame == b.frame
    && |a.slots| == |b.slots|
    && (forall i :: 0 <= i < |a.slots| ==> SlotExtends(a.slots[i], b.slots[i]))
  }

  /** The translation of `va` after `n` bytes from `s` have been mapped to `pa`. */
  ghost function Overlay(old_: Option<Hit>, s: int, n: int, pa: int, attrs: Attrs, va: int, span: int): Option<Hit>
    requires span > 0
  {
    if Dist(s, va, span) < n then Some(Hit(pa + Dist(s, va, span), attrs)) else old_
  }

  ghost predicate Overlays(m: Meta, t: Tree, t': Tree, level: nat, s: int, n: nat, pa: int, attrs: Attrs)
    requires m.HasLevel(level)
  {
    forall va: int :: Lookup(m, t', level, va) == Overlay(Lookup(m, t, level, va), s, n, pa, attrs, va, m.Span(level))
  }

  ghost predicate Unmapped(m: Meta, t: Tree, level: nat, s: int, n: nat)
    requires m.HasLevel(level)
  {
    forall va: int :: Dist(s, va, m.Span(level)) < n ==> Lookup(m, t, level, va) == None
  }

  /** Holds always. A definition of the form `forall k {:trigger OpenX(k)} :: OpenX(k) ==> ...`
      stays closed to the verifier until a proof writes `assert OpenX(0)`. */
  predicate OpenMapped(k: int) {
    true
  }

  /** `t'` is `t` with the `n` bytes at `s` mapped to `pa`, and nothing else changed. */
  ghost predicate Mapped(m: Meta, t: Tree, t': Tree, level: nat, s: int, n: nat, pa: int, attrs: Attrs) {
    forall k {:trigger OpenMapped(k)} :: OpenMapped(k) ==>
      && Wf(m, t, level)
      && Wf(m, t', level)
      && Extends(t, t')
      && n <= m.Span(level)
      && Overlays(m, t, t', level, s, n, pa, attrs)
      && Unmapped(m, t, level, s, n)
  }

  ghost predicate SlotMappedAt(m: Meta, a: Slot, b: Slot, level: nat, v: int, n: nat, pa: int, attrs: Attrs, va: int)
    requires m.HasLevel(level)
  {
    && SlotLookup(m, b, level, va) == Overlay(SlotLookup(m, a, level, va), v, n, pa, attrs, va, m.LevelSize(level))
    && (Dist(v, va, m.LevelSize(level)) < n ==> SlotLookup(m, a, level, va) == None)
  }

  /** The same for the one slot that holds `v`; distances are within the entry. */
  ghost predicate SlotMapped(m: Meta, a: Slot, b: Slot, level: nat, v: int, n: nat, pa: int, attrs: Attrs) {
    && m.HasLevel(level)
    && WfSlot(m, b, level)
    && SlotExtends(a, b)
    && v % m.LevelSize(level) + n <= m.LevelSize(level)
    && (forall va: int :: m.Index(va, level) == m.Index(v, level) ==> SlotMappedAt(m, a, b, level, v, n, pa, attrs, va))
  }

  lemma {:induction false} ExtendsRefl(t: Tree)
    ensures Extends(t, t)
  {
    forall i | 0 <= i < |t.slots| ensures SlotExtends(t.slots[i], t.slots[i]) {
      if t.slots[i].Sub? {
        ExtendsRefl(t.slots[i].table);
      }
    }
  }

  lemma {:induction false} SlotExtendsTrans(a: Slot, b: Slot, c: Slot)
    requires SlotExtends(a, b) && SlotExtends(b, c)
    ensures SlotExtends(a, c)
    decreases a
  {
    if a.Sub? {
      forall i | 0 <= i < |a.table.slots| ensures SlotExtends(a.table.slots[i], c.table.slots[i]) {
        SlotExtendsTrans(a.table.slots[i], b.table.slots[i], c.table.slots[i]);
      }
    }
  }

  lemma MappedNothing(m: Meta, t: Tree, level: nat, s: int, pa: int, attrs: Attrs)
    requires Wf(m, t, level)
    ensures Mapped(m, t, t, level, s, 0, pa, attrs)
  {
    assert OpenMapped(0);
    ExtendsRefl(t);
  }

  // ----- the three things map does to a slot -----

  lemma LeafMapped(m: Meta, level: nat, v: int, pa: nat, attrs: Attrs)
    requires m.HasLevel(level)
    requires v % m.LevelSize(level) == 0
    ensures SlotMapped(m, Invalid, Leaf(pa, attrs), level, v, m.LevelSize(level), pa, attrs)
  {
    var ls := m.LevelSize(level);
    forall va: int ensures Dist(v, va, ls) == va % ls {
      DivModDef(v, ls);
      ModAddMul(va - v, v / ls, ls);
    }
  }

  lemma SubMapped(m: Meta, a: Slot, c: Tree, c': Tree, level: nat, v: int, n: nat, pa: int, attrs: Attrs)
    requires m.Wf() && m.HasLevel(level) && level > 1
    requires v % m.LevelSize(level) + n <= m.LevelSize(level)
    requires a == Sub(c) || (a == Invalid && Empty(c))
    requires Whole(Mapped(m, c, c', level - 1, v, n, pa, attrs))
    ensures SlotMapped(m, a, Sub(c'), level, v, n, pa, attrs)
  {
    assert OpenMapped(0);
    var ls := m.LevelSize(level);
    forall va: int | m.Index(va, level) == m.Index(v, level)
      ensures SlotLookup(m, Sub(c'), level, va) == Overlay(SlotLookup(m, a, level, va), v, n, pa, attrs, va, ls)
      ensures Dist(v, va, ls) < n ==> SlotLookup(m, a, level, va) == None
    {
      assert SlotLookup(m, a, level, va) == Lookup(m, c, level - 1, va);
      assert SlotLookup(m, Sub(c'), level, va) == Lookup(m, c', level - 1, va);
    }
  }

  // ----- one step of the loop -----

  /** Mapping the next `n` bytes through the slot of `s + done` extends the mapped part. */
  lemma MapStep(m: Meta, t: Tree, t1: Tree, level: nat, s: int, done: nat, n: nat, pa: int, attrs: Attrs,
                v: int, p: int, i: nat, was: Slot, slot: Slot)
    requires m.Wf() && m.HasLevel(level)
    requires Whole(Mapped(m, t, t1, level, s, done, pa, attrs))
    requires v == s + done && p == pa + done && i == m.Index(v, level) < |t1.slots| && was == t1.slots[i]
    requires SlotMapped(m, was, slot, level, v, n, p, attrs)
    ensures Mapped(m, t, Put(t1, i, slot), level, s, done + n, pa, attrs)
  {
    assert OpenMapped(0);
    var t2 := Put(t1, i, slot);
    m.IndexInFrame(v, level);
    WfPut(m, t1, level, i, slot);
    ExtendsPut(t, t1, i, slot);
    forall va: int
      ensures Dist(v, va, m.Span(level)) < n ==> Lookup(m, t1, level, va) == None
      ensures Lookup(m, t2, level, va) == Overlay(Lookup(m, t1, level, va), v, n, p, attrs, va, m.Span(level))
    {
      StepAt(m, t1, level, v, n, p, attrs, slot, va);
    }
    RoomLeft(m, t, t1, level, s, done, n, pa, attrs, v);
    forall va: int
      ensures Lookup(m, t2, level, va) == Overlay(Lookup(m, t, level, va), s, done + n, pa, attrs, va, m.Span(level))
      ensures Dist(s, va, m.Span(level)) < done + n ==> Lookup(m, t, level, va) == None
    {
      OverlayCompose(Lookup(m, t, level, va), s, done, pa, v, n, p, attrs, va, m.Span(level));
    }
  }

  lemma OverlayCompose(h: Option<Hit>, s: int, done: nat, pa: int, v: int, n: nat, p: int, attrs: Attrs, va: int,
                       span: int)
    requires span > 0 && v == s + done && p == pa + done && done + n <= span
    ensures Overlay(Overlay(h, s, done, pa, attrs, va, span), v, n, p, attrs, va, span) ==
            Overlay(h, s, done + n, pa, attrs, va, span)
    ensures Dist(s, va, span) < done + n <==> Dist(s, va, span) < done || Dist(v, va, span) < n
  {
    DistAdd(s, done, n, va, span);
    DistShift(s, done, va, span);
  }

  lemma MapLeaf(m: Meta, t: Tree, t1: Tree, level: nat, s: int, done: nat, pa: int, attrs: Attrs, v: int, p: nat,
                i: nat)
    requires m.Wf() && m.HasLevel(level) && Whole(Mapped(m, t, t1, level, s, done, pa, attrs))
    requires v == s + done && p == pa + done && v % m.LevelSize(level) == 0
    requires i == m.Index(v, level) < |t1.slots| && t1.slots[i] == Invalid
    ensures Mapped(m, t, Put(t1, i, Leaf(p, attrs)), level, s, done + m.LevelSize(level), pa, attrs)
  {
    assert OpenMapped(0);
    LeafMapped(m, level, v, p, attrs);
    MapStep(m, t, t1, level, s, done, m.LevelSize(level), pa, attrs, v, p, i, Invalid, Leaf(p, attrs));
  }

  lemma MapSub(m: Meta, t: Tree, t1: Tree, level: nat, s: int, done: nat, n: nat, pa: int, attrs: Attrs,
               v: int, p: int, i: nat, c: Tree, c': Tree)
    requires m.Wf() && m.HasLevel(level) && Whole(Mapped(m, t, t1, level, s, done, pa, attrs)) && level > 1
    requires v == s + done && p == pa + done && v % m.LevelSize(level) + n <= m.LevelSize(level)
    requires i == m.Index(v, level) < |t1.slots|
    requires t1.slots[i] == Sub(c) || (t1.slots[i] == Invalid && Empty(c))
    requires Whole(Mapped(m, c, c', level - 1, v, n, p, attrs))
    ensures Mapped(m, t, Put(t1, i, Sub(c')), level, s, done + n, pa, attrs)
  {
    assert OpenMapped(0);
    SubMapped(m, t1.slots[i], c, c', level, v, n, p, attrs);
    MapStep(m, t, t1, level, s, done, n, pa, attrs, v, p, i, t1.slots[i], Sub(c'));
  }

  /** Hanging an empty table into an invalid slot maps nothing. */
  lemma MapLink(m: Meta, t: Tree, t1: Tree, level: nat, s: int, done: nat, pa: int, attrs: Attrs, v: int, i: nat,
                c: Tree)
    requires m.Wf() && m.HasLevel(level) && Whole(Mapped(m, t, t1, level, s, done, pa, attrs)) && level > 1
    requires v == s + done && i == m.Index(v, level) < |t1.slots| && t1.slots[i] == Invalid
    requires Empty(c) && Wf(m, c, level - 1)
    ensures Mapped(m, t, Put(t1, i, Sub(c)), level, s, done, pa, attrs)
  {
    assert OpenMapped(0);
    MappedNothing(m, c, level - 1, v, pa + done, attrs);
    MapSub(m, t, t1, level, s, done, 0, pa, attrs, v, pa + done, i, c, c);
  }

  lemma WfPut(m: Meta, t: Tree, level: nat, i: nat, slot: Slot)
    requires Wf(m, t, level) && WfSlot(m, slot, level)
    requires i < m.Fan(level) && i < |t.slots|
    ensures Wf(m, Put(t, i, slot), level)
  {
  }

  lemma ExtendsPut(t: Tree, t1: Tree, i: nat, slot: Slot)
    requires Extends(t, t1) && i < |t1.slots| && SlotExtends(t1.slots[i], slot)
    ensures Extends(t, Put(t1, i, slot))
  {
    SlotExtendsTrans(t.slots[i], t1.slots[i], slot);
  }

  lemma StepAt(m: Meta, t1: Tree, level: nat, v: int, n: nat, pa: int, attrs: Attrs, slot: Slot, va: int)
    requires m.Wf() && m.HasLevel(level) && m.Index(v, level) < |t1.slots| == m.len
    requires v % m.LevelSize(level) + n <= m.LevelSize(level)
    requires m.Index(va, level) == m.Index(v, level) ==>
               SlotMappedAt(m, t1.slots[m.Index(v, level)], slot, level, v, n, pa, attrs, va)
    ensures Lookup(m, Put(t1, m.Index(v, level), slot), level, va)
         == Overlay(Lookup(m, t1, level, va), v, n, pa, attrs, va, m.Span(level))
    ensures Dist(v, va, m.Span(level)) < n ==> Lookup(m, t1, level, va) == None
  {
    m.SpanIs(level);
    m.IndexInFrame(va, level);
    EntryDist(v, n, va, m.LevelSize(level), m.Fan(level), m.Span(level));
  }

  // The range cannot run past the span: its start would be mapped twice.
  lemma RoomLeft(m: Meta, t: Tree, t1: Tree, level: nat, s: int, done: nat, n: nat, pa: int, attrs: Attrs, v: int)
    requires m.Wf() && m.HasLevel(level) && Whole(Mapped(m, t, t1, level, s, done, pa, attrs))
    requires v == s + done && n <= m.LevelSize(level)
    requires forall va: int :: Dist(v, va, m.Span(level)) < n ==> Lookup(m, t1, level, va) == None
    ensures done + n <= m.Span(level)
  {
    assert OpenMapped(0);
    m.SpanIs(level);
    var span := m.Span(level);
    if done + n > span {
      var va := s + span;
      DivModUnique(va - s, span, 1, 0);
      DistShift(s, done, va, span);
      if done == span {
        DivModUnique(va - v, span, 0, 0);
      }
    }
  }
}
