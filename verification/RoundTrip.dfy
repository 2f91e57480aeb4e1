/**
 Mapping a range and unmapping the same range: the translation function comes back, and,
 if no table below the root was empty, so does the whole tree with its frames.
 */
module RoundTrip {
  import opened Arith
  import opened Options
  import opened Paging
  import opened PageTree
  import opened MapSpec
  import opened UnmapSpec
  import opened UnmapIff

  // ----- blocks written by map lie inside the mapped range -----

  /** A block translates contiguously. */
  lemma {:induction false} SameLeafLookup(m: Meta, t: Tree, level: nat, a: int, v: int)
    requires m.HasLevel(level) && SameLeaf(m, t, level, a, v)
    ensures Lookup(m, t, level, v).Some? && Lookup(m, t, level, a).Some?
    ensures Lookup(m, t, level, a).value.pa - a == Lookup(m, t, level, v).value.pa - v
    decreases level
  {
    var ls := m.LevelSize(level);
    DivModDef(a, ls);
    DivModDef(v, ls);
    var i := m.Index(v, level);
    if t.slots[i].Sub? {
      SameLeafLookup(m, t.slots[i].table, level - 1, a, v);
    }
  }

  lemma {:induction false} SplitIsInside(m: Meta, t: Tree, level: nat, x: int)
    requires m.Wf() && Wf(m, t, level) && !NoSplit(m, t, level, x)
    ensures SameLeaf(m, t, level, x - 1, x) && x % m.LevelSize(level) != 0
    decreases level
  {
    var ls := m.LevelSize(level);
    var i := m.Index(x, level);
    m.IndexInFrame(x, level);
    if t.slots[i].Sub? {
      assert WfSlot(m, t.slots[i], level);
      SplitIsInside(m, t.slots[i].table, level - 1, x);
      if x % ls == 0 {
        BoundaryBelow(m, level, x);
      }
    }
    DivModDef(x, ls);
    DivModUnique(x - 1, ls, x / ls, x % ls - 1);
  }

  /** A final entry that was not there before covers nothing that was mapped before. */
  lemma {:induction false} NewLeaf(m: Meta, t: Tree, t': Tree, level: nat, a: int, v: int)
    requires m.HasLevel(level) && Extends(t, t') && SameLeaf(m, t', level, a, v)
    requires Lookup(m, t, level, v) == None || Lookup(m, t, level, a) == None
    ensures Lookup(m, t, level, v) == None && Lookup(m, t, level, a) == None
    decreases level
  {
    var i := m.Index(v, level);
    assert m.Index(a, level) == i;
    assert SlotExtends(t.slots[i], t'.slots[i]);
    if t.slots[i].Sub? {
      NewLeaf(m, t.slots[i].table, t'.slots[i].table, level - 1, a, v);
    }
  }

  lemma MappedEnds(m: Meta, t: Tree, t': Tree, level: nat, s: int, n: nat, pa: int, attrs: Attrs)
    requires m.Wf() && m.HasLevel(level) && n > 0 && Whole(Mapped(m, t, t', level, s, n, pa, attrs))
    ensures Lookup(m, t', level, s).Some? && NoSplit(m, t', level, s) && NoSplit(m, t', level, s + n)
  {
    assert OpenMapped(0);
    var span, e := m.Span(level), s + n;
    DivModUnique(0, span, 0, 0);
    DivModUnique(n - 1, span, 0, n - 1);
    assert Dist(s, s, span) == 0 && Dist(s, e - 1, span) == n - 1;
    if !NoSplit(m, t', level, s) {
      SplitIsInside(m, t', level, s);
      SameLeafLookup(m, t', level, s - 1, s);
      NewLeaf(m, t, t', level, s - 1, s);
      assert false;
    }
    if !NoSplit(m, t', level, e) {
      SplitIsInside(m, t', level, e);
      SameLeafLookup(m, t', level, e - 1, e);
      NewLeaf(m, t, t', level, e - 1, e);
      assert false;
    }
  }

  /** Unmapping what was just mapped restores every translation. */
  lemma TranslationRestored(m: Meta, t: Tree, t': Tree, level: nat, s: int, n: nat, pa: int, attrs: Attrs)
    requires m.Wf() && m.HasLevel(level) && n > 0 && Whole(Mapped(m, t, t', level, s, n, pa, attrs))
    requires Wf(m, t', level)
    ensures forall va: int :: Lookup(m, UnmapTree(m, t', level, s, s + n), level, va) == Lookup(m, t, level, va)
  {
    MappedEnds(m, t, t', level, s, n, pa, attrs);
    UnmapExact(m, t', level, s, s + n);
    assert OpenMapped(0);
    var t'' := UnmapTree(m, t', level, s, s + n);
    forall va: int ensures Lookup(m, t'', level, va) == Lookup(m, t, level, va) {
      assert Lookup(m, t'', level, va) == Erase(Lookup(m, t', level, va), s, n, va, m.Span(level));
    }
  }

  // ----- the tree itself -----

  /** An address of slot `i` at offset `va` within the entry. */
  lemma AddressOfSlot(m: Meta, level: nat, i: nat, va: int) returns (x: int, k: int)
    requires m.Wf() && m.HasLevel(level) && i < m.Fan(level)
    ensures m.Index(x, level) == i && x == va + k * m.LevelSize(level)
  {
    var ls := m.LevelSize(level);
    k := i - va / ls;
    x := va + k * ls;
    ModAddMul(va, k, ls);
    DivModUnique(i, m.Fan(level), 0, i);
  }

  /** A table without empty tables below it translates something, unless it is empty. */
  lemma {:induction false} SomethingMapped(m: Meta, t: Tree, level: nat) returns (va: int)
    requires m.Wf() && Wf(m, t, level) && NoEmpties(t) && !Empty(t)
    ensures Lookup(m, t, level, va).Some?
    decreases level
  {
    var i :| 0 <= i < |t.slots| && !t.slots[i].Invalid?;
    var k;
    if t.slots[i].Sub? {
      assert SlotNoEmpties(t.slots[i]) && WfSlot(m, t.slots[i], level);
      var below := SomethingMapped(m, t.slots[i].table, level - 1);
      va, k := AddressOfSlot(m, level, i, below);
      LookupPeriodic(m, t.slots[i].table, level - 1, below, k);
    } else {
      va, k := AddressOfSlot(m, level, i, 0);
    }
  }

  /** What slot `i` translates can be seen from the whole table. */
  lemma SlotSeen(m: Meta, a: Tree, level: nat, i: nat, va: int, x: int, k: int)
    requires m.Wf() && Wf(m, a, level) && i < m.Fan(level) && i < |a.slots|
    requires m.Index(x, level) == i && x == va + k * m.LevelSize(level)
    ensures Lookup(m, a, level, x) == SlotLookup(m, a.slots[i], level, va)
  {
    assert WfSlot(m, a.slots[i], level);
    ModAddMul(va, k, m.LevelSize(level));
    if a.slots[i].Sub? {
      LookupPeriodic(m, a.slots[i].table, level - 1, va, k);
    }
  }

  lemma SameSlotLookup(m: Meta, a: Tree, b: Tree, level: nat, i: nat, va: int)
    requires m.Wf() && Wf(m, a, level) && Wf(m, b, level) && i < m.Fan(level) && i < m.len
    requires forall va: int :: Lookup(m, a, level, va) == Lookup(m, b, level, va)
    ensures SlotLookup(m, a.slots[i], level, va) == SlotLookup(m, b.slots[i], level, va)
  {
    var x, k := AddressOfSlot(m, level, i, va);
    SlotSeen(m, a, level, i, va, x, k);
    SlotSeen(m, b, level, i, va, x, k);
  }

  /** Two trees with the same translations and no empty tables, both made of entries of a
      third one, are the same tree. */
  lemma {:induction false} SameTree(m: Meta, a: Tree, b: Tree, big: Tree, level: nat)
    requires m.Wf() && Wf(m, a, level) && Wf(m, b, level) && Wf(m, big, level)
    requires Extends(a, big) && Shrinks(big, b) && NoEmpties(a) && NoEmpties(b)
    requires forall va: int :: Lookup(m, a, level, va) == Lookup(m, b, level, va)
    ensures a == b
    decreases level
  {
    forall i | 0 <= i < |a.slots| ensures a.slots[i] == b.slots[i] {
      assert SlotExtends(a.slots[i], big.slots[i]) && SlotShrinks(big.slots[i], b.slots[i]);
      if i < m.Fan(level) {
        SameSlot(m, a, b, big, level, i);
      }
    }
    assert a.slots == b.slots;
  }

  lemma {:induction false} SameSlot(m: Meta, a: Tree, b: Tree, big: Tree, level: nat, i: nat)
    requires m.Wf() && Wf(m, a, level) && Wf(m, b, level) && Wf(m, big, level)
    requires i < m.Fan(level) && i < |a.slots|
    requires SlotExtends(a.slots[i], big.slots[i]) && SlotShrinks(big.slots[i], b.slots[i])
    requires SlotNoEmpties(a.slots[i]) && SlotNoEmpties(b.slots[i])
    requires forall va: int :: Lookup(m, a, level, va) == Lookup(m, b, level, va)
    ensures a.slots[i] == b.slots[i]
    decreases level, 0
  {
    assert WfSlot(m, a.slots[i], level) && WfSlot(m, b.slots[i], level) && WfSlot(m, big.slots[i], level);
    var sa, sb, below := a.slots[i], b.slots[i], level - 1;
    if sa.Sub? && sb.Sub? {
      forall va: int ensures Lookup(m, sa.table, below, va) == Lookup(m, sb.table, below, va) {
        SameSlotLookup(m, a, b, level, i, va);
      }
      SameTree(m, sa.table, sb.table, big.slots[i].table, below);
    } else {
      var va := 0;
      if sa.Sub? {
        va := SomethingMapped(m, sa.table, below);
      } else if sb.Sub? {
        va := SomethingMapped(m, sb.table, below);
      }
      SameSlotLookup(m, a, b, level, i, va);
    }
  }

  lemma {:induction false} UnmapNoEmpties(m: Meta, t: Tree, level: nat, v: int, e: int)
    requires m.Wf() && Wf(m, t, level) && NoEmpties(t)
    ensures NoEmpties(UnmapTree(m, t, level, v, e))
    decreases level, if v < e then e - v else 0
  {
    if v < e {
      var ls := m.LevelSize(level);
      var i := m.Index(v, level);
      m.IndexInFrame(v, level);
      var (t1, next) := UnmapOne(m, t, level, v, e);
      if t.slots[i].Sub? {
        assert SlotNoEmpties(t.slots[i]) && WfSlot(m, t.slots[i], level);
        UnmapNoEmpties(m, t.slots[i].table, level - 1, v, Min((v / ls + 1) * ls, e));
      }
      UnmapNoEmpties(m, t1, level, next, e);
    }
  }

  /** If no table below the root was empty, unmapping what was just mapped restores the tree,
      frame for frame. */
  lemma TreeRestored(m: Meta, t: Tree, t': Tree, level: nat, s: int, n: nat, pa: int, attrs: Attrs)
    requires m.Wf() && m.HasLevel(level) && n > 0 && Whole(Mapped(m, t, t', level, s, n, pa, attrs))
    requires Wf(m, t', level) && NoEmpties(t) && NoEmpties(t')
    ensures UnmapTree(m, t', level, s, s + n) == t
  {
    TranslationRestored(m, t, t', level, s, n, pa, attrs);
    UnmapNoEmpties(m, t', level, s, s + n);
    assert OpenMapped(0);
    SameTree(m, t, UnmapTree(m, t', level, s, s + n), t', level);
  }
}
