/**
 Exactly when unmapping a range erases that range and nothing else. The walk advances by a
 whole entry even from the middle of one (so it can jump over mapped pages), and it clears
 a block as a whole (so it can clear too much). `CleanFrom` follows the walk over the tree
 as it is before the call and says that neither happens.
 */
module UnmapIff {
  import opened Arith
  import opened Options
  import opened Paging
  import opened PageTree
  import opened MapHeap
  import opened UnmapSpec

  /** `a` and `v` are translated by the same final entry. */
  ghost predicate SameLeaf(m: Meta, t: Tree, level: nat, a: int, v: int)
    requires m.HasLevel(level)
    decreases level
  {
    var i := m.Index(v, level);
    && a / m.LevelSize(level) == v / m.LevelSize(level)
    && i < |t.slots|
    && match t.slots[i]
       case Invalid => false
       case Leaf(_, _) => true
       case Sub(c) => level > 1 && SameLeaf(m, c, level - 1, a, v)
  }

  /** Of the addresses of [lo, e) before `v`, only those of the final entry the walk stands
      on are still mapped. */
  ghost predicate NoneSkipped(m: Meta, t: Tree, level: nat, lo: int, v: int, e: int)
    requires m.HasLevel(level)
  {
    forall a: int :: lo <= a < Min(v, e) && Lookup(m, t, level, a).Some? ==> v < e && SameLeaf(m, t, level, a, v)
  }

  /** The entry at `v` can be handled without touching anything outside [s, e). */
  ghost predicate CleanEntry(m: Meta, t: Tree, level: nat, s: int, v: int, e: int)
    requires m.Wf() && Wf(m, t, level) && v < e
    decreases level, e - v, 0
  {
    m.IndexInFrame(v, level);
    var ls := m.LevelSize(level);
    var base, end := v / ls * ls, (v / ls + 1) * ls;
    var slot := t.slots[m.Index(v, level)];
    match slot
    case Invalid => true
    case Leaf(_, _) => s <= base && end <= e
    case Sub(c) =>
      EntryAround(m, v, level);
      assert WfSlot(m, slot, level);
      CleanFrom(m, c, level - 1, Max(s, base), v, Min(end, e))
  }

  /** Where the walk goes from `v`: past the entry it clears, to the end of the table it has
      walked, and from an invalid entry one entry further, wherever in the entry it stands. */
  ghost function NextAt(m: Meta, t: Tree, level: nat, v: int, e: int): (next: int)
    requires m.Wf() && Wf(m, t, level) && v < e
    ensures v < next
  {
    m.IndexInFrame(v, level);
    EntryAround(m, v, level);
    var ls := m.LevelSize(level);
    match t.slots[m.Index(v, level)]
    case Invalid => v + Min(ls, e - v)
    case Leaf(_, _) => v + ls
    case Sub(_) => Min((v / ls + 1) * ls, e)
  }

  /** From `v` on the walk erases what is left of [s, e) and nothing else. */
  ghost predicate CleanFrom(m: Meta, t: Tree, level: nat, s: int, v: int, e: int)
    requires m.Wf() && Wf(m, t, level)
    decreases level, if v < e then e - v else 0, 1
  {
    v < e ==>
      var next := NextAt(m, t, level, v, e);
      && CleanEntry(m, t, level, s, v, e)
      && NoneSkipped(m, t, level, (v / m.LevelSize(level) + 1) * m.LevelSize(level), next, e)
      && CleanFrom(m, t, level, s, next, e)
  }

  /** Within the window of the table at `w`, `t'` is `t` without [s, e). */
  ghost predicate Exact(m: Meta, t: Tree, t': Tree, level: nat, w: int, s: int, e: int)
    requires m.HasLevel(level)
  {
    forall a: int :: w <= a < w + m.Span(level) ==>
      Lookup(m, t', level, a) == if s <= a < e then None else Lookup(m, t, level, a)
  }

  // ----- addresses of one window -----

  /** A window is `Span` bytes from an entry boundary on: there every slot has one entry. */
  lemma SlotsInTurn(m: Meta, level: nat, w: int, a: int, v: int)
    requires m.Wf() && m.HasLevel(level) && w % m.LevelSize(level) == 0
    requires w <= a < w + m.Span(level) && w <= v < w + m.Span(level)
    ensures m.Index(a, level) == m.Index(v, level) <==> a / m.LevelSize(level) == v / m.LevelSize(level)
  {
    EntryOfTurn(m, level, w, a);
    EntryOfTurn(m, level, w, v);
    if m.Index(a, level) == m.Index(v, level) {
      SameModNear(a / m.LevelSize(level), v / m.LevelSize(level), m.Fan(level));
    }
  }

  lemma EntryOfTurn(m: Meta, level: nat, w: int, a: int)
    requires m.Wf() && m.HasLevel(level) && w % m.LevelSize(level) == 0 && w <= a < w + m.Span(level)
    ensures 0 <= a / m.LevelSize(level) - w / m.LevelSize(level) < m.Fan(level)
  {
    var ls := m.LevelSize(level);
    m.SpanIs(level);
    DivModDef(w, ls);
    ModAddMul(a - w, w / ls, ls);
    QuotientBelow(a - w, ls, m.Fan(level));
  }

  lemma SameModNear(x: int, y: int, d: int)
    requires d > 0 && x % d == y % d && -d < x - y < d
    ensures x == y
  {
    DivModDef(x, d);
    DivModDef(y, d);
    var k := x / d - y / d;
    assert x - y == k * d;
    if k >= 1 {
      MulMono(1, k, d);
    } else if k <= -1 {
      MulMono(k, -1, d);
    }
  }

  // A window that starts where the table does.
  lemma SlotsInWindow(m: Meta, level: nat, w: int, a: int, v: int)
    requires m.Wf() && m.HasLevel(level) && w % m.Span(level) == 0
    requires w <= a < w + m.Span(level) && w <= v < w + m.Span(level)
    ensures m.Index(a, level) == m.Index(v, level) <==> a / m.LevelSize(level) == v / m.LevelSize(level)
  {
    m.SpanIs(level);
    ModOfProduct(w, m.LevelSize(level), m.Fan(level));
    SlotsInTurn(m, level, w, a, v);
  }

  lemma IndexInWindow(m: Meta, level: nat, w: int, a: int)
    requires m.Wf() && m.HasLevel(level) && w % m.Span(level) == 0 && w <= a < w + m.Span(level)
    ensures m.Index(a, level) == a / m.LevelSize(level) - w / m.Span(level) * m.Fan(level)
  {
    var ls, fan, k := m.LevelSize(level), m.Fan(level), w / m.Span(level);
    m.SpanIs(level);
    DivModDef(w, m.Span(level));
    MulAssoc(k, fan, ls);
    ModAddMul(a - w, k * fan, ls);
    QuotientBelow(a - w, ls, fan);
    DivModUnique(a / ls, fan, k, (a - w) / ls);
  }

  lemma QuotientBelow(x: int, d: int, n: int)
    requires d > 0 && 0 <= x < n * d
    ensures 0 <= x / d < n
  {
    DivModDef(x, d);
    if x / d >= n {
      MulMono(n, x / d, d);
    } else if x / d < 0 {
      MulMono(x / d, -1, d);
    }
  }

  lemma DivMono(a: int, v: int, d: int)
    requires d > 0 && a <= v
    ensures a / d <= v / d
  {
    DivModDef(a, d);
    DivModDef(v, d);
    if a / d > v / d {
      MulMono(v / d + 1, a / d, d);
    }
  }

  // The entry of v is [v / ls * ls, (v / ls + 1) * ls).
  lemma EntryBounds(m: Meta, level: nat, v: int)
    requires m.HasLevel(level)
    ensures var ls := m.LevelSize(level);
            && v / ls * ls <= v < (v / ls + 1) * ls == v / ls * ls + ls
            && (v / ls * ls) % ls == 0
            && (forall a :: v / ls * ls <= a < (v / ls + 1) * ls <==> a / ls == v / ls)
  {
    var ls := m.LevelSize(level);
    DivModDef(v, ls);
    assert (v / ls + 1) * ls == v / ls * ls + ls;
    DivModUnique(v / ls * ls, ls, v / ls, 0);
    forall a ensures v / ls * ls <= a < (v / ls + 1) * ls <==> a / ls == v / ls {
      DivModDef(a, ls);
      if v / ls * ls <= a < (v / ls + 1) * ls {
        DivModUnique(a, ls, v / ls, a - v / ls * ls);
      }
    }
  }

  lemma {:induction false} ShrinksLookup(m: Meta, t: Tree, t': Tree, level: nat, a: int)
    requires m.HasLevel(level) && Shrinks(t, t')
    ensures Lookup(m, t', level, a) == None || Lookup(m, t', level, a) == Lookup(m, t, level, a)
    decreases level
  {
    var i := m.Index(a, level);
    if i < |t.slots| {
      assert SlotShrinks(t.slots[i], t'.slots[i]);
      if t'.slots[i].Sub? && level > 1 {
        ShrinksLookup(m, t.slots[i].table, t'.slots[i].table, level - 1, a);
      }
    }
  }

  /** The walk leaves alone what lies behind it, except in the entry it stands on. */
  lemma {:induction false} Untouched(m: Meta, t: Tree, level: nat, w: int, v: int, e: int, a: int)
    requires m.Wf() && Wf(m, t, level) && w % m.LevelSize(level) == 0
    requires w <= a < v && a < w + m.Span(level) && e <= w + m.Span(level)
    requires v < e ==> !SameLeaf(m, t, level, a, v)
    ensures Lookup(m, UnmapTree(m, t, level, v, e), level, a) == Lookup(m, t, level, a)
    decreases level, if v < e then e - v else 0
  {
    if v < e {
      var ls := m.LevelSize(level);
      var (t1, next) := UnmapOne(m, t, level, v, e);
      m.IndexInFrame(v, level);
      m.IndexInFrame(a, level);
      SlotsInTurn(m, level, w, a, v);
      EntryBounds(m, level, v);
      var i := m.Index(v, level);
      if a / ls == v / ls && t.slots[i].Sub? {
        var c := t.slots[i].table;
        assert WfSlot(m, t.slots[i], level);
        BoundaryBelow(m, level, v / ls * ls);
        Untouched(m, c, level - 1, v / ls * ls, v, Min((v / ls + 1) * ls, e), a);
      }
      assert Lookup(m, t1, level, a) == Lookup(m, t, level, a);
      if next < e {
        EntryLeft(m, t, level, v, e);
        DivMono(a, v, ls);
      }
      Untouched(m, t1, level, w, next, e, a);
    }
  }

  // A round that does not end the walk leaves the entry it started in.
  lemma EntryLeft(m: Meta, t: Tree, level: nat, v: int, e: int)
    requires m.Wf() && Wf(m, t, level) && v < e && UnmapOne(m, t, level, v, e).1 < e
    ensures v / m.LevelSize(level) < UnmapOne(m, t, level, v, e).1 / m.LevelSize(level)
    ensures (v / m.LevelSize(level) + 1) * m.LevelSize(level) <= UnmapOne(m, t, level, v, e).1
  {
    var ls := m.LevelSize(level);
    var next := UnmapOne(m, t, level, v, e).1;
    EntryBounds(m, level, v);
    m.IndexInFrame(v, level);
    assert next >= (v / ls + 1) * ls;
    DivMono((v / ls + 1) * ls, next, ls);
    DivModUnique((v / ls + 1) * ls, ls, v / ls + 1, 0);
  }

  /** One round erases the part of [s, e) in the entry it handles, and nothing else. */
  ghost predicate EntryExact(m: Meta, t: Tree, t1: Tree, level: nat, w: int, s: int, v: int, e: int)
    requires m.HasLevel(level)
  {
    forall a: int :: w <= a < w + m.Span(level) ==>
      Lookup(m, t1, level, a) ==
      if s <= a < e && a / m.LevelSize(level) == v / m.LevelSize(level) then None else Lookup(m, t, level, a)
  }

  /** `a`, an address of the entry of `v`, is left mapped though in [s, e), or changed though
      outside. */
  ghost predicate Wrong(m: Meta, t: Tree, t1: Tree, level: nat, w: int, s: int, v: int, e: int, a: int)
    requires m.HasLevel(level)
  {
    && w <= a < w + m.Span(level) && a / m.LevelSize(level) == v / m.LevelSize(level)
    && Lookup(m, t1, level, a) != if s <= a < e then None else Lookup(m, t, level, a)
  }

  ghost predicate Walk(m: Meta, t: Tree, level: nat, w: int, s: int, v: int, e: int) {
    && m.Wf() && Wf(m, t, level)
    && w % m.LevelSize(level) == 0 && w <= s <= v && s < e <= w + m.Span(level)
    && NoneSkipped(m, t, level, s, v, e)
  }

  lemma LeafIff(m: Meta, t: Tree, level: nat, w: int, s: int, v: int, e: int) returns (a: int)
    requires Walk(m, t, level, w, s, v, e) && v < e
    requires m.Index(v, level) < |t.slots| && t.slots[m.Index(v, level)].Leaf?
    ensures var t1 := UnmapOne(m, t, level, v, e).0;
            if CleanEntry(m, t, level, s, v, e) then EntryExact(m, t, t1, level, w, s, v, e)
            else Wrong(m, t, t1, level, w, s, v, e, a) && !(s <= a < e)
  {
    var ls := m.LevelSize(level);
    var t1 := UnmapOne(m, t, level, v, e).0;
    m.IndexInFrame(v, level);
    EntryBounds(m, level, v);
    EntryInWindow(m, level, w, v);
    forall x: int | w <= x < w + m.Span(level)
      ensures Lookup(m, t1, level, x) == if x / ls == v / ls then None else Lookup(m, t, level, x)
    {
      SlotsInTurn(m, level, w, x, v);
      m.IndexInFrame(x, level);
    }
    a := if s <= v / ls * ls then e else v / ls * ls;
    if !CleanEntry(m, t, level, s, v, e) {
      SlotsInTurn(m, level, w, a, v);
      assert Lookup(m, t, level, a).Some?;
    }
  }

  lemma EntryInWindow(m: Meta, level: nat, w: int, v: int)
    requires m.Wf() && m.HasLevel(level) && w % m.LevelSize(level) == 0 && w <= v < w + m.Span(level)
    ensures var ls := m.LevelSize(level); w <= v / ls * ls && (v / ls + 1) * ls <= w + m.Span(level)
  {
    var ls := m.LevelSize(level);
    m.SpanIs(level);
    DivModDef(w, ls);
    EntryBounds(m, level, v);
    DivMono(w, v, ls);
    MulMono(w / ls, v / ls, ls);
    DivModUnique(m.Span(level), ls, m.Fan(level), 0);
    ModAddMul(w, m.Fan(level), ls);
    if (v / ls + 1) * ls > w + m.Span(level) {
      DivModUnique((v / ls + 1) * ls, ls, v / ls + 1, 0);
      MultipleGap(w + m.Span(level), (v / ls + 1) * ls, ls);
    }
  }

  lemma LookupBelow(m: Meta, t: Tree, level: nat, w: int, v: int, c: Tree, a: int)
    requires m.Wf() && Wf(m, t, level) && level > 1 && w % m.LevelSize(level) == 0
    requires w <= v < w + m.Span(level) && a / m.LevelSize(level) == v / m.LevelSize(level)
    requires m.Index(v, level) < |t.slots| && t.slots[m.Index(v, level)] == Sub(c)
    ensures w <= a < w + m.Span(level)
    ensures Lookup(m, t, level, a) == Lookup(m, c, level - 1, a)
  {
    EntryBounds(m, level, v);
    EntryInWindow(m, level, w, v);
    SlotsInTurn(m, level, w, a, v);
  }

  // The walk below the entry of v starts as the walk of a table of its own.
  lemma WalkBelow(m: Meta, t: Tree, level: nat, w: int, s: int, v: int, e: int, c: Tree, base: int, end: int)
    requires Walk(m, t, level, w, s, v, e) && v < e
    requires m.Index(v, level) < |t.slots| && t.slots[m.Index(v, level)] == Sub(c)
    requires base == v / m.LevelSize(level) * m.LevelSize(level)
    requires end == (v / m.LevelSize(level) + 1) * m.LevelSize(level)
    ensures level > 1 && Walk(m, c, level - 1, base, Max(s, base), v, Min(end, e))
  {
    EntryBounds(m, level, v);
    assert WfSlot(m, t.slots[m.Index(v, level)], level);
    BoundaryBelow(m, level, base);
    var below := level - 1;
    forall a: int | Max(s, base) <= a < Min(v, Min(end, e)) && Lookup(m, c, below, a).Some?
      ensures v < Min(end, e) && SameLeaf(m, c, below, a, v)
    {
      LookupBelow(m, t, level, w, v, c, a);
      assert SameLeaf(m, t, level, a, v);
    }
  }

  lemma {:induction false} SubIff(m: Meta, t: Tree, level: nat, w: int, s: int, v: int, e: int,
                                  c: Tree) returns (a: int)
    requires Walk(m, t, level, w, s, v, e) && v < e
    requires m.Index(v, level) < |t.slots| && t.slots[m.Index(v, level)] == Sub(c)
    ensures var (t1, next) := UnmapOne(m, t, level, v, e);
            if CleanEntry(m, t, level, s, v, e) then EntryExact(m, t, t1, level, w, s, v, e)
            else Wrong(m, t, t1, level, w, s, v, e, a) && (s <= a < e ==> a < next)
    decreases level, e - v, 0
  {
    var ls := m.LevelSize(level);
    var base, end := v / ls * ls, (v / ls + 1) * ls;
    WalkBelow(m, t, level, w, s, v, e, c, base, end);
    CleanIff(m, c, level - 1, base, Max(s, base), v, Min(end, e));
    m.IndexInFrame(v, level);
    if CleanEntry(m, t, level, s, v, e) {
      a := v;
      SubExact(m, t, level, w, s, v, e, c, base, end);
    } else {
      a := SubWrong(m, t, level, w, s, v, e, c, base, end);
    }
  }

  // Where the tree after one round differs from the tree before it.
  lemma SubLookup(m: Meta, t: Tree, level: nat, w: int, s: int, v: int, e: int, c: Tree, x: int)
    requires Walk(m, t, level, w, s, v, e) && v < e && level > 1 && Wf(m, c, level - 1)
    requires m.Index(v, level) < |t.slots| && t.slots[m.Index(v, level)] == Sub(c)
    requires w <= x < w + m.Span(level)
    ensures var ls := m.LevelSize(level);
            Lookup(m, UnmapOne(m, t, level, v, e).0, level, x) ==
            if x / ls == v / ls then Lookup(m, UnmapTree(m, c, level - 1, v, Min((v / ls + 1) * ls, e)), level - 1, x)
            else Lookup(m, t, level, x)
  {
    SlotsInTurn(m, level, w, x, v);
    m.IndexInFrame(x, level);
  }

  lemma SubExact(m: Meta, t: Tree, level: nat, w: int, s: int, v: int, e: int, c: Tree, base: int, end: int)
    requires Walk(m, t, level, w, s, v, e) && v < e && level > 1 && Wf(m, c, level - 1)
    requires m.Index(v, level) < |t.slots| && t.slots[m.Index(v, level)] == Sub(c)
    requires base == v / m.LevelSize(level) * m.LevelSize(level)
    requires end == (v / m.LevelSize(level) + 1) * m.LevelSize(level)
    requires Exact(m, c, UnmapTree(m, c, level - 1, v, Min(end, e)), level - 1, base, Max(s, base), Min(end, e))
    ensures EntryExact(m, t, UnmapOne(m, t, level, v, e).0, level, w, s, v, e)
  {
    var t1 := UnmapOne(m, t, level, v, e).0;
    EntryBounds(m, level, v);
    forall x: int | w <= x < w + m.Span(level)
      ensures Lookup(m, t1, level, x) ==
              if s <= x < e && x / m.LevelSize(level) == v / m.LevelSize(level) then None else Lookup(m, t, level, x)
    {
      SubLookup(m, t, level, w, s, v, e, c, x);
      if x / m.LevelSize(level) == v / m.LevelSize(level) {
        LookupBelow(m, t, level, w, v, c, x);
      }
    }
  }

  lemma SubWrong(m: Meta, t: Tree, level: nat, w: int, s: int, v: int, e: int, c: Tree, base: int,
                 end: int) returns (a: int)
    requires Walk(m, t, level, w, s, v, e) && v < e && level > 1 && Wf(m, c, level - 1)
    requires m.Index(v, level) < |t.slots| && t.slots[m.Index(v, level)] == Sub(c)
    requires base == v / m.LevelSize(level) * m.LevelSize(level)
    requires end == (v / m.LevelSize(level) + 1) * m.LevelSize(level)
    requires !Exact(m, c, UnmapTree(m, c, level - 1, v, Min(end, e)), level - 1, base, Max(s, base), Min(end, e))
    ensures Wrong(m, t, UnmapOne(m, t, level, v, e).0, level, w, s, v, e, a)
    ensures s <= a < e ==> a < UnmapOne(m, t, level, v, e).1
  {
    var c' := UnmapTree(m, c, level - 1, v, Min(end, e));
    EntryBounds(m, level, v);
    a :| base <= a < base + m.Span(level - 1) &&
         Lookup(m, c', level - 1, a) !=
         if Max(s, base) <= a < Min(end, e) then None else Lookup(m, c, level - 1, a);
    LookupBelow(m, t, level, w, v, c, a);
    SubLookup(m, t, level, w, s, v, e, c, a);
  }

  // A wrong address stays wrong.
  lemma WrongStays(m: Meta, t: Tree, level: nat, w: int, s: int, v: int, e: int, a: int)
    requires Walk(m, t, level, w, s, v, e) && v < e
    requires var (t1, next) := UnmapOne(m, t, level, v, e);
             Wrong(m, t, t1, level, w, s, v, e, a) && (s <= a < e ==> a < next)
    ensures !Exact(m, t, UnmapTree(m, t, level, v, e), level, w, s, e)
  {
    var (t1, next) := UnmapOne(m, t, level, v, e);
    var r := UnmapTree(m, t1, level, next, e);
    if s <= a < e {
      if next < e {
        EntryLeft(m, t, level, v, e);
      }
      Untouched(m, t1, level, w, next, e, a);
    } else {
      ShrinksLookup(m, t, t1, level, a);
      ShrinksLookup(m, t1, r, level, a);
    }
  }

  // So does an address that is jumped over.
  lemma SkippedStays(m: Meta, t: Tree, level: nat, w: int, s: int, v: int, e: int)
    requires Walk(m, t, level, w, s, v, e) && v < e
    requires var (t1, next) := UnmapOne(m, t, level, v, e);
             !NoneSkipped(m, t1, level, (v / m.LevelSize(level) + 1) * m.LevelSize(level), next, e)
    ensures !Exact(m, t, UnmapTree(m, t, level, v, e), level, w, s, e)
  {
    var (t1, next) := UnmapOne(m, t, level, v, e);
    var end := (v / m.LevelSize(level) + 1) * m.LevelSize(level);
    EntryBounds(m, level, v);
    var a :| end <= a < Min(next, e) && Lookup(m, t1, level, a).Some? && !(next < e && SameLeaf(m, t1, level, a, next));
    Untouched(m, t1, level, w, next, e, a);
  }

  /** After a clean round the rest of the walk is a walk of the same kind. */
  lemma WalkOn(m: Meta, t: Tree, level: nat, w: int, s: int, v: int, e: int)
    requires Walk(m, t, level, w, s, v, e) && v < e
    requires var (t1, next) := UnmapOne(m, t, level, v, e);
             && EntryExact(m, t, t1, level, w, s, v, e)
             && NoneSkipped(m, t1, level, (v / m.LevelSize(level) + 1) * m.LevelSize(level), next, e)
    ensures var (t1, next) := UnmapOne(m, t, level, v, e);
            && Walk(m, t1, level, w, s, next, e)
            && (forall r: Tree :: Exact(m, t, r, level, w, s, e) <==> Exact(m, t1, r, level, w, s, e))
  {
    var ls := m.LevelSize(level);
    var (t1, next) := UnmapOne(m, t, level, v, e);
    EntryBounds(m, level, v);
    m.IndexInFrame(v, level);
    forall a: int | s <= a < Min(next, e) && Lookup(m, t1, level, a).Some?
      ensures next < e && SameLeaf(m, t1, level, a, next)
    {
      if a < (v / ls + 1) * ls {
        assert false;
      }
    }
    forall r: Tree ensures Exact(m, t, r, level, w, s, e) <==> Exact(m, t1, r, level, w, s, e) {
    }
  }

  // ----- the rest of the walk sees the tree as it was -----

  /** From `x` to the end of the window the two tables have the same entries. */
  ghost predicate SameFrom(m: Meta, t: Tree, t1: Tree, level: nat, w: int, x: int)
    requires m.HasLevel(level)
  {
    && |t.slots| == |t1.slots| == m.len
    && forall a: int :: x <= a < w + m.Span(level) && m.Index(a, level) < m.len ==>
         t.slots[m.Index(a, level)] == t1.slots[m.Index(a, level)]
  }

  lemma SkippedSame(m: Meta, t: Tree, t1: Tree, level: nat, w: int, lo: int, next: int, e: int)
    requires m.Wf() && m.HasLevel(level) && SameFrom(m, t, t1, level, w, lo) && e <= w + m.Span(level)
    requires next < e ==> lo <= next
    ensures NoneSkipped(m, t, level, lo, next, e) <==> NoneSkipped(m, t1, level, lo, next, e)
  {
    forall a: int | lo <= a < Min(next, e)
      ensures Lookup(m, t, level, a) == Lookup(m, t1, level, a)
      ensures next < e ==> (SameLeaf(m, t, level, a, next) <==> SameLeaf(m, t1, level, a, next))
    {
      m.IndexInFrame(a, level);
      m.IndexInFrame(next, level);
    }
  }

  lemma {:induction false} CleanSame(m: Meta, t: Tree, t1: Tree, level: nat, w: int, s: int, v: int, e: int)
    requires m.Wf() && Wf(m, t, level) && Wf(m, t1, level)
    requires SameFrom(m, t, t1, level, w, v) && e <= w + m.Span(level)
    ensures CleanFrom(m, t, level, s, v, e) <==> CleanFrom(m, t1, level, s, v, e)
    decreases if v < e then e - v else 0
  {
    if v < e {
      var next := NextAt(m, t, level, v, e);
      m.IndexInFrame(v, level);
      EntryBounds(m, level, v);
      assert t.slots[m.Index(v, level)] == t1.slots[m.Index(v, level)];
      assert next < e ==> (v / m.LevelSize(level) + 1) * m.LevelSize(level) <= next;
      SkippedSame(m, t, t1, level, w, (v / m.LevelSize(level) + 1) * m.LevelSize(level), next, e);
      CleanSame(m, t, t1, level, w, s, next, e);
    }
  }

  /** A round changes no entry that the walk comes to later. */
  lemma RestSame(m: Meta, t: Tree, level: nat, w: int, s: int, v: int, e: int)
    requires Walk(m, t, level, w, s, v, e) && v < e
    ensures var (t1, next) := UnmapOne(m, t, level, v, e);
            var end := (v / m.LevelSize(level) + 1) * m.LevelSize(level);
            && next == NextAt(m, t, level, v, e)
            && (NoneSkipped(m, t, level, end, next, e) <==> NoneSkipped(m, t1, level, end, next, e))
            && (CleanFrom(m, t, level, s, next, e) <==> CleanFrom(m, t1, level, s, next, e))
  {
    var (t1, next) := UnmapOne(m, t, level, v, e);
    var end := (v / m.LevelSize(level) + 1) * m.LevelSize(level);
    m.IndexInFrame(v, level);
    EntryBounds(m, level, v);
    forall a: int | end <= a < w + m.Span(level) && m.Index(a, level) < m.len
      ensures t.slots[m.Index(a, level)] == t1.slots[m.Index(a, level)]
    {
      SlotsInTurn(m, level, w, a, v);
    }
    assert next < e ==> end <= next;
    SkippedSame(m, t, t1, level, w, end, next, e);
    if next < e {
      CleanSame(m, t, t1, level, w, s, next, e);
    }
  }

  /** Unmapping from `v` is exact if and only if the walk is clean. */
  lemma {:induction false} CleanIff(m: Meta, t: Tree, level: nat, w: int, s: int, v: int, e: int)
    requires Walk(m, t, level, w, s, v, e)
    ensures CleanFrom(m, t, level, s, v, e) <==> Exact(m, t, UnmapTree(m, t, level, v, e), level, w, s, e)
    decreases level, if v < e then e - v else 0, 1
  {
    if v < e {
      var (t1, next) := UnmapOne(m, t, level, v, e);
      var i := m.Index(v, level);
      m.IndexInFrame(v, level);
      RestSame(m, t, level, w, s, v, e);
      var a: int;
      match t.slots[i] {
        case Invalid => InvalidExact(m, t, level, w, s, v, e);
        case Leaf(_, _) => a := LeafIff(m, t, level, w, s, v, e);
        case Sub(c) => a := SubIff(m, t, level, w, s, v, e, c);
      }
      if !CleanEntry(m, t, level, s, v, e) {
        WrongStays(m, t, level, w, s, v, e, a);
      } else if !NoneSkipped(m, t1, level, (v / m.LevelSize(level) + 1) * m.LevelSize(level), next, e) {
        SkippedStays(m, t, level, w, s, v, e);
      } else {
        WalkOn(m, t, level, w, s, v, e);
        CleanIff(m, t1, level, w, s, next, e);
      }
    }
  }

  lemma InvalidExact(m: Meta, t: Tree, level: nat, w: int, s: int, v: int, e: int)
    requires Walk(m, t, level, w, s, v, e) && v < e
    requires m.Index(v, level) < |t.slots| && t.slots[m.Index(v, level)].Invalid?
    ensures EntryExact(m, t, UnmapOne(m, t, level, v, e).0, level, w, s, v, e)
  {
    forall x: int | w <= x < w + m.Span(level) && x / m.LevelSize(level) == v / m.LevelSize(level)
      ensures Lookup(m, t, level, x) == None
    {
      SlotsInTurn(m, level, w, x, v);
    }
  }

  // ----- from one window to all addresses -----

  /** A table sees addresses modulo its span. */
  lemma {:induction false} LookupPeriodic(m: Meta, t: Tree, level: nat, va: int, k: int)
    requires m.Wf() && m.HasLevel(level)
    ensures Lookup(m, t, level, va + k * m.Span(level)) == Lookup(m, t, level, va)
    decreases level
  {
    var ls, fan := m.LevelSize(level), m.Fan(level);
    var x := va + k * m.Span(level);
    m.SpanIs(level);
    MulAssoc(k, fan, ls);
    ModAddMul(va, k * fan, ls);
    ModAddMul(va / ls, k, fan);
    var i := m.Index(va, level);
    if i < |t.slots| && t.slots[i].Sub? && level > 1 {
      LookupPeriodic(m, t.slots[i].table, level - 1, va, k * fan);
    }
  }

  lemma ExactIsErased(m: Meta, t: Tree, t': Tree, level: nat, w: int, s: int, e: int)
    requires m.Wf() && m.HasLevel(level) && w <= s <= e <= w + m.Span(level)
    ensures Exact(m, t, t', level, w, s, e) <==> Erased(m, t, t', level, s, e - s)
  {
    var span := m.Span(level);
    if Exact(m, t, t', level, w, s, e) {
      forall va: int
        ensures Lookup(m, t', level, va) == Erase(Lookup(m, t, level, va), s, e - s, va, span)
      {
        var a, k := IntoWindow(w, va, span);
        LookupPeriodic(m, t, level, a, k);
        LookupPeriodic(m, t', level, a, k);
        DistPeriodic(s, a, k, span);
        DistInWindow(w, s, e, a, span);
      }
    } else {
      var a :| w <= a < w + span && Lookup(m, t', level, a) != if s <= a < e then None else Lookup(m, t, level, a);
      DistInWindow(w, s, e, a, span);
    }
  }

  lemma IntoWindow(w: int, va: int, span: int) returns (a: int, k: int)
    requires span > 0
    ensures w <= a < w + span && va == a + k * span
  {
    k := (va - w) / span;
    a := va - k * span;
    DivModDef(va - w, span);
  }

  lemma DistPeriodic(s: int, a: int, k: int, span: int)
    requires span > 0
    ensures Dist(s, a + k * span, span) == Dist(s, a, span)
  {
    ModAddMul(a - s, k, span);
    assert a + k * span - s == a - s + k * span;
  }

  lemma DistInWindow(w: int, s: int, e: int, a: int, span: int)
    requires span > 0 && w <= s <= e <= w + span && w <= a < w + span
    ensures Dist(s, a, span) < e - s <==> s <= a < e
  {
    if s <= a {
      DivModUnique(a - s, span, 0, a - s);
    } else {
      DivModUnique(a - s, span, -1, a - s + span);
    }
  }

  /** The range does not come back to the entry it starts in. */
  predicate OneTurn(m: Meta, level: nat, s: int, e: int)
    requires m.HasLevel(level)
  {
    s % m.LevelSize(level) + (e - s) <= m.Span(level)
  }

  /** Unmapping [s, e) erases [s, e) and nothing else if and only if the walk from s is clean.
      The range may lie anywhere, also across the end of the table. */
  lemma UnmapExactIff(m: Meta, t: Tree, level: nat, s: int, e: int)
    requires m.Wf() && Wf(m, t, level) && s < e && OneTurn(m, level, s, e)
    ensures Erased(m, t, UnmapTree(m, t, level, s, e), level, s, e - s) <==> CleanFrom(m, t, level, s, s, e)
  {
    var w := s / m.LevelSize(level) * m.LevelSize(level);
    DivModDef(s, m.LevelSize(level));
    DivModUnique(w, m.LevelSize(level), s / m.LevelSize(level), 0);
    CleanIff(m, t, level, w, s, s, e);
    ExactIsErased(m, t, UnmapTree(m, t, level, s, e), level, w, s, e);
  }

  // ----- closed forms -----

  /** From the start of an entry, a clean walk splits no block at its end. */
  lemma {:induction false} CleanNoSplit(m: Meta, t: Tree, level: nat, s: int, v: int, e: int)
    requires m.Wf() && Wf(m, t, level) && v < e && OnEntry(m, t, level, v) && CleanFrom(m, t, level, s, v, e)
    ensures NoSplit(m, t, level, e)
    decreases level, e - v
  {
    var ls := m.LevelSize(level);
    var next := NextAt(m, t, level, v, e);
    var i := m.Index(v, level);
    m.IndexInFrame(v, level);
    EntryBounds(m, level, v);
    DivModDef(v, ls);
    var end := (v / ls + 1) * ls;
    DivModUnique(end, ls, v / ls + 1, 0);
    if e < end {
      if t.slots[i].Sub? {
        assert WfSlot(m, t.slots[i], level);
        CleanNoSplit(m, t.slots[i].table, level - 1, Max(s, v / ls * ls), v, e);
      }
    } else if e == end {
      NoSplitOnBoundary(m, t, level, e);
    } else {
      assert next == end;
      OnEntryOnBoundary(m, t, level, next);
      CleanNoSplit(m, t, level, s, next, e);
    }
  }

  /** A clean walk does not start inside a block. */
  lemma {:induction false} CleanStart(m: Meta, t: Tree, level: nat, v: int, e: int)
    requires m.Wf() && Wf(m, t, level) && v < e && CleanFrom(m, t, level, v, v, e)
    ensures NoSplit(m, t, level, v)
    decreases level
  {
    var ls := m.LevelSize(level);
    var i := m.Index(v, level);
    m.IndexInFrame(v, level);
    EntryBounds(m, level, v);
    if t.slots[i].Sub? {
      assert WfSlot(m, t.slots[i], level);
      CleanStart(m, t.slots[i].table, level - 1, v, Min((v / ls + 1) * ls, e));
    }
  }

  /** From the start of an entry, used or not: exact if and only if the end splits no block. */
  lemma OnEntryIff(m: Meta, t: Tree, level: nat, s: int, e: int)
    requires m.Wf() && Wf(m, t, level) && s < e && OneTurn(m, level, s, e)
    requires OnEntry(m, t, level, s)
    ensures Erased(m, t, UnmapTree(m, t, level, s, e), level, s, e - s) <==> NoSplit(m, t, level, e)
  {
    if NoSplit(m, t, level, e) {
      OnEntryExact(m, t, level, s, e);
    } else if Erased(m, t, UnmapTree(m, t, level, s, e), level, s, e - s) {
      UnmapExactIff(m, t, level, s, e);
      CleanNoSplit(m, t, level, s, s, e);
    }
  }

  /** From a mapped page: exact if and only if neither end splits a block. */
  lemma MappedIff(m: Meta, t: Tree, level: nat, s: int, e: int)
    requires m.Wf() && Wf(m, t, level) && s < e && OneTurn(m, level, s, e)
    requires Lookup(m, t, level, s).Some?
    ensures Erased(m, t, UnmapTree(m, t, level, s, e), level, s, e - s) <==>
            NoSplit(m, t, level, s) && NoSplit(m, t, level, e)
  {
    MappedOnEntry(m, t, level, s);
    if NoSplit(m, t, level, s) {
      OnEntryIff(m, t, level, s, e);
    } else if Erased(m, t, UnmapTree(m, t, level, s, e), level, s, e - s) {
      UnmapExactIff(m, t, level, s, e);
      CleanStart(m, t, level, s, e);
    }
  }
}
