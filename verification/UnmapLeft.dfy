/**
 What the walk that unmaps leaves of a table. From an entry boundary it clears every entry to the
 end. From inside an entry it leaves the entries before, and what it leaves of the first table it
 comes to, which it enters at the offset it started with.
 */
module UnmapLeft {
  import opened Arith
  import opened Paging
  import opened PageTree
  import opened UnmapSpec
  import opened UnmapIff

  /** Entry boundaries around `v`: its entry is the last one, or it ends before the last one. */
  lemma BeforeLast(v: int, ls: int, last: int)
    requires ls > 0 && last % ls == 0
    ensures var end := (v / ls + 1) * ls;
            && end % ls == 0 && v < end <= v + ls && end == v - v % ls + ls
            && (last <= v <==> last < end) && (v < last <==> end <= last)
  {
    var end := (v / ls + 1) * ls;
    DivModDef(v, ls);
    DivModUnique(end, ls, v / ls + 1, 0);
    if last < end && v < last {
      MultipleGap(last, end, ls);
    }
  }

  /** One of the entries of [v, x) is a table. */
  ghost predicate TableBetween(m: Meta, t: Tree, level: nat, v: int, x: int)
    requires m.HasLevel(level)
  {
    exists a: int :: v <= a < x && m.Index(a, level) < |t.slots| && t.slots[m.Index(a, level)].Sub?
  }

  // No table between v and v + ls but that of the entry of v + ls.
  lemma TablesFrom(m: Meta, t: Tree, level: nat, w: int, v: int, last: int)
    requires m.Wf() && m.HasLevel(level) && w % m.Span(level) == 0
    requires w <= v < last <= w + m.Span(level)
    requires m.Index(v, level) < |t.slots| && !t.slots[m.Index(v, level)].Sub? && last % m.LevelSize(level) == 0
    ensures TableBetween(m, t, level, v, last) <==> TableBetween(m, t, level, v + m.LevelSize(level), last)
  {
    var ls := m.LevelSize(level);
    var next := v + ls;
    if TableBetween(m, t, level, v, last) {
      var a: int :| v <= a < last && m.Index(a, level) < |t.slots| && t.slots[m.Index(a, level)].Sub?;
      if a < next {
        SlotsInWindow(m, level, w, a, v);
        ModAddMul(v, 1, ls);
        DivMono(v, a, ls);
        DivMono(a, next, ls);
        assert a / ls == next / ls;
        BeforeLast(a, ls, last);
        BeforeLast(next, ls, last);
        SlotsInWindow(m, level, w, a, next);
      }
    }
  }

  /** Every entry of [w, v) is invalid. */
  ghost predicate ClearedTo(m: Meta, t: Tree, level: nat, w: int, v: int)
    requires m.HasLevel(level)
  {
    && |t.slots| == m.len
    && forall a: int :: w <= a < v && m.Index(a, level) < m.len ==> t.slots[m.Index(a, level)].Invalid?
  }

  lemma AllCleared(m: Meta, t: Tree, level: nat, w: int)
    requires m.Wf() && Wf(m, t, level) && w % m.Span(level) == 0
    ensures ClearedTo(m, t, level, w, w + m.Span(level)) <==> Empty(t)
  {
    if ClearedTo(m, t, level, w, w + m.Span(level)) {
      ClearedIsEmpty(m, t, level, w);
    }
  }

  lemma ClearedIsEmpty(m: Meta, t: Tree, level: nat, w: int)
    requires m.Wf() && Wf(m, t, level) && w % m.Span(level) == 0 && ClearedTo(m, t, level, w, w + m.Span(level))
    ensures Empty(t)
  {
    var ls, fan := m.LevelSize(level), m.Fan(level);
    m.SpanIs(level);
    forall i | 0 <= i < |t.slots| ensures t.slots[i].Invalid? {
      if i < fan {
        var a := w + i * ls;
        MulMono(i + 1, fan, ls);
        MulMono(0, i, ls);
        IndexInWindow(m, level, w, a);
        DivModDef(w, m.Span(level));
        MulAssoc(w / m.Span(level), fan, ls);
        DivModUnique(a, ls, w / m.Span(level) * fan + i, 0);
        assert m.Index(a, level) == i;
      }
    }
  }

  /** From an entry boundary a round clears its entry, if the range covers it. */
  lemma {:induction false} EntryCleared(m: Meta, t: Tree, level: nat, v: int, e: int)
    requires m.Wf() && Wf(m, t, level) && v % m.LevelSize(level) == 0 && v + m.LevelSize(level) <= e
    ensures var (t1, next) := UnmapOne(m, t, level, v, e);
            && next == v + m.LevelSize(level) && next % m.LevelSize(level) == 0
            && m.Index(v, level) < |t1.slots| && t1.slots[m.Index(v, level)].Invalid?
    decreases level, 0
  {
    var ls := m.LevelSize(level);
    m.IndexInFrame(v, level);
    BeforeLast(v, ls, v);
    ModAddMul(v, 1, ls);
    if t.slots[m.Index(v, level)].Sub? {
      var c := t.slots[m.Index(v, level)].table;
      assert WfSlot(m, t.slots[m.Index(v, level)], level);
      BoundaryBelow(m, level, v);
      ClearsRest(m, c, level - 1, v, v);
    }
  }

  /** From an entry boundary the walk clears the rest of the table. */
  lemma {:induction false} ClearsRest(m: Meta, t: Tree, level: nat, w: int, v: int)
    requires m.Wf() && Wf(m, t, level) && w % m.Span(level) == 0 && v % m.LevelSize(level) == 0
    requires w <= v <= w + m.Span(level)
    ensures Empty(UnmapTree(m, t, level, v, w + m.Span(level))) <==> ClearedTo(m, t, level, w, v)
    decreases level, w + m.Span(level) - v + 1
  {
    var e := w + m.Span(level);
    if v == e {
      AllCleared(m, t, level, w);
    } else {
      DivModDef(v, m.LevelSize(level));
      EntryFits(m, level, w, v);
      EntryCleared(m, t, level, v, e);
      var (t1, next) := UnmapOne(m, t, level, v, e);
      assert UnmapTree(m, t, level, v, e) == UnmapTree(m, t1, level, next, e);
      assert ClearedTo(m, t, level, w, v) <==> ClearedTo(m, t1, level, w, next) by {
        ClearedRound(m, t, level, w, v);
      }
      ClearsRest(m, t1, level, w, next);
    }
  }

  lemma EntryFits(m: Meta, level: nat, w: int, v: int)
    requires m.Wf() && m.HasLevel(level) && w % m.Span(level) == 0 && w <= v < w + m.Span(level)
    ensures var base := v / m.LevelSize(level) * m.LevelSize(level);
            w <= base && base + m.LevelSize(level) <= w + m.Span(level)
  {
    m.SpanIs(level);
    ModOfProduct(w, m.LevelSize(level), m.Fan(level));
    EntryInWindow(m, level, w, v);
    DivModDef(v, m.LevelSize(level));
  }

  // ----- one round -----

  /** A round leaves the other entries alone. */
  lemma OthersKept(m: Meta, t: Tree, level: nat, w: int, v: int, a: int)
    requires m.Wf() && Wf(m, t, level) && w % m.Span(level) == 0
    requires w <= v < w + m.Span(level) && w <= a < w + m.Span(level)
    requires a / m.LevelSize(level) != v / m.LevelSize(level)
    ensures var t1 := UnmapOne(m, t, level, v, w + m.Span(level)).0;
            m.Index(a, level) < |t.slots| && t1.slots[m.Index(a, level)] == t.slots[m.Index(a, level)]
  {
    m.IndexInFrame(v, level);
    m.IndexInFrame(a, level);
    SlotsInWindow(m, level, w, a, v);
  }

  /** Up to the end of its entry a round leaves what was there before, and what is left of the entry. */
  lemma ClearedRound(m: Meta, t: Tree, level: nat, w: int, v: int)
    requires m.Wf() && Wf(m, t, level) && w % m.Span(level) == 0 && w <= v < w + m.Span(level)
    ensures var t1 := UnmapOne(m, t, level, v, w + m.Span(level)).0;
            var base := v / m.LevelSize(level) * m.LevelSize(level);
            && m.Index(v, level) < |t1.slots|
            && (ClearedTo(m, t1, level, w, base + m.LevelSize(level)) <==>
                ClearedTo(m, t, level, w, base) && t1.slots[m.Index(v, level)].Invalid?)
  {
    var ls := m.LevelSize(level);
    var base := v / ls * ls;
    var t1 := UnmapOne(m, t, level, v, w + m.Span(level)).0;
    m.IndexInFrame(v, level);
    EntryBounds(m, level, v);
    EntryFits(m, level, w, v);
    forall a: int | w <= a < base
      ensures m.Index(a, level) < |t.slots| && t1.slots[m.Index(a, level)] == t.slots[m.Index(a, level)]
    {
      OthersKept(m, t, level, w, v, a);
    }
    assert forall a: int :: base <= a < base + ls ==> m.Index(a, level) == m.Index(v, level);
  }

  // ----- what is left -----

  /** Stepping from `v` by whole entries, `q` is the first address in a table. */
  ghost predicate FirstTable(m: Meta, t: Tree, level: nat, v: int, q: int)
    requires m.HasLevel(level)
  {
    var ls := m.LevelSize(level);
    && v <= q && q % ls == v % ls && m.Index(q, level) < |t.slots| && t.slots[m.Index(q, level)].Sub?
    && !TableBetween(m, t, level, v, q / ls * ls)
  }

  /** The window of the table is at `w`. Something is left by a walk from `v` to its end: an entry
      before that of `v` is in use, or something is left of the first table the walk comes to. */
  ghost predicate Left(m: Meta, t: Tree, level: nat, w: int, v: int)
    requires m.Wf() && Wf(m, t, level)
    decreases level
  {
    var ls := m.LevelSize(level);
    || !ClearedTo(m, t, level, w, v / ls * ls)
    || exists q: int :: q < w + m.Span(level) && FirstTable(m, t, level, v, q) && LeftIn(m, t, level, q)
  }

  ghost predicate LeftIn(m: Meta, t: Tree, level: nat, q: int)
    requires m.Wf() && Wf(m, t, level)
    requires m.Index(q, level) < |t.slots| && t.slots[m.Index(q, level)].Sub?
    decreases level, 0
  {
    assert WfSlot(m, t.slots[m.Index(q, level)], level);
    Left(m, t.slots[m.Index(q, level)].table, level - 1, q / m.LevelSize(level) * m.LevelSize(level), q)
  }

  lemma SameOffset(v: int, q: int, ls: int)
    requires ls > 0 && v <= q && q % ls == v % ls
    ensures q == v || v + ls <= q / ls * ls + v % ls
    ensures q == v || v < q / ls * ls
  {
    DivModDef(v, ls);
    DivModDef(q, ls);
    if q != v {
      if q - v < ls {
        SameModNear(q, v, ls);
      }
    }
  }

  /** From an entry that is no table the first table is that of the next entry. */
  lemma FirstFlat(m: Meta, t: Tree, level: nat, w: int, v: int, q: int)
    requires m.Wf() && Wf(m, t, level) && w % m.Span(level) == 0 && w <= v && v + m.LevelSize(level) < w + m.Span(level)
    requires q < w + m.Span(level) && m.Index(v, level) < |t.slots| && !t.slots[m.Index(v, level)].Sub?
    ensures var (t1, next) := UnmapOne(m, t, level, v, w + m.Span(level));
            && (FirstTable(m, t, level, v, q) <==> FirstTable(m, t1, level, next, q))
            && (FirstTable(m, t, level, v, q) ==> t1.slots[m.Index(q, level)] == t.slots[m.Index(q, level)])
  {
    var ls := m.LevelSize(level);
    var (t1, next) := UnmapOne(m, t, level, v, w + m.Span(level));
    ModAddMul(v, 1, ls);
    if v <= q && q % ls == v % ls {
      SameOffset(v, q, ls);
      EntryBounds(m, level, q);
      if q != v {
        SameButFirst(m, t, level, w, v, q / ls * ls);
        TablesFrom(m, t, level, w, v, q / ls * ls);
        DivMono(next, q, ls);
        OthersKept(m, t, level, w, v, q);
      }
    }
  }

  lemma SameButFirst(m: Meta, t: Tree, level: nat, w: int, v: int, x: int)
    requires m.Wf() && Wf(m, t, level) && w % m.Span(level) == 0 && w <= v && x < w + m.Span(level)
    requires v + m.LevelSize(level) < w + m.Span(level)
    ensures var t1 := UnmapOne(m, t, level, v, w + m.Span(level)).0;
            TableBetween(m, t1, level, v + m.LevelSize(level), x) <==>
            TableBetween(m, t, level, v + m.LevelSize(level), x)
  {
    var ls := m.LevelSize(level);
    var t1 := UnmapOne(m, t, level, v, w + m.Span(level)).0;
    ModAddMul(v, 1, ls);
    forall a: int | v + ls <= a < x
      ensures m.Index(a, level) < |t.slots| && t1.slots[m.Index(a, level)] == t.slots[m.Index(a, level)]
    {
      DivMono(v + ls, a, ls);
      OthersKept(m, t, level, w, v, a);
    }
  }

  /** A round in an entry that is no table. */
  lemma LeftFlat(m: Meta, t: Tree, level: nat, w: int, v: int)
    requires m.Wf() && Wf(m, t, level) && w % m.Span(level) == 0 && w <= v < w + m.Span(level)
    requires m.Index(v, level) < |t.slots| && !t.slots[m.Index(v, level)].Sub?
    ensures var (t1, next) := UnmapOne(m, t, level, v, w + m.Span(level));
            if next < w + m.Span(level) then Left(m, t1, level, w, next) <==> Left(m, t, level, w, v)
            else Empty(t1) <==> !Left(m, t, level, w, v)
  {
    m.IndexInFrame(v, level);
    if v + m.LevelSize(level) < w + m.Span(level) {
      LeftStep(m, t, level, w, v);
    } else {
      LeftLast(m, t, level, w, v);
    }
  }

  lemma LeftStep(m: Meta, t: Tree, level: nat, w: int, v: int)
    requires m.Wf() && Wf(m, t, level) && w % m.Span(level) == 0 && w <= v && v + m.LevelSize(level) < w + m.Span(level)
    requires m.Index(v, level) < |t.slots| && !t.slots[m.Index(v, level)].Sub?
    ensures var (t1, next) := UnmapOne(m, t, level, v, w + m.Span(level));
            next == v + m.LevelSize(level) && (Left(m, t1, level, w, next) <==> Left(m, t, level, w, v))
  {
    var ls, e := m.LevelSize(level), w + m.Span(level);
    var (t1, next) := UnmapOne(m, t, level, v, e);
    ClearedRound(m, t, level, w, v);
    ModAddMul(v, 1, ls);
    EntryBounds(m, level, v);
    forall q: int | q < e
      ensures FirstTable(m, t, level, v, q) <==> FirstTable(m, t1, level, next, q)
      ensures FirstTable(m, t, level, v, q) ==> (LeftIn(m, t, level, q) <==> LeftIn(m, t1, level, q))
    {
      FirstFlat(m, t, level, w, v, q);
    }
  }

  // In the last entry of the window no other table can follow.
  lemma LeftLast(m: Meta, t: Tree, level: nat, w: int, v: int)
    requires m.Wf() && Wf(m, t, level) && w % m.Span(level) == 0
    requires w <= v < w + m.Span(level) <= v + m.LevelSize(level)
    requires m.Index(v, level) < |t.slots| && !t.slots[m.Index(v, level)].Sub?
    ensures Empty(UnmapOne(m, t, level, v, w + m.Span(level)).0) <==> !Left(m, t, level, w, v)
  {
    var ls, e := m.LevelSize(level), w + m.Span(level);
    ClearedRound(m, t, level, w, v);
    EntryBounds(m, level, v);
    LastOfWindow(m, level, w, v);
    AllCleared(m, UnmapOne(m, t, level, v, e).0, level, w);
    forall q: int | q < e ensures !FirstTable(m, t, level, v, q) {
      if v <= q && q % ls == v % ls {
        SameOffset(v, q, ls);
      }
    }
  }

  lemma LastOfWindow(m: Meta, level: nat, w: int, v: int)
    requires m.Wf() && m.HasLevel(level) && w % m.Span(level) == 0
    requires w <= v < w + m.Span(level) <= v + m.LevelSize(level)
    ensures v / m.LevelSize(level) * m.LevelSize(level) + m.LevelSize(level) == w + m.Span(level)
  {
    var ls := m.LevelSize(level);
    m.SpanIs(level);
    ModOfProduct(w, ls, m.Fan(level));
    ModAddMul(w, m.Fan(level), ls);
    EntryFits(m, level, w, v);
    EntryBounds(m, level, v);
    DivModDef(v, ls);
    ModAddMul(v / ls * ls, 1, ls);
    if v / ls * ls + ls < w + m.Span(level) {
      MultipleGap(v / ls * ls + ls, w + m.Span(level), ls);
    }
  }

  /** A round in a table, after which the walk clears the rest. */
  lemma LeftTable(m: Meta, t: Tree, level: nat, w: int, v: int)
    requires m.Wf() && Wf(m, t, level) && w % m.Span(level) == 0 && w <= v < w + m.Span(level)
    requires m.Index(v, level) < |t.slots| && t.slots[m.Index(v, level)].Sub?
    requires var (t1, _) := UnmapOne(m, t, level, v, w + m.Span(level));
             t1.slots[m.Index(v, level)].Invalid? <==> !LeftIn(m, t, level, v)
    ensures var (t1, next) := UnmapOne(m, t, level, v, w + m.Span(level));
            Empty(UnmapTree(m, t1, level, next, w + m.Span(level))) <==> !Left(m, t, level, w, v)
  {
    var ls, e := m.LevelSize(level), w + m.Span(level);
    var (t1, next) := UnmapOne(m, t, level, v, e);
    ClearedRound(m, t, level, w, v);
    EntryBounds(m, level, v);
    EntryFits(m, level, w, v);
    DivModUnique((v / ls + 1) * ls, ls, v / ls + 1, 0);
    ClearsRest(m, t1, level, w, next);
    forall q: int | FirstTable(m, t, level, v, q) ensures q == v {
      SameOffset(v, q, ls);
    }
    assert FirstTable(m, t, level, v, v);
  }

  /** What is in the table after a walk from `v` to its end. */
  lemma {:induction false} LeftIff(m: Meta, t: Tree, level: nat, w: int, v: int)
    requires m.Wf() && Wf(m, t, level) && w % m.Span(level) == 0 && w <= v < w + m.Span(level)
    ensures Empty(UnmapTree(m, t, level, v, w + m.Span(level))) <==> !Left(m, t, level, w, v)
    decreases level, w + m.Span(level) - v
  {
    var ls, e := m.LevelSize(level), w + m.Span(level);
    var (t1, next) := UnmapOne(m, t, level, v, e);
    m.IndexInFrame(v, level);
    if t.slots[m.Index(v, level)].Sub? {
      assert WfSlot(m, t.slots[m.Index(v, level)], level);
      EntryBounds(m, level, v);
      EntryFits(m, level, w, v);
      m.SpanIs(level - 1);
      LeftIff(m, t.slots[m.Index(v, level)].table, level - 1, v / ls * ls, v);
      LeftTable(m, t, level, w, v);
    } else {
      LeftFlat(m, t, level, w, v);
      if next < e {
        LeftIff(m, t1, level, w, next);
      }
    }
  }
}
