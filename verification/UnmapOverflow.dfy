/**
 Exactly when unmapping leaves usize. The steps of the walk are not guarded, so it overflows in
 the last top-level entry below 2^64 if that entry is in use and the walk comes to it. Whether it
 does can be read off the table and the range before the call.
 */
module UnmapOverflow {
  import opened Arith
  import opened Paging
  import opened PageTree
  import opened UnmapSpec
  import opened UnmapIff
  import opened UnmapLeft

  /** The entry that ends at 2^64 is in use. */
  ghost predicate LastUsed(m: Meta, t: Tree, level: nat)
    requires m.HasLevel(level)
  {
    var i := m.Index(USIZE_LIMIT - 1, level);
    i < |t.slots| && !t.slots[i].Invalid?
  }

  /** The walk of [v, e) stops in the entry that ends at 2^64: it starts there, or it comes there
      at the start of the entry (from an entry boundary or through a table), or it comes there at
      the offset it started with, and that is still before `e`. */
  ghost predicate Arrives(m: Meta, t: Tree, level: nat, v: int, e: int)
    requires m.HasLevel(level)
  {
    var ls := m.LevelSize(level);
    var last := USIZE_LIMIT - ls;
    last < e && (last <= v || v % ls == 0 || last + v % ls < e || TableBetween(m, t, level, v, last))
  }

  /** The window of the table at `w` ends at 2^64 or later, on an entry boundary. */
  ghost predicate LastWindow(m: Meta, level: nat, w: int, v: int, e: int)
    requires m.HasLevel(level)
  {
    && USIZE_LIMIT % m.LevelSize(level) == 0 && w % m.Span(level) == 0
    && w <= v < e < USIZE_LIMIT <= w + m.Span(level)
  }

  /** A round overflows if and only if it clears or enters something in the last entry. */
  lemma OneOverflowsIff(m: Meta, t: Tree, level: nat, v: int, e: int)
    requires m.Wf() && Wf(m, t, level) && v < e < USIZE_LIMIT && USIZE_LIMIT % m.LevelSize(level) == 0
    ensures OneOverflows(m, t, level, v, e) <==>
            && USIZE_LIMIT - m.LevelSize(level) <= v
            && m.Index(v, level) < |t.slots| && !t.slots[m.Index(v, level)].Invalid?
  {
    var ls := m.LevelSize(level);
    m.IndexInFrame(v, level);
    if t.slots[m.Index(v, level)].Sub? {
      var end := (v / ls + 1) * ls;
      EndAtLimit(v, end, ls);
      if end < USIZE_LIMIT {
        assert WfSlot(m, t.slots[m.Index(v, level)], level);
        BelowLast(m, t.slots[m.Index(v, level)].table, level, v, e, end);
      }
    }
  }

  lemma EndAtLimit(v: int, end: int, ls: int)
    requires ls > 0 && end == (v / ls + 1) * ls && USIZE_LIMIT % ls == 0
    ensures end % ls == 0 && (end >= USIZE_LIMIT <==> USIZE_LIMIT - ls <= v)
  {
    ModAddMul(USIZE_LIMIT - ls, 1, ls);
    BeforeLast(v, ls, USIZE_LIMIT - ls);
    EndsAtLimit(end, ls, USIZE_LIMIT);
  }

  lemma EndsAtLimit(end: int, ls: int, limit: int)
    requires ls > 0 && end % ls == 0 && limit % ls == 0
    ensures end >= limit <==> end > limit - ls
  {
    if limit - ls < end < limit {
      MultipleGap(end, limit, ls);
    }
  }

  lemma BelowLast(m: Meta, c: Tree, level: nat, v: int, e: int, end: int)
    requires m.Wf() && m.HasLevel(level) && level > 1 && Wf(m, c, level - 1)
    requires USIZE_LIMIT % m.LevelSize(level) == 0 && end % m.LevelSize(level) == 0 && end < USIZE_LIMIT
    ensures !UnmapOverflows(m, c, level - 1, v, Min(end, e))
  {
    EndsAtLimit(end, m.LevelSize(level), USIZE_LIMIT);
    m.SpanIs(level - 1);
    NoOverflow(m, c, level - 1, v, Min(end, e));
  }

  /** Before the last entry a round keeps the last entry and the way there. */
  lemma LastKept(m: Meta, t: Tree, level: nat, w: int, v: int, e: int)
    requires m.Wf() && Wf(m, t, level) && LastWindow(m, level, w, v, e) && v < USIZE_LIMIT - m.LevelSize(level)
    ensures var (t1, next) := UnmapOne(m, t, level, v, e);
            && (LastUsed(m, t1, level) <==> LastUsed(m, t, level))
            && (next < e ==> (TableBetween(m, t1, level, next, USIZE_LIMIT - m.LevelSize(level))
                              <==> TableBetween(m, t, level, next, USIZE_LIMIT - m.LevelSize(level))))
  {
    var ls := m.LevelSize(level);
    var last := USIZE_LIMIT - ls;
    var (t1, next) := UnmapOne(m, t, level, v, e);
    m.IndexInFrame(v, level);
    ModAddMul(last, 1, ls);
    BeforeLast(v, ls, last);
    forall a: int | (v / ls + 1) * ls <= a < w + m.Span(level)
      ensures m.Index(a, level) < |t.slots| && t1.slots[m.Index(a, level)] == t.slots[m.Index(a, level)]
    {
      m.IndexInFrame(a, level);
      SlotsInWindow(m, level, w, a, v);
      DivModUnique((v / ls + 1) * ls, ls, v / ls + 1, 0);
      DivMono((v / ls + 1) * ls, a, ls);
    }
    assert next < e ==> (v / ls + 1) * ls <= next;
  }

  /** From an entry that is no table the walk keeps its offset. */
  lemma ArrivesFlat(m: Meta, t: Tree, level: nat, w: int, v: int, e: int)
    requires m.Wf() && Wf(m, t, level) && LastWindow(m, level, w, v, e)
    requires v < USIZE_LIMIT - m.LevelSize(level)
    requires m.Index(v, level) < |t.slots| && !t.slots[m.Index(v, level)].Sub?
    ensures var next := v + m.LevelSize(level);
            Arrives(m, t, level, v, e) <==> next < e && Arrives(m, t, level, next, e)
  {
    var ls := m.LevelSize(level);
    var last, next := USIZE_LIMIT - ls, v + ls;
    ModAddMul(last, 1, ls);
    ModAddMul(v, 1, ls);
    BeforeLast(v, ls, last);
    BeforeLast(next, ls, last);
    TablesFrom(m, t, level, w, v, last);
    if last <= next {
      assert next == last + v % ls by {
        DivModDef(v, ls);
        DivModDef(last, ls);
        DivModUnique(next, ls, v / ls + 1, v % ls);
        BeforeLast(next - v % ls, ls, last);
      }
    }
  }

  /** The walk overflows if and only if the last entry is in use and the walk comes to it. */
  lemma {:induction false} OverflowsIff(m: Meta, t: Tree, level: nat, w: int, v: int, e: int)
    requires m.Wf() && Wf(m, t, level) && LastWindow(m, level, w, v, e)
    ensures UnmapOverflows(m, t, level, v, e) <==> LastUsed(m, t, level) && Arrives(m, t, level, v, e)
    decreases e - v
  {
    var ls := m.LevelSize(level);
    var last := USIZE_LIMIT - ls;
    var (t1, next) := UnmapOne(m, t, level, v, e);
    m.IndexInFrame(v, level);
    OneOverflowsIff(m, t, level, v, e);
    ModAddMul(last, 1, ls);
    BeforeLast(v, ls, last);
    if last <= v {
      BeforeLast(USIZE_LIMIT - 1, ls, last);
      SameLast(m, level, w, v, last);
    } else {
      LastKept(m, t, level, w, v, e);
      if t.slots[m.Index(v, level)].Sub? {
        assert TableBetween(m, t, level, v, last);
      } else {
        ArrivesFlat(m, t, level, w, v, e);
      }
      if next < e {
        OverflowsIff(m, t1, level, w, next, e);
      }
    }
  }

  lemma SameLast(m: Meta, level: nat, w: int, v: int, last: int)
    requires m.Wf() && m.HasLevel(level) && w % m.Span(level) == 0 && last == USIZE_LIMIT - m.LevelSize(level)
    requires last % m.LevelSize(level) == 0 && last <= v < USIZE_LIMIT <= w + m.Span(level) && w <= v
    ensures m.Index(v, level) == m.Index(USIZE_LIMIT - 1, level)
  {
    var ls := m.LevelSize(level);
    DivModDef(last, ls);
    DivModUnique(v, ls, last / ls, v - last);
    DivModUnique(USIZE_LIMIT - 1, ls, last / ls, ls - 1);
    SlotsInWindow(m, level, w, v, USIZE_LIMIT - 1);
  }

  /** For a caller: a range in the last window of the table overflows if and only if the last
      entry is in use and the walk comes to it. */
  lemma UnmapOverflowsIff(m: Meta, t: Tree, level: nat, s: int, e: int)
    requires m.Wf() && Wf(m, t, level) && s < e < USIZE_LIMIT && USIZE_LIMIT % m.LevelSize(level) == 0
    requires s % m.Span(level) + (USIZE_LIMIT - s) <= m.Span(level)
    ensures UnmapOverflows(m, t, level, s, e) <==> LastUsed(m, t, level) && Arrives(m, t, level, s, e)
    ensures OnEntry(m, t, level, s) ==> (Arrives(m, t, level, s, e) <==> USIZE_LIMIT - m.LevelSize(level) < e)
  {
    var w := s / m.Span(level) * m.Span(level);
    DivModDef(s, m.Span(level));
    DivModUnique(w, m.Span(level), s / m.Span(level), 0);
    OverflowsIff(m, t, level, w, s, e);
    m.IndexInFrame(s, level);
  }

  // ----- ranges that begin in an earlier window -----

  lemma StaysUnused(m: Meta, t: Tree, t1: Tree, level: nat)
    requires m.HasLevel(level) && Shrinks(t, t1) && !LastUsed(m, t, level)
    ensures !LastUsed(m, t1, level)
  {
    var i := m.Index(USIZE_LIMIT - 1, level);
    if i < |t.slots| {
      assert SlotShrinks(t.slots[i], t1.slots[i]);
    }
  }

  // Which positions use the slot of the last entry.
  lemma LastSlot(m: Meta, level: nat, v: int, limit: int)
    requires m.Wf() && m.HasLevel(level) && v % m.LevelSize(level) == 0 && v < limit
    requires limit % m.LevelSize(level) == 0 && limit % m.Span(level) == 0
    ensures limit - m.LevelSize(level) <= v || v < limit - m.Span(level) <= v + m.LevelSize(level) ==>
              m.Index(v, level) == m.Index(limit - 1, level)
  {
    var ls, fan, span := m.LevelSize(level), m.Fan(level), m.Span(level);
    m.SpanIs(level);
    DivModDef(v, ls);
    if limit - ls <= v {
      if v > limit - ls {
        MultipleGap(v, limit, ls);
      }
      DivModUnique(limit - 1, ls, v / ls, ls - 1);
    } else if v < limit - span <= v + ls {
      ModAddMul(v, 1, ls);
      ModAddMul(limit - span, fan, ls);
      if limit - span < v + ls {
        MultipleGap(limit - span, v + ls, ls);
      }
      DivModUnique(limit - 1, ls, v / ls + fan, ls - 1);
      ModAddMul(v / ls, 1, fan);
    }
  }

  /** One round towards the last window. */
  lemma RoundBefore(m: Meta, t: Tree, level: nat, v: int, e: int)
    requires m.Wf() && Wf(m, t, level) && v < e < USIZE_LIMIT && v % m.LevelSize(level) == 0
    requires USIZE_LIMIT % m.LevelSize(level) == 0 && USIZE_LIMIT % m.Span(level) == 0
    requires v < USIZE_LIMIT - m.Span(level) || !LastUsed(m, t, level)
    ensures !OneOverflows(m, t, level, v, e)
    ensures v + m.LevelSize(level) <= e ==>
              var (t1, next) := UnmapOne(m, t, level, v, e);
              next < USIZE_LIMIT - m.Span(level) || !LastUsed(m, t1, level)
  {
    m.IndexInFrame(v, level);
    m.SpanIs(level);
    OneOverflowsIff(m, t, level, v, e);
    LastSlot(m, level, v, USIZE_LIMIT);
    if v + m.LevelSize(level) <= e {
      EntryCleared(m, t, level, v, e);
      if !LastUsed(m, t, level) {
        StaysUnused(m, t, UnmapOne(m, t, level, v, e).0, level);
      }
    }
  }

  /** Before the last window the walk has cleared the slot of the last entry once. */
  lemma {:induction false} ClearedBefore(m: Meta, t: Tree, level: nat, v: int, e: int)
    requires m.Wf() && Wf(m, t, level) && e < USIZE_LIMIT && v % m.LevelSize(level) == 0
    requires USIZE_LIMIT % m.LevelSize(level) == 0 && USIZE_LIMIT % m.Span(level) == 0
    requires v < USIZE_LIMIT - m.Span(level) || !LastUsed(m, t, level)
    ensures !UnmapOverflows(m, t, level, v, e)
    decreases if v < e then e - v else 0
  {
    if v < e {
      var (t1, next) := UnmapOne(m, t, level, v, e);
      RoundBefore(m, t, level, v, e);
      m.IndexInFrame(v, level);
      if v + m.LevelSize(level) <= e {
        EntryCleared(m, t, level, v, e);
        ClearedBefore(m, t1, level, next, e);
      } else {
        BeforeLast(v, m.LevelSize(level), v);
      }
    }
  }

  /** From an entry boundary, wherever the range begins: it overflows if and only if it reaches
      into the last entry, that entry is in use, and the walk has not passed its slot before. */
  lemma BoundaryOverflowsIff(m: Meta, t: Tree, level: nat, s: int, e: int)
    requires m.Wf() && Wf(m, t, level) && s < e < USIZE_LIMIT && s % m.LevelSize(level) == 0
    requires USIZE_LIMIT % m.LevelSize(level) == 0 && USIZE_LIMIT % m.Span(level) == 0
    ensures UnmapOverflows(m, t, level, s, e) <==>
            USIZE_LIMIT - m.LevelSize(level) < e && LastUsed(m, t, level) && USIZE_LIMIT - m.Span(level) <= s
  {
    if s < USIZE_LIMIT - m.Span(level) {
      ClearedBefore(m, t, level, s, e);
    } else {
      ModAddMul(USIZE_LIMIT - m.Span(level), 1, m.Span(level));
      OverflowsIff(m, t, level, USIZE_LIMIT - m.Span(level), s, e);
    }
  }

  // ----- from inside an entry of an earlier window -----

  lemma IndexPeriodic(m: Meta, level: nat, v: int, k: int)
    requires m.Wf() && m.HasLevel(level)
    ensures m.Index(v + k * m.Span(level), level) == m.Index(v, level)
  {
    var ls, fan := m.LevelSize(level), m.Fan(level);
    m.SpanIs(level);
    MulAssoc(k, fan, ls);
    ModAddMul(v, k * fan, ls);
    ModAddMul(v / ls, k, fan);
  }

  /** The last entry of each of the two windows before `w + span == 2^64` is in the slot of the last
      entry. */
  lemma LastInWindows(m: Meta, level: nat, w: int, v: int)
    requires m.Wf() && m.HasLevel(level) && w == USIZE_LIMIT - m.Span(level)
    requires USIZE_LIMIT % m.LevelSize(level) == 0 && USIZE_LIMIT % m.Span(level) == 0
    requires w - m.LevelSize(level) <= v < w || w - m.Span(level) - m.LevelSize(level) <= v < w - m.Span(level)
    ensures m.Index(v, level) == m.Index(USIZE_LIMIT - 1, level)
  {
    var ls, span := m.LevelSize(level), m.Span(level);
    var k := if w - ls <= v then 1 else 2;
    IndexPeriodic(m, level, v, k);
    ModAddMul(w, 1, span);
    ModAddMul(USIZE_LIMIT - ls, 1, ls);
    m.SpanIs(level);
    assert v + k * span == if k == 1 then v + span else v + span + span;
    SameLast(m, level, w, v + k * span, USIZE_LIMIT - ls);
  }

  /** The slot of the last entry is a table of which a visit from `p` to the end, at `w`, leaves
      something: an entry before `p`, or a part of the first table from `p` on. */
  ghost predicate Survives(m: Meta, t: Tree, level: nat, p: int, w: int)
    requires m.Wf() && Wf(m, t, level)
  {
    var i := m.Index(USIZE_LIMIT - 1, level);
    && i < |t.slots| && t.slots[i].Sub?
    && (assert WfSlot(m, t.slots[i], level);
        Left(m, t.slots[i].table, level - 1, w - m.LevelSize(level), p))
  }

  /** The walk from `v` comes to the last window, at `w`, with that slot still in use: it passes the
      slot only once before, at the offset it started with, and leaves something of the table there. */
  ghost predicate Leaves(m: Meta, t: Tree, level: nat, v: int, w: int)
    requires m.Wf() && Wf(m, t, level)
  {
    var ls := m.LevelSize(level);
    && w - m.Span(level) <= v
    && (if w - ls <= v then Survives(m, t, level, v, w)
        else !TableBetween(m, t, level, v, w - ls) && Survives(m, t, level, w - ls + v % ls, w))
  }

  ghost predicate EarlyWindow(m: Meta, level: nat, w: int, v: int, e: int)
    requires m.HasLevel(level)
  {
    && USIZE_LIMIT % m.LevelSize(level) == 0 && USIZE_LIMIT % m.Span(level) == 0
    && w == USIZE_LIMIT - m.Span(level) && v < w && v < e < USIZE_LIMIT
  }

  lemma WindowBounds(m: Meta, level: nat, w: int)
    requires m.Wf() && m.HasLevel(level) && w == USIZE_LIMIT - m.Span(level)
    requires USIZE_LIMIT % m.LevelSize(level) == 0 && USIZE_LIMIT % m.Span(level) == 0
    ensures w % m.Span(level) == 0 && (w - m.Span(level)) % m.Span(level) == 0
    ensures w % m.LevelSize(level) == 0 && (w - m.LevelSize(level)) % m.LevelSize(level) == 0
    ensures (w - m.Span(level)) % m.LevelSize(level) == 0
    ensures w <= USIZE_LIMIT - m.LevelSize(level)
  {
    var ls, span := m.LevelSize(level), m.Span(level);
    m.SpanIs(level);
    ModAddMul(w, 1, span);
    ModAddMul(w - span, 1, span);
    ModAddMul(w, m.Fan(level), ls);
    ModAddMul(w - span, m.Fan(level), ls);
    ModAddMul(w - ls, 1, ls);
  }

  /** The round in the entry before the last window. */
  lemma LastVisit(m: Meta, t: Tree, level: nat, w: int, v: int, e: int)
    requires m.Wf() && Wf(m, t, level) && EarlyWindow(m, level, w, v, e) && w - m.LevelSize(level) <= v
    ensures UnmapOverflows(m, t, level, v, e) <==> USIZE_LIMIT - m.LevelSize(level) < e && Survives(m, t, level, v, w)
  {
    var ls := m.LevelSize(level);
    var (t1, next) := UnmapOne(m, t, level, v, e);
    m.IndexInFrame(v, level);
    WindowBounds(m, level, w);
    LastInWindows(m, level, w, v);
    OneOverflowsIff(m, t, level, v, e);
    LastEnd(v, ls, w);
    if t.slots[m.Index(v, level)].Sub? {
      VisitLeaves(m, t, level, w, v);
    }
    if next < e {
      OverflowsIff(m, t1, level, w, next, e);
    }
  }

  // What is left of the table in the entry before the last window.
  lemma VisitLeaves(m: Meta, t: Tree, level: nat, w: int, v: int)
    requires m.Wf() && Wf(m, t, level) && w % m.LevelSize(level) == 0 && w - m.LevelSize(level) <= v < w
    requires m.Index(v, level) == m.Index(USIZE_LIMIT - 1, level) < |t.slots| && t.slots[m.Index(v, level)].Sub?
    ensures WfSlot(m, t.slots[m.Index(v, level)], level)
    ensures Empty(UnmapTree(m, t.slots[m.Index(v, level)].table, level - 1, v, w)) <==> !Survives(m, t, level, v, w)
  {
    assert WfSlot(m, t.slots[m.Index(v, level)], level);
    m.SpanIs(level - 1);
    ModAddMul(w - m.LevelSize(level), 1, m.LevelSize(level));
    LeftIff(m, t.slots[m.Index(v, level)].table, level - 1, w - m.LevelSize(level), v);
  }

  lemma LastEnd(v: int, ls: int, w: int)
    requires ls > 0 && w % ls == 0 && w - ls <= v < w
    ensures (v / ls + 1) * ls == w
  {
    DivModDef(w, ls);
    DivModUnique(v, ls, w / ls - 1, v - (w - ls));
  }

  /** A round in an earlier entry that is no table. */
  lemma EarlyFlat(m: Meta, t: Tree, level: nat, w: int, v: int, e: int)
    requires m.Wf() && Wf(m, t, level) && EarlyWindow(m, level, w, v, e) && v < w - m.LevelSize(level)
    requires m.Index(v, level) < |t.slots| && !t.slots[m.Index(v, level)].Sub? && v + m.LevelSize(level) < e
    ensures var (t1, next) := UnmapOne(m, t, level, v, e);
            next == v + m.LevelSize(level) && (Leaves(m, t1, level, next, w) <==> Leaves(m, t, level, v, w))
  {
    m.IndexInFrame(v, level);
    if v < w - m.Span(level) {
      BeforeFlat(m, t, level, w, v, e);
    } else {
      InsideFlat(m, t, level, w, v, e);
    }
  }

  // Coming from an earlier window the walk clears the slot of the last entry on the way.
  lemma BeforeFlat(m: Meta, t: Tree, level: nat, w: int, v: int, e: int)
    requires m.Wf() && Wf(m, t, level) && EarlyWindow(m, level, w, v, e) && v < w - m.Span(level)
    requires m.Index(v, level) < |t.slots| && !t.slots[m.Index(v, level)].Sub? && v + m.LevelSize(level) < e
    ensures var (t1, next) := UnmapOne(m, t, level, v, e); !Leaves(m, t1, level, next, w)
  {
    m.IndexInFrame(v, level);
    if w - m.Span(level) <= v + m.LevelSize(level) {
      LastInWindows(m, level, w, v);
    }
  }

  lemma InsideFlat(m: Meta, t: Tree, level: nat, w: int, v: int, e: int)
    requires m.Wf() && Wf(m, t, level) && EarlyWindow(m, level, w, v, e)
    requires w - m.Span(level) <= v < w - m.LevelSize(level)
    requires m.Index(v, level) < |t.slots| && !t.slots[m.Index(v, level)].Sub? && v + m.LevelSize(level) < e
    ensures var (t1, next) := UnmapOne(m, t, level, v, e);
            Leaves(m, t1, level, next, w) <==> Leaves(m, t, level, v, w)
  {
    var ls := m.LevelSize(level);
    var t1 := UnmapOne(m, t, level, v, e).0;
    m.IndexInFrame(v, level);
    WindowBounds(m, level, w);
    ModAddMul(v, 1, ls);
    EarlySame(m, t, level, w, v, e);
    if w - ls <= v + ls {
      OffsetKept(v, ls, w - ls);
      NoTableHere(m, t, level, w, v);
      SurvivesSame(m, t, t1, level, v + ls, w);
    } else {
      TablesFrom(m, t, level, w - m.Span(level), v, w - ls);
      SurvivesSame(m, t, t1, level, w - ls + v % ls, w);
    }
  }

  lemma SurvivesSame(m: Meta, t: Tree, t1: Tree, level: nat, p: int, w: int)
    requires m.Wf() && Wf(m, t, level) && Wf(m, t1, level) && m.Index(USIZE_LIMIT - 1, level) < |t.slots| == |t1.slots|
    requires t1.slots[m.Index(USIZE_LIMIT - 1, level)] == t.slots[m.Index(USIZE_LIMIT - 1, level)]
    ensures Survives(m, t1, level, p, w) <==> Survives(m, t, level, p, w)
  {
  }

  lemma OffsetKept(v: int, ls: int, x: int)
    requires ls > 0 && x % ls == 0 && v < x <= v + ls
    ensures v + ls == x + v % ls
  {
    DivModDef(v, ls);
    DivModDef(x, ls);
    DivModUnique(v, ls, x / ls - 1, v - (x - ls));
  }

  // Between v and the entry at w - ls lies only the entry of v.
  lemma NoTableHere(m: Meta, t: Tree, level: nat, w: int, v: int)
    requires m.Wf() && m.HasLevel(level) && (w - m.Span(level)) % m.Span(level) == 0
    requires (w - m.LevelSize(level)) % m.LevelSize(level) == 0
    requires w - m.Span(level) <= v < w - m.LevelSize(level) <= v + m.LevelSize(level)
    requires m.Index(v, level) < |t.slots| && !t.slots[m.Index(v, level)].Sub?
    ensures !TableBetween(m, t, level, v, w - m.LevelSize(level))
  {
    var ls := m.LevelSize(level);
    forall a: int | v <= a < w - ls ensures m.Index(a, level) == m.Index(v, level) {
      DivModDef(w - ls, ls);
      DivModUnique(a, ls, (w - ls) / ls - 1, a - (w - ls - ls));
      DivModUnique(v, ls, (w - ls) / ls - 1, v - (w - ls - ls));
    }
  }

  // In the window before the last a round changes none of the slots that matter later.
  lemma EarlySame(m: Meta, t: Tree, level: nat, w: int, v: int, e: int)
    requires m.Wf() && Wf(m, t, level) && EarlyWindow(m, level, w, v, e)
    requires w - m.Span(level) <= v < w - m.LevelSize(level)
    requires m.Index(v, level) < |t.slots| && !t.slots[m.Index(v, level)].Sub? && v + m.LevelSize(level) < e
    ensures var (t1, next) := UnmapOne(m, t, level, v, e);
            && m.Index(USIZE_LIMIT - 1, level) < |t.slots| == |t1.slots|
            && t1.slots[m.Index(USIZE_LIMIT - 1, level)] == t.slots[m.Index(USIZE_LIMIT - 1, level)]
            && (TableBetween(m, t1, level, next, w - m.LevelSize(level))
                <==> TableBetween(m, t, level, next, w - m.LevelSize(level)))
  {
    var ls, span := m.LevelSize(level), m.Span(level);
    var (t1, next) := UnmapOne(m, t, level, v, e);
    m.IndexInFrame(v, level);
    WindowBounds(m, level, w);
    BeforeLast(v, ls, w - ls);
    forall a: int | (v / ls + 1) * ls <= a < w
      ensures m.Index(a, level) < |t.slots| && t1.slots[m.Index(a, level)] == t.slots[m.Index(a, level)]
    {
      m.IndexInFrame(a, level);
      SlotsInWindow(m, level, w - span, a, v);
      DivModUnique((v / ls + 1) * ls, ls, v / ls + 1, 0);
      DivMono((v / ls + 1) * ls, a, ls);
    }
    LastInWindows(m, level, w, w - 1);
  }

  /** From anywhere before the last window: it overflows if and only if it reaches into the last entry
      and has left the slot of that entry in use. */
  lemma {:induction false} EarlyOverflowsIff(m: Meta, t: Tree, level: nat, w: int, v: int, e: int)
    requires m.Wf() && Wf(m, t, level) && EarlyWindow(m, level, w, v, e)
    ensures UnmapOverflows(m, t, level, v, e) <==> USIZE_LIMIT - m.LevelSize(level) < e && Leaves(m, t, level, v, w)
    decreases e - v
  {
    var ls := m.LevelSize(level);
    var (t1, next) := UnmapOne(m, t, level, v, e);
    m.IndexInFrame(v, level);
    WindowBounds(m, level, w);
    if w - ls <= v {
      m.SpanIs(level);
      LastVisit(m, t, level, w, v, e);
    } else {
      OneOverflowsIff(m, t, level, v, e);
      BeforeLast(v, ls, w - ls);
      if t.slots[m.Index(v, level)].Sub? {
        assert w - m.Span(level) <= v ==> TableBetween(m, t, level, v, w - ls);
        if next < e {
          ClearedBefore(m, t1, level, next, e);
        }
      } else if v + ls < e {
        EarlyFlat(m, t, level, w, v, e);
        EarlyOverflowsIff(m, t1, level, w, next, e);
      }
    }
  }
}
