/**
 Walks that start above 0. The walker passes over an entry that begins below the start together
 with the table under it, so it can leave out mappings of the range.
 */
module WalkStart {
  import opened Arith
  import opened Paging
  import opened PageTree
  import opened MapHeap
  import opened WalkSpec

  /** The entries at `x` or above. */
  function From(s: seq<PteInfo>, x: int): seq<PteInfo> {
    if s == [] then [] else (if s[0].vaddr >= x then [s[0]] else []) + From(s[1..], x)
  }

  lemma FromFirst(p: PteInfo, s: seq<PteInfo>, x: int)
    ensures From([p] + s, x) == (if p.vaddr >= x then [p] else []) + From(s, x)
  {
    assert ([p] + s)[1..] == s;
  }

  lemma {:induction false} FromConcat(a: seq<PteInfo>, b: seq<PteInfo>, x: int)
    ensures From(a + b, x) == From(a, x) + From(b, x)
  {
    if a == [] {
      assert a + b == b;
    } else {
      FromConcat(a[1..], b, x);
      assert a + b == [a[0]] + (a[1..] + b);
      FromFirst(a[0], a[1..] + b, x);
      FromFirst(a[0], a[1..], x);
      assert a == [a[0]] + a[1..];
    }
  }

  predicate AllIn(s: seq<PteInfo>, lo: int, hi: int) {
    forall k :: 0 <= k < |s| ==> lo <= s[k].vaddr < hi
  }

  lemma {:induction false} FromAllIn(s: seq<PteInfo>, lo: int, hi: int, x: int)
    requires AllIn(s, lo, hi)
    ensures x <= lo ==> From(s, x) == s
    ensures hi <= x ==> From(s, x) == []
  {
    if s != [] {
      FromAllIn(s[1..], lo, hi, x);
    }
  }

  /** Below its own base the start makes no difference. */
  lemma {:induction false} StartBelow(m: Meta, mem: FrameMemory, frame: nat, level: nat, base: int, i: nat, start: int)
    requires m.HasLevel(level) && start <= base && 0 <= base
    ensures Entries(m, mem, frame, level, base, i, start) == Entries(m, mem, frame, level, base, i, 0)
    decreases level, m.len - i
  {
    if i < m.len && frame in mem && i < |mem[frame]| {
      var vaddr := base + i * m.LevelSize(level);
      MulMono(0, i, m.LevelSize(level));
      StartBelow(m, mem, frame, level, base, i + 1, start);
      if level > 1 {
        StartBelow(m, mem, m.codec.toConfig(mem[frame][i], true).paddr, level - 1, vaddr, 0, start);
      }
    }
  }

  /** The final entries of a table lie within it. */
  lemma FinalsInside(m: Meta, mem: FrameMemory, frame: nat, level: nat, base: nat, i: nat, v: int)
    requires m.Wf() && Wf(m, Abs(m, mem, frame, level), level) && i <= m.Fan(level)
    requires base % m.Span(level) == 0 && v == base + i * m.LevelSize(level)
    ensures AllIn(Finals(m, Entries(m, mem, frame, level, base, i, 0)), v, base + m.Span(level))
  {
    m.IndexInFrame(0, level);
    FinalsAreExtents(m, mem, frame, level, base, i);
    ExtentsList(m, Abs(m, mem, frame, level), level, base, i, v);
    var ps := Finals(m, Entries(m, mem, frame, level, base, i, 0));
    var es := Extents(m, Abs(m, mem, frame, level), level, base, i);
    forall k | 0 <= k < |ps| ensures v <= ps[k].vaddr < base + m.Span(level) {
      assert ExtentOf(m, ps[k]) == es[k];
    }
  }

  /** Entry `i` of a table and everything under it. */
  ghost function EntryInfos(m: Meta, mem: FrameMemory, frame: nat, level: nat, base: nat, i: nat): seq<PteInfo>
    requires m.HasLevel(level) && frame in mem && i < |mem[frame]|
  {
    var w, v := mem[frame][i], base + i * m.LevelSize(level);
    var c := m.codec.toConfig(w, level > 1);
    [InfoOf(m, w, level, v)]
    + if c.valid && !c.huge && level > 1 then Entries(m, mem, c.paddr, level - 1, v, 0, 0) else []
  }

  /** What entry `i` of a table contributes to the final entries. */
  ghost function EntryFinals(m: Meta, mem: FrameMemory, frame: nat, level: nat, base: nat, i: nat): seq<PteInfo>
    requires m.HasLevel(level) && frame in mem && i < |mem[frame]|
  {
    Finals(m, EntryInfos(m, mem, frame, level, base, i))
  }

  lemma EntryFinalsInside(m: Meta, mem: FrameMemory, frame: nat, level: nat, base: nat, i: nat, v: nat)
    requires m.Wf() && Wf(m, Abs(m, mem, frame, level), level) && i < m.len
    requires base % m.Span(level) == 0 && v == base + i * m.LevelSize(level)
    ensures frame in mem && i < |mem[frame]|
    ensures AllIn(EntryFinals(m, mem, frame, level, base, i), v, v + m.LevelSize(level))
  {
    m.IndexInFrame(0, level);
    var w := mem[frame][i];
    var c := m.codec.toConfig(w, level > 1);
    var below := if c.valid && !c.huge && level > 1 then Entries(m, mem, c.paddr, level - 1, v, 0, 0) else [];
    FinalsConcat(m, [InfoOf(m, w, level, v)], below);
    if c.valid && !c.huge && level > 1 {
      BelowInside(m, mem, frame, level, base, i, v, c.paddr);
    }
  }

  lemma BelowInside(m: Meta, mem: FrameMemory, frame: nat, level: nat, base: nat, i: nat, v: nat, child: nat)
    requires m.Wf() && Wf(m, Abs(m, mem, frame, level), level) && i < m.len && level > 1
    requires base % m.Span(level) == 0 && v == base + i * m.LevelSize(level) && frame in mem && i < |mem[frame]|
    requires var c := m.codec.toConfig(mem[frame][i], true); c.valid && !c.huge && c.paddr == child
    ensures AllIn(Finals(m, Entries(m, mem, child, level - 1, v, 0, 0)), v, v + m.LevelSize(level))
  {
    SlotOfWord(m, mem, frame, level, i);
    assert WfSlot(m, Abs(m, mem, frame, level).slots[i], level);
    SlotAddress(m, level, base, i, v);
    FinalsInside(m, mem, child, level - 1, v, 0, v);
  }

  lemma FinalsStep(m: Meta, mem: FrameMemory, frame: nat, level: nat, base: nat, i: nat, start: int, v: nat)
    requires m.HasLevel(level) && frame in mem && i < |mem[frame]| && i < m.len && v == base + i * m.LevelSize(level)
    ensures Finals(m, Entries(m, mem, frame, level, base, i, start)) ==
            (if v < start then [] else EntryFinals(m, mem, frame, level, base, i))
            + Finals(m, Entries(m, mem, frame, level, base, i + 1, start))
  {
    var rest := Entries(m, mem, frame, level, base, i + 1, start);
    if v < start {
      EntriesSkipped(m, mem, frame, level, base, i, start, v);
      assert [] + Finals(m, rest) == Finals(m, rest);
    } else {
      EntriesKept(m, mem, frame, level, base, i, start, v);
      FinalsConcat(m, EntryInfos(m, mem, frame, level, base, i), rest);
    }
  }

  lemma EntriesSkipped(m: Meta, mem: FrameMemory, frame: nat, level: nat, base: nat, i: nat, start: int, v: nat)
    requires m.HasLevel(level) && frame in mem && i < |mem[frame]| && i < m.len && v == base + i * m.LevelSize(level)
    requires v < start
    ensures Entries(m, mem, frame, level, base, i, start) == Entries(m, mem, frame, level, base, i + 1, start)
  {
  }

  lemma EntriesKept(m: Meta, mem: FrameMemory, frame: nat, level: nat, base: nat, i: nat, start: int, v: nat)
    requires m.HasLevel(level) && frame in mem && i < |mem[frame]| && i < m.len && v == base + i * m.LevelSize(level)
    requires start <= v
    ensures Entries(m, mem, frame, level, base, i, start) ==
            EntryInfos(m, mem, frame, level, base, i) + Entries(m, mem, frame, level, base, i + 1, start)
  {
    var c := m.codec.toConfig(mem[frame][i], level > 1);
    if c.valid && !c.huge && level > 1 {
      StartBelow(m, mem, c.paddr, level - 1, v, 0, start);
    }
  }

  // Which of the entries of one slot are kept.
  lemma KeptOrNot(mine: seq<PteInfo>, rest: seq<PteInfo>, v: int, ls: int, start: int, x: int)
    requires AllIn(mine, v, v + ls) && if v < start then v + ls <= x else x <= v
    ensures From(mine + rest, x) == (if v < start then [] else mine) + From(rest, x)
  {
    FromConcat(mine, rest, x);
    FromAllIn(mine, v, v + ls, x);
  }

  /** A walk from `start` keeps the final entries from the next entry boundary of the root table
      on: an entry that begins below `start` is passed over with the whole table under it. */
  lemma {:induction false} StartRoundsUp(m: Meta, mem: FrameMemory, frame: nat, level: nat, base: nat, i: nat,
                                         start: nat)
    requires m.Wf() && Wf(m, Abs(m, mem, frame, level), level) && i <= m.len && base % m.Span(level) == 0
    ensures Finals(m, Entries(m, mem, frame, level, base, i, start))
         == From(Finals(m, Entries(m, mem, frame, level, base, i, 0)), RoundUp(start, m.LevelSize(level)))
    decreases m.len - i
  {
    m.IndexInFrame(0, level);
    if i < m.len {
      StartRoundsUp(m, mem, frame, level, base, i + 1, start);
      MulMono(0, i, m.LevelSize(level));
      StartStep(m, mem, frame, level, base, i, start, base + i * m.LevelSize(level),
                RoundUp(start, m.LevelSize(level)));
    }
  }

  lemma StartStep(m: Meta, mem: FrameMemory, frame: nat, level: nat, base: nat, i: nat, start: nat, v: nat, x: int)
    requires m.Wf() && Wf(m, Abs(m, mem, frame, level), level) && i < m.len && base % m.Span(level) == 0
    requires v == base + i * m.LevelSize(level) && x == RoundUp(start, m.LevelSize(level))
    requires Finals(m, Entries(m, mem, frame, level, base, i + 1, start))
          == From(Finals(m, Entries(m, mem, frame, level, base, i + 1, 0)), x)
    ensures Finals(m, Entries(m, mem, frame, level, base, i, start))
         == From(Finals(m, Entries(m, mem, frame, level, base, i, 0)), x)
  {
    EntryFinalsInside(m, mem, frame, level, base, i, v);
    FinalsStep(m, mem, frame, level, base, i, start, v);
    FinalsStep(m, mem, frame, level, base, i, 0, v);
    BoundaryOrder(m, level, base, i, v, start, x);
    KeptOrNot(EntryFinals(m, mem, frame, level, base, i), Finals(m, Entries(m, mem, frame, level, base, i + 1, 0)),
              v, m.LevelSize(level), start, x);
  }

  lemma BoundaryOrder(m: Meta, level: nat, base: nat, i: nat, v: nat, start: nat, x: int)
    requires m.Wf() && m.HasLevel(level) && base % m.Span(level) == 0 && v == base + i * m.LevelSize(level)
    requires x == RoundUp(start, m.LevelSize(level))
    ensures if v < start then v + m.LevelSize(level) <= x else x <= v
  {
    var ls := m.LevelSize(level);
    assert v % ls == 0 by {
      m.SpanIs(level);
      ModOfProduct(base, ls, m.Fan(level));
      ModAddMul(base, i, ls);
    }
    RoundedOrder(v, ls, start, x);
  }

  lemma RoundedOrder(v: int, ls: int, start: nat, x: int)
    requires ls > 0 && v % ls == 0 && x == RoundUp(start, ls)
    ensures if v < start then v + ls <= x else x <= v
  {
    RoundUpBounds(start, ls);
    if v < start {
      MultipleGap(v, x, ls);
    } else if v < x {
      MultipleGap(v, x, ls);
    }
  }

  /** So a walk from `start` lists every mapping at or above `start` if and only if none begins
      between `start` and the next entry boundary of the root table. */
  lemma StartExactIff(m: Meta, mem: FrameMemory, root: nat, start: nat)
    requires m.Wf() && Wf(m, Abs(m, mem, root, m.Levels()), m.Levels())
    ensures var all := Finals(m, Entries(m, mem, root, m.Levels(), 0, 0, 0));
            Finals(m, Entries(m, mem, root, m.Levels(), 0, 0, start)) == From(all, start) <==>
            forall k :: 0 <= k < |all| ==> !(start <= all[k].vaddr < RoundUp(start, m.LevelSize(m.Levels())))
  {
    DivModUnique(0, m.Span(m.Levels()), 0, 0);
    StartRoundsUp(m, mem, root, m.Levels(), 0, 0, start);
    RoundUpBounds(start, m.LevelSize(m.Levels()));
    FromSame(Finals(m, Entries(m, mem, root, m.Levels(), 0, 0, 0)), start, RoundUp(start, m.LevelSize(m.Levels())));
  }

  lemma {:induction false} FromLength(s: seq<PteInfo>, x: int, y: int)
    requires x <= y
    ensures |From(s, y)| <= |From(s, x)|
  {
    if s != [] {
      FromLength(s[1..], x, y);
    }
  }

  lemma {:induction false} FromSame(s: seq<PteInfo>, x: int, y: int)
    requires x <= y
    ensures From(s, x) == From(s, y) <==> forall k :: 0 <= k < |s| ==> !(x <= s[k].vaddr < y)
  {
    if s != [] {
      FromSame(s[1..], x, y);
      FromLength(s[1..], x, y);
      if x <= s[0].vaddr < y {
        assert |From(s, y)| < |From(s, x)|;
      } else if forall k :: 0 <= k < |s[1..]| ==> !(x <= s[1..][k].vaddr < y) {
        forall k | 0 <= k < |s| ensures !(x <= s[k].vaddr < y) {
          if k > 0 {
            assert s[k] == s[1..][k - 1];
          }
        }
      } else {
        var k :| 0 <= k < |s[1..]| && x <= s[1..][k].vaddr < y;
        assert s[k + 1] == s[1..][k];
        if From(s, x) == From(s, y) {
          HeadsSame(s, x, y);
        }
      }
    }
  }

  lemma HeadsSame(s: seq<PteInfo>, x: int, y: int)
    requires s != [] && !(x <= s[0].vaddr < y) && x <= y && From(s, x) == From(s, y)
    ensures From(s[1..], x) == From(s[1..], y)
  {
    var head := if s[0].vaddr >= x then [s[0]] else [];
    assert From(s, x)[|head|..] == From(s[1..], x) && From(s, y)[|head|..] == From(s[1..], y);
  }
}
