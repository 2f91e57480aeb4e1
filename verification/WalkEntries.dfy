/**
 What the walk says about the words in memory: each listed entry is the word stored for its address
 at its level, and every entry of every table that can be reached is listed.
 */
module WalkEntries {
  import opened Arith
  import opened Options
  import opened Paging
  import opened PageTree
  import opened MapHeap
  import opened WalkSpec

  /** `p` is the entry of its level for its address, and says itself whether it is final. */
  ghost predicate StoredAs(m: Meta, mem: FrameMemory, frame: nat, level: nat, p: PteInfo)
    requires m.HasLevel(level)
  {
    && 1 <= p.level <= level && p.vaddr % m.LevelSize(p.level) == 0
    && EntryAt(m, mem, frame, level, p.vaddr, p.level) == Some(p.pte)
    && (p.isFinal <==> IsFinal(m, p.pte, p.level))
  }

  /** Every word of a frame can be selected by an index. */
  predicate FullFrames(m: Meta) {
    forall k :: 0 <= k < |m.fan| ==> m.fan[k] == m.len
  }

  /** A listed entry of a table at `base`. A frame may be longer than the indices reach; what lies
      there is invalid. */
  ghost predicate Listed(m: Meta, mem: FrameMemory, frame: nat, level: nat, base: int, p: PteInfo)
    requires m.HasLevel(level)
  {
    m.codec.valid(p.pte) || FullFrames(m) ==>
      StoredAs(m, mem, frame, level, p) && base <= p.vaddr < base + m.Span(level)
  }

  lemma EntryListed(m: Meta, mem: FrameMemory, frame: nat, level: nat, base: int, i: nat, v: int)
    requires m.Wf() && Wf(m, Abs(m, mem, frame, level), level) && base % m.Span(level) == 0
    requires frame in mem && i < |mem[frame]| && i < m.len && v == base + i * m.LevelSize(level)
    ensures Listed(m, mem, frame, level, base, InfoOf(m, mem[frame][i], level, v))
  {
    SlotOfWord(m, mem, frame, level, i);
    if m.codec.valid(mem[frame][i]) || FullFrames(m) {
      SlotAddress(m, level, base, i, v);
      MulMono(0, i, m.LevelSize(level));
    }
  }

  lemma BelowListed(m: Meta, mem: FrameMemory, frame: nat, level: nat, base: int, i: nat, v: int, child: nat,
                    p: PteInfo)
    requires m.Wf() && Wf(m, Abs(m, mem, frame, level), level) && base % m.Span(level) == 0 && level > 1
    requires frame in mem && i < |mem[frame]| && i < m.len && v == base + i * m.LevelSize(level)
    requires var c := m.codec.toConfig(mem[frame][i], true); c.valid && !c.huge && c.paddr == child
    requires Listed(m, mem, child, level - 1, v, p)
    ensures Listed(m, mem, frame, level, base, p)
  {
    SlotOfWord(m, mem, frame, level, i);
    if m.codec.valid(p.pte) || FullFrames(m) {
      m.SpanIs(level - 1);
      SlotAddress(m, level, base, i, p.vaddr);
      MulMono(0, i, m.LevelSize(level));
    }
  }

  /** Every entry of the listing is a stored one. */
  lemma {:induction false} WalkStores(m: Meta, mem: FrameMemory, frame: nat, level: nat, base: int, i: nat, start: int,
                                      k: nat)
    requires m.Wf() && Wf(m, Abs(m, mem, frame, level), level) && base % m.Span(level) == 0
    requires k < |Entries(m, mem, frame, level, base, i, start)|
    ensures Listed(m, mem, frame, level, base, Entries(m, mem, frame, level, base, i, start)[k])
    decreases level, m.len - i
  {
    var w, v := mem[frame][i], base + i * m.LevelSize(level);
    var c := m.codec.toConfig(w, level > 1);
    var rest := Entries(m, mem, frame, level, base, i + 1, start);
    if v < start {
      WalkStores(m, mem, frame, level, base, i + 1, start, k);
    } else {
      var below := if c.valid && !c.huge && level > 1 then Entries(m, mem, c.paddr, level - 1, v, 0, start) else [];
      var all := [InfoOf(m, w, level, v)] + below + rest;
      assert Entries(m, mem, frame, level, base, i, start) == all;
      if k == 0 {
        EntryListed(m, mem, frame, level, base, i, v);
      } else if k <= |below| {
        assert all[k] == below[k - 1];
        TableBelow(m, mem, frame, level, base, i, v);
        WalkStores(m, mem, c.paddr, level - 1, v, 0, start, k - 1);
        BelowListed(m, mem, frame, level, base, i, v, c.paddr, below[k - 1]);
      } else {
        assert all[k] == rest[k - 1 - |below|];
        WalkStores(m, mem, frame, level, base, i + 1, start, k - 1 - |below|);
      }
    }
  }

  lemma TableBelow(m: Meta, mem: FrameMemory, frame: nat, level: nat, base: int, i: nat, v: int)
    requires m.Wf() && Wf(m, Abs(m, mem, frame, level), level) && base % m.Span(level) == 0 && level > 1
    requires frame in mem && i < |mem[frame]| && i < m.len && v == base + i * m.LevelSize(level)
    requires var c := m.codec.toConfig(mem[frame][i], true); c.valid && !c.huge
    ensures Wf(m, Abs(m, mem, m.codec.toConfig(mem[frame][i], true).paddr, level - 1), level - 1)
    ensures v % m.Span(level - 1) == 0
  {
    SlotOfWord(m, mem, frame, level, i);
    assert WfSlot(m, Abs(m, mem, frame, level).slots[i], level);
    m.SpanIs(level - 1);
    SlotAddress(m, level, base, i, v);
  }

  /** A walk from 0 lists every entry of a table with what lies under it. */
  lemma {:induction false} ListsSlot(m: Meta, mem: FrameMemory, frame: nat, level: nat, base: nat, i: nat, j: nat,
                                     p: PteInfo)
    requires m.HasLevel(level) && frame in mem && i <= j < |mem[frame]| && j < m.len
    requires var v := base + j * m.LevelSize(level);
             p == InfoOf(m, mem[frame][j], level, v) || p in Below(m, mem, frame, level, j, v)
    ensures p in Entries(m, mem, frame, level, base, i, 0)
    decreases j - i
  {
    var v := base + i * m.LevelSize(level);
    MulMono(0, i, m.LevelSize(level));
    EntriesFrom(m, mem, frame, level, base, i, v);
    if i < j {
      ListsSlot(m, mem, frame, level, base, i + 1, j, p);
    }
  }

  /** Every entry that can be reached is listed by a walk from 0. */
  lemma {:induction false} WalkReaches(m: Meta, mem: FrameMemory, frame: nat, level: nat, base: nat, va: nat, k: nat)
    requires m.Wf() && Wf(m, Abs(m, mem, frame, level), level) && base % m.Span(level) == 0
    requires 1 <= k <= level && va % m.LevelSize(k) == 0 && EntryAt(m, mem, frame, level, va, k).Some?
    requires base <= va < base + m.Span(level)
    ensures var w := EntryAt(m, mem, frame, level, va, k).value;
            PteInfo(k, va, IsFinal(m, w, k), w) in Entries(m, mem, frame, level, base, 0, 0)
    decreases level
  {
    var i, w := m.Index(va, level), EntryAt(m, mem, frame, level, va, k).value;
    var v := base + i * m.LevelSize(level);
    m.IndexInFrame(va, level);
    MulMono(0, i, m.LevelSize(level));
    SlotOf(m, level, base, va);
    if k < level {
      TableBelow(m, mem, frame, level, base, i, v);
      ChildWindow(m, level, base, va);
      WalkReaches(m, mem, m.codec.toConfig(mem[frame][i], true).paddr, level - 1, v, va, k);
    }
    ListsSlot(m, mem, frame, level, base, 0, i, PteInfo(k, va, IsFinal(m, w, k), w));
  }

  lemma ChildWindow(m: Meta, level: nat, base: nat, va: nat)
    requires m.Wf() && m.HasLevel(level) && level > 1 && base % m.Span(level) == 0
    requires base <= va < base + m.Span(level)
    ensures var v := base + m.Index(va, level) * m.LevelSize(level); v <= va < v + m.Span(level - 1)
    ensures m.Index(va, level - 1) >= 0
  {
    SlotOf(m, level, base, va);
    m.SpanIs(level - 1);
    m.IndexInFrame(va, level - 1);
  }

  // Where the entry of an address starts.
  lemma SlotOf(m: Meta, level: nat, base: nat, va: nat)
    requires m.Wf() && m.HasLevel(level) && base % m.Span(level) == 0 && base <= va < base + m.Span(level)
    ensures var v := base + m.Index(va, level) * m.LevelSize(level);
            v <= va < v + m.LevelSize(level) && v == va - va % m.LevelSize(level)
  {
    var ls, fan, q := m.LevelSize(level), m.Fan(level), base / m.Span(level);
    m.SpanIs(level);
    DivModDef(base, m.Span(level));
    MulAssoc(q, fan, ls);
    DivModDef(va, ls);
    var n := va / ls - q * fan;
    assert va - base == n * ls + va % ls;
    if n < 0 {
      MulMono(n, -1, ls);
    } else if n >= fan {
      MulMono(fan, n, ls);
    }
    DivModUnique(va / ls, fan, q, n);
  }
}
