/**
 What a walk over a page table lists: the entries of each table in order, each table
 pointer followed by the entries of the table it points to.
 */
module WalkSpec {
  import opened Arith
  import opened Options
  import opened Paging
  import opened PageTree
  import opened MapHeap

  /** `PteInfo` */
  datatype PteInfo = PteInfo(level: nat, vaddr: int, isFinal: bool, pte: Word)

  function InfoOf(m: Meta, w: Word, level: nat, vaddr: int): PteInfo {
    var c := m.codec.toConfig(w, level > 1);
    PteInfo(level, vaddr, c.valid && (c.huge || level == 1), w)
  }

  /** The entries of the table from index `i` on, in the order of the walk; an entry below
      `start` is skipped together with everything under it. */
  ghost function Entries(m: Meta, mem: FrameMemory, frame: nat, level: nat, base: int, i: nat, start: int): seq<PteInfo>
    requires m.HasLevel(level)
    decreases level, m.len - i
  {
    if i >= m.len || frame !in mem || i >= |mem[frame]| then []
    else
      var w := mem[frame][i];
      var vaddr := base + i * m.LevelSize(level);
      var rest := Entries(m, mem, frame, level, base, i + 1, start);
      if vaddr < start then rest
      else
        var c := m.codec.toConfig(w, level > 1);
        var below :=
          if c.valid && !c.huge && level > 1 then Entries(m, mem, c.paddr, level - 1, vaddr, 0, start) else [];
        [InfoOf(m, w, level, vaddr)] + below + rest
  }

  /** The walk ends at the first entry at or past `end`. */
  function Cut(s: seq<PteInfo>, end: int): seq<PteInfo> {
    if s == [] || s[0].vaddr >= end then [] else [s[0]] + Cut(s[1..], end)
  }

  /** What `walk_valid` keeps. */
  function Finals(m: Meta, s: seq<PteInfo>): seq<PteInfo> {
    if s == [] then []
    else (if m.codec.toConfig(s[0].pte, false).valid && s[0].isFinal then [s[0]] else []) + Finals(m, s[1..])
  }

  lemma {:induction false} FinalsConcat(m: Meta, a: seq<PteInfo>, b: seq<PteInfo>)
    ensures Finals(m, a + b) == Finals(m, a) + Finals(m, b)
  {
    if a == [] {
      assert a + b == b;
    } else {
      assert (a + b)[1..] == a[1..] + b;
      FinalsConcat(m, a[1..], b);
    }
  }

  // ----- the same on trees -----

  /** A final entry: `size` bytes at `vaddr` translate to `pa` on. */
  datatype Extent = Extent(level: nat, vaddr: int, size: nat, pa: nat, attrs: Attrs)

  ghost function SlotExtents(m: Meta, s: Slot, level: nat, vaddr: int): seq<Extent>
    requires m.HasLevel(level)
    decreases level, 0
  {
    match s
    case Invalid => []
    case Leaf(pa, attrs) => [Extent(level, vaddr, m.LevelSize(level), pa, attrs)]
    case Sub(c) => if level > 1 then Extents(m, c, level - 1, vaddr, 0) else []
  }

  ghost function Extents(m: Meta, t: Tree, level: nat, base: int, i: nat): seq<Extent>
    requires m.HasLevel(level)
    decreases level, m.len - i + 1
  {
    if i >= m.len || i >= |t.slots| then []
    else SlotExtents(m, t.slots[i], level, base + i * m.LevelSize(level)) + Extents(m, t, level, base, i + 1)
  }

  ghost function ExtentOf(m: Meta, p: PteInfo): Extent
    requires m.HasLevel(p.level)
  {
    var c := m.codec.toConfig(p.pte, p.level > 1);
    Extent(p.level, p.vaddr, m.LevelSize(p.level), c.paddr, AttrsOf(c))
  }

  /** `es` are the extents of the listed entries, one by one. */
  ghost predicate Describes(m: Meta, ps: seq<PteInfo>, es: seq<Extent>) {
    |ps| == |es| && forall k :: 0 <= k < |ps| ==> m.HasLevel(ps[k].level) && ExtentOf(m, ps[k]) == es[k]
  }

  lemma DescribesConcat(m: Meta, ps: seq<PteInfo>, es: seq<Extent>, qs: seq<PteInfo>, fs: seq<Extent>)
    requires Describes(m, ps, es) && Describes(m, qs, fs)
    ensures Describes(m, ps + qs, es + fs)
  {
  }

  /** One entry, with what lies under it. */
  lemma EntryDescribes(m: Meta, mem: FrameMemory, frame: nat, level: nat, i: nat, vaddr: int, below: seq<PteInfo>)
    requires m.Wf() && m.HasLevel(level) && frame in mem && i < |mem[frame]|
    requires var c := m.codec.toConfig(mem[frame][i], level > 1);
             if c.valid && !c.huge && level > 1
             then Describes(m, Finals(m, below), Extents(m, Abs(m, mem, c.paddr, level - 1), level - 1, vaddr, 0))
             else below == []
    ensures Describes(m, Finals(m, [InfoOf(m, mem[frame][i], level, vaddr)] + below),
                      SlotExtents(m, Abs(m, mem, frame, level).slots[i], level, vaddr))
  {
    var w := mem[frame][i];
    var info := InfoOf(m, w, level, vaddr);
    SlotOfWord(m, mem, frame, level, i);
    FinalsConcat(m, [info], below);
    assert Lawful(m.codec);
    assert m.codec.toConfig(w, false).valid == m.codec.valid(w) == m.codec.toConfig(w, level > 1).valid;
    assert Finals(m, [info]) == if info.isFinal then [info] else [];
    assert [] + Finals(m, below) == Finals(m, below);
  }

  /** Listing a table from address 0 on and keeping the final entries gives its extents. */
  lemma {:induction false} FinalsAreExtents(m: Meta, mem: FrameMemory, frame: nat, level: nat, base: nat, i: nat)
    requires m.Wf() && Wf(m, Abs(m, mem, frame, level), level) && i <= m.len
    ensures Describes(m, Finals(m, Entries(m, mem, frame, level, base, i, 0)),
                      Extents(m, Abs(m, mem, frame, level), level, base, i))
    decreases level, m.len - i
  {
    var t := Abs(m, mem, frame, level);
    m.IndexInFrame(0, level);
    if i < m.len {
      var vaddr := base + i * m.LevelSize(level);
      var c := m.codec.toConfig(mem[frame][i], level > 1);
      MulMono(0, i, m.LevelSize(level));
      if c.valid && !c.huge && level > 1 {
        SlotOfWord(m, mem, frame, level, i);
        assert WfSlot(m, t.slots[i], level);
        FinalsAreExtents(m, mem, c.paddr, level - 1, vaddr, 0);
      }
      FinalsAreExtents(m, mem, frame, level, base, i + 1);
      EntriesFrom(m, mem, frame, level, base, i, vaddr);
      StepDescribes(m, mem, frame, level, base, i, vaddr, Below(m, mem, frame, level, i, vaddr));
    }
  }

  /** What a walk from 0 lists under entry `i`. */
  ghost function Below(m: Meta, mem: FrameMemory, frame: nat, level: nat, i: nat, v: int): seq<PteInfo>
    requires m.HasLevel(level) && frame in mem && i < |mem[frame]|
  {
    var c := m.codec.toConfig(mem[frame][i], level > 1);
    if c.valid && !c.huge && level > 1 then Entries(m, mem, c.paddr, level - 1, v, 0, 0) else []
  }

  lemma EntriesFrom(m: Meta, mem: FrameMemory, frame: nat, level: nat, base: nat, i: nat, v: int)
    requires m.HasLevel(level) && frame in mem && i < |mem[frame]| && i < m.len
    requires v == base + i * m.LevelSize(level) >= 0
    ensures Entries(m, mem, frame, level, base, i, 0) ==
            [InfoOf(m, mem[frame][i], level, v)] + Below(m, mem, frame, level, i, v)
            + Entries(m, mem, frame, level, base, i + 1, 0)
  {
  }

  lemma StepDescribes(m: Meta, mem: FrameMemory, frame: nat, level: nat, base: nat, i: nat, v: int,
                      below: seq<PteInfo>)
    requires m.Wf() && m.HasLevel(level) && frame in mem && i < |mem[frame]| && i < m.len
    requires v == base + i * m.LevelSize(level)
    requires var c := m.codec.toConfig(mem[frame][i], level > 1);
             if c.valid && !c.huge && level > 1
             then Describes(m, Finals(m, below), Extents(m, Abs(m, mem, c.paddr, level - 1), level - 1, v, 0))
             else below == []
    requires Describes(m, Finals(m, Entries(m, mem, frame, level, base, i + 1, 0)),
                       Extents(m, Abs(m, mem, frame, level), level, base, i + 1))
    ensures Describes(m, Finals(m, [InfoOf(m, mem[frame][i], level, v)] + below
                                   + Entries(m, mem, frame, level, base, i + 1, 0)),
                      Extents(m, Abs(m, mem, frame, level), level, base, i))
  {
    var head, rest := [InfoOf(m, mem[frame][i], level, v)] + below, Entries(m, mem, frame, level, base, i + 1, 0);
    var t := Abs(m, mem, frame, level);
    EntryDescribes(m, mem, frame, level, i, v, below);
    FinalsConcat(m, head, rest);
    DescribesConcat(m, Finals(m, head), SlotExtents(m, t.slots[i], level, v),
                    Finals(m, rest), Extents(m, t, level, base, i + 1));
  }

  // ----- what the extents say about the table -----

  /** Non-empty, inside [lo, hi), in strictly increasing order, without overlap. */
  predicate Ordered(es: seq<Extent>, lo: int, hi: int) {
    && (forall k :: 0 <= k < |es| ==> lo <= es[k].vaddr && es[k].size > 0 && es[k].vaddr + es[k].size <= hi)
    && (forall j, k :: 0 <= j < k < |es| ==> es[j].vaddr + es[j].size <= es[k].vaddr)
  }

  lemma OrderedConcat(a: seq<Extent>, b: seq<Extent>, lo: int, mid: int, hi: int)
    requires Ordered(a, lo, mid) && Ordered(b, mid, hi) && lo <= mid <= hi
    ensures Ordered(a + b, lo, hi)
  {
  }

  predicate Covers(e: Extent, va: int) {
    e.vaddr <= va < e.vaddr + e.size
  }

  /** Over its whole extent, an entry is what the table translates. */
  ghost predicate Agrees(m: Meta, t: Tree, level: nat, es: seq<Extent>)
    requires m.HasLevel(level)
  {
    forall k, va: int :: 0 <= k < |es| && Covers(es[k], va) ==>
      Lookup(m, t, level, va) == Some(Hit(es[k].pa + (va - es[k].vaddr), es[k].attrs))
  }

  predicate SomeCovers(es: seq<Extent>, va: int) {
    exists k :: 0 <= k < |es| && Covers(es[k], va)
  }

  /** Slot `i` of the table at `base` covers [base + i * ls, base + (i + 1) * ls). */
  lemma SlotAddress(m: Meta, level: nat, base: int, i: nat, va: int)
    requires m.Wf() && m.HasLevel(level) && base % m.Span(level) == 0 && i < m.Fan(level)
    ensures base + (i + 1) * m.LevelSize(level) == base + i * m.LevelSize(level) + m.LevelSize(level)
    ensures base + (i + 1) * m.LevelSize(level) <= base + m.Span(level)
    ensures (base + i * m.LevelSize(level)) % m.LevelSize(level) == 0
    ensures base + i * m.LevelSize(level) <= va < base + (i + 1) * m.LevelSize(level) ==>
              m.Index(va, level) == i && va % m.LevelSize(level) == va - (base + i * m.LevelSize(level))
  {
    var ls, fan, q := m.LevelSize(level), m.Fan(level), base / m.Span(level);
    m.SpanIs(level);
    DivModDef(base, m.Span(level));
    MulAssoc(q, fan, ls);
    assert (i + 1) * ls == i * ls + ls;
    MulMono(i + 1, fan, ls);
    assert base + i * ls == (q * fan + i) * ls;
    DivModUnique(base + i * ls, ls, q * fan + i, 0);
    if base + i * ls <= va < base + (i + 1) * ls {
      DivModUnique(va, ls, q * fan + i, va - (base + i * ls));
      DivModUnique(q * fan + i, fan, q, i);
    }
  }

  /** `es` list exactly what the table translates in [lo, hi). */
  ghost predicate Lists(m: Meta, t: Tree, level: nat, es: seq<Extent>, lo: int, hi: int)
    requires m.HasLevel(level)
  {
    && Ordered(es, lo, hi)
    && Agrees(m, t, level, es)
    && (forall va: int :: lo <= va < hi && Lookup(m, t, level, va).Some? ==> SomeCovers(es, va))
  }

  lemma ListsConcat(m: Meta, t: Tree, level: nat, a: seq<Extent>, b: seq<Extent>, lo: int, mid: int, hi: int)
    requires m.HasLevel(level) && lo <= mid <= hi
    requires Lists(m, t, level, a, lo, mid) && Lists(m, t, level, b, mid, hi)
    ensures Lists(m, t, level, a + b, lo, hi)
  {
    OrderedConcat(a, b, lo, mid, hi);
    AgreesConcat(m, t, level, a, b);
    forall va: int | lo <= va < hi && Lookup(m, t, level, va).Some? ensures SomeCovers(a + b, va) {
      CoversConcat(a, b, va);
    }
  }

  lemma LeafLists(m: Meta, t: Tree, level: nat, v: int, pa: nat, attrs: Attrs)
    requires m.Wf() && m.HasLevel(level)
    requires forall va: int :: v <= va < v + m.LevelSize(level) ==>
               Lookup(m, t, level, va) == Some(Hit(pa + (va - v), attrs))
    ensures Lists(m, t, level, [Extent(level, v, m.LevelSize(level), pa, attrs)], v, v + m.LevelSize(level))
  {
    var es := [Extent(level, v, m.LevelSize(level), pa, attrs)];
    forall va: int | v <= va < v + m.LevelSize(level) ensures SomeCovers(es, va) {
      assert Covers(es[0], va);
    }
  }

  lemma SubLists(m: Meta, t: Tree, c: Tree, level: nat, below: nat, es: seq<Extent>, lo: int, hi: int)
    requires m.HasLevel(level) && m.HasLevel(below) && Lists(m, c, below, es, lo, hi)
    requires forall va: int :: lo <= va < hi ==> Lookup(m, t, level, va) == Lookup(m, c, below, va)
    ensures Lists(m, t, level, es, lo, hi)
  {
  }

  lemma {:induction false} SlotLists(m: Meta, t: Tree, level: nat, base: int, i: nat, v: int)
    requires m.Wf() && Wf(m, t, level) && base % m.Span(level) == 0 && i < m.Fan(level) && i < |t.slots|
    requires v == base + i * m.LevelSize(level)
    ensures Lists(m, t, level, SlotExtents(m, t.slots[i], level, v), v, v + m.LevelSize(level))
    decreases level, m.len - i, 0
  {
    var ls := m.LevelSize(level);
    var s := t.slots[i];
    SlotAddress(m, level, base, i, v);
    forall va: int | v <= va < v + ls
      ensures Lookup(m, t, level, va) == SlotLookup(m, s, level, va) && va % ls == va - v
    {
      SlotAddress(m, level, base, i, va);
    }
    assert WfSlot(m, s, level);
    match s
    case Invalid =>
    case Leaf(pa, attrs) =>
      LeafLists(m, t, level, v, pa, attrs);
    case Sub(c) =>
      ExtentsList(m, c, level - 1, v, 0, v);
      SubLists(m, t, c, level, level - 1, Extents(m, c, level - 1, v, 0), v, v + ls);
  }

  /** The extents from slot `i` on list exactly what the table translates from there on. */
  lemma {:induction false} ExtentsList(m: Meta, t: Tree, level: nat, base: int, i: nat, v: int)
    requires m.Wf() && Wf(m, t, level) && base % m.Span(level) == 0 && i <= m.Fan(level)
    requires v == base + i * m.LevelSize(level)
    ensures Lists(m, t, level, Extents(m, t, level, base, i), v, base + m.Span(level))
    decreases level, m.len - i, 1
  {
    m.IndexInFrame(0, level);
    if i == m.Fan(level) {
      m.SpanIs(level);
      NoMoreExtents(m, t, level, base, i);
    } else {
      var mid := base + (i + 1) * m.LevelSize(level);
      SlotAddress(m, level, base, i, v);
      SlotLists(m, t, level, base, i, v);
      ExtentsList(m, t, level, base, i + 1, mid);
      ListsConcat(m, t, level, SlotExtents(m, t.slots[i], level, v), Extents(m, t, level, base, i + 1),
                  v, mid, base + m.Span(level));
    }
  }

  lemma {:induction false} NoMoreExtents(m: Meta, t: Tree, level: nat, base: int, i: nat)
    requires Wf(m, t, level) && m.Fan(level) <= i
    ensures Extents(m, t, level, base, i) == []
    decreases m.len - i
  {
    if i < m.len {
      NoMoreExtents(m, t, level, base, i + 1);
    }
  }

  lemma AgreesConcat(m: Meta, t: Tree, level: nat, a: seq<Extent>, b: seq<Extent>)
    requires m.HasLevel(level) && Agrees(m, t, level, a) && Agrees(m, t, level, b)
    ensures Agrees(m, t, level, a + b)
  {
  }

  lemma CoversConcat(a: seq<Extent>, b: seq<Extent>, va: int)
    ensures SomeCovers(a + b, va) <==> SomeCovers(a, va) || SomeCovers(b, va)
  {
    if SomeCovers(a, va) {
      var k :| 0 <= k < |a| && Covers(a[k], va);
      assert Covers((a + b)[k], va);
    }
    if SomeCovers(b, va) {
      var k :| 0 <= k < |b| && Covers(b[k], va);
      assert Covers((a + b)[|a| + k], va);
    }
  }
}
