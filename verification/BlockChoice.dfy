/**
 Which entries mapping chooses: at every address of the mapped part the largest block that is
 allowed, lies inside the range and is aligned on both sides, and a page where there is none.
 */
module BlockChoice {
  import opened Arith
  import opened Paging
  import opened PageTree
  import opened MapSpec
  import opened MapHeap

  /** The level of the final entry that translates `va`, 0 if there is none. */
  ghost function LeafLevel(m: Meta, t: Tree, level: nat, va: int): nat
    requires m.HasLevel(level)
    decreases level
  {
    var i := m.Index(va, level);
    if i >= |t.slots| then 0
    else
      match t.slots[i]
      case Invalid => 0
      case Leaf(_, _) => level
      case Sub(c) => if level > 1 then LeafLevel(m, c, level - 1, va) else 0
  }

  /** May the next entry be a block? */
  predicate BlockFits(m: Meta, vaddr: nat, paddr: nat, remaining: int, level: nat, allowHuge: bool)
    requires m.HasLevel(level)
  {
    && allowHuge && level > 1 && level <= m.maxBlockLevel
    && m.LevelSize(level) <= remaining
    && vaddr % m.LevelSize(level) == 0 && paddr % m.LevelSize(level) == 0
  }

  /** The block of `level` around `va` may serve a mapping of [s, end) to `pa`. */
  ghost predicate Fits(m: Meta, level: nat, s: int, pa: int, end: int, allowHuge: bool, va: int)
    requires m.HasLevel(level)
  {
    var ls := m.LevelSize(level);
    var base := va - va % ls;
    && allowHuge && level > 1 && level <= m.maxBlockLevel
    && s <= base && base + ls <= end && (pa + (base - s)) % ls == 0
  }

  /** The largest level up to `level` that fits. */
  ghost function Best(m: Meta, level: nat, s: int, pa: int, end: int, allowHuge: bool, va: int): (r: nat)
    requires m.HasLevel(level)
    ensures 1 <= r <= level
    decreases level
  {
    if level == 1 || Fits(m, level, s, pa, end, allowHuge, va) then level
    else Best(m, level - 1, s, pa, end, allowHuge, va)
  }

  predicate OpenChosen(k: int) {
    true
  }

  ghost predicate Chosen(m: Meta, t: Tree, level: nat, s: int, n: nat, pa: int, end: int, allowHuge: bool) {
    forall k {:trigger OpenChosen(k)} :: OpenChosen(k) ==>
      && m.HasLevel(level)
      && forall va: int :: s <= va < s + n ==>
           LeafLevel(m, t, level, va) == Best(m, level, s, pa, end, allowHuge, va)
  }

  /** The loop of a table stands at `v`: at the start of the range or of an entry. */
  ghost predicate Choice(m: Meta, t: Tree, level: nat, s: int, pa: int, end: int, allowHuge: bool, v: int, done: nat) {
    && m.HasLevel(level)
    && Whole(Chosen(m, t, level, s, done, pa, end, allowHuge))
    && (v < end ==> v == s + done && (v == s || v % m.LevelSize(level) == 0))
  }

  lemma {:induction false} LevelKept(m: Meta, t: Tree, t': Tree, level: nat, va: int)
    requires m.HasLevel(level) && Extends(t, t') && LeafLevel(m, t, level, va) > 0
    ensures LeafLevel(m, t', level, va) == LeafLevel(m, t, level, va)
    decreases level
  {
    var i := m.Index(va, level);
    assert SlotExtends(t.slots[i], t'.slots[i]);
    if t.slots[i].Sub? {
      LevelKept(m, t.slots[i].table, t'.slots[i].table, level - 1, va);
    }
  }

  lemma ChosenKept(m: Meta, t: Tree, t': Tree, level: nat, s: int, n: nat, pa: int, end: int, allowHuge: bool)
    requires Whole(Chosen(m, t, level, s, n, pa, end, allowHuge)) && Whole(Extends(t, t'))
    ensures Chosen(m, t', level, s, n, pa, end, allowHuge)
  {
    assert OpenChosen(0);
    forall va: int | s <= va < s + n ensures LeafLevel(m, t', level, va) == Best(m, level, s, pa, end, allowHuge, va) {
      LevelKept(m, t, t', level, va);
    }
  }

  lemma ChosenNothing(m: Meta, t: Tree, level: nat, s: int, pa: int, end: int, allowHuge: bool)
    requires m.HasLevel(level)
    ensures Chosen(m, t, level, s, 0, pa, end, allowHuge)
  {
  }

  lemma PutExtends(t: Tree, i: nat, s: Slot)
    requires i < |t.slots| && t.slots[i].Invalid?
    ensures Extends(t, Put(t, i, s))
  {
    ExtendsRefl(t);
  }

  lemma {:induction false} ExtendsTrans(a: Tree, b: Tree, c: Tree)
    requires Whole(Extends(a, b)) && Whole(Extends(b, c))
    ensures Extends(a, c)
  {
    forall i | 0 <= i < |a.slots| ensures SlotExtends(a.slots[i], c.slots[i]) {
      SlotExtendsTrans(a.slots[i], b.slots[i], c.slots[i]);
    }
  }

  /** A final entry for `v` was put into a free slot. */
  ghost predicate FinalPut(m: Meta, t: Tree, t': Tree, level: nat, v: int)
    requires m.HasLevel(level)
  {
    Extends(t, t') && m.Index(v, level) < |t'.slots| && t'.slots[m.Index(v, level)].Leaf?
  }

  lemma PutIsFinal(m: Meta, t: Tree, level: nat, v: int, i: nat, s: Slot)
    requires m.HasLevel(level) && i == m.Index(v, level) < |t.slots| && t.slots[i].Invalid? && s.Leaf?
    ensures FinalPut(m, t, Put(t, i, s), level, v)
  {
    PutExtends(t, i, s);
  }

  // ----- a final entry -----

  lemma InEntry(v: int, va: int, ls: int)
    requires ls > 0 && v % ls == 0 && v <= va < v + ls
    ensures va / ls == v / ls && va - va % ls == v
  {
    DivModDef(v, ls);
    DivModUnique(va, ls, v / ls, va - v);
  }

  lemma FinalChosen(m: Meta, t: Tree, t': Tree, level: nat, s: int, done: nat, pa: int, end: int, allowHuge: bool,
                    v: nat, p: nat, total: nat)
    requires m.Wf() && m.HasLevel(level) && Whole(Choice(m, t, level, s, pa, end, allowHuge, v, done))
    requires v < end && p == pa + (v - s) && v % m.LevelSize(level) == 0 && total == done + m.LevelSize(level)
    requires level == 1 || BlockFits(m, v, p, end - v, level, allowHuge)
    requires Whole(Extends(t, t')) && m.Index(v, level) < |t'.slots| && t'.slots[m.Index(v, level)].Leaf?
    requires s <= v
    ensures Whole(Chosen(m, t', level, s, total, pa, end, allowHuge))
  {
    ChosenKept(m, t, t', level, s, done, pa, end, allowHuge);
    assert OpenChosen(0);
    forall va: int | s <= va < s + total
      ensures LeafLevel(m, t', level, va) == Best(m, level, s, pa, end, allowHuge, va)
    {
      if va >= v {
        InEntry(v, va, m.LevelSize(level));
      }
    }
    assert Chosen(m, t', level, s, total, pa, end, allowHuge);
  }

  // ----- a table -----

  lemma {:induction false} LevelMultiple(m: Meta, level: nat, low: nat)
    requires m.Wf() && m.HasLevel(level) && 1 <= low <= level
    ensures m.LevelSize(level) % m.LevelSize(low) == 0
    decreases level
  {
    var ls, lo := m.LevelSize(level), m.LevelSize(low);
    if low == level {
      DivModUnique(ls, lo, 1, 0);
    } else {
      LevelMultiple(m, level - 1, low);
      m.SpanIs(level - 1);
      var mid, fan := m.LevelSize(level - 1), m.Fan(level - 1);
      DivModDef(mid, lo);
      MulAssoc(fan, mid / lo, lo);
      DivModUnique(ls, lo, fan * (mid / lo), 0);
    }
  }

  lemma MultipleDown(x: int, ls: int, lo: int)
    requires lo > 0 && ls > 0 && ls % lo == 0 && x % ls == 0
    ensures x % lo == 0
  {
    DivModDef(x, ls);
    DivModDef(ls, lo);
    MulAssoc(x / ls, ls / lo, lo);
    DivModUnique(x, lo, (x / ls) * (ls / lo), 0);
  }

  /** Between multiples of `lo` at `x` and `y`, the lower entry around `va` does not stick out. */
  lemma BaseWithin(va: int, x: int, y: int, lo: int)
    requires lo > 0 && x % lo == 0 && y % lo == 0 && x <= va < y
    ensures x <= va - va % lo && va - va % lo + lo <= y
  {
    var base := va - va % lo;
    DivModDef(va, lo);
    DivModUnique(base, lo, va / lo, 0);
    if base < x {
      MultipleGap(base, x, lo);
    }
    MultipleGap(base, y, lo);
  }

  lemma FitsBelow(m: Meta, level: nat, low: nat, s: int, pa: int, end: int, allowHuge: bool, v: int, p: int, next: int,
                  va: int)
    requires m.Wf() && m.HasLevel(level) && 1 <= low < level
    requires s <= v <= va && va / m.LevelSize(level) == v / m.LevelSize(level)
    requires v == s || v % m.LevelSize(level) == 0
    requires p == pa + (v - s) && next == Min((v / m.LevelSize(level) + 1) * m.LevelSize(level), end)
    ensures Fits(m, low, v, p, next, allowHuge, va) <==> Fits(m, low, s, pa, end, allowHuge, va)
  {
    var ls, lo := m.LevelSize(level), m.LevelSize(low);
    var q := v / ls;
    LevelMultiple(m, level, low);
    DivModDef(v, ls);
    DivModDef(va, ls);
    assert (q + 1) * ls == q * ls + ls;
    DivModUnique(q * ls, ls, q, 0);
    DivModUnique((q + 1) * ls, ls, q + 1, 0);
    MultipleDown(q * ls, ls, lo);
    MultipleDown((q + 1) * ls, ls, lo);
    BaseWithin(va, q * ls, (q + 1) * ls, lo);
  }

  lemma {:induction false} BestBelow(m: Meta, level: nat, low: nat, s: int, pa: int, end: int, allowHuge: bool,
                                     v: int, p: int, next: int, va: int)
    requires m.Wf() && m.HasLevel(level) && 1 <= low < level
    requires s <= v <= va && va / m.LevelSize(level) == v / m.LevelSize(level)
    requires v == s || v % m.LevelSize(level) == 0
    requires p == pa + (v - s) && next == Min((v / m.LevelSize(level) + 1) * m.LevelSize(level), end)
    ensures Best(m, low, v, p, next, allowHuge, va) == Best(m, low, s, pa, end, allowHuge, va)
    decreases low
  {
    FitsBelow(m, level, low, s, pa, end, allowHuge, v, p, next, va);
    if low > 1 {
      BestBelow(m, level, low - 1, s, pa, end, allowHuge, v, p, next, va);
    }
  }

  /** Where the loop descends, the entry of its own level does not fit. */
  lemma NoFit(m: Meta, level: nat, s: int, pa: int, end: int, allowHuge: bool, v: nat, p: nat, va: int)
    requires m.Wf() && m.HasLevel(level) && s <= v <= va && va / m.LevelSize(level) == v / m.LevelSize(level)
    requires v == s || v % m.LevelSize(level) == 0
    requires p == pa + (v - s) && !BlockFits(m, v, p, end - v, level, allowHuge)
    ensures !Fits(m, level, s, pa, end, allowHuge, va)
  {
    var ls := m.LevelSize(level);
    DivModDef(v, ls);
    DivModDef(va, ls);
  }

  lemma TableChosen(m: Meta, t: Tree, t': Tree, c': Tree, level: nat, s: int, done: nat, pa: int, end: int,
                    allowHuge: bool, v: nat, p: nat, next: int, n: nat, total: nat)
    requires m.Wf() && m.HasLevel(level) && level > 1 && Whole(Choice(m, t, level, s, pa, end, allowHuge, v, done))
    requires s <= v < end && p == pa + (v - s) && total == done + n
    requires next == Min((v / m.LevelSize(level) + 1) * m.LevelSize(level), end)
    requires v % m.LevelSize(level) + n <= m.LevelSize(level) && !BlockFits(m, v, p, end - v, level, allowHuge)
    requires Whole(Extends(t, t')) && m.Index(v, level) < |t'.slots| && t'.slots[m.Index(v, level)] == Sub(c')
    requires Whole(Chosen(m, c', level - 1, v, n, p, next, allowHuge))
    ensures Whole(Chosen(m, t', level, s, total, pa, end, allowHuge))
  {
    ChosenKept(m, t, t', level, s, done, pa, end, allowHuge);
    assert OpenChosen(0);
    forall va: int | s <= va < s + total
      ensures LeafLevel(m, t', level, va) == Best(m, level, s, pa, end, allowHuge, va)
    {
      if va >= v {
        var ls := m.LevelSize(level);
        DivModDef(v, ls);
        DivModUnique(va, ls, v / ls, v % ls + (va - v));
        NoFit(m, level, s, pa, end, allowHuge, v, p, va);
        BestBelow(m, level, level - 1, s, pa, end, allowHuge, v, p, next, va);
      }
    }
    assert Chosen(m, t', level, s, total, pa, end, allowHuge);
  }

  // ----- the loop of a table -----

  lemma LoopFacts(m: Meta, j: Job, mem: FrameMemory, free: set<nat>, end: int, top: int, at: Pos, allowHuge: bool,
                  template: PteConfig)
    requires Whole(LoopState(m, j, mem, free, end, top, at, allowHuge, template)) && at.vaddr < end
    ensures m.Wf() && m.HasLevel(j.level) && at.done >= 0 && end < USIZE_LIMIT
    ensures j.start <= at.vaddr && at.paddr == j.pa + (at.vaddr - j.start) && at.done == at.vaddr - j.start
    ensures m.OnPage(at.vaddr)
  {
  }

  lemma AfterFinal(m: Meta, j: Job, mem: FrameMemory, free: set<nat>, end: int, top: int, at: Pos, allowHuge: bool,
                   template: PteConfig, t': Tree, v: nat, p: nat, at': Pos)
    requires Whole(LoopState(m, j, mem, free, end, top, at, allowHuge, template)) && at.vaddr == v < end
    requires at.paddr == p
    requires m.HasLevel(j.level) && (j.level == 1 || BlockFits(m, v, p, end - v, j.level, allowHuge))
    requires at.done >= 0 && Whole(Choice(m, j.Now(m, mem), j.level, j.start, j.pa, end, allowHuge, v, at.done))
    requires Whole(FinalPut(m, j.Now(m, mem), t', j.level, v))
    requires at' == Advance(at, m.LevelSize(j.level), m.LevelSize(j.level))
    ensures at'.done >= 0 && Choice(m, t', j.level, j.start, j.pa, end, allowHuge, at'.vaddr, at'.done)
  {
    var ls := m.LevelSize(j.level);
    LoopFacts(m, j, mem, free, end, top, at, allowHuge, template);
    FinalChosen(m, j.Now(m, mem), t', j.level, j.start, at.done, j.pa, end, allowHuge, v, p, at'.done);
    ModAddMul(v, 1, ls);
  }

  /** The loop goes on behind a final entry. */
  /** `config` describes a final entry of `level` that leads to `paddr`. */
  ghost predicate FinalConfig(m: Meta, config: PteConfig, paddr: nat, level: nat, attrs: Attrs) {
    && config.valid && config.paddr == paddr && config.isDir == config.huge == (level > 1)
    && m.codec.encodable(config) && AttrsOf(config) == attrs
  }

  lemma FinalReady(m: Meta, j: Job, mem: FrameMemory, free: set<nat>, end: int, top: int, at: Pos, allowHuge: bool,
                   template: PteConfig, p: nat, config: PteConfig)
    requires Whole(LoopState(m, j, mem, free, end, top, at, allowHuge, template)) && at.vaddr < end && at.paddr == p
    requires at.vaddr >= 0 && m.HasLevel(j.level)
    requires j.level == 1 || BlockFits(m, at.vaddr, p, end - at.vaddr, j.level, allowHuge)
    requires config == if j.level > 1 then BlockPte(template, p) else PagePte(template, p)
    ensures FinalConfig(m, config, p, j.level, AttrsOf(template))
    ensures at.vaddr == j.start + at.done && p == j.pa + at.done && at.vaddr % m.LevelSize(j.level) == 0
    ensures j.attrs == m.codec.keeps(AttrsOf(template))
  {
    AtFinal(m, j, end, top, at, j.level);
  }

  lemma FinalDone(m: Meta, j: Job, mem: FrameMemory, free: set<nat>, end: int, top: int, at: Pos, allowHuge: bool,
                  template: PteConfig, mem': FrameMemory, free': set<nat>, v: nat, p: nat, at': Pos)
    requires Whole(LoopState(m, j, mem, free, end, top, at, allowHuge, template)) && at.vaddr == v < end
    requires at.paddr == p
    requires m.HasLevel(j.level) && (j.level == 1 || BlockFits(m, v, p, end - v, j.level, allowHuge))
    requires at.done >= 0 && Whole(Choice(m, j.Now(m, mem), j.level, j.start, j.pa, end, allowHuge, v, at.done))
    requires Whole(FinalPut(m, j.Now(m, mem), j.Now(m, mem'), j.level, v))
    requires at' == Advance(at, m.LevelSize(j.level), m.LevelSize(j.level))
    requires at'.done >= 0 && Whole(MapState(m, j, mem', free', at'.done))
    ensures LoopState(m, j, mem', free', end, top, at', allowHuge, template)
    ensures at'.done >= 0 && Choice(m, j.Now(m, mem'), j.level, j.start, j.pa, end, allowHuge, at'.vaddr, at'.done)
  {
    AtFinal(m, j, end, top, at, j.level);
    AfterFinal(m, j, mem, free, end, top, at, allowHuge, template, j.Now(m, mem'), v, p, at');
    LoopNext(m, j, mem, free, end, top, at, allowHuge, template, mem', free', at');
  }

  lemma AfterTable(m: Meta, j: Job, mem: FrameMemory, free: set<nat>, end: int, top: int, at: Pos, allowHuge: bool,
                   template: PteConfig, t': Tree, c': Tree, v: nat, p: nat, next: int, n: nat, at': Pos)
    requires Whole(LoopState(m, j, mem, free, end, top, at, allowHuge, template)) && at.vaddr == v < end
    requires at.paddr == p
    requires m.HasLevel(j.level) && j.level > 1 && !BlockFits(m, v, p, end - v, j.level, allowHuge)
    requires at.done >= 0 && Whole(Choice(m, j.Now(m, mem), j.level, j.start, j.pa, end, allowHuge, v, at.done))
    requires Whole(Extends(j.Now(m, mem), t')) && m.Index(v, j.level) < |t'.slots|
    requires t'.slots[m.Index(v, j.level)] == Sub(c')
    requires next == EntryEnd(m, v, end, j.level) && v % m.LevelSize(j.level) + n <= m.LevelSize(j.level)
    requires Whole(Chosen(m, c', j.level - 1, v, n, p, next, allowHuge))
    requires at'.done == at.done + n
    ensures Chosen(m, t', j.level, j.start, at'.done, j.pa, end, allowHuge)
    ensures Whole(At(m, j, end, top, at')) && at'.vaddr == next ==>
              Choice(m, t', j.level, j.start, j.pa, end, allowHuge, at'.vaddr, at'.done)
  {
    LoopFacts(m, j, mem, free, end, top, at, allowHuge, template);
    EntryEndIs(m, v, end, j.level);
    EntryAround(m, v, j.level);
    TableChosen(m, j.Now(m, mem), t', c', j.level, j.start, at.done, j.pa, end, allowHuge, v, p, next, n, at'.done);
  }
}
