/**
 `Frame::map_range_recursive`: maps a range through one table and the tables below it,
 choosing blocks where it may and creating tables where it must.
 */
module PageMap {
  import opened Arith
  import opened Paging
  import opened PageTree
  import opened MapSpec
  import opened MapHeap
  import opened BlockChoice
  import opened FrameStores

  /** Writes a final entry for `vaddr`, unless the entry is taken. */
  method PutFinal(m: Meta, st: FrameStore, frame: nat, vaddr: nat, paddr: nat, level: nat, allowHuge: bool,
                  config: PteConfig, ghost attrs: Attrs, ghost j: Job, ghost done: nat)
    returns (r: Result<()>)
    requires Whole(MapState(m, j, st.mem, st.free, done))
    requires j.level == level && j.t.frame == frame && j.attrs == m.codec.keeps(attrs)
    requires vaddr == j.start + done && paddr == j.pa + done && vaddr % m.LevelSize(level) == 0
    requires Whole(FinalConfig(m, config, paddr, level, attrs))
    requires level > 1 ==> allowHuge && level <= m.maxBlockLevel
    modifies st
    ensures st.free == old(st.free) && st.asked == old(st.asked)
    ensures Whole(Stems(m, attrs, old(st.mem), st.mem))
    ensures r.Ok? ==> Whole(MapState(m, j, st.mem, st.free, done + m.LevelSize(level)))
    ensures r.Ok? ==> Whole(FinalPut(m, old(j.Now(m, st.mem)), j.Now(m, st.mem), level, vaddr))
    ensures r.Err? ==> st.mem == old(st.mem) && r.error.MappingConflict?
    ensures r.Err? ==> Whole(Explains(m, r.error, j.Now(m, st.mem), level, vaddr, paddr, allowHuge))
  {
    var index := m.Index(vaddr, level);
    ghost var mem1 := st.mem;
    m.IndexInFrame(vaddr, level);
    assert frame in st.mem && |st.mem[frame]| == m.len;
    if m.codec.valid(st.mem[frame][index]) {
      SlotOfWord(m, st.mem, frame, level, index);
      assert Explains(m, MappingConflict(vaddr, paddr), j.Now(m, st.mem), level, vaddr, paddr, allowHuge);
      StemsSame(m, attrs, st.mem);
      return Err(MappingConflict(vaddr, paddr));
    }
    var w := m.codec.fromConfig(config);
    st.Write(frame, index, w);
    StemsWrite(m, config, mem1, frame, index);
    DecodeFinal(m, st.mem, config, level);
    StateLeaf(m, j, mem1, st.free, done, vaddr, paddr, st.mem, index, w);
    PutIsFinal(m, j.Now(m, mem1), level, vaddr, index, Leaf(paddr, j.attrs));
    return Ok(());
  }

  /** Links a new table into the free entry of `vaddr`. */
  method NewTable(m: Meta, st: FrameStore, frame: nat, vaddr: nat, index: nat, level: nat, template: PteConfig,
                   ghost j: Job, ghost done: nat)
    returns (r: Result<nat>)
    requires Whole(MapState(m, j, st.mem, st.free, done))
    requires j.level == level > 1 && j.t.frame == frame && vaddr == j.start + done && index == m.Index(vaddr, level)
    requires frame in st.mem && index < |st.mem[frame]| && !m.codec.valid(st.mem[frame][index])
    requires CanLink(m, template, st.free)
    modifies st
    ensures r.Ok? ==> Whole(LinkState(m, j, st.mem, st.free, done, index, r.value))
    ensures r.Ok? ==> Whole(Extends(old(j.Now(m, st.mem)), j.Now(m, st.mem)))
    ensures r.Err? ==> st.mem == old(st.mem) && st.free == old(st.free) && r.error == NoMemory && st.Refused()
    ensures st.free <= old(st.free) && st.Requests() == old(st.Requests()) + Refusals(r)
    ensures Whole(Stems(m, AttrsOf(template), old(st.mem), st.mem))
  {
    ghost var mem1, free1 := st.mem, st.free;
    var made := st.NewFrame(m.len);
    if made.Err? {
      StemsSame(m, AttrsOf(template), st.mem);
      return Err(made.error);
    }
    ghost var mem2 := st.mem;
    var config := TablePte(template, made.value);
    st.Write(frame, index, m.codec.fromConfig(config));
    StemsNew(m, AttrsOf(template), mem1, made.value, m.len);
    StemsWrite(m, config, mem2, frame, index);
    StemsTrans(m, AttrsOf(template), mem1, mem2, st.mem);
    DecodeTable(m, st.mem, template, made.value, level);
    StateLink(m, j, mem1, free1, done, vaddr, st.mem, index, m.codec.fromConfig(config), made.value);
    PutExtends(j.Now(m, mem1), index, Sub(Abs(m, st.mem, made.value, level - 1)));
    return Ok(made.value);
  }

  /** The table below the entry of `vaddr`; created and linked if there is none. */
  method OpenTable(m: Meta, st: FrameStore, frame: nat, vaddr: nat, level: nat, template: PteConfig,
                   ghost j: Job, ghost done: nat, ghost paddr: nat, ghost allowHuge: bool)
    returns (r: Result<nat>)
    requires Whole(MapState(m, j, st.mem, st.free, done))
    requires j.level == level > 1 && j.t.frame == frame && vaddr == j.start + done
    requires CanLink(m, template, st.free)
    modifies st
    ensures r.Ok? ==> Whole(LinkState(m, j, st.mem, st.free, done, m.Index(vaddr, level), r.value))
    ensures r.Ok? ==> Whole(Extends(old(j.Now(m, st.mem)), j.Now(m, st.mem)))
    ensures r.Err? ==> Whole(MapState(m, j, st.mem, st.free, done)) && st.mem == old(st.mem)
    ensures r.Err? ==> Whole(Explains(m, r.error, j.Now(m, st.mem), level, vaddr, paddr, allowHuge))
    ensures r == Err(NoMemory) ==> st.Refused()
    ensures st.free <= old(st.free) && st.Requests() == old(st.Requests()) + Refusals(r)
    ensures Whole(Stems(m, AttrsOf(template), old(st.mem), st.mem))
  {
    var index := m.Index(vaddr, level);
    m.IndexInFrame(vaddr, level);
    assert frame in st.mem && |st.mem[frame]| == m.len;
    SlotOfWord(m, st.mem, frame, level, index);
    var current := m.codec.toConfig(st.mem[frame][index], true);
    if current.valid {
      StemsSame(m, AttrsOf(template), st.mem);
      if current.huge {
        assert Explains(m, HierarchyError, j.Now(m, st.mem), level, vaddr, paddr, allowHuge);
        return Err(HierarchyError);
      }
      StateDescend(m, j, st.mem, st.free, done, index, current.paddr);
      ExtendsRefl(j.Now(m, st.mem));
      return Ok(current.paddr);
    }
    assert Explains(m, NoMemory, j.Now(m, st.mem), level, vaddr, paddr, allowHuge);
    r := NewTable(m, st, frame, vaddr, index, level, template, j, done);
  }

  /** One round of the loop that ends in a final entry: a block, or a page at level 1. */
  method MapFinal(m: Meta, st: FrameStore, frame: nat, vaddr: nat, paddr: nat, level: nat, allowHuge: bool,
                  template: PteConfig, ghost j: Job, ghost end: nat, ghost top: nat, ghost at: Pos)
    returns (r: Result<()>, ghost at': Pos)
    requires Whole(LoopState(m, j, st.mem, st.free, end, top, at, allowHuge, template))
    requires at.vaddr == vaddr < end && at.paddr == paddr && j.level == level && j.t.frame == frame
    requires level == 1 || BlockFits(m, vaddr, paddr, end - vaddr, level, allowHuge)
    requires at.done >= 0
    requires Whole(Choice(m, j.Now(m, st.mem), level, j.start, j.pa, end, allowHuge, vaddr, at.done))
    modifies st
    ensures r.Ok? ==> Whole(LoopState(m, j, st.mem, st.free, end, top, at', allowHuge, template))
    ensures at' == if r.Ok? then Advance(at, m.LevelSize(level), m.LevelSize(level)) else at
    ensures at'.done >= 0
    ensures Whole(Choice(m, j.Now(m, st.mem), level, j.start, j.pa, end, allowHuge, at'.vaddr, at'.done))
    ensures r.Err? ==> Whole(MapCore(m, j, st.mem, st.free, at.done)) && r.error.MappingConflict?
    ensures st.free == old(st.free) && st.asked == old(st.asked)
    ensures Whole(Stems(m, AttrsOf(template), old(st.mem), st.mem))
    ensures r.Err? ==> Whole(Explains(m, r.error, j.Now(m, st.mem), level, vaddr, paddr, allowHuge))
  {
    ghost var mem1, free1 := st.mem, st.free;
    var config := if level > 1 then BlockPte(template, paddr) else PagePte(template, paddr);
    FinalReady(m, j, st.mem, st.free, end, top, at, allowHuge, template, paddr, config);
    r := PutFinal(m, st, frame, vaddr, paddr, level, allowHuge, config, AttrsOf(template), j, at.done);
    at' := at;
    if r.Ok? {
      at' := Advance(at, m.LevelSize(level), m.LevelSize(level));
      FinalDone(m, j, mem1, free1, end, top, at, allowHuge, template, st.mem, st.free, vaddr, paddr, at');
    }
  }

  /** One round of the loop that descends. */
  method MapTable(m: Meta, st: FrameStore, frame: nat, vaddr: nat, paddr: nat, end: nat, level: nat, allowHuge: bool,
                  template: PteConfig, ghost j: Job, ghost top: nat, ghost at: Pos)
    returns (r: Result<()>, next: nat, ghost at': Pos)
    requires Whole(LoopState(m, j, st.mem, st.free, end, top, at, allowHuge, template))
    requires at.vaddr == vaddr < end && at.paddr == paddr && j.level == level > 1 && j.t.frame == frame
    requires !BlockFits(m, vaddr, paddr, end - vaddr, level, allowHuge) && at.done >= 0
    requires Whole(Choice(m, j.Now(m, st.mem), level, j.start, j.pa, end, allowHuge, vaddr, at.done))
    modifies st
    ensures r.Ok? ==> Whole(LoopState(m, j, st.mem, st.free, end, top, at', allowHuge, template))
    ensures r.Ok? ==> vaddr < at'.vaddr == next && at'.paddr == paddr + (next - vaddr)
    ensures at'.done >= 0 && Whole(Chosen(m, j.Now(m, st.mem), level, j.start, at'.done, j.pa, end, allowHuge))
    ensures r.Ok? ==> Whole(Choice(m, j.Now(m, st.mem), level, j.start, j.pa, end, allowHuge, next, at'.done))
    ensures r.Err? ==> at'.done >= 0 && Whole(MapCore(m, j, st.mem, st.free, at'.done))
    ensures r.Err? ==> at'.vaddr == j.start + at'.done < end && at'.paddr == j.pa + at'.done
    ensures r == Err(NoMemory) ==> st.Refused()
    ensures st.Requests() == old(st.Requests()) + Refusals(r)
    ensures Whole(Stems(m, AttrsOf(template), old(st.mem), st.mem))
    ensures r.Err? ==> Whole(Explains(m, r.error, j.Now(m, st.mem), level, at'.vaddr, at'.paddr, allowHuge))
    decreases level, 0
  {
    ghost var mem1, free1 := st.mem, st.free;
    var child := OpenTable(m, st, frame, vaddr, level, template, j, at.done, paddr, allowHuge);
    next, at' := vaddr, at;
    if child.Err? {
      return Err(child.error), next, at';
    }
    next := EntryEnd(m, vaddr, end, level);
    ghost var index := m.Index(vaddr, level);
    ghost var mem2, free2 := st.mem, st.free;
    ghost var top' := ChildPre(m, j, mem1, free1, end, top, at, allowHuge, template, mem2, free2, index, child.value,
                               vaddr, paddr, next);
    ghost var n: nat;
    r, n := MapRange(m, st, child.value, vaddr, paddr, next, top', level - 1, allowHuge, template);
    StemsTrans(m, AttrsOf(template), mem1, mem2, st.mem);
    assert ChildCalled(m, j, allowHuge, template, at.done, mem2, free2, index, child.value, vaddr, paddr, next, top',
                       st.mem, st.free, r, n);
    at' := if r.Ok? then Advance(at, next - at.vaddr, top' - at.vaddr) else Advance(at, n, n);
    TableMapped(m, j, allowHuge, template, at.done, mem2, free2, index, child.value, vaddr, paddr, next, top',
                st.mem, st.free, r, n, at'.done);
    TableExtends(m, j, allowHuge, template, at.done, mem2, free2, index, child.value, vaddr, paddr, next, top',
                 st.mem, st.free, r, n);
    ExtendsTrans(j.Now(m, mem1), j.Now(m, mem2), j.Now(m, st.mem));
    AfterTable(m, j, mem1, free1, end, top, at, allowHuge, template, j.Now(m, st.mem),
               Abs(m, st.mem, child.value, level - 1), vaddr, paddr, next, n, at');
    if r.Err? {
      TableStopped(m, j, allowHuge, template, at.done, mem2, free2, index, child.value, vaddr, paddr, next, top',
                   st.mem, st.free, r, n, at'.vaddr, at'.paddr);
    } else {
      TableNext(m, j, mem1, free1, end, top, at, allowHuge, template, st.mem, st.free, next, top', at');
    }
  }

  /** `done` counts the bytes mapped, whether or not the call succeeds. */
  method MapRange(m: Meta, st: FrameStore, frame: nat, start: nat, startPaddr: nat, end: nat, ghost top: nat,
                  level: nat, allowHuge: bool, template: PteConfig)
    returns (r: Result<()>, ghost done: nat)
    requires MapPre(m, st.mem, st.free, frame, start, startPaddr, end, top, level, allowHuge, template)
    modifies st
    ensures st.Valid()
    ensures Whole(MapPost(m, old(Abs(m, st.mem, frame, level)), Abs(m, st.mem, frame, level),
                          start, startPaddr, end, top, level, allowHuge, template, r, done))
    ensures Whole(Grown(old(Abs(m, st.mem, frame, level)), Abs(m, st.mem, frame, level),
                        old(st.mem), st.mem, old(st.free), st.free))
    ensures Whole(Chosen(m, Abs(m, st.mem, frame, level), level, start, done, startPaddr, end, allowHuge))
    ensures Whole(Stems(m, AttrsOf(template), old(st.mem), st.mem))
    ensures r == Err(NoMemory) ==> st.Refused()
    ensures st.Requests() == old(st.Requests()) + Refusals(r)
    decreases level, 1
  {
    var vaddr, paddr := start, startPaddr;
    ghost var j := Job(Abs(m, st.mem, frame, level), st.mem, st.free, level, start, startPaddr, m.Carried(template));
    ghost var at := Pos(start, startPaddr, 0);
    LoopStart(m, j, frame, start, startPaddr, end, top, allowHuge, template);
    StemsSame(m, AttrsOf(template), st.mem);
    ChosenNothing(m, j.t, level, start, startPaddr, end, allowHuge);
    while vaddr < end
      invariant at.vaddr == vaddr && at.paddr == paddr
      invariant Whole(LoopState(m, j, st.mem, st.free, end, top, at, allowHuge, template)) && at.done >= 0
      invariant Whole(Choice(m, j.Now(m, st.mem), level, j.start, j.pa, end, allowHuge, vaddr, at.done))
      invariant st.Requests() == old(st.Requests()) && Whole(Stems(m, AttrsOf(template), old(st.mem), st.mem))
    {
      ghost var mem1 := st.mem;
      if level == 1 || BlockFits(m, vaddr, paddr, end - vaddr, level, allowHuge) {
        r, at := MapFinal(m, st, frame, vaddr, paddr, level, allowHuge, template, j, end, top, at);
        if r.Ok? {
          vaddr, paddr := vaddr + m.LevelSize(level), paddr + m.LevelSize(level);
        }
      } else {
        var next;
        r, next, at := MapTable(m, st, frame, vaddr, paddr, end, level, allowHuge, template, j, top, at);
        if r.Ok? {
          vaddr, paddr := next, paddr + (next - vaddr);
        }
      }
      StemsTrans(m, AttrsOf(template), old(st.mem), mem1, st.mem);
      if r.Err? {
        done := at.done;
        MapFailed(m, j, st.mem, st.free, done, end, top, at.vaddr, at.paddr, start, startPaddr, allowHuge, template,
                  r.error);
        return;
      }
    }
    done := at.done;
    MapDone(m, j, st.mem, st.free, done, end, top, at, start, startPaddr, allowHuge, template);
    r := Ok(());
  }
}
