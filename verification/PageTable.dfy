/**
 `PageTable` / `PageTableRef`: argument checks, translation, and what every call keeps.
 */
module PageTables {
  import opened Arith
  import opened Options
  import opened Paging
  import opened PageTree
  import opened MapSpec
  import opened MapHeap
  import opened BlockChoice
  import opened UnmapSpec
  import opened UnmapIff
  import opened UnmapOverflow
  import opened UnmapHeap
  import opened FrameStores
  import opened PageMap
  import opened PageUnmap
  import opened PageDealloc

  // ----- translation -----

  // A table pointer of a well-formed table leads to a well-formed table.
  lemma PointerToTable(m: Meta, mem: FrameMemory, frame: nat, level: nat, i: nat)
    requires m.Wf() && Wf(m, Abs(m, mem, frame, level), level) && i < m.len
    requires frame in mem && i < |mem[frame]|
    requires var c := m.codec.toConfig(mem[frame][i], level > 1); c.valid && !c.huge && level != 1
    ensures level > 1
    ensures Wf(m, Abs(m, mem, m.codec.toConfig(mem[frame][i], level > 1).paddr, level - 1), level - 1)
  {
    SlotOfWord(m, mem, frame, level, i);
    assert WfSlot(m, Abs(m, mem, frame, level).slots[i], level);
  }

  /** `translate_recursive_with_level` */
  function TranslateWithLevel(m: Meta, mem: FrameMemory, frame: nat, level: nat, va: nat): Result<(Word, nat)>
    requires m.Wf() && Wf(m, Abs(m, mem, frame, level), level)
    decreases level
  {
    m.IndexInFrame(va, level);
    var pte := mem[frame][m.Index(va, level)];
    var config := m.codec.toConfig(pte, level > 1);
    if !config.valid then Err(NotMapped)
    else if config.huge || level == 1 then Ok((pte, level))
    else
      PointerToTable(m, mem, frame, level, m.Index(va, level));
      TranslateWithLevel(m, mem, config.paddr, level - 1, va)
  }

  /** `translate` */
  function Translate(m: Meta, mem: FrameMemory, root: nat, va: nat): Result<(nat, Word)>
    requires m.Wf() && Wf(m, Abs(m, mem, root, m.Levels()), m.Levels())
  {
    match TranslateWithLevel(m, mem, root, m.Levels(), va)
    case Err(e) => Err(e)
    case Ok((pte, level)) =>
      if !m.HasLevel(level) then Err(HierarchyError)
      else
        var config := m.codec.toConfig(pte, level > 1);
        if config.huge then Ok((config.paddr + va % m.LevelSize(level), pte))
        else Ok((config.paddr + va % m.PageSize(), pte))
  }

  lemma {:induction false} TranslateIsLookupAt(m: Meta, mem: FrameMemory, frame: nat, level: nat, va: nat)
    requires m.Wf() && Wf(m, Abs(m, mem, frame, level), level)
    ensures match TranslateWithLevel(m, mem, frame, level, va)
            case Err(e) => e == NotMapped && Lookup(m, Abs(m, mem, frame, level), level, va) == None
            case Ok((pte, k)) =>
              && 1 <= k <= level && k == LeafLevel(m, Abs(m, mem, frame, level), level, va)
              && EntryAt(m, mem, frame, level, va, k) == Some(pte) && IsFinal(m, pte, k)
              && var c := m.codec.toConfig(pte, k > 1);
                 Lookup(m, Abs(m, mem, frame, level), level, va)
                 == Some(Hit(c.paddr + va % m.LevelSize(k), AttrsOf(c)))
    decreases level
  {
    var i := m.Index(va, level);
    m.IndexInFrame(va, level);
    SlotOfWord(m, mem, frame, level, i);
    var t := Abs(m, mem, frame, level);
    if t.slots[i].Sub? {
      assert WfSlot(m, t.slots[i], level);
      TranslateIsLookupAt(m, mem, t.slots[i].table.frame, level - 1, va);
    }
  }

  /** `pte` is the final entry stored for `va`, and says what the table translates it to. */
  ghost predicate Answers(m: Meta, mem: FrameMemory, root: nat, va: int, pa: int, pte: Word)
    requires m.HasLevel(m.Levels())
  {
    var t := Abs(m, mem, root, m.Levels());
    var k := LeafLevel(m, t, m.Levels(), va);
    && m.HasLevel(k) && EntryAt(m, mem, root, m.Levels(), va, k) == Some(pte)
    && var c := m.codec.toConfig(pte, k > 1);
       && c.valid && (k > 1 ==> c.huge) && pa == c.paddr + va % m.LevelSize(k)
       && Lookup(m, t, m.Levels(), va) == Some(Hit(pa, AttrsOf(c)))
  }

  /** `translate` computes the function the tree stands for, and returns the entry it is stored in. */
  lemma TranslateIsLookup(m: Meta, mem: FrameMemory, root: nat, va: nat)
    requires m.Wf() && Wf(m, Abs(m, mem, root, m.Levels()), m.Levels())
    ensures var r := Translate(m, mem, root, va);
            && (r.Ok? ==> Answers(m, mem, root, va, r.value.0, r.value.1))
            && (r.Err? ==> r.error == NotMapped && Lookup(m, Abs(m, mem, root, m.Levels()), m.Levels(), va) == None)
  {
    TranslateIsLookupAt(m, mem, root, m.Levels(), va);
  }

  /** The final entry stored for an address is what the walk down finds. */
  lemma {:induction false} FinalIsTranslated(m: Meta, mem: FrameMemory, frame: nat, level: nat, va: nat, k: nat)
    requires m.Wf() && Wf(m, Abs(m, mem, frame, level), level) && 1 <= k <= level
    requires EntryAt(m, mem, frame, level, va, k).Some? && IsFinal(m, EntryAt(m, mem, frame, level, va, k).value, k)
    ensures TranslateWithLevel(m, mem, frame, level, va) == Ok((EntryAt(m, mem, frame, level, va, k).value, k))
    decreases level
  {
    if k < level {
      m.IndexInFrame(va, level);
      PointerToTable(m, mem, frame, level, m.Index(va, level));
      FinalIsTranslated(m, mem, m.codec.toConfig(mem[frame][m.Index(va, level)], true).paddr, level - 1, va, k);
    }
  }

  lemma {:induction false} SameQuotient(m: Meta, va: int, x: int, k: nat, level: nat)
    requires m.Wf() && m.HasLevel(k) && m.HasLevel(level) && k <= level
    requires va / m.LevelSize(k) == x / m.LevelSize(k)
    ensures va / m.LevelSize(level) == x / m.LevelSize(level)
    decreases level
  {
    if k < level {
      SameQuotient(m, va, x, k, level - 1);
      m.SpanIs(level - 1);
      DivOfProduct(va, m.LevelSize(level - 1), m.Fan(level - 1));
      DivOfProduct(x, m.LevelSize(level - 1), m.Fan(level - 1));
    }
  }

  lemma DivOfProduct(x: int, a: int, b: int)
    requires a > 0 && b > 0
    ensures b * a > 0 && x / (b * a) == x / a / b
  {
    MulMono(1, b, a);
    DivModDef(x, a);
    DivModDef(x / a, b);
    var q, r := x / a / b, x / a % b;
    MulAssoc(q, b, a);
    assert (q * b + r) * a == (q * b) * a + r * a;
    MulMono(0, r, a);
    MulMono(r + 1, b, a);
    DivModUnique(x, b * a, q, r * a + x % a);
  }

  /** All addresses of an entry have the same entry. */
  lemma {:induction false} SameEntryAt(m: Meta, mem: FrameMemory, frame: nat, level: nat, va: int, x: int, k: nat)
    requires m.Wf() && m.HasLevel(level) && 1 <= k <= level && va / m.LevelSize(k) == x / m.LevelSize(k)
    ensures EntryAt(m, mem, frame, level, va, k) == EntryAt(m, mem, frame, level, x, k)
    decreases level
  {
    SameQuotient(m, va, x, k, level);
    if k < level && frame in mem && m.Index(va, level) < |mem[frame]| {
      SameEntryAt(m, mem, m.codec.toConfig(mem[frame][m.Index(va, level)], true).paddr, level - 1, va, x, k);
    }
  }

  // ----- ownership -----

  /** The frame at the end of a path of slot indices. */
  function FrameAt(t: Tree, path: seq<nat>): Option<nat>
    decreases |path|
  {
    if path == [] then Some(t.frame)
    else if path[0] < |t.slots| && t.slots[path[0]].Sub? then FrameAt(t.slots[path[0]].table, path[1..])
    else None
  }

  lemma {:induction false} PathInFootprint(t: Tree, path: seq<nat>)
    requires FrameAt(t, path).Some?
    ensures FrameAt(t, path).value in Footprint(t)
    decreases |path|
  {
    if path != [] {
      PathInFootprint(t.slots[path[0]].table, path[1..]);
      SlotFramesIn(t, path[0]);
    }
  }

  lemma {:induction false} PathExists(t: Tree, f: nat) returns (path: seq<nat>)
    requires f in Footprint(t)
    ensures FrameAt(t, path) == Some(f)
    decreases t
  {
    if f == t.frame {
      path := [];
    } else {
      var i :| 0 <= i < |t.slots| && f in SlotFrames(t.slots[i]);
      var below := PathExists(t.slots[i].table, f);
      path := [i] + below;
      assert path[1..] == below;
    }
  }

  /** In a separated tree every frame is reached by one path only. */
  lemma {:induction false} PathUnique(t: Tree, p: seq<nat>, q: seq<nat>)
    requires Separated(t) && FrameAt(t, p).Some? && FrameAt(t, p) == FrameAt(t, q)
    ensures p == q
    decreases |p|
  {
    if p != [] {
      PathInFootprint(t.slots[p[0]].table, p[1..]);
      assert FrameAt(t, p).value in SlotFrames(t.slots[p[0]]);
    }
    if q != [] {
      PathInFootprint(t.slots[q[0]].table, q[1..]);
      assert FrameAt(t, q).value in SlotFrames(t.slots[q[0]]);
    }
    if p != [] && q != [] {
      assert p[0] == q[0];
      PathUnique(t.slots[p[0]].table, p[1..], q[1..]);
      assert p == [p[0]] + p[1..] && q == [q[0]] + q[1..];
    }
  }

  // ----- the table -----

  datatype UnmapResult = Unmapped | Rejected(error: PagingError) | Panicked

  predicate OpenBeside(k: int) {
    true
  }

  /** From (mem, free) to (mem', free') only frames of the tree t, now t', came, went or were
      written: it traded them with the allocator, and every other frame is as it was. */
  ghost predicate Beside(t: Tree, t': Tree, mem: FrameMemory, mem': FrameMemory, free: set<nat>, free': set<nat>) {
    forall k {:trigger OpenBeside(k)} :: OpenBeside(k) ==>
      && Footprint(t) <= mem.Keys && Footprint(t') <= mem'.Keys
      && Footprint(t') + free' == Footprint(t) + free
      && mem'.Keys - Footprint(t') == mem.Keys - Footprint(t)
      && Agree(mem, mem', mem.Keys - Footprint(t))
  }

  lemma BesideTrans(t: Tree, t1: Tree, t2: Tree, mem: FrameMemory, mem1: FrameMemory, mem2: FrameMemory,
                    free: set<nat>, free1: set<nat>, free2: set<nat>)
    requires Whole(Beside(t, t1, mem, mem1, free, free1)) && Whole(Beside(t1, t2, mem1, mem2, free1, free2))
    ensures Beside(t, t2, mem, mem2, free, free2)
  {
    assert OpenBeside(0);
  }

  lemma BesideSame(t: Tree, mem: FrameMemory, free: set<nat>)
    requires Footprint(t) <= mem.Keys
    ensures Beside(t, t, mem, mem, free, free)
  {
  }

  /** A second table on the same allocator is untouched: it translates as before, owns its
      frames as before, and shares none with the first. */
  lemma OtherTable(t: Tree, t': Tree, mem: FrameMemory, mem': FrameMemory, free: set<nat>, free': set<nat>,
                   m: Meta, other: nat)
    requires Whole(Beside(t, t', mem, mem', free, free')) && mem'.Keys !! free'
    requires Owns(m, mem, free, other, m.Levels())
    requires Footprint(Abs(m, mem, other, m.Levels())) !! Footprint(t)
    ensures Abs(m, mem', other, m.Levels()) == Abs(m, mem, other, m.Levels())
    ensures Owns(m, mem', free', other, m.Levels())
    ensures Footprint(Abs(m, mem', other, m.Levels())) !! Footprint(t')
  {
    assert OpenBeside(0);
    WfOwned(m, mem, other, m.Levels());
    AbsFrame(m, mem, mem', other, m.Levels());
  }

  lemma OwnsAfterMap(m: Meta, mem: FrameMemory, free: set<nat>, mem': FrameMemory, free': set<nat>, root: nat,
                     s: int, n: nat, pa: int, attrs: Attrs)
    requires Whole(Owns(m, mem, free, root, m.Levels()))
    requires var t, t' := Abs(m, mem, root, m.Levels()), Abs(m, mem', root, m.Levels());
             Whole(Grown(t, t', mem, mem', free, free')) && Whole(Mapped(m, t, t', m.Levels(), s, n, pa, attrs))
    ensures Owns(m, mem', free', root, m.Levels())
    ensures Beside(Abs(m, mem, root, m.Levels()), Abs(m, mem', root, m.Levels()), mem, mem', free, free')
  {
    assert OpenGrown(0) && OpenMapped(0);
  }

  predicate OpenAsked(k: int) {
    true
  }

  /** One request per new frame, and one more if it was refused. */
  ghost predicate AskedFor(t: Tree, t': Tree, asked: nat, asked': nat, r: Result<()>) {
    forall k {:trigger OpenAsked(k)} :: OpenAsked(k) ==>
      asked' == asked + |Footprint(t') - Footprint(t)| + Refusals(r)
  }

  lemma GrownAsks(t: Tree, t': Tree, mem: FrameMemory, mem': FrameMemory, free: set<nat>, free': set<nat>,
                  asked: nat, asked': nat, r: Result<()>)
    requires Whole(Grown(t, t', mem, mem', free, free')) && asked' + |free'| == asked + |free| + Refusals(r)
    ensures AskedFor(t, t', asked, asked', r)
  {
    GrownTakes(t, t', mem, mem', free, free');
    SizeLeft(free, Footprint(t') - Footprint(t));
  }

  lemma GrownTakes(t: Tree, t': Tree, mem: FrameMemory, mem': FrameMemory, free: set<nat>, free': set<nat>)
    requires Whole(Grown(t, t', mem, mem', free, free'))
    ensures Footprint(t') - Footprint(t) <= free && free' == free - (Footprint(t') - Footprint(t))
  {
    assert OpenGrown(0);
  }

  lemma SizeLeft(all: set<nat>, part: set<nat>)
    requires part <= all
    ensures |all - part| + |part| == |all|
  {
    assert all == (all - part) + part;
  }

  lemma AsksNothing(t: Tree, asked: nat, r: Result<()>)
    requires Refusals(r) == 0
    ensures AskedFor(t, t, asked, asked, r)
  {
    assert Footprint(t) - Footprint(t) == {};
  }

  lemma OwnsAfterUnmap(m: Meta, mem: FrameMemory, free: set<nat>, mem': FrameMemory, free': set<nat>, root: nat)
    requires Whole(Owns(m, mem, free, root, m.Levels()))
    requires var t, t' := Abs(m, mem, root, m.Levels()), Abs(m, mem', root, m.Levels());
             Whole(Shrunk(t, t', mem, mem', free, free')) && Wf(m, t', m.Levels())
    ensures Owns(m, mem', free', root, m.Levels())
    ensures Beside(Abs(m, mem, root, m.Levels()), Abs(m, mem', root, m.Levels()), mem, mem', free, free')
  {
    assert OpenShrunk(0);
  }

  /** What a map call did, whether or not it succeeded: `done` bytes from `vaddr` on are mapped,
      none of them was before, and every other address translates as it did. */
  ghost predicate MapEffect(m: Meta, t: Tree, t': Tree, vaddr: int, done: nat, paddr: int, attrs: Attrs)
    requires m.HasLevel(m.Levels())
  {
    && Overlays(m, t, t', m.Levels(), vaddr, done, paddr, attrs)
    && MapSpec.Unmapped(m, t, m.Levels(), vaddr, done)
    && Whole(Mapped(m, t, t', m.Levels(), vaddr, done, paddr, attrs))
  }

  predicate OpenResult(k: int) {
    true
  }

  /** The same, and every address has the largest entry that fits the range up to `end`. */
  ghost predicate MapResult(m: Meta, t: Tree, t': Tree, vaddr: int, done: nat, paddr: int, end: int, allowHuge: bool,
                            attrs: Attrs)
    requires m.HasLevel(m.Levels())
  {
    forall k {:trigger OpenResult(k)} :: OpenResult(k) ==>
      && Whole(MapEffect(m, t, t', vaddr, done, paddr, attrs))
      && Whole(Chosen(m, t', m.Levels(), vaddr, done, paddr, end, allowHuge))
  }

  /** Why the walk stopped `done` bytes into the range. */
  ghost predicate Refusal(m: Meta, e: PagingError, t: Tree, vaddr: nat, paddr: nat, done: nat, allowHuge: bool)
    requires m.Wf()
  {
    Explains(m, e, t, m.Levels(), vaddr + done, paddr + done, allowHuge)
  }

  /** The argument checks of `map`. */
  function CheckMap(m: Meta, vaddr: nat, paddr: nat, size: nat): (r: Result<()>)
    requires m.Wf()
  {
    if size == 0 then Err(InvalidSize)
    else if vaddr % m.PageSize() != 0 then Err(AlignmentError)
    else if paddr % m.PageSize() != 0 then Err(AlignmentError)
    else if vaddr + size >= USIZE_LIMIT || paddr + size >= USIZE_LIMIT then Err(AddressOverflow)
    else Ok(())
  }

  /** The arguments of a `map` call. */
  datatype Request = Request(vaddr: nat, paddr: nat, size: nat, allowHuge: bool, attrs: Attrs)

  /** What a `map` call answers and does. `done` bytes of the range took effect, all of them exactly on
      success, and the requests for frames went from `asked` to `asked'`. */
  ghost predicate MapOutcome(m: Meta, t: Tree, t': Tree, q: Request, r: Result<()>, done: nat, panicked: bool,
                             asked: nat, asked': nat)
    requires m.Wf()
  {
    && Whole(MapResult(m, t, t', q.vaddr, done, q.paddr, q.vaddr + q.size, q.allowHuge, q.attrs))
    && (r.Ok? <==> done == RoundUp(q.size, m.PageSize()) > 0)
    && (r.Err? ==> done < q.size || done == 0)
    && (panicked <==> r.Ok? && (q.vaddr + done >= USIZE_LIMIT || q.paddr + done >= USIZE_LIMIT))
    && (CheckMap(m, q.vaddr, q.paddr, q.size).Err? ==> r == CheckMap(m, q.vaddr, q.paddr, q.size))
    && (r.Err? && CheckMap(m, q.vaddr, q.paddr, q.size).Ok? ==>
          && (r.error.NoMemory? || r.error.MappingConflict? || r.error.HierarchyError?)
          && Whole(Refusal(m, r.error, t', q.vaddr, q.paddr, done, q.allowHuge)))
    && Whole(AskedFor(t, t', asked, asked', r))
  }

  lemma MapMeans(m: Meta, t: Tree, t': Tree, q: Request, top: nat, template: PteConfig, r: Result<()>, done: nat,
                 panicked: bool, asked: nat, asked': nat)
    requires m.Wf() && m.HasLevel(m.Levels()) && q.size > 0 && CheckMap(m, q.vaddr, q.paddr, q.size).Ok?
    requires top == q.vaddr + RoundUp(q.size, m.PageSize()) && q.attrs == m.Carried(template)
    requires Whole(MapPost(m, t, t', q.vaddr, q.paddr, q.vaddr + q.size, top, m.Levels(), q.allowHuge, template, r,
                           done))
    requires Whole(Chosen(m, t', m.Levels(), q.vaddr, done, q.paddr, q.vaddr + q.size, q.allowHuge))
    requires Whole(AskedFor(t, t', asked, asked', r))
    requires panicked <==> r.Ok? && (top >= USIZE_LIMIT || q.paddr + (top - q.vaddr) >= USIZE_LIMIT)
    ensures MapOutcome(m, t, t', q, r, done, panicked, asked, asked')
  {
    RoundUpBounds(q.size, m.PageSize());
    MapReason(m, t, t', q.vaddr, q.paddr, q.vaddr + q.size, top, q.allowHuge, template, r, done);
    assert MapResult(m, t, t', q.vaddr, done, q.paddr, q.vaddr + q.size, q.allowHuge, q.attrs);
  }

  lemma MapReason(m: Meta, t: Tree, t': Tree, vaddr: nat, paddr: nat, end: nat, top: nat, allowHuge: bool,
                  template: PteConfig, r: Result<()>, done: nat)
    requires m.Wf() && m.HasLevel(m.Levels()) && vaddr < end
    requires Whole(MapPost(m, t, t', vaddr, paddr, end, top, m.Levels(), allowHuge, template, r, done))
    ensures Whole(MapEffect(m, t, t', vaddr, done, paddr, m.Carried(template)))
    ensures r.Err? ==> vaddr + done < end && (r.error.NoMemory? || r.error.MappingConflict? || r.error.HierarchyError?)
    ensures r.Err? ==> Refusal(m, r.error, t', vaddr, paddr, done, allowHuge)
  {
    assert OpenMapped(0) && OpenExplains(0);
    assert MapEffect(m, t, t', vaddr, done, paddr, m.Carried(template));
  }

  lemma MapRefused(m: Meta, t: Tree, q: Request, r: Result<()>, asked: nat)
    requires m.Wf() && Wf(m, t, m.Levels()) && r == CheckMap(m, q.vaddr, q.paddr, q.size) && r.Err?
    ensures MapOutcome(m, t, t, q, r, 0, false, asked, asked)
  {
    ChosenNothing(m, t, m.Levels(), q.vaddr, q.paddr, q.vaddr + q.size, q.allowHuge);
    MappedNothing(m, t, m.Levels(), q.vaddr, q.paddr, q.attrs);
    assert MapEffect(m, t, t, q.vaddr, 0, q.paddr, q.attrs);
    assert MapResult(m, t, t, q.vaddr, 0, q.paddr, q.vaddr + q.size, q.allowHuge, q.attrs);
    AsksNothing(t, asked, r);
  }

  /** The argument checks of `unmap`. */
  function CheckUnmap(m: Meta, start: nat, size: nat): (r: Result<()>)
    requires m.Wf()
  {
    if size == 0 then Err(InvalidSize)
    else if start % m.PageSize() != 0 then Err(AlignmentError)
    else if size % m.PageSize() != 0 then Err(AlignmentError)
    else if start + size >= USIZE_LIMIT then Err(AddressOverflow)
    else Ok(())
  }

  /** What an unmap call did. It erased the range and nothing else if the range starts where an
      entry starts and ends inside no block, and unless it comes back to the entry it starts in
      exactly when the walk is clean. */
  ghost predicate UnmapEffect(m: Meta, t: Tree, t': Tree, start: int, size: int)
    requires m.Wf() && Wf(m, t, m.Levels())
  {
    && t' == UnmapTree(m, t, m.Levels(), start, start + size)
    && (OnEntry(m, t, m.Levels(), start) && NoSplit(m, t, m.Levels(), start + size)
        ==> Erased(m, t, t', m.Levels(), start, size))
    && (OneTurn(m, m.Levels(), start, start + size) ==>
          && (Erased(m, t, t', m.Levels(), start, size) <==> CleanFrom(m, t, m.Levels(), start, start, start + size))
          && (OnEntry(m, t, m.Levels(), start) ==>
                (Erased(m, t, t', m.Levels(), start, size) <==> NoSplit(m, t, m.Levels(), start + size)))
          && (Lookup(m, t, m.Levels(), start).Some? ==>
                (Erased(m, t, t', m.Levels(), start, size) <==>
                 NoSplit(m, t, m.Levels(), start) && NoSplit(m, t, m.Levels(), start + size))))
  }

  lemma UnmapMeans(m: Meta, t: Tree, t': Tree, start: int, size: int, end: int, empty: bool)
    requires m.Wf() && Wf(m, t, m.Levels()) && size > 0 && end == start + size
    requires Whole(UnmapPost(m, t, t', start, end, m.Levels(), empty))
    ensures UnmapEffect(m, t, t', start, size) && Wf(m, t', m.Levels())
  {
    if OnEntry(m, t, m.Levels(), start) && NoSplit(m, t, m.Levels(), end) {
      OnEntryExact(m, t, m.Levels(), start, end);
    }
    if OneTurn(m, m.Levels(), start, end) {
      UnmapExactIff(m, t, m.Levels(), start, end);
      if OnEntry(m, t, m.Levels(), start) {
        OnEntryIff(m, t, m.Levels(), start, end);
      }
      if Lookup(m, t, m.Levels(), start).Some? {
        MappedIff(m, t, m.Levels(), start, end);
      }
    }
  }

  /** When an unmap call leaves usize: by the table and the range as they are before the call. */
  ghost predicate PanicRule(m: Meta, t: Tree, start: int, size: int, panicked: bool)
    requires m.Wf() && Wf(m, t, m.Levels())
  {
    var ls, span, end := m.LevelSize(m.Levels()), m.Span(m.Levels()), start + size;
    && (panicked <==> UnmapOverflows(m, t, m.Levels(), start, end))
    && (panicked ==> USIZE_LIMIT - ls < end)
    && (USIZE_LIMIT % ls == 0 && OneTable(m, m.Levels(), start, USIZE_LIMIT) ==>
          && (panicked <==> LastUsed(m, t, m.Levels()) && Arrives(m, t, m.Levels(), start, end))
          && (OnEntry(m, t, m.Levels(), start) ==>
                (panicked <==> LastUsed(m, t, m.Levels()) && USIZE_LIMIT - ls < end)))
    && (USIZE_LIMIT % ls == 0 && USIZE_LIMIT % span == 0 && start % ls == 0 ==>
          (panicked <==> LastUsed(m, t, m.Levels()) && USIZE_LIMIT - ls < end && USIZE_LIMIT - span <= start))
    && (USIZE_LIMIT % ls == 0 && USIZE_LIMIT % span == 0 && start < USIZE_LIMIT - span ==>
          (panicked <==> USIZE_LIMIT - ls < end && Leaves(m, t, m.Levels(), start, USIZE_LIMIT - span)))
  }

  lemma PanicMeans(m: Meta, t: Tree, start: int, size: int)
    requires m.Wf() && Wf(m, t, m.Levels()) && 0 < size && start + size < USIZE_LIMIT
    ensures PanicRule(m, t, start, size, UnmapOverflows(m, t, m.Levels(), start, start + size))
  {
    var ls, span, end := m.LevelSize(m.Levels()), m.Span(m.Levels()), start + size;
    if end + ls <= USIZE_LIMIT {
      NoOverflow(m, t, m.Levels(), start, end);
    }
    if USIZE_LIMIT % ls == 0 {
      if OneTable(m, m.Levels(), start, USIZE_LIMIT) {
        UnmapOverflowsIff(m, t, m.Levels(), start, end);
      }
      if USIZE_LIMIT % span == 0 && start % ls == 0 {
        BoundaryOverflowsIff(m, t, m.Levels(), start, end);
      }
      if USIZE_LIMIT % span == 0 && start < USIZE_LIMIT - span {
        EarlyOverflowsIff(m, t, m.Levels(), USIZE_LIMIT - span, start, end);
      }
    }
  }

  class PageTable {
    const m: Meta
    const st: FrameStore
    const root: nat

    ghost predicate Valid()
      reads this, st
    {
      Whole(Owns(m, st.mem, st.free, root, m.Levels()))
    }

    ghost function Tree(): Tree
      reads this, st
    {
      Abs(m, st.mem, root, m.Levels())
    }

    constructor (m: Meta, st: FrameStore, root: nat)
      requires Whole(Owns(m, st.mem, st.free, root, m.Levels()))
      ensures Valid() && this.m == m && this.st == st && this.root == root
    {
      this.m, this.st, this.root := m, st, root;
    }

    /** `map`. Stepping past the last page can leave usize; the entries are written by then. */
    method Map(vaddr: nat, paddr: nat, size: nat, template: PteConfig, allowHuge: bool)
      returns (r: Result<()>, panicked: bool, ghost done: nat)
      requires Valid()
      requires CanLink(m, template, st.free)
      requires CanEncode(m, template, allowHuge, paddr, paddr + RoundUp(size, m.PageSize()))
      modifies st
      ensures Valid()
      ensures Whole(Beside(old(Tree()), Tree(), old(st.mem), st.mem, old(st.free), st.free))
      ensures Whole(MapOutcome(m, old(Tree()), Tree(), Request(vaddr, paddr, size, allowHuge, m.Carried(template)), r,
                               done, panicked, old(st.asked), st.asked))
      ensures Whole(Stems(m, AttrsOf(template), old(st.mem), st.mem))
      ensures r.Ok? && NoEmpties(old(Tree())) ==> NoEmpties(Tree())
      ensures r.Err? ==> done < size || done == 0
      ensures r == Err(InvalidSize) <==> size == 0
      ensures r == Err(AlignmentError) <==> size > 0 && (vaddr % m.PageSize() != 0 || paddr % m.PageSize() != 0)
      ensures r == Err(AddressOverflow) <==>
                (size > 0 && vaddr % m.PageSize() == 0 && paddr % m.PageSize() == 0
                 && (vaddr + size >= USIZE_LIMIT || paddr + size >= USIZE_LIMIT))
      ensures r == Err(NoMemory) ==> st.Refused()
    {
      ghost var mem0, free0, t, asked0 := st.mem, st.free, Tree(), st.asked;
      ghost var q := Request(vaddr, paddr, size, allowHuge, m.Carried(template));
      panicked, done := false, 0;
      r := CheckMap(m, vaddr, paddr, size);
      if r.Err? {
        MapRefused(m, t, q, r, asked0);
        WfOwned(m, st.mem, root, m.Levels());
        BesideSame(t, st.mem, st.free);
        StemsSame(m, AttrsOf(template), st.mem);
        return;
      }
      ghost var top := vaddr + RoundUp(size, m.PageSize());
      TopOf(m, vaddr, size, top);
      r, done := MapRange(m, st, root, vaddr, paddr, vaddr + size, top, m.Levels(), allowHuge, template);
      panicked := r.Ok? && (vaddr + RoundUp(size, m.PageSize()) >= USIZE_LIMIT
                            || paddr + RoundUp(size, m.PageSize()) >= USIZE_LIMIT);
      OwnsAfterMap(m, mem0, free0, st.mem, st.free, root, vaddr, done, paddr, m.Carried(template));
      GrownAsks(t, Tree(), mem0, st.mem, free0, st.free, asked0, st.asked, r);
      MapMeans(m, t, Tree(), q, top, template, r, done, panicked, asked0, st.asked);
    }

    /** `unmap` */
    method Unmap(start: nat, size: nat) returns (r: UnmapResult)
      requires Valid()
      modifies st`mem, st`free
      ensures r.Rejected? ==> st.mem == old(st.mem) && st.free == old(st.free)
      ensures r == Rejected(InvalidSize) <==> size == 0
      ensures r == Rejected(AlignmentError) <==>
                size > 0 && (start % m.PageSize() != 0 || size % m.PageSize() != 0)
      ensures r.Rejected? ==> r.error == InvalidSize || r.error == AlignmentError || r.error == AddressOverflow
      ensures r == Rejected(AddressOverflow) <==>
                (size > 0 && start % m.PageSize() == 0 && size % m.PageSize() == 0 && start + size >= USIZE_LIMIT)
      ensures !r.Rejected? ==> Whole(PanicRule(m, old(Tree()), start, size, r.Panicked?))
      ensures !r.Panicked? ==> Valid()
      ensures !r.Panicked? ==> Whole(Beside(old(Tree()), Tree(), old(st.mem), st.mem, old(st.free), st.free))
      ensures r.Unmapped? ==> Whole(UnmapEffect(m, old(Tree()), Tree(), start, size))
    {
      ghost var mem0, free0, t := st.mem, st.free, Tree();
      var check := CheckUnmap(m, start, size);
      if check.Err? {
        WfOwned(m, st.mem, root, m.Levels());
        BesideSame(t, st.mem, st.free);
        return Rejected(check.error);
      }
      PanicMeans(m, t, start, size);
      var o := UnmapRange(m, st, root, start, start + size, m.Levels());
      if o.Overflow? {
        return Panicked;
      }
      UnmapMeans(m, t, Tree(), start, size, start + size, o.empty);
      OwnsAfterUnmap(m, mem0, free0, st.mem, st.free, root);
      return Unmapped;
    }

    /** `deallocate`, which `Drop` calls. */
    method Deallocate()
      requires Valid()
      modifies st`mem, st`free
      ensures st.mem == old(st.mem) - old(Footprint(Tree())) && st.free == old(st.free) + old(Footprint(Tree()))
    {
      DeallocateRecursive(m, st, root, m.Levels());
    }
  }

  /** `PageTable::new` */
  method New(m: Meta, st: FrameStore) returns (r: Result<PageTable>)
    requires m.Wf() && st.Valid()
    modifies st
    ensures r.Ok? <==> old(st.free) != {} && st.grants(old(st.asked))
    ensures st.asked == old(st.asked) + 1
    ensures r.Err? ==> r.error == NoMemory && st.mem == old(st.mem) && st.free == old(st.free)
    ensures r.Ok? ==> fresh(r.value) && r.value.m == m && r.value.st == st && r.value.Valid()
    ensures r.Ok? ==>
              st.mem == old(st.mem)[r.value.root := ZeroFrame(m.len)] && st.free == old(st.free) - {r.value.root}
    ensures r.Ok? ==> r.value.root in old(st.free) && Footprint(r.value.Tree()) == {r.value.root}
    ensures r.Ok? ==> Empty(r.value.Tree()) && NoEmpties(r.value.Tree())
  {
    var f := st.NewFrame(m.len);
    if f.Err? {
      return Err(f.error);
    }
    ZeroedTable(m, st.mem, f.value, m.Levels());
    EmptyHasNoEmpties(Abs(m, st.mem, f.value, m.Levels()));
    assert Owns(m, st.mem, st.free, f.value, m.Levels());
    var t := new PageTable(m, st, f.value);
    return Ok(t);
  }

  lemma TopOf(m: Meta, vaddr: nat, size: nat, top: nat)
    requires m.Wf() && vaddr % m.PageSize() == 0 && size > 0 && top == vaddr + RoundUp(size, m.PageSize())
    ensures PageTop(m, vaddr + size, top) && m.OnPage(vaddr)
    ensures RoundUp(size, m.PageSize()) > 0 && (size % m.PageSize() == 0 ==> top == vaddr + size)
  {
    var ps := m.PageSize();
    RoundUpBounds(size, ps);
    DivModDef(vaddr, ps);
    DivModDef(RoundUp(size, ps), ps);
    ModAddMul(RoundUp(size, ps), vaddr / ps, ps);
  }
}
