/**
 Whole lives of a page table: what `translate` answers after any sequence of calls, that
 `unmap` undoes `map`, and that every frame comes back in the end.
 */
module TableRuns {
  import opened Arith
  import opened Options
  import opened Paging
  import opened PageTree
  import opened MapSpec
  import opened MapHeap
  import opened BlockChoice
  import opened UnmapSpec
  import opened UnmapIff
  import opened UnmapOverflow
  import opened UnmapHeap
  import opened RoundTrip
  import opened FrameStores
  import opened PageTables
  import PageWalk
  import WalkSpec
  import WalkEntries

  // ----- what translate answers -----

  /** The attributes in an entry that was found for `va`. */
  ghost function Reads(m: Meta, mem: FrameMemory, root: nat, va: int, pte: Word): Attrs
    requires m.HasLevel(m.Levels())
  {
    AttrsOf(m.codec.toConfig(pte, LeafLevel(m, Abs(m, mem, root, m.Levels()), m.Levels(), va) > 1))
  }

  /** After mapping, `translate` answers for every address: shifted inside the mapped part, and
      as before outside it. */
  lemma MapTranslates(m: Meta, mem: FrameMemory, mem': FrameMemory, root: nat, s: nat, n: nat, pa: nat, attrs: Attrs,
                      va: nat)
    requires m.Wf()
    requires var t, t' := Abs(m, mem, root, m.Levels()), Abs(m, mem', root, m.Levels());
             Wf(m, t, m.Levels()) && Wf(m, t', m.Levels()) && Whole(MapEffect(m, t, t', s, n, pa, attrs))
    ensures var d := Dist(s, va, m.Span(m.Levels()));
            var old_, r := Translate(m, mem, root, va), Translate(m, mem', root, va);
            if d < n then r.Ok? && r.value.0 == pa + d && Reads(m, mem', root, va, r.value.1) == attrs
            else if old_.Err? then r == old_ == Err(NotMapped)
            else && r.Ok? && r.value.0 == old_.value.0
                 && Reads(m, mem', root, va, r.value.1) == Reads(m, mem, root, va, old_.value.1)
  {
    TranslateIsLookup(m, mem, root, va);
    TranslateIsLookup(m, mem', root, va);
    var t, t' := Abs(m, mem, root, m.Levels()), Abs(m, mem', root, m.Levels());
    assert Lookup(m, t', m.Levels(), va) ==
           Overlay(Lookup(m, t, m.Levels(), va), s, n, pa, attrs, va, m.Span(m.Levels()));
  }

  lemma MappedByte(m: Meta, t: Tree, t': Tree, level: nat, s: int, n: nat, pa: int, attrs: Attrs, k: nat)
    requires m.Wf() && m.HasLevel(level) && k < n && Whole(Mapped(m, t, t', level, s, n, pa, attrs))
    ensures Lookup(m, t', level, s + k) == Some(Hit(pa + k, attrs))
  {
    assert OpenMapped(0);
    DivModUnique(k, m.Span(level), 0, k);
    assert Dist(s, s + k, m.Span(level)) == k;
  }

  /** In particular the k-th byte of the range translates to the k-th byte of the target. */
  lemma MapShifts(m: Meta, mem: FrameMemory, mem': FrameMemory, root: nat, s: nat, n: nat, pa: nat, attrs: Attrs,
                  k: nat)
    requires m.Wf() && k < n
    requires var t, t' := Abs(m, mem, root, m.Levels()), Abs(m, mem', root, m.Levels());
             Wf(m, t, m.Levels()) && Wf(m, t', m.Levels()) && Whole(MapEffect(m, t, t', s, n, pa, attrs))
    ensures var r := Translate(m, mem', root, s + k);
            r.Ok? && r.value.0 == pa + k && Reads(m, mem', root, s + k, r.value.1) == attrs
  {
    MappedByte(m, Abs(m, mem, root, m.Levels()), Abs(m, mem', root, m.Levels()), m.Levels(), s, n, pa, attrs, k);
    TranslateIsLookup(m, mem', root, s + k);
  }

  /** A listed entry says that `va` translates to `pa`. */
  ghost predicate Shows(m: Meta, p: WalkSpec.PteInfo, va: int, pa: int) {
    && m.HasLevel(p.level)
    && WalkSpec.Covers(WalkSpec.ExtentOf(m, p), va) && pa == WalkSpec.ExtentOf(m, p).pa + (va - p.vaddr)
  }

  /** An address of a listed final entry is translated by that entry. */
  lemma EntryShown(m: Meta, mem: FrameMemory, root: nat, p: WalkSpec.PteInfo, va: nat)
    requires m.Wf() && Wf(m, Abs(m, mem, root, m.Levels()), m.Levels())
    requires p.isFinal && WalkEntries.StoredAs(m, mem, root, m.Levels(), p)
    requires p.vaddr <= va < p.vaddr + m.LevelSize(p.level)
    ensures TranslateWithLevel(m, mem, root, m.Levels(), va) == Ok((p.pte, p.level))
    ensures Translate(m, mem, root, va).Ok? && Translate(m, mem, root, va).value.1 == p.pte
  {
    DivModDef(p.vaddr, m.LevelSize(p.level));
    DivModUnique(va, m.LevelSize(p.level), p.vaddr / m.LevelSize(p.level), va - p.vaddr);
    SameEntryAt(m, mem, root, m.Levels(), p.vaddr, va, p.level);
    FinalIsTranslated(m, mem, root, m.Levels(), va, p.level);
    TranslateIsLookup(m, mem, root, va);
  }

  /** `walk_valid` and `translate` agree on every address of the table, down to the entry. */
  lemma WalkMatchesTranslate(m: Meta, mem: FrameMemory, root: nat, out: seq<WalkSpec.PteInfo>, va: nat)
    requires m.Wf() && Wf(m, Abs(m, mem, root, m.Levels()), m.Levels()) && va < m.Span(m.Levels())
    requires PageWalk.ListsAll(m, mem, root, out)
    ensures match Translate(m, mem, root, va)
            case Ok((pa, pte)) => exists k :: 0 <= k < |out| && Shows(m, out[k], va, pa) && out[k].pte == pte
            case Err(_) => forall k, pa :: 0 <= k < |out| ==> !Shows(m, out[k], va, pa)
  {
    var t := Abs(m, mem, root, m.Levels());
    TranslateIsLookup(m, mem, root, va);
    var es :| WalkSpec.Describes(m, out, es) && WalkSpec.Lists(m, t, m.Levels(), es, 0, m.Span(m.Levels()));
    match Translate(m, mem, root, va)
    case Ok((pa, pte)) =>
      assert WalkSpec.SomeCovers(es, va);
      var k :| 0 <= k < |es| && WalkSpec.Covers(es[k], va);
      assert WalkSpec.ExtentOf(m, out[k]) == es[k];
      EntryShown(m, mem, root, out[k], va);
      assert Shows(m, out[k], va, pa);
    case Err(_) =>
      forall k, pa | 0 <= k < |out| ensures !Shows(m, out[k], va, pa) {
        assert WalkSpec.ExtentOf(m, out[k]) == es[k];
      }
  }

  // ----- the flat model -----

  datatype Call =
    | MapCall(vaddr: nat, paddr: nat, size: nat, template: PteConfig, allowHuge: bool)
    | UnmapCall(start: nat, size: nat)

  /** What the callers of `map` owe, on a machine with these table frames. */
  ghost predicate Callable(m: Meta, frames: set<nat>, c: Call)
    requires m.Wf()
  {
    c.MapCall? ==>
      && CanLink(m, c.template, frames)
      && CanEncode(m, c.template, c.allowHuge, c.paddr, c.paddr + RoundUp(c.size, m.PageSize()))
  }

  /** One call on a plain function from addresses to translations; `done` bytes took effect. */
  ghost function Apply(m: Meta, h: Option<Hit>, c: Call, done: nat, va: int): Option<Hit>
    requires m.HasLevel(m.Levels())
  {
    match c
    case MapCall(v, p, _, template, _) => Overlay(h, v, done, p, m.Carried(template), va, m.Span(m.Levels()))
    case UnmapCall(s, _) => Erase(h, s, done, va, m.Span(m.Levels()))
  }

  /** A sequence of calls, the last writer of an address winning. */
  ghost function Flat(m: Meta, h: Option<Hit>, calls: seq<Call>, done: seq<nat>, va: int): Option<Hit>
    requires |calls| == |done| && m.HasLevel(m.Levels())
    decreases |calls|
  {
    if calls == [] then h
    else
      var k := |calls| - 1;
      Apply(m, Flat(m, h, calls[..k], done[..k], va), calls[k], done[k], va)
  }

  lemma FlatStep(m: Meta, h: Option<Hit>, calls: seq<Call>, done: seq<nat>, c: Call, d: nat, va: int)
    requires |calls| == |done| && m.HasLevel(m.Levels())
    ensures Flat(m, h, calls + [c], done + [d], va) == Apply(m, Flat(m, h, calls, done, va), c, d, va)
  {
    assert (calls + [c])[..|calls|] == calls && (done + [d])[..|calls|] == done;
  }

  /** The tree translates as the flat model says. */
  ghost predicate Agrees(m: Meta, t0: Tree, t: Tree, calls: seq<Call>, done: seq<nat>)
    requires m.HasLevel(m.Levels()) && |calls| == |done|
  {
    forall va: int :: Lookup(m, t, m.Levels(), va)
                      == Flat(m, Lookup(m, t0, m.Levels(), va), calls, done, va)
  }

  // ----- runs -----

  datatype Answer = MapAnswer(r: Result<()>, panicked: bool) | UnmapAnswer(u: UnmapResult)

  predicate Panics(a: Answer) {
    match a
    case MapAnswer(_, panicked) => panicked
    case UnmapAnswer(u) => u.Panicked?
  }

  /** The last call of the run panicked. */
  predicate Broken(answers: seq<Answer>) {
    answers != [] && Panics(answers[|answers| - 1])
  }

  /** The frames of the table and the allocator together, and which requests are granted. */
  datatype Pool = Pool(frames: set<nat>, grants: nat -> bool)

  ghost function RequestOf(m: Meta, c: Call): Request
    requires c.MapCall?
  {
    Request(c.vaddr, c.paddr, c.size, c.allowHuge, m.Carried(c.template))
  }

  /** What a `map` call answers and does. NoMemory means that its last request was refused, because
      all frames are in the table or by the allocator. */
  ghost predicate MapAnswered(m: Meta, t: Tree, t': Tree, c: Call, r: Result<()>, panicked: bool, d: nat,
                              pool: Pool, asked: nat, asked': nat)
    requires m.Wf() && c.MapCall?
  {
    && Whole(MapOutcome(m, t, t', RequestOf(m, c), r, d, panicked, asked, asked'))
    && (r == Err(NoMemory) ==> Footprint(t') == pool.frames || (asked' > 0 && !pool.grants(asked' - 1)))
  }

  /** What an `unmap` call answers and does. */
  ghost predicate UnmapAnswered(m: Meta, t: Tree, t': Tree, c: Call, u: UnmapResult, d: nat)
    requires m.Wf() && Wf(m, t, m.Levels()) && c.UnmapCall?
  {
    match u
    case Rejected(e) => CheckUnmap(m, c.start, c.size) == Err(e) && t' == t && d == 0
    case Panicked =>
      CheckUnmap(m, c.start, c.size).Ok? && Whole(PanicRule(m, t, c.start, c.size, true)) && d == 0
    case Unmapped =>
      && CheckUnmap(m, c.start, c.size).Ok? && Whole(PanicRule(m, t, c.start, c.size, false))
      && Whole(UnmapEffect(m, t, t', c.start, c.size)) && d == c.size
  }

  ghost predicate Answered(m: Meta, t: Tree, t': Tree, c: Call, a: Answer, d: nat, pool: Pool, asked: nat,
                           asked': nat)
  {
    && m.Wf() && Wf(m, t, m.Levels())
    && match c
       case MapCall(_, _, _, _, _) =>
         a.MapAnswer? && MapAnswered(m, t, t', c, a.r, a.panicked, d, pool, asked, asked')
       case UnmapCall(_, _) => a.UnmapAnswer? && UnmapAnswered(m, t, t', c, a.u, d) && asked' == asked
  }

  /** The calls were made one after the other, each on the tree the one before it left. */
  ghost predicate Chain(m: Meta, trees: seq<Tree>, calls: seq<Call>, answers: seq<Answer>, done: seq<nat>,
                        pool: Pool, asked: seq<nat>)
  {
    && |answers| == |done| <= |calls| && |trees| == |asked| == |answers| + 1
    && (forall k :: 0 <= k < |answers| ==>
          Whole(Answered(m, trees[k], trees[k + 1], calls[k], answers[k], done[k], pool, asked[k], asked[k + 1])))
    && (forall k :: 0 <= k < |answers| - 1 ==> !Panics(answers[k]))
    && (|answers| < |calls| ==> Broken(answers))
  }

  /** An unmapped range starts where an entry starts and ends inside no block, or the walk over it
      is clean. */
  ghost predicate Tidy(m: Meta, t: Tree, c: Call, a: Answer) {
    c.UnmapCall? && a == UnmapAnswer(UnmapResult.Unmapped) ==>
      && m.Wf() && Wf(m, t, m.Levels())
      && (|| (OnEntry(m, t, m.Levels(), c.start) && NoSplit(m, t, m.Levels(), c.start + c.size))
          || (OneTurn(m, m.Levels(), c.start, c.start + c.size)
              && CleanFrom(m, t, m.Levels(), c.start, c.start, c.start + c.size)))
  }

  ghost predicate AllTidy(m: Meta, trees: seq<Tree>, calls: seq<Call>, answers: seq<Answer>) {
    forall k :: 0 <= k < |answers| && k < |calls| && k < |trees| ==> Tidy(m, trees[k], calls[k], answers[k])
  }

  /** The call changed the translations as the flat model does. */
  ghost predicate Took(m: Meta, t: Tree, t': Tree, c: Call, done: nat)
    requires m.HasLevel(m.Levels())
  {
    match c
    case MapCall(v, p, _, template, _) => Overlays(m, t, t', m.Levels(), v, done, p, m.Carried(template))
    case UnmapCall(s, _) => Erased(m, t, t', m.Levels(), s, done)
  }

  lemma AgreesStep(m: Meta, t0: Tree, t: Tree, t': Tree, calls: seq<Call>, done: seq<nat>, c: Call, d: nat)
    requires m.HasLevel(m.Levels()) && |calls| == |done|
    requires Whole(Agrees(m, t0, t, calls, done))
    ensures Took(m, t, t', c, d) <==> Agrees(m, t0, t', calls + [c], done + [d])
  {
    forall va: int
      ensures Flat(m, Lookup(m, t0, m.Levels(), va), calls + [c], done + [d], va)
           == Apply(m, Lookup(m, t, m.Levels(), va), c, d, va)
    {
      FlatStep(m, Lookup(m, t0, m.Levels(), va), calls, done, c, d, va);
    }
  }

  /** A call that was answered changed the translations as the flat model does if it was tidy, and
      an `unmap` that does not come back to where it started only then. */
  lemma TookIff(m: Meta, t: Tree, t': Tree, c: Call, a: Answer, d: nat, pool: Pool, asked: nat, asked': nat)
    requires Whole(Answered(m, t, t', c, a, d, pool, asked, asked')) && !Panics(a)
    requires m.HasLevel(m.Levels())
    ensures Tidy(m, t, c, a) ==> Took(m, t, t', c, d)
    ensures Took(m, t, t', c, d) && (c.UnmapCall? ==> OneTurn(m, m.Levels(), c.start, c.start + c.size)) ==>
              Tidy(m, t, c, a)
  {
    assert OpenResult(0);
    assert c.MapCall? ==> Whole(MapEffect(m, t, t', c.vaddr, d, c.paddr, m.Carried(c.template)));
  }

  /** Agreement with the flat model after the first `k` calls. */
  ghost predicate AgreesAt(m: Meta, trees: seq<Tree>, calls: seq<Call>, done: seq<nat>, k: nat)
    requires m.HasLevel(m.Levels())
  {
    k < |trees| && k <= |calls| && k <= |done| && Agrees(m, trees[0], trees[k], calls[..k], done[..k])
  }

  lemma ChainAt(m: Meta, trees: seq<Tree>, calls: seq<Call>, answers: seq<Answer>, done: seq<nat>, pool: Pool,
                asked: seq<nat>, k: nat)
    requires Chain(m, trees, calls, answers, done, pool, asked) && k < |answers|
    requires k == |answers| - 1 ==> !Broken(answers)
    ensures |asked| == |trees| == |done| + 1 == |answers| + 1 && |answers| <= |calls| && !Panics(answers[k])
    ensures Whole(Answered(m, trees[k], trees[k + 1], calls[k], answers[k], done[k], pool, asked[k], asked[k + 1]))
  {
  }

  /** One more call: the table agrees with the flat model if the call was tidy, and unless the range
      comes back to where it started only then. */
  lemma StepAgrees(m: Meta, trees: seq<Tree>, calls: seq<Call>, answers: seq<Answer>, done: seq<nat>, pool: Pool,
                   asked: seq<nat>, k: nat)
    requires m.HasLevel(m.Levels()) && Whole(Chain(m, trees, calls, answers, done, pool, asked)) && k < |answers|
    requires k == |answers| - 1 ==> !Broken(answers)
    requires AgreesAt(m, trees, calls, done, k)
    ensures k < |calls| && Tidy(m, trees[k], calls[k], answers[k]) ==> AgreesAt(m, trees, calls, done, k + 1)
    ensures k < |calls| && AgreesAt(m, trees, calls, done, k + 1)
            && (calls[k].UnmapCall? ==> OneTurn(m, m.Levels(), calls[k].start, calls[k].start + calls[k].size)) ==>
              Tidy(m, trees[k], calls[k], answers[k])
  {
    ChainAt(m, trees, calls, answers, done, pool, asked, k);
    TookIff(m, trees[k], trees[k + 1], calls[k], answers[k], done[k], pool, asked[k], asked[k + 1]);
    AgreesStep(m, trees[0], trees[k], trees[k + 1], calls[..k], done[..k], calls[k], done[k]);
    assert calls[..k + 1] == calls[..k] + [calls[k]] && done[..k + 1] == done[..k] + [done[k]];
  }

  /** If every `unmap` so far was tidy, the table agrees with the flat model. */
  lemma {:induction false} TidyAgrees(m: Meta, trees: seq<Tree>, calls: seq<Call>, answers: seq<Answer>,
                                      done: seq<nat>, pool: Pool, asked: seq<nat>, k: nat)
    requires m.HasLevel(m.Levels()) && Chain(m, trees, calls, answers, done, pool, asked)
    requires k <= |answers| && (k == |answers| ==> !Broken(answers))
    requires AllTidy(m, trees, calls, answers)
    ensures AgreesAt(m, trees, calls, done, k)
  {
    if k > 0 {
      TidyAgrees(m, trees, calls, answers, done, pool, asked, k - 1);
      assert Tidy(m, trees[k - 1], calls[k - 1], answers[k - 1]);
      StepAgrees(m, trees, calls, answers, done, pool, asked, k - 1);
    }
  }

  lemma RunAgrees(m: Meta, trees: seq<Tree>, calls: seq<Call>, answers: seq<Answer>, done: seq<nat>,
                  pool: Pool, asked: seq<nat>)
    requires m.HasLevel(m.Levels()) && Chain(m, trees, calls, answers, done, pool, asked) && !Broken(answers)
    ensures |calls| == |done|
    ensures AllTidy(m, trees, calls, answers) ==> Whole(Agrees(m, trees[0], trees[|calls|], calls, done))
  {
    if AllTidy(m, trees, calls, answers) {
      TidyAgrees(m, trees, calls, answers, done, pool, asked, |calls|);
      assert calls[..|calls|] == calls && done[..|calls|] == done;
    }
  }

  /** For ranges that do not come back to where they started: the table agrees with the flat model
      after every call if and only if every `unmap` was tidy. */
  lemma AgreesIffTidy(m: Meta, trees: seq<Tree>, calls: seq<Call>, answers: seq<Answer>, done: seq<nat>,
                      pool: Pool, asked: seq<nat>)
    requires m.HasLevel(m.Levels()) && Chain(m, trees, calls, answers, done, pool, asked) && !Broken(answers)
    requires forall k :: 0 <= k < |calls| && calls[k].UnmapCall? ==>
               OneTurn(m, m.Levels(), calls[k].start, calls[k].start + calls[k].size)
    ensures AllTidy(m, trees, calls, answers) <==> forall k: nat :: k <= |calls| ==> AgreesAt(m, trees, calls, done, k)
  {
    if AllTidy(m, trees, calls, answers) {
      forall k: nat | k <= |calls| ensures AgreesAt(m, trees, calls, done, k) {
        TidyAgrees(m, trees, calls, answers, done, pool, asked, k);
      }
    }
    if forall k: nat :: k <= |calls| ==> AgreesAt(m, trees, calls, done, k) {
      forall k | 0 <= k < |answers| ensures Tidy(m, trees[k], calls[k], answers[k]) {
        assert AgreesAt(m, trees, calls, done, k) && AgreesAt(m, trees, calls, done, k + 1);
        StepAgrees(m, trees, calls, answers, done, pool, asked, k);
      }
    }
  }

  /** The pool of a table on an allocator. */
  ghost function PoolOf(pt: PageTable): Pool
    reads pt, pt.st
  {
    Pool(Footprint(pt.Tree()) + pt.st.free, pt.st.grants)
  }

  /** No frame is left: all are in the table. */
  lemma AllTaken(t: Tree, t': Tree, mem: FrameMemory, mem': FrameMemory, free: set<nat>, free': set<nat>)
    requires Whole(Beside(t, t', mem, mem', free, free')) && free' == {}
    ensures Footprint(t') == Footprint(t) + free
  {
    assert OpenBeside(0);
  }

  /** One call of a run. `d` is how much of the range took effect. */
  method PerformMap(pt: PageTable, c: Call) returns (a: Answer, ghost d: nat)
    requires pt.Valid() && c.MapCall? && Callable(pt.m, pt.st.free, c)
    modifies pt.st
    ensures Whole(Answered(pt.m, old(pt.Tree()), pt.Tree(), c, a, d, old(PoolOf(pt)), old(pt.st.asked),
                           pt.st.asked))
    ensures pt.Valid()
    ensures Whole(Beside(old(pt.Tree()), pt.Tree(), old(pt.st.mem), pt.st.mem, old(pt.st.free), pt.st.free))
  {
    ghost var t, mem0, free0, pool, asked0 := pt.Tree(), pt.st.mem, pt.st.free, PoolOf(pt), pt.st.asked;
    var r, panicked, n := pt.Map(c.vaddr, c.paddr, c.size, c.template, c.allowHuge);
    if pt.st.free == {} {
      AllTaken(t, pt.Tree(), mem0, pt.st.mem, free0, pt.st.free);
    }
    assert MapAnswered(pt.m, t, pt.Tree(), c, r, panicked, n, pool, asked0, pt.st.asked);
    return MapAnswer(r, panicked), n;
  }

  method PerformUnmap(pt: PageTable, c: Call) returns (a: Answer, ghost d: nat)
    requires pt.Valid() && c.UnmapCall?
    modifies pt.st
    ensures Whole(Answered(pt.m, old(pt.Tree()), pt.Tree(), c, a, d, old(PoolOf(pt)), old(pt.st.asked),
                           pt.st.asked))
    ensures !Panics(a) ==> pt.Valid()
    ensures !Panics(a) ==>
              Whole(Beside(old(pt.Tree()), pt.Tree(), old(pt.st.mem), pt.st.mem, old(pt.st.free), pt.st.free))
  {
    ghost var t := pt.Tree();
    var u := pt.Unmap(c.start, c.size);
    ghost var n := if u.Unmapped? then c.size else 0;
    assert UnmapAnswered(pt.m, t, pt.Tree(), c, u, n);
    return UnmapAnswer(u), n;
  }

  /** The next call of a run that started at `t0`. */
  method Perform(pt: PageTable, c: Call, ghost t0: Tree, ghost mem0: FrameMemory, ghost free0: set<nat>)
    returns (a: Answer, ghost d: nat)
    requires pt.Valid() && Callable(pt.m, pt.st.free, c)
    requires Whole(Beside(t0, pt.Tree(), mem0, pt.st.mem, free0, pt.st.free))
    modifies pt.st
    ensures Whole(Answered(pt.m, old(pt.Tree()), pt.Tree(), c, a, d, old(PoolOf(pt)), old(pt.st.asked),
                           pt.st.asked))
    ensures !Panics(a) ==> pt.Valid() && Whole(Beside(t0, pt.Tree(), mem0, pt.st.mem, free0, pt.st.free))
  {
    ghost var t, mem1, free1 := pt.Tree(), pt.st.mem, pt.st.free;
    if c.MapCall? {
      a, d := PerformMap(pt, c);
    } else {
      a, d := PerformUnmap(pt, c);
    }
    if !Panics(a) {
      BesideTrans(t0, t, pt.Tree(), mem0, mem1, pt.st.mem, free0, free1, pt.st.free);
    }
  }

  /** `s` records what was seen at 0, ..., i, from `first` to `last`. */
  ghost predicate Spans<T>(s: seq<T>, i: nat, first: T, last: T) {
    |s| == i + 1 && s[0] == first && s[i] == last
  }

  lemma SpansMore<T>(s: seq<T>, i: nat, x: T)
    requires |s| == i + 1
    ensures Spans(s + [x], i + 1, s[0], x)
  {
  }

  lemma ChainStart(m: Meta, t: Tree, calls: seq<Call>, pool: Pool, n: nat)
    ensures Whole(Chain(m, [t], calls[..0], [], [], pool, [n]))
  {
  }

  lemma ChainMore(m: Meta, trees: seq<Tree>, calls: seq<Call>, answers: seq<Answer>, done: seq<nat>,
                  pool: Pool, asked: seq<nat>, i: nat, t': Tree, a: Answer, d: nat, n: nat)
    requires i < |calls| && |answers| == i && |trees| == |asked| == i + 1
    requires Whole(Chain(m, trees, calls[..i], answers, done, pool, asked)) && !Broken(answers)
    requires Whole(Answered(m, trees[i], t', calls[i], a, d, pool, asked[i], n))
    ensures Broken(answers + [a]) <==> Panics(a)
    ensures Whole(Chain(m, trees + [t'], calls[..i + 1], answers + [a], done + [d], pool, asked + [n]))
    ensures Panics(a) ==> Whole(Chain(m, trees + [t'], calls, answers + [a], done + [d], pool, asked + [n]))
  {
    var trees', answers', done', asked' := trees + [t'], answers + [a], done + [d], asked + [n];
    forall k | 0 <= k <= i
      ensures Whole(Answered(m, trees'[k], trees'[k + 1], calls[k], answers'[k], done'[k], pool, asked'[k],
                             asked'[k + 1]))
    {
      if k < i {
        assert trees'[k] == trees[k] && trees'[k + 1] == trees[k + 1] && calls[..i][k] == calls[k];
        assert asked'[k] == asked[k] && asked'[k + 1] == asked[k + 1];
      }
    }
    forall k | 0 <= k < i ensures !Panics(answers'[k]) {
      assert answers'[k] == answers[k];
    }
    assert Chain(m, trees', calls[..i + 1], answers', done', pool, asked');
  }

  /** Any sequence of calls, up to the first that panics: every call does to the tree what its
      answer says, frames are conserved, other tables on the allocator are untouched, and if every
      `unmap` was tidy the table translates exactly as the flat model says. */
  method Run(pt: PageTable, calls: seq<Call>)
    returns (answers: seq<Answer>, ghost done: seq<nat>, ghost trees: seq<Tree>, ghost asked: seq<nat>)
    requires pt.Valid()
    requires forall k :: 0 <= k < |calls| ==> Callable(pt.m, Footprint(pt.Tree()) + pt.st.free, calls[k])
    modifies pt.st
    ensures Chain(pt.m, trees, calls, answers, done, old(PoolOf(pt)), asked)
    ensures trees[0] == old(pt.Tree()) && trees[|answers|] == pt.Tree()
    ensures asked[0] == old(pt.st.asked) && asked[|answers|] == pt.st.asked
    ensures !Broken(answers) ==> pt.Valid()
    ensures !Broken(answers) ==>
              Whole(Beside(old(pt.Tree()), pt.Tree(), old(pt.st.mem), pt.st.mem, old(pt.st.free), pt.st.free))
    ensures !Broken(answers) && AllTidy(pt.m, trees, calls, answers) ==>
              Whole(Agrees(pt.m, old(pt.Tree()), pt.Tree(), calls, done))
  {
    ghost var t0, mem0, free0, pool := pt.Tree(), pt.st.mem, pt.st.free, PoolOf(pt);
    answers, done, trees, asked := [], [], [t0], [pt.st.asked];
    ChainStart(pt.m, t0, calls, pool, pt.st.asked);
    WfOwned(pt.m, mem0, pt.root, pt.m.Levels());
    BesideSame(t0, mem0, free0);
    var i := 0;
    while i < |calls|
      invariant i <= |calls| && |answers| == i && !Broken(answers)
      invariant Whole(Chain(pt.m, trees, calls[..i], answers, done, pool, asked))
      invariant pt.Valid() && Spans(trees, i, t0, pt.Tree()) && Spans(asked, i, old(pt.st.asked), pt.st.asked)
      invariant Whole(Beside(t0, pt.Tree(), mem0, pt.st.mem, free0, pt.st.free))
    {
      FramesKept(t0, pt.Tree(), mem0, pt.st.mem, free0, pt.st.free);
      var a, d := Perform(pt, calls[i], t0, mem0, free0);
      ChainMore(pt.m, trees, calls, answers, done, pool, asked, i, pt.Tree(), a, d, pt.st.asked);
      SpansMore(trees, i, pt.Tree());
      SpansMore(asked, i, pt.st.asked);
      answers, done, trees, asked := answers + [a], done + [d], trees + [pt.Tree()], asked + [pt.st.asked];
      if Panics(a) {
        return;
      }
      i := i + 1;
    }
    assert calls[..i] == calls;
    RunAgrees(pt.m, trees, calls, answers, done, pool, asked);
  }

  lemma FramesKept(t: Tree, t': Tree, mem: FrameMemory, mem': FrameMemory, free: set<nat>, free': set<nat>)
    requires Whole(Beside(t, t', mem, mem', free, free'))
    ensures Footprint(t') + free' == Footprint(t) + free
  {
    assert OpenBeside(0);
  }

  lemma EmptyTranslatesNothing(m: Meta, t: Tree, va: int)
    requires m.Wf() && Wf(m, t, m.Levels()) && Empty(t)
    ensures Lookup(m, t, m.Levels(), va) == None
  {
    m.IndexInFrame(va, m.Levels());
  }

  /** The flat model started from nothing. */
  ghost predicate AgreesFresh(m: Meta, t: Tree, calls: seq<Call>, done: seq<nat>)
    requires m.HasLevel(m.Levels()) && |calls| == |done|
  {
    forall va: int :: Lookup(m, t, m.Levels(), va) == Flat(m, None, calls, done, va)
  }

  lemma FromEmpty(m: Meta, t0: Tree, t: Tree, calls: seq<Call>, done: seq<nat>)
    requires m.Wf() && Wf(m, t0, m.Levels()) && Empty(t0) && |calls| == |done| && Whole(Agrees(m, t0, t, calls, done))
    ensures AgreesFresh(m, t, calls, done)
  {
    forall va: int ensures Lookup(m, t, m.Levels(), va) == Flat(m, None, calls, done, va) {
      EmptyTranslatesNothing(m, t0, va);
    }
  }

  /** What `new` took and `drop` gave back. */
  lemma AllReturned(root: nat, t: Tree, t': Tree, mem: FrameMemory, mem1: FrameMemory, mem': FrameMemory,
                    free: set<nat>, free1: set<nat>, free': set<nat>)
    requires mem.Keys !! free && root in free && root in mem1 && mem1 == mem[root := mem1[root]]
    requires free1 == free - {root}
    requires Footprint(t) == {root} && Whole(Beside(t, t', mem1, mem', free1, free'))
    ensures mem' - Footprint(t') == mem && free' + Footprint(t') == free
  {
    assert OpenBeside(0);
    var rest := mem' - Footprint(t');
    assert rest.Keys == mem.Keys;
    forall f | f in mem ensures rest[f] == mem[f] {
      assert f in mem1.Keys - Footprint(t) && mem1[f] == mem[f];
    }
  }

  /** From `new` to `drop`: the table translates what the calls have mapped, and in the end the
      allocator and the other frames are as they were. `trees` are the trees before the drop. */
  method Life(m: Meta, st: FrameStore, calls: seq<Call>)
    returns (created: bool, answers: seq<Answer>, ghost done: seq<nat>, ghost trees: seq<Tree>,
             ghost asked: seq<nat>)
    requires m.Wf() && st.Valid()
    requires forall k :: 0 <= k < |calls| ==> Callable(m, st.free, calls[k])
    modifies st
    ensures created <==> old(st.free) != {} && st.grants(old(st.asked))
    ensures !Broken(answers) ==> st.mem == old(st.mem) && st.free == old(st.free)
    ensures !created ==> answers == []
    ensures created ==> Chain(m, trees, calls, answers, done, Pool(old(st.free), st.grants), asked)
    ensures created ==> asked[0] == old(st.asked) + 1 && asked[|answers|] == st.asked
    ensures created ==> Wf(m, trees[0], m.Levels()) && Empty(trees[0])
    ensures created && !Broken(answers) && AllTidy(m, trees, calls, answers) ==>
              Whole(AgreesFresh(m, trees[|calls|], calls, done))
  {
    ghost var mem0, free0 := st.mem, st.free;
    var r := New(m, st);
    created, answers, done, trees, asked := r.Ok?, [], [], [], [];
    if created {
      var pt := r.value;
      ghost var t0, mem1, free1 := pt.Tree(), st.mem, st.free;
      assert Footprint(t0) + free1 == free0;
      answers, done, trees, asked := Run(pt, calls);
      if !Broken(answers) {
        if AllTidy(m, trees, calls, answers) {
          FromEmpty(m, t0, pt.Tree(), calls, done);
        }
        AllReturned(pt.root, t0, pt.Tree(), mem0, mem1, st.mem, free0, free1, st.free);
        pt.Deallocate();
      }
    }
  }

  // ----- map and unmap -----

  /** `map` and then `unmap` of the same range. */
  method MapThenUnmap(pt: PageTable, vaddr: nat, paddr: nat, size: nat, template: PteConfig, allowHuge: bool)
    returns (mapped: Result<()>, unmapped: UnmapResult)
    requires pt.Valid() && Callable(pt.m, pt.st.free, MapCall(vaddr, paddr, size, template, allowHuge))
    requires size % pt.m.PageSize() == 0
    modifies pt.st
    ensures mapped.Ok? && unmapped.Unmapped? ==>
              forall va: int ::
                Lookup(pt.m, pt.Tree(), pt.m.Levels(), va) == old(Lookup(pt.m, pt.Tree(), pt.m.Levels(), va))
    ensures mapped.Ok? && unmapped.Unmapped? && old(NoEmpties(pt.Tree())) ==>
              pt.Tree() == old(pt.Tree()) && pt.st.mem.Keys == old(pt.st.mem.Keys) && pt.st.free == old(pt.st.free)
    ensures mapped.Ok? ==> !unmapped.Rejected?
    ensures mapped.Ok? && unmapped.Panicked? ==> vaddr + size > USIZE_LIMIT - pt.m.LevelSize(pt.m.Levels())
    ensures mapped.Ok? && InLastWindow(pt.m, vaddr) ==>
              (unmapped.Panicked? <==> vaddr + size > USIZE_LIMIT - pt.m.LevelSize(pt.m.Levels()))
  {
    ghost var t, mem0, free0 := pt.Tree(), pt.st.mem, pt.st.free;
    var panicked;
    ghost var done;
    mapped, panicked, done := pt.Map(vaddr, paddr, size, template, allowHuge);
    ghost var t', mem1, free1 := pt.Tree(), pt.st.mem, pt.st.free;
    unmapped := pt.Unmap(vaddr, size);
    if mapped.Ok? {
      RoundUpBounds(size, pt.m.PageSize());
      assert OpenResult(0);
      if unmapped.Unmapped? {
        Undone(pt.m, t, t', pt.Tree(), vaddr, size, paddr, pt.m.Carried(template));
        BesideTrans(t, t', pt.Tree(), mem0, mem1, pt.st.mem, free0, free1, pt.st.free);
        if pt.Tree() == t {
          BesideFrames(t, mem0, pt.st.mem, free0, pt.st.free);
        }
      }
      if InLastWindow(pt.m, vaddr) {
        MappedUsesLast(pt.m, t, t', vaddr, size, paddr, pt.m.Carried(template));
      }
    }
  }

  /** The window of the root table that holds `v` ends at 2^64 or later, on an entry boundary. */
  predicate InLastWindow(m: Meta, v: nat)
    requires m.HasLevel(m.Levels())
  {
    USIZE_LIMIT % m.LevelSize(m.Levels()) == 0 && v < USIZE_LIMIT && OneTable(m, m.Levels(), v, USIZE_LIMIT)
  }

  lemma BesideFrames(t: Tree, mem: FrameMemory, mem': FrameMemory, free: set<nat>, free': set<nat>)
    requires Whole(Beside(t, t, mem, mem', free, free')) && mem.Keys !! free && mem'.Keys !! free'
    ensures mem'.Keys == mem.Keys && free' == free
  {
    assert OpenBeside(0);
    forall f ensures f in free <==> f in free' {
      assert f in Footprint(t) + free <==> f in Footprint(t) + free';
    }
  }

  // A range that was just mapped starts where an entry starts and uses the last entry if it reaches it.
  lemma MappedUsesLast(m: Meta, t: Tree, t': Tree, s: nat, n: nat, pa: nat, attrs: Attrs)
    requires m.Wf() && m.HasLevel(m.Levels()) && n > 0 && Wf(m, t', m.Levels()) && InLastWindow(m, s)
    requires s + n < USIZE_LIMIT && Whole(MapEffect(m, t, t', s, n, pa, attrs))
    ensures OnEntry(m, t', m.Levels(), s)
    ensures s + n > USIZE_LIMIT - m.LevelSize(m.Levels()) ==> LastUsed(m, t', m.Levels())
  {
    var level := m.Levels();
    var span, ls, x := m.Span(level), m.LevelSize(level), s + n - 1;
    MappedEnds(m, t, t', level, s, n, pa, attrs);
    MappedOnEntry(m, t', level, s);
    MappedByte(m, t, t', level, s, n, pa, attrs, n - 1);
    if USIZE_LIMIT - ls <= x {
      var w := s / span * span;
      DivModDef(s, span);
      DivModUnique(w, span, s / span, 0);
      ModAddMul(USIZE_LIMIT - ls, 1, ls);
      SameLast(m, level, w, x, USIZE_LIMIT - ls);
    }
  }

  lemma Undone(m: Meta, t: Tree, t': Tree, t'': Tree, s: nat, n: nat, pa: nat, attrs: Attrs)
    requires m.Wf() && n > 0 && Wf(m, t', m.Levels()) && m.HasLevel(m.Levels())
    requires Whole(MapEffect(m, t, t', s, n, pa, attrs)) && Whole(UnmapEffect(m, t', t'', s, n))
    ensures forall va: int :: Lookup(m, t'', m.Levels(), va) == Lookup(m, t, m.Levels(), va)
    ensures NoEmpties(t) && NoEmpties(t') ==> t'' == t
  {
    TranslationRestored(m, t, t', m.Levels(), s, n, pa, attrs);
    if NoEmpties(t) && NoEmpties(t') {
      TreeRestored(m, t, t', m.Levels(), s, n, pa, attrs);
    }
  }
}
