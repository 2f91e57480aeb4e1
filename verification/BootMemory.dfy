/**
 The boot bump allocator and the memory map it reports to: `ram::alloc`,
 `flush_to_memory_map`, `used_range`, `init` and `memory_map_setup`.
 */
module BootMemory {
  import opened Arith
  import opened Options
  import opened RangeMap

  datatype MemoryType = Free | Ram | KImage | Reserved | Mmio | PerCpuData

  /** A block handed out by `alloc`. */
  datatype Block = Block(start: nat, size: nat)

  const MEMORY_MAP_CAPACITY: nat := 128
  const LOWEST_ADDRESS: nat := 0x40
  const MIN_FREE_SIZE: nat := 8 * 1024 * 1024

  /** `MemoryDescriptor::overwritable` */
  function Overwritable(existing: Item<MemoryType>, other: Item<MemoryType>): bool {
    existing.kind.Free?
  }

  // ----- what the allocator and the map agree on -----

  ghost predicate FreeBetween(items: seq<Item<MemoryType>>, lo: int, hi: int) {
    forall a :: lo <= a < hi ==> KindAt(items, a) == Some(Free)
  }

  /** No byte of a block below `limit` is free in the map. */
  ghost predicate Taken(items: seq<Item<MemoryType>>, blocks: seq<Block>, limit: int) {
    forall k, a :: 0 <= k < |blocks| && blocks[k].start <= a < blocks[k].start + blocks[k].size && a < limit ==>
      KindAt(items, a) != Some(Free)
  }

  predicate Placed(blocks: seq<Block>, lo: int, hi: int) {
    forall k :: 0 <= k < |blocks| ==> lo <= blocks[k].start && blocks[k].start + blocks[k].size <= hi
  }

  predicate Separate(blocks: seq<Block>) {
    forall j, k :: 0 <= j < k < |blocks| ==> blocks[j].start + blocks[j].size <= blocks[k].start
  }

  /** No free descriptor overlaps a block. */
  predicate NoneFree(items: seq<Item<MemoryType>>, blocks: seq<Block>) {
    forall i, k :: 0 <= i < |items| && items[i].kind.Free? && 0 <= k < |blocks| && blocks[k].size > 0 ==>
      items[i].hi <= blocks[k].start || blocks[k].start + blocks[k].size <= items[i].lo
  }

  lemma TakenIsNoneFree(items: seq<Item<MemoryType>>, blocks: seq<Block>, limit: int)
    requires Proper(items) && Taken(items, blocks, limit) && Placed(blocks, 0, limit)
    ensures NoneFree(items, blocks)
  {
    forall i, k | 0 <= i < |items| && items[i].kind.Free? && 0 <= k < |blocks| && blocks[k].size > 0
      ensures items[i].hi <= blocks[k].start || blocks[k].start + blocks[k].size <= items[i].lo
    {
      var a := Max(items[i].lo, blocks[k].start);
      if a < items[i].hi && a < blocks[k].start + blocks[k].size {
        assert Covers(items[i], a);
        KindAtHas(items, a, Free);
      }
    }
  }

  /** A range that is free everywhere meets no descriptor that could refuse it. */
  lemma FreeRangeFits(items: seq<Item<MemoryType>>, lo: int, hi: int, n: nat)
    requires Proper(items) && FreeBetween(items, lo, hi) && lo < hi && n < |items|
    requires lo < items[n].hi && hi > items[n].lo
    ensures items[n].kind == Free
  {
    var a := Max(items[n].lo, lo);
    assert Covers(items[n], a) && KindAt(items, a) == Some(Free);
    KindAtHas(items, a, items[n].kind);
  }

  lemma OverlayAt(s: seq<Item<MemoryType>>, x: Item<MemoryType>, t: seq<Item<MemoryType>>, a: int)
    requires IsOverlay(s, x, t)
    ensures KindAt(t, a) == Overlaid(s, x, a)
  {
    var f := (a: int) => Overlaid(s, x, a);
    assert KindAt(t, a) == f(a);
  }

  /** What reporting [lo, hi) as used does to the agreement. */
  lemma Reported(s: seq<Item<MemoryType>>, t: seq<Item<MemoryType>>, blocks: seq<Block>,
                 lo: int, hi: int, end: int, kind: MemoryType)
    requires lo < hi && kind != Free
    requires IsOverlay(s, Item(lo, hi, kind), t)
    requires FreeBetween(s, lo, end) && Taken(s, blocks, lo)
    ensures FreeBetween(t, hi, end) && Taken(t, blocks, hi)
  {
    forall a ensures KindAt(t, a) == Overlaid(s, Item(lo, hi, kind), a) {
      OverlayAt(s, Item(lo, hi, kind), t, a);
    }
  }

  // ----- the allocator as a function of the steps -----

  datatype Step = Allocate(size: nat, align: nat) | Flush(kind: MemoryType)

  predicate Sensible(s: Step) {
    match s
    case Allocate(_, align) => align > 0
    case Flush(kind) => kind != Free
  }

  /** `RAM_START` and `RAM_CURRENT`. */
  datatype Cursor = Cursor(start: nat, current: nat)

  /** What `alloc` answers at a cursor. */
  function Reply(c: Cursor, size: nat, align: nat, end: nat): Option<nat>
    requires align > 0
  {
    if RoundUp(c.current, align) + size > end then None else Some(RoundUp(c.current, align))
  }

  /** The answer is the lowest aligned place for the block at or above the cursor, if there is one. */
  lemma ReplyIsLowest(c: Cursor, size: nat, align: nat, end: nat)
    requires align > 0
    ensures match Reply(c, size, align, end)
            case Some(p) =>
              && p % align == 0 && c.current <= p && p + size <= end
              && forall q: nat :: q % align == 0 && c.current <= q ==> p <= q
            case None => forall q: nat :: q % align == 0 && c.current <= q ==> q + size > end
  {
    RoundUpBounds(c.current, align);
    forall q: nat | q % align == 0 && c.current <= q ensures RoundUp(c.current, align) <= q {
      RoundUpLe(c.current, q, align);
    }
  }

  function Advance(c: Cursor, s: Step, end: nat, page: nat): Cursor
    requires page > 0 && Sensible(s)
  {
    match s
    case Allocate(size, align) =>
      (match Reply(c, size, align, end)
       case Some(p) => c.(current := p + size)
       case None => c)
    case Flush(_) =>
      if c.start < RoundUp(c.current, page) then Cursor(RoundUp(c.current, page), RoundUp(c.current, page)) else c
  }

  predicate AllSensible(steps: seq<Step>) {
    forall k :: 0 <= k < |steps| ==> Sensible(steps[k])
  }

  function CursorAfter(c: Cursor, steps: seq<Step>, end: nat, page: nat): Cursor
    requires page > 0 && AllSensible(steps)
  {
    if steps == [] then c
    else Advance(CursorAfter(c, steps[..|steps| - 1], end, page), steps[|steps| - 1], end, page)
  }

  /** The blocks handed out by one step from a cursor. */
  function GrantedBy(c: Cursor, s: Step, end: nat): seq<Block>
    requires Sensible(s)
  {
    match s
    case Allocate(size, align) =>
      (match Reply(c, size, align, end)
       case Some(p) => [Block(p, size)]
       case None => [])
    case Flush(_) => []
  }

  /** The blocks handed out by a sequence of steps. */
  function Granted(c: Cursor, steps: seq<Step>, end: nat, page: nat): seq<Block>
    requires page > 0 && AllSensible(steps)
  {
    if steps == [] then []
    else
      var k := |steps| - 1;
      Granted(c, steps[..k], end, page) + GrantedBy(CursorAfter(c, steps[..k], end, page), steps[k], end)
  }

  /** Blocks lie between the first cursor and the last, and above all earlier ones. */
  lemma {:induction false} GrantedSeparate(c: Cursor, steps: seq<Step>, end: nat, page: nat)
    requires page > 0 && AllSensible(steps)
    ensures c.current <= CursorAfter(c, steps, end, page).current
    ensures Placed(Granted(c, steps, end, page), c.current, CursorAfter(c, steps, end, page).current)
    ensures Placed(Granted(c, steps, end, page), c.current, end)
    ensures Separate(Granted(c, steps, end, page))
  {
    if steps != [] {
      var k := |steps| - 1;
      var c1 := CursorAfter(c, steps[..k], end, page);
      GrantedSeparate(c, steps[..k], end, page);
      RoundUpBounds(c1.current, page);
      match steps[k] {
        case Allocate(size, align) => RoundUpBounds(c1.current, align);
        case Flush(_) =>
      }
    }
  }

  lemma RoundUpAgain(x: int, d: int)
    requires d > 0
    ensures RoundUp(RoundUp(x, d), d) == RoundUp(x, d)
  {
    RoundUpBounds(x, d);
    RoundUpLe(RoundUp(x, d), RoundUp(x, d), d);
    RoundUpBounds(RoundUp(x, d), d);
  }

  /** Where the last block ends; the first cursor if there is none. */
  function LastEnd(c: Cursor, blocks: seq<Block>): nat {
    if blocks == [] then c.current else blocks[|blocks| - 1].start + blocks[|blocks| - 1].size
  }

  /** The cursor `d` is where the last block ends, or at the page boundary after that. */
  predicate Tight(d: Cursor, last: nat, page: nat)
    requires page > 0
  {
    d.start <= d.current && (d.current == last || d.current == RoundUp(last, page))
  }

  lemma FlushTight(d: Cursor, kind: MemoryType, last: nat, end: nat, page: nat)
    requires page > 0 && kind != Free && Tight(d, last, page)
    ensures var d' := Advance(d, Flush(kind), end, page);
            Tight(d', last, page) && d'.start == d'.current == RoundUp(last, page)
  {
    RoundUpBounds(d.current, page);
    RoundUpAgain(last, page);
  }

  /** Nothing is skipped: the cursor is where the last block ends, or at the next page boundary if a
      flush has come since, and a flush reports everything up to there. */
  lemma {:induction false} NoGaps(c: Cursor, steps: seq<Step>, end: nat, page: nat)
    requires page > 0 && AllSensible(steps) && c.start <= c.current
    ensures var last, d := LastEnd(c, Granted(c, steps, end, page)), CursorAfter(c, steps, end, page);
            && Tight(d, last, page)
            && (steps != [] && steps[|steps| - 1].Flush? ==> d.start == d.current == RoundUp(last, page))
  {
    if steps != [] {
      var k := |steps| - 1;
      var c1, blocks := CursorAfter(c, steps[..k], end, page), Granted(c, steps[..k], end, page);
      NoGaps(c, steps[..k], end, page);
      match steps[k] {
        case Allocate(size, align) => RoundUpBounds(c1.current, align);
        case Flush(kind) => FlushTight(c1, kind, LastEnd(c, blocks), end, page);
      }
    }
  }

  /** The kind of an address after the steps: the last flush that covered it, or as before. */
  ghost function KindAfter(items: seq<Item<MemoryType>>, c: Cursor, steps: seq<Step>, end: nat, page: nat, a: int)
    : Option<MemoryType>
    requires page > 0 && AllSensible(steps)
  {
    if steps == [] then KindAt(items, a)
    else
      var k := |steps| - 1;
      var c1 := CursorAfter(c, steps[..k], end, page);
      match steps[k]
      case Flush(kind) =>
        if c1.start <= a < RoundUp(c1.current, page) then Some(kind) else KindAfter(items, c, steps[..k], end, page, a)
      case Allocate(_, _) => KindAfter(items, c, steps[..k], end, page, a)
  }

  /** The kind of an address once the used range is reported as reserved. */
  ghost function UsedKind(items: seq<Item<MemoryType>>, c: Cursor, page: nat, a: int): Option<MemoryType>
    requires page > 0
  {
    if c.start <= a < RoundUp(c.current, page) then Some(Reserved) else KindAt(items, a)
  }

  /** The same once the console is added, if there is one. */
  ghost function SetupKind(items: seq<Item<MemoryType>>, c: Cursor, page: nat, console: Option<Item<MemoryType>>,
                           a: int)
    : Option<MemoryType>
    requires page > 0
  {
    if console.Some? && Covers(console.value, a) then Some(console.value.kind) else UsedKind(items, c, page, a)
  }

  /** The console lies on an address that by then is neither free nor of its own kind. */
  ghost predicate ConsoleBlocked(items: seq<Item<MemoryType>>, c: Cursor, page: nat, console: Item<MemoryType>)
    requires page > 0
  {
    exists a :: Covers(console, a) && UsedKind(items, c, page, a).Some?
                && UsedKind(items, c, page, a).value != Free && UsedKind(items, c, page, a).value != console.kind
  }

  lemma BlockedIff(s: seq<Item<MemoryType>>, t: seq<Item<MemoryType>>, c: Cursor, page: nat, console: Item<MemoryType>,
                   list: RangeVec<MemoryType>)
    requires page > 0 && Proper(t) && console.lo < console.hi && list.overwritable == Overwritable
    requires forall a :: KindAt(t, a) == UsedKind(s, c, page, a)
    ensures ConsoleBlocked(s, c, page, console) <==> exists n :: 0 <= n < |t| && list.Blocks(console, t[n])
  {
    if ConsoleBlocked(s, c, page, console) {
      var a :| Covers(console, a) && UsedKind(s, c, page, a).Some?
               && UsedKind(s, c, page, a).value != Free && UsedKind(s, c, page, a).value != console.kind;
      var k := KindAt(t, a).value;
      KindAtHas(t, a, k);
      var n :| 0 <= n < |t| && Covers(t[n], a) && t[n].kind == k;
      assert list.Blocks(console, t[n]);
    }
    if exists n :: 0 <= n < |t| && list.Blocks(console, t[n]) {
      var n :| 0 <= n < |t| && list.Blocks(console, t[n]);
      var a := Max(console.lo, t[n].lo);
      assert Covers(t[n], a) && Covers(console, a);
      KindAtHas(t, a, t[n].kind);
    }
  }

  class BootRam {
    const page: nat
    const memory: RangeVec<MemoryType>
    const ramEnd: nat
    var ramStart: nat
    var ramCurrent: nat
    ghost var blocks: seq<Block>

    ghost predicate Valid()
      reads this, memory
    {
      && page > 0 && ramStart <= ramCurrent
      && (ramCurrent <= ramEnd || (ramStart == ramCurrent && ramCurrent % page == 0))
      && memory.Valid() && memory.capacity == Some(MEMORY_MAP_CAPACITY) && memory.overwritable == Overwritable
      && FreeBetween(memory.items, ramStart, ramEnd)
      && Taken(memory.items, blocks, ramStart)
      && Placed(blocks, 0, ramCurrent)
      && Separate(blocks)
    }

    ghost function At(): Cursor
      reads this
    {
      Cursor(ramStart, ramCurrent)
    }

    /** `ram::init`, on a free range that `early_init` accepts. */
    constructor (page: nat, memory: RangeVec<MemoryType>, lo: nat, hi: nat)
      requires page > 0 && hi - lo > MIN_FREE_SIZE
      requires memory.Valid() && memory.capacity == Some(MEMORY_MAP_CAPACITY) && memory.overwritable == Overwritable
      requires FreeBetween(memory.items, lo, hi)
      ensures Valid() && blocks == [] && this.page == page && this.memory == memory
      ensures ramEnd == hi && At() == Cursor(lo, Max(lo, 0x40))
    {
      this.page, this.memory, ramEnd := page, memory, hi;
      ramStart, ramCurrent := lo, Max(lo, LOWEST_ADDRESS);
      blocks := [];
    }

    /** `alloc` */
    method Alloc(size: nat, align: nat) returns (r: Option<nat>)
      requires Valid() && align > 0
      modifies this`ramCurrent, this`blocks
      ensures Valid()
      ensures r == Reply(old(At()), size, align, ramEnd)
      ensures At() == Advance(old(At()), Allocate(size, align), ramEnd, page)
      ensures blocks == old(blocks) + GrantedBy(old(At()), Allocate(size, align), ramEnd)
    {
      RoundUpBounds(ramCurrent, align);
      var start := RoundUp(ramCurrent, align);
      var end := start + size;
      if end > ramEnd {
        return None;
      }
      ramCurrent := end;
      blocks := blocks + [Block(start, size)];
      return Some(start);
    }

    /** `used_range` */
    function UsedRange(): (int, int)
      requires Valid()
      reads this, memory
    {
      (ramStart, RoundUp(ramCurrent, page))
    }

    lemma UsedRangeInside()
      requires Valid()
      ensures UsedRange().1 % page == 0 && ramCurrent <= UsedRange().1
      ensures ramStart < UsedRange().1 ==> ramCurrent <= ramEnd
      ensures ramStart < UsedRange().1 && UsedRange().1 > ramEnd ==> ramEnd % page != 0
    {
      RoundUpBounds(ramCurrent, page);
      if ramEnd % page == 0 && ramCurrent <= ramEnd {
        RoundUpLe(ramCurrent, ramEnd, page);
      }
    }

    /** `add_memory_descriptor` for the used range: only what sticks out of RAM can conflict. */
    method Report(lo: int, hi: int, kind: MemoryType) returns (o: Outcome<MemoryType>)
      requires Valid() && (lo, hi) == UsedRange() && lo < hi
      modifies memory
      ensures o.Added? ==> memory.Valid() && IsOverlay(old(memory.items), Item(lo, hi, kind), memory.items)
      ensures o.Added? ==> |memory.items| <= |old(memory.items)| + 2
      ensures o.Failed? && o.error.Conflict? ==> hi > ramEnd
      ensures o == Failed(Capacity) ==> |old(memory.items)| + 2 > 128
    {
      if hi <= ramEnd {
        forall n | 0 <= n < |memory.items| && lo < memory.items[n].hi && hi > memory.items[n].lo
          ensures memory.items[n].kind == Free
        {
          FreeRangeFits(memory.items, lo, hi, n);
        }
      }
      o := memory.MergeAdd(Item(lo, hi, kind));
    }

    /** `flush_to_memory_map`; the source panics where this fails. */
    method Flush(kind: MemoryType) returns (o: Outcome<MemoryType>)
      requires Valid() && kind != Free
      modifies this, memory
      ensures blocks == old(blocks)
      ensures o.Added? ==> Valid() && Taken(memory.items, blocks, ramCurrent)
      ensures o.Added? ==> At() == Advance(old(At()), Step.Flush(kind), ramEnd, page)
      ensures o.Added? && old(ramStart) >= RoundUp(old(ramCurrent), page) ==> memory.items == old(memory.items)
      ensures o.Added? && old(ramStart) < RoundUp(old(ramCurrent), page) ==>
                IsOverlay(old(memory.items), Item(old(ramStart), RoundUp(old(ramCurrent), page), kind), memory.items)
      ensures o.Added? ==> |memory.items| <= |old(memory.items)| + 2
      ensures o.Failed? && o.error.Conflict? ==> RoundUp(old(ramCurrent), page) > ramEnd && old(ramCurrent) <= ramEnd
      ensures o.Failed? && o.error.Conflict? ==> ramEnd % page != 0
      ensures o == Failed(Capacity) ==> |old(memory.items)| + 2 > 128
    {
      var (lo, hi) := UsedRange();
      UsedRangeInside();
      if lo >= hi {
        return Added;
      }
      ghost var s := memory.items;
      o := Report(lo, hi, kind);
      if o.Added? {
        Reported(s, memory.items, blocks, lo, hi, ramEnd, kind);
        ramStart, ramCurrent := hi, hi;
      }
    }

    /** The first half of `memory_map_setup`. */
    method ReportUsed() returns (o: Outcome<MemoryType>)
      requires Valid()
      modifies memory
      ensures o.Added? ==> memory.Valid() && Taken(memory.items, blocks, RoundUp(ramCurrent, page))
      ensures o.Added? ==> forall a :: KindAt(memory.items, a) == UsedKind(old(memory.items), At(), page, a)
      ensures o.Added? ==> |memory.items| <= |old(memory.items)| + 2
      ensures o.Failed? && o.error.Conflict? ==> RoundUp(ramCurrent, page) > ramEnd && ramEnd % page != 0
      ensures o == Failed(Capacity) ==> |old(memory.items)| + 2 > 128
    {
      var (lo, hi) := UsedRange();
      UsedRangeInside();
      if lo >= hi {
        return Added;
      }
      ghost var s := memory.items;
      o := Report(lo, hi, Reserved);
      if o.Added? {
        Reported(s, memory.items, blocks, lo, hi, ramEnd, Reserved);
        forall a ensures KindAt(memory.items, a) == UsedKind(s, At(), page, a) {
          OverlayAt(s, Item(lo, hi, Reserved), memory.items, a);
        }
      }
    }

    /** `memory_map_setup`: after it, no free descriptor overlaps any block ever returned. */
    method MemoryMapSetup(console: Option<Item<MemoryType>>) returns (o: Outcome<MemoryType>)
      requires Valid()
      requires console.Some? ==> console.value.lo < console.value.hi && console.value.kind != Free
      modifies memory
      ensures o.Added? ==> memory.Valid() && NoneFree(memory.items, blocks)
      ensures o.Added? ==> forall a :: KindAt(memory.items, a) == SetupKind(old(memory.items), At(), page, console, a)
      ensures o.Failed? && o.error.Conflict? ==>
                || (RoundUp(ramCurrent, page) > ramEnd && ramEnd % page != 0)
                || (console.Some? && ConsoleBlocked(old(memory.items), At(), page, console.value))
      ensures console.Some? && ConsoleBlocked(old(memory.items), At(), page, console.value) ==> o.Failed?
      ensures o == Failed(Capacity) ==> |old(memory.items)| + 4 > 128
    {
      ghost var s := memory.items;
      RoundUpBounds(ramCurrent, page);
      o := ReportUsed();
      if o.Added? && console.Some? {
        ghost var t := memory.items;
        BlockedIff(s, t, At(), page, console.value, memory);
        o := memory.MergeAdd(console.value);
        if o.Added? {
          StaysTaken(t, memory.items, blocks, RoundUp(ramCurrent, page), console.value);
          forall a ensures KindAt(memory.items, a) == SetupKind(s, At(), page, console, a) {
            OverlayAt(t, console.value, memory.items, a);
          }
        }
      }
      if o.Added? {
        TakenIsNoneFree(memory.items, blocks, RoundUp(ramCurrent, page));
      }
    }
  }

  lemma StaysTaken(s: seq<Item<MemoryType>>, t: seq<Item<MemoryType>>, blocks: seq<Block>, limit: int,
                   x: Item<MemoryType>)
    requires Taken(s, blocks, limit) && x.kind != Free && IsOverlay(s, x, t)
    ensures Taken(t, blocks, limit)
  {
    forall a ensures KindAt(t, a) == Overlaid(s, x, a) {
      OverlayAt(s, x, t, a);
    }
  }

  /** The search of `early_init` for the range it hands to `init`. */
  method PickFree(items: seq<Item<MemoryType>>) returns (r: Option<(int, int)>)
    requires Proper(items)
    ensures r.Some? ==> r.value.1 - r.value.0 > 0x80_0000 && FreeBetween(items, r.value.0, r.value.1)
    ensures r.Some? <==>
              exists i :: 0 <= i < |items| && items[i].kind.Free? && items[i].hi - items[i].lo > 0x80_0000
  {
    var i := 0;
    while i < |items|
      invariant forall k :: 0 <= k < i && k < |items| ==>
                  !(items[k].kind.Free? && items[k].hi - items[k].lo > MIN_FREE_SIZE)
    {
      if items[i].kind.Free? && items[i].hi - items[i].lo > MIN_FREE_SIZE {
        forall a | items[i].lo <= a < items[i].hi ensures KindAt(items, a) == Some(Free) {
          assert Covers(items[i], a);
          KindAtHas(items, a, Free);
        }
        return Some((items[i].lo, items[i].hi));
      }
      i := i + 1;
    }
    return None;
  }

  // ----- whole boots -----

  datatype Answer = Address(r: Option<nat>) | Flushed

  /** The answer to a step taken at a cursor. */
  predicate Answers(a: Answer, c: Cursor, s: Step, end: nat)
    requires Sensible(s)
  {
    match s
    case Allocate(size, align) => a == Address(Reply(c, size, align, end))
    case Flush(_) => a == Flushed
  }

  /** Every answer is the answer of the cursor that the step met. */
  predicate AllAnswered(answers: seq<Answer>, c: Cursor, steps: seq<Step>, end: nat, page: nat)
    requires page > 0 && AllSensible(steps)
  {
    && |answers| <= |steps|
    && forall k :: 0 <= k < |answers| ==> Answers(answers[k], CursorAfter(c, steps[..k], end, page), steps[k], end)
  }

  lemma AnsweredNext(answers: seq<Answer>, c: Cursor, steps: seq<Step>, end: nat, page: nat, a: Answer)
    requires page > 0 && AllSensible(steps) && |answers| < |steps| && Whole(AllAnswered(answers, c, steps, end, page))
    requires Answers(a, CursorAfter(c, steps[..|answers|], end, page), steps[|answers|], end)
    ensures AllAnswered(answers + [a], c, steps, end, page)
  {
    forall k | 0 <= k < |answers + [a]|
      ensures Answers((answers + [a])[k], CursorAfter(c, steps[..k], end, page), steps[k], end)
    {
      if k < |answers| {
        assert (answers + [a])[k] == answers[k];
      }
    }
  }

  lemma CursorNext(c: Cursor, steps: seq<Step>, k: nat, end: nat, page: nat)
    requires page > 0 && AllSensible(steps) && k < |steps|
    ensures AllSensible(steps[..k]) && AllSensible(steps[..k + 1])
    ensures CursorAfter(c, steps[..k + 1], end, page) ==
            Advance(CursorAfter(c, steps[..k], end, page), steps[k], end, page)
    ensures Granted(c, steps[..k + 1], end, page) ==
            Granted(c, steps[..k], end, page) + GrantedBy(CursorAfter(c, steps[..k], end, page), steps[k], end)
  {
    assert steps[..k + 1][..k] == steps[..k];
  }

  /** The map after the first `k` steps. */
  ghost predicate Shows(t: seq<Item<MemoryType>>, s: seq<Item<MemoryType>>, c: Cursor, steps: seq<Step>, end: nat,
                        page: nat)
    requires page > 0 && AllSensible(steps)
  {
    forall a :: KindAt(t, a) == KindAfter(s, c, steps, end, page, a)
  }

  /** One more step, and what it did to the map. */
  lemma ShowsNext(s: seq<Item<MemoryType>>, t: seq<Item<MemoryType>>, t': seq<Item<MemoryType>>, c: Cursor,
                  steps: seq<Step>, k: nat, end: nat, page: nat)
    requires page > 0 && AllSensible(steps) && k < |steps| && Shows(t, s, c, steps[..k], end, page)
    requires var c1 := CursorAfter(c, steps[..k], end, page);
             if steps[k].Flush? && c1.start < RoundUp(c1.current, page)
             then IsOverlay(t, Item(c1.start, RoundUp(c1.current, page), steps[k].kind), t')
             else t' == t
    ensures AllSensible(steps[..k + 1]) && Shows(t', s, c, steps[..k + 1], end, page)
  {
    var c1 := CursorAfter(c, steps[..k], end, page);
    assert steps[..k + 1][..k] == steps[..k];
    forall a ensures KindAt(t', a) == KindAfter(s, c, steps[..k + 1], end, page, a) {
      if steps[k].Flush? && c1.start < RoundUp(c1.current, page) {
        OverlayAt(t, Item(c1.start, RoundUp(c1.current, page), steps[k].kind), t', a);
      }
    }
  }

  /** One step of a boot, on an allocator that has taken the first `k`. */
  method TakeStep(ram: BootRam, s: Step) returns (o: Outcome<MemoryType>, a: Answer)
    requires ram.Valid() && Sensible(s)
    modifies ram, ram.memory
    ensures o.Added? ==> ram.Valid() && Answers(a, old(ram.At()), s, ram.ramEnd)
    ensures o.Added? ==> ram.At() == Advance(old(ram.At()), s, ram.ramEnd, ram.page)
    ensures o.Added? ==> ram.blocks == old(ram.blocks) + GrantedBy(old(ram.At()), s, ram.ramEnd)
    ensures o.Added? ==> |ram.memory.items| <= |old(ram.memory.items)| + 2
    ensures o.Added? ==>
              var c := old(ram.At());
              if s.Flush? && c.start < RoundUp(c.current, ram.page)
              then IsOverlay(old(ram.memory.items), Item(c.start, RoundUp(c.current, ram.page), s.kind),
                             ram.memory.items)
              else ram.memory.items == old(ram.memory.items)
    ensures o.Failed? ==> s.Flush?
    ensures o.Failed? && o.error.Conflict? ==>
              RoundUp(old(ram.ramCurrent), ram.page) > ram.ramEnd && ram.ramEnd % ram.page != 0
    ensures o == Failed(Capacity) ==> |old(ram.memory.items)| + 2 > 128
  {
    match s
    case Allocate(size, align) =>
      var r := ram.Alloc(size, align);
      return Added, Address(r);
    case Flush(kind) =>
      o := ram.Flush(kind);
      a := Flushed;
      assert ram.blocks == old(ram.blocks) + [];
  }

  /** Any sequence of allocations and flushes and then `memory_map_setup`. Every allocation gets the
      answer of the cursor it meets, and the final map gives every address the kind of the last
      descriptor put on it. The boot stops where the source panics: with a full map, or where
      rounding up to a page sticks out of an unaligned RAM, or at a misplaced console. */
  method Boot(page: nat, memory: RangeVec<MemoryType>, lo: nat, hi: nat, steps: seq<Step>,
              console: Option<Item<MemoryType>>)
    returns (o: Outcome<MemoryType>, answers: seq<Answer>)
    requires page > 0 && hi - lo > MIN_FREE_SIZE
    requires memory.Valid() && memory.capacity == Some(MEMORY_MAP_CAPACITY) && memory.overwritable == Overwritable
    requires FreeBetween(memory.items, lo, hi)
    requires AllSensible(steps)
    requires console.Some? ==> console.value.lo < console.value.hi && console.value.kind != Free
    modifies memory
    ensures |answers| <= |steps|
    ensures |answers| < |steps| ==> o.Failed? && steps[|answers|].Flush?
    ensures AllAnswered(answers, First(lo), steps, hi, page)
    ensures o.Added? ==> NoneFree(memory.items, Granted(First(lo), steps, hi, page))
    ensures o.Added? ==>
              forall a :: KindAt(memory.items, a) == BootKind(old(memory.items), First(lo), steps, hi, page, console, a)
    ensures o.Failed? && o.error.Conflict? && hi % page == 0 ==> |answers| == |steps| && console.Some?
    ensures o.Failed? && o.error.Conflict? ==>
              || RoundUp(CursorAfter(First(lo), steps[..|answers|], hi, page).current, page) > hi
              || (console.Some?
                  && exists a :: OnForeign(old(memory.items), First(lo), steps, hi, page, console.value, a))
    ensures o == Failed(Capacity) ==> |old(memory.items)| + 2 * |answers| + 4 > 128
  {
    var ram := new BootRam(page, memory, lo, hi);
    ghost var s, c := memory.items, First(lo);
    answers := [];
    var i := 0;
    assert steps[..0] == [] && AllAnswered(answers, c, steps, hi, page);
    while i < |steps|
      invariant i <= |steps| && |answers| == i
      invariant ram.Valid() && fresh(ram) && ram.memory == memory && ram.ramEnd == hi && ram.page == page
      invariant AllSensible(steps[..i]) && ram.At() == CursorAfter(c, steps[..i], hi, page)
      invariant ram.blocks == Granted(c, steps[..i], hi, page)
      invariant Shows(memory.items, s, c, steps[..i], hi, page)
      invariant |memory.items| <= |s| + 2 * i
      invariant Whole(AllAnswered(answers, c, steps, hi, page))
    {
      ghost var t := memory.items;
      var a;
      o, a := TakeStep(ram, steps[i]);
      if o.Failed? {
        return;
      }
      CursorNext(c, steps, i, hi, page);
      ShowsNext(s, t, memory.items, c, steps, i, hi, page);
      AnsweredNext(answers, c, steps, hi, page, a);
      answers := answers + [a];
      i := i + 1;
    }
    assert steps[..i] == steps;
    ghost var t := memory.items;
    o := ram.MemoryMapSetup(console);
    if o.Added? {
      forall a ensures KindAt(memory.items, a) == BootKind(s, c, steps, hi, page, console, a) {
        SetupIsFlush(s, t, c, steps, hi, page, a);
      }
    }
    if console.Some? && ConsoleBlocked(t, ram.At(), page, console.value) {
      BlockedSomewhere(s, t, c, steps, hi, page, console.value);
    }
  }

  /** Where `init` puts the cursor. */
  function First(lo: nat): Cursor {
    Cursor(lo, Max(lo, LOWEST_ADDRESS))
  }

  /** The kind of an address in the end: the console, else what the last flush or the final
      reservation of the used range made it. */
  ghost function BootKind(items: seq<Item<MemoryType>>, c: Cursor, steps: seq<Step>, end: nat, page: nat,
                          console: Option<Item<MemoryType>>, a: int): Option<MemoryType>
    requires page > 0 && AllSensible(steps)
  {
    if console.Some? && Covers(console.value, a) then Some(console.value.kind)
    else KindAfter(items, c, steps + [Flush(Reserved)], end, page, a)
  }

  /** The console covers `a`, which by then is neither free nor of its own kind. */
  ghost predicate OnForeign(items: seq<Item<MemoryType>>, c: Cursor, steps: seq<Step>, end: nat, page: nat,
                            console: Item<MemoryType>, a: int)
    requires page > 0 && AllSensible(steps)
  {
    var k := KindAfter(items, c, steps + [Flush(Reserved)], end, page, a);
    Covers(console, a) && k.Some? && k.value != Free && k.value != console.kind
  }

  lemma SetupIsFlush(s: seq<Item<MemoryType>>, t: seq<Item<MemoryType>>, c: Cursor, steps: seq<Step>, end: nat,
                     page: nat, a: int)
    requires page > 0 && AllSensible(steps) && Shows(t, s, c, steps, end, page)
    ensures UsedKind(t, CursorAfter(c, steps, end, page), page, a)
         == KindAfter(s, c, steps + [Flush(Reserved)], end, page, a)
  {
    assert (steps + [Flush(Reserved)])[..|steps|] == steps;
  }

  lemma BlockedSomewhere(s: seq<Item<MemoryType>>, t: seq<Item<MemoryType>>, c: Cursor, steps: seq<Step>, end: nat,
                         page: nat, console: Item<MemoryType>)
    requires page > 0 && AllSensible(steps) && Shows(t, s, c, steps, end, page)
    requires ConsoleBlocked(t, CursorAfter(c, steps, end, page), page, console)
    ensures exists a :: OnForeign(s, c, steps, end, page, console, a)
  {
    var c1 := CursorAfter(c, steps, end, page);
    var a :| Covers(console, a) && UsedKind(t, c1, page, a).Some?
             && UsedKind(t, c1, page, a).value != Free && UsedKind(t, c1, page, a).value != console.kind;
    SetupIsFlush(s, t, c, steps, end, page, a);
    assert OnForeign(s, c, steps, end, page, console, a);
  }
}
