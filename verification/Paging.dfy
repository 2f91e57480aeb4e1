/**
 What a page table is parameterised by: the entry codec of the architecture and the
 geometry of the radix tree (page size, index bits of each level, frame length).
 */
module Paging {
  import opened Arith

  type Word = nat

  datatype MemAttributes = Normal | PerCpu | Device | Uncached

  datatype PteConfig = PteConfig(
    paddr: nat,
    valid: bool,
    read: bool,
    writable: bool,
    executable: bool,
    lower: bool,
    dirty: bool,
    global: bool,
    isDir: bool,
    huge: bool,
    memAttr: MemAttributes)

  const INVALID_CONFIG := PteConfig(0, false, false, false, false, false, false, false, false, false, Normal)

  /** What a final mapping says besides where it leads. */
  datatype Attrs = Attrs(
    read: bool,
    writable: bool,
    executable: bool,
    user: bool,
    dirty: bool,
    global: bool,
    memory: MemAttributes)

  function AttrsOf(c: PteConfig): Attrs {
    Attrs(c.read, c.writable, c.executable, c.lower, c.dirty, c.global, c.memAttr)
  }

  datatype PagingError =
    | NoMemory
    | AlignmentError
    | MappingConflict(vaddr: nat, paddr: nat)
    | AddressOverflow
    | InvalidSize
    | HierarchyError
    | NotMapped

  datatype Result<+T> = Ok(value: T) | Err(error: PagingError)

  /** `PageTableEntry`: how one architecture encodes entries into words. `encodable`
      says which configurations the encoding can represent, `keeps` what decoding a final entry
      gives back of its attributes. */
  datatype Codec = Codec(
    fromConfig: PteConfig -> Word,
    toConfig: (Word, bool) -> PteConfig,
    valid: Word -> bool,
    encodable: PteConfig -> bool,
    keeps: Attrs -> Attrs)

  /** What the generic table relies on. */
  ghost predicate Lawful(c: Codec) {
    && (forall w: Word, d: bool :: c.toConfig(w, d).valid == c.valid(w))
    && !c.valid(0)
    && !c.valid(c.fromConfig(INVALID_CONFIG))
    && (forall g: PteConfig :: g.valid && c.encodable(g) ==>
          Recovers(c.keeps, g, c.toConfig(c.fromConfig(g), g.isDir)))
    && (forall a: Attrs :: SameRights(a, c.keeps(a)))
  }

  /** The access rights every codec must carry for a final mapping. */
  predicate SameRights(a: Attrs, b: Attrs) {
    a.writable == b.writable && a.executable == b.executable && a.user == b.user
  }

  /** `d` is what decoding must give back for the encoded configuration `g`. */
  predicate Recovers(keeps: Attrs -> Attrs, g: PteConfig, d: PteConfig) {
    && d.valid
    && d.paddr == g.paddr
    && (g.isDir ==> d.huge == g.huge)
    && (!g.isDir || g.huge ==> AttrsOf(d) == keeps(AttrsOf(g)))
  }

  /** The constants of one table type. Level 1 is the leaf level. `size[k]` is what one
      entry of level k + 1 covers, so `size[level]` is also what a whole table of `level`
      covers; `fan[k]` is the number of entries the index of level k + 1 can select. */
  datatype Meta = Meta(
    size: seq<nat>,
    fan: seq<nat>,
    maxBlockLevel: nat,
    len: nat,
    codec: Codec)
  {
    function Levels(): nat {
      |fan|
    }

    predicate Shaped() {
      && |size| == |fan| + 1
      && (forall k :: 0 <= k < |size| ==> size[k] > 0)
      && (forall k :: 0 <= k < |fan| ==> fan[k] > 0)
    }

    predicate HasLevel(level: int) {
      Shaped() && 1 <= level <= |fan|
    }

    /** The attributes of a final entry made from a template. */
    function Carried(template: PteConfig): Attrs {
      codec.keeps(AttrsOf(template))
    }

    function PageSize(): nat
      requires HasLevel(1)
    {
      size[0]
    }

    predicate OnPage(x: int)
      requires HasLevel(1)
    {
      x % PageSize() == 0
    }

    function LevelSize(level: nat): nat
      requires HasLevel(level)
    {
      size[level - 1]
    }

    function Fan(level: nat): nat
      requires HasLevel(level)
    {
      fan[level - 1]
    }

    /** Addresses covered by one table of the level. */
    function Span(level: nat): nat
      requires HasLevel(level)
    {
      size[level]
    }

    function Index(va: int, level: nat): nat
      requires HasLevel(level)
    {
      (va / LevelSize(level)) % Fan(level)
    }

    ghost predicate Wf() {
      && Shaped()
      && |fan| >= 1
      && (forall k :: 0 <= k < |fan| ==> fan[k] <= len)
      && (forall k {:trigger Touch(k)} :: 0 <= k < |fan| ==> size[k + 1] == fan[k] * size[k])
      && Lawful(codec)
    }

    lemma IndexInFrame(va: int, level: nat)
      requires Wf() && HasLevel(level)
      ensures 0 <= Index(va, level) < Fan(level) <= len
    {
    }

    /** A table of `level` is `Fan(level)` entries of `LevelSize(level)` bytes. */
    lemma SpanIs(level: nat)
      requires Wf() && HasLevel(level)
      ensures Span(level) == Fan(level) * LevelSize(level)
      ensures Span(level) >= LevelSize(level)
    {
      assert Touch(level - 1);
      MulGe(Fan(level), LevelSize(level));
    }

    /** Every level size is a whole number of pages. */
    lemma {:induction false} LevelSizePages(level: nat)
      requires Wf() && HasLevel(level)
      ensures LevelSize(level) % PageSize() == 0
      ensures LevelSize(level) >= PageSize()
      decreases level
    {
      if level == 1 {
        DivModUnique(PageSize(), PageSize(), 1, 0);
      } else {
        LevelSizePages(level - 1);
        SpanIs(level - 1);
        DivModDef(LevelSize(level - 1), PageSize());
        MulAssoc(Fan(level - 1), LevelSize(level - 1) / PageSize(), PageSize());
        DivModUnique(LevelSize(level), PageSize(), Fan(level - 1) * (LevelSize(level - 1) / PageSize()), 0);
      }
    }

    // An entry boundary is a page boundary.
    lemma MultipleOfLevel(x: int, level: nat)
      requires Wf() && HasLevel(level) && x % LevelSize(level) == 0
      ensures x % PageSize() == 0
    {
      LevelSizePages(level);
      var f := LevelSize(level) / PageSize();
      DivModDef(LevelSize(level), PageSize());
      if f <= 0 {
        MulMono(f, 0, PageSize());
      }
      ModOfProduct(x, PageSize(), f);
    }
  }

  // Marks the level whose product equation a proof wants.
  predicate Touch(k: int) {
    true
  }

  // ----- where the constants come from -----

  function SumBits(bits: seq<nat>): nat {
    if bits == [] then 0 else bits[0] + SumBits(bits[1..])
  }

  /** `Frame::level_size`, with levelBits running from the root down; one past the root
      level it is the span of the whole table. */
  function LevelSizeFrom(pageShift: nat, levelBits: seq<nat>, level: nat): nat
    requires 1 <= level <= |levelBits| + 1
  {
    Pow2(pageShift) * Pow2(SumBits(levelBits[|levelBits| - level + 1..]))
  }

  /** `Frame::virt_to_index`: shift right, then mask. */
  function VirtToIndex(pageShift: nat, levelBits: seq<nat>, va: nat, level: nat): nat
    requires 1 <= level <= |levelBits|
  {
    var shift := pageShift + SumBits(levelBits[|levelBits| - level + 1..]);
    (va / Pow2(shift)) % Pow2(levelBits[|levelBits| - level])
  }

  /** The constants of a `TableMeta`. */
  function MakeMeta(pageShift: nat, levelBits: seq<nat>, maxBlockLevel: nat, len: nat, codec: Codec): Meta {
    var n := |levelBits|;
    Meta(
      seq(n + 1, k requires 0 <= k <= n => LevelSizeFrom(pageShift, levelBits, k + 1)),
      seq(n, k requires 0 <= k < n => Pow2(levelBits[n - 1 - k])),
      maxBlockLevel, len, codec)
  }

  /** They satisfy what the proofs ask of them; the index by division is the index the source
      computes by shifting and masking. */
  lemma MakeMetaWf(pageShift: nat, levelBits: seq<nat>, maxBlockLevel: nat, len: nat, codec: Codec)
    requires |levelBits| >= 1 && Lawful(codec)
    requires forall i :: 0 <= i < |levelBits| ==> Pow2(levelBits[i]) <= len
    ensures var m := MakeMeta(pageShift, levelBits, maxBlockLevel, len, codec);
            Whole(m.Wf()) && m.Levels() == |levelBits| && m.PageSize() == Pow2(pageShift)
  {
    var m := MakeMeta(pageShift, levelBits, maxBlockLevel, len, codec);
    MakeMetaSizes(pageShift, levelBits, maxBlockLevel, len, codec);
    WfFrom(m);
    assert SumBits(levelBits[|levelBits|..]) == 0;
    assert m.size[0] == LevelSizeFrom(pageShift, levelBits, 1);
  }

  lemma WfFrom(m: Meta)
    requires |m.size| == |m.fan| + 1 && |m.fan| >= 1 && Whole(Lawful(m.codec))
    requires forall k :: 0 <= k < |m.size| ==> m.size[k] > 0
    requires forall k :: 0 <= k < |m.fan| ==> 0 < m.fan[k] <= m.len
    requires forall k {:trigger m.fan[k]} :: 0 <= k < |m.fan| ==> m.size[k + 1] == m.fan[k] * m.size[k]
    ensures m.Wf()
  {
  }

  lemma MakeMetaSizes(pageShift: nat, levelBits: seq<nat>, maxBlockLevel: nat, len: nat, codec: Codec)
    requires forall i :: 0 <= i < |levelBits| ==> Pow2(levelBits[i]) <= len
    ensures var m := MakeMeta(pageShift, levelBits, maxBlockLevel, len, codec);
            && (forall k :: 0 <= k < |m.size| ==> m.size[k] > 0)
            && (forall k :: 0 <= k < |m.fan| ==> 0 < m.fan[k] <= len)
            && (forall k {:trigger m.fan[k]} :: 0 <= k < |m.fan| ==> m.size[k + 1] == m.fan[k] * m.size[k])
  {
    var m := MakeMeta(pageShift, levelBits, maxBlockLevel, len, codec);
    forall k | 0 <= k < |m.size| ensures m.size[k] > 0 {
      LevelSizeFromStep(pageShift, levelBits, k + 1);
    }
    forall k | 0 <= k < |m.fan| ensures m.size[k + 1] == m.fan[k] * m.size[k] {
      LevelSizeFromStep(pageShift, levelBits, k + 1);
    }
    forall k | 0 <= k < |m.fan| ensures 0 < m.fan[k] <= len {
      assert m.fan[k] == Pow2(levelBits[|levelBits| - 1 - k]);
    }
  }

  lemma MakeMetaIndex(pageShift: nat, levelBits: seq<nat>, maxBlockLevel: nat, len: nat, codec: Codec, va: nat,
                      level: nat)
    requires 1 <= level <= |levelBits|
    requires MakeMeta(pageShift, levelBits, maxBlockLevel, len, codec).Shaped()
    ensures MakeMeta(pageShift, levelBits, maxBlockLevel, len, codec).Index(va, level)
         == VirtToIndex(pageShift, levelBits, va, level)
  {
    Pow2Add(pageShift, SumBits(levelBits[|levelBits| - level + 1..]));
  }

  lemma LevelSizeFromStep(pageShift: nat, levelBits: seq<nat>, level: nat)
    requires 1 <= level <= |levelBits| + 1
    ensures LevelSizeFrom(pageShift, levelBits, level) > 0
    ensures level <= |levelBits| ==>
              LevelSizeFrom(pageShift, levelBits, level + 1) ==
              Pow2(levelBits[|levelBits| - level]) * LevelSizeFrom(pageShift, levelBits, level)
  {
    var n := |levelBits|;
    MulGe(Pow2(SumBits(levelBits[n - level + 1..])), Pow2(pageShift));
    if level <= n {
      var rest := levelBits[n - level..];
      assert rest[1..] == levelBits[n - level + 1..];
      Pow2Add(rest[0], SumBits(rest[1..]));
      MulRotate(Pow2(rest[0]), Pow2(pageShift), Pow2(SumBits(rest[1..])));
    }
  }

  lemma MulRotate(a: int, b: int, c: int)
    ensures a * (b * c) == b * (a * c)
  {
  }
}
