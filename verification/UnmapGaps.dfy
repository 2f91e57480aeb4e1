/**
 Concrete calls on which `unmap` does something else than clear its range. They show that the
 conditions of `UnmapExact` and `UnmapExactIff` are needed.
 */
module UnmapGaps {
  import opened Arith
  import opened Options
  import opened Paging
  import opened PageTree
  import opened UnmapSpec
  import opened PteCodecs

  /** Two levels of 512 entries over 4 KiB pages, with 2 MiB blocks. */
  function SmallMeta(): Meta {
    MakeMeta(12, [9, 9], 2, 512, X86_CODEC)
  }

  lemma SmallMetaSizes()
    ensures var m := SmallMeta();
            && m.Wf() && m.Levels() == 2 && m.len == 512
            && m.size == [0x1000, 0x20_0000, 0x4000_0000] && m.fan == [512, 512]
  {
    var m := SmallMeta();
    X86Lawful();
    assert Pow2(9) == 512 && Pow2(12) == 0x1000;
    MakeMetaWf(12, [9, 9], 2, 512, X86_CODEC);
    assert Touch(0) && Touch(1);
  }

  const RIGHTS := Attrs(true, true, false, false, false, false, Normal)

  /** A table whose only entry is the block at slot `k`. */
  function OneBlock(k: nat): Tree {
    Table(0, seq(512, i => if i == k then Leaf(0x20_0000, RIGHTS) else Invalid))
  }

  lemma OneBlockWf(k: nat)
    requires k < 512
    ensures SmallMeta().Wf() && Wf(SmallMeta(), OneBlock(k), 2)
  {
    SmallMetaSizes();
  }

  /** A table with these sizes and only that block. */
  ghost predicate BlockAt(m: Meta, t: Tree, k: nat) {
    && m.Wf() && m.size == [0x1000, 0x20_0000, 0x4000_0000] && m.fan == [512, 512]
    && Wf(m, t, 2)
    && k < 512 && |t.slots| == 512
    && t.slots[k].Leaf? && forall i :: 0 <= i < 512 && i != k ==> t.slots[i] == Invalid
  }

  lemma OneBlockIs(k: nat)
    requires k < 512
    ensures BlockAt(SmallMeta(), OneBlock(k), k)
  {
    SmallMetaSizes();
    OneBlockWf(k);
  }

  lemma Missed(m: Meta, t: Tree, v: int, e: int, x: int)
    requires Whole(BlockAt(m, t, 1)) && v == 0x1000 && e == 0x20_1000 && x == 0x20_0000
    ensures Lookup(m, t, 2, x).Some? && UnmapTree(m, t, 2, v, e) == t
  {
    assert m.Index(v, 2) == 0 && m.Index(x, 2) == 1;
    assert UnmapOne(m, t, 2, v, e) == (t, e);
  }

  lemma Overcleared(m: Meta, t: Tree, v: int, e: int)
    requires Whole(BlockAt(m, t, 1)) && v == 0x20_0000 && e == 0x20_1000
    ensures Lookup(m, t, 2, e).Some? && Lookup(m, UnmapTree(m, t, 2, v, e), 2, e) == None
  {
    assert m.Index(v, 2) == 1 && m.Index(e, 2) == 1;
    var (t1, next) := UnmapOne(m, t, 2, v, e);
    assert t1 == Put(t, 1, Invalid) && next == 0x40_0000;
    assert UnmapTree(m, t, 2, v, e) == UnmapTree(m, t1, 2, next, e) == t1;
  }

  lemma Overflowed(m: Meta, t: Tree, v: int, e: int)
    requires Whole(BlockAt(m, t, 511)) && v == USIZE_LIMIT - 0x2000 && e == USIZE_LIMIT - 0x1000
    ensures UnmapOverflows(m, t, 2, v, e)
  {
    assert m.Index(v, 2) == 511;
    assert OneOverflows(m, t, 2, v, e);
  }

  /** The call starts on an unmapped page, jumps one whole entry ahead and misses a mapped page
      that lies inside its range. */
  lemma UnmapCanMiss()
    ensures var m, t := SmallMeta(), OneBlock(1);
            && Whole(BlockAt(m, t, 1))
            && Lookup(m, UnmapTree(m, t, 2, 0x1000, 0x20_1000), 2, 0x20_0000).Some?
  {
    OneBlockIs(1);
    Missed(SmallMeta(), OneBlock(1), 0x1000, 0x20_1000, 0x20_0000);
  }

  /** The call asks for one page of a block and clears all of it. */
  lemma UnmapCanOverclear()
    ensures var m, t := SmallMeta(), OneBlock(1);
            && Whole(BlockAt(m, t, 1))
            && Lookup(m, t, 2, 0x20_1000).Some?
            && Lookup(m, UnmapTree(m, t, 2, 0x20_0000, 0x20_1000), 2, 0x20_1000) == None
  {
    OneBlockIs(1);
    Overcleared(SmallMeta(), OneBlock(1), 0x20_0000, 0x20_1000);
  }

  /** In the last entry below 2^64 the address arithmetic overflows. */
  lemma UnmapCanOverflow()
    ensures var m, t := SmallMeta(), OneBlock(511);
            && Whole(BlockAt(m, t, 511))
            && UnmapOverflows(m, t, 2, USIZE_LIMIT - 0x2000, USIZE_LIMIT - 0x1000)
  {
    OneBlockIs(511);
    Overflowed(SmallMeta(), OneBlock(511), USIZE_LIMIT - 0x2000, USIZE_LIMIT - 0x1000);
  }
}
