/**
 A concrete walk that leaves out a mapping at the very address it starts from. It shows that the
 condition of `StartExactIff` is needed.
 */
module WalkGaps {
  import opened Arith
  import opened Paging
  import opened PageTree
  import opened MapHeap
  import opened WalkSpec
  import opened WalkStart
  import opened PteCodecs
  import opened UnmapGaps

  const ROOT := 0x4000
  const TABLE := 0x5000
  const PAGE := 0x7000

  /** A root table whose only entry `w0` is the first, and a table whose only entry `w1` is the
      second. */
  function TwoFrames(w0: Word, w1: Word): FrameMemory {
    map[ROOT := PutWord(ZeroFrame(512), 0, w0), TABLE := PutWord(ZeroFrame(512), 1, w1)]
  }

  /** The root entry points to the table, and the entry of the table is a page. */
  function OnePage(): FrameMemory {
    TwoFrames(X86FromConfig(TablePte(INVALID_CONFIG, TABLE)), X86FromConfig(PagePte(INVALID_CONFIG, PAGE)))
  }

  /** Such a memory, whatever the codec. */
  ghost predicate PageAt(m: Meta, mem: FrameMemory) {
    && m.Wf() && m.size == [0x1000, 0x20_0000, 0x4000_0000] && m.fan == [512, 512] && m.len == 512
    && ROOT in mem && TABLE in mem && |mem[ROOT]| == |mem[TABLE]| == 512
    && (var c := m.codec.toConfig(mem[ROOT][0], true); c.valid && !c.huge && c.paddr == TABLE)
    && m.codec.valid(mem[TABLE][1])
    && (forall i :: 0 < i < 512 ==> !m.codec.valid(mem[ROOT][i]))
    && (forall i :: 0 <= i < 512 && i != 1 ==> !m.codec.valid(mem[TABLE][i]))
  }

  lemma TwoFramesAt(m: Meta, w0: Word, w1: Word)
    requires m.Wf() && m.size == [0x1000, 0x20_0000, 0x4000_0000] && m.fan == [512, 512] && m.len == 512
    requires var c := m.codec.toConfig(w0, true); c.valid && !c.huge && c.paddr == TABLE
    requires m.codec.valid(w1)
    ensures PageAt(m, TwoFrames(w0, w1))
  {
    assert !m.codec.valid(0);
  }

  lemma Encodes(c: PteConfig)
    requires c.valid && c.paddr % 0x1000 == 0 && c.paddr < 0x1_0000
    ensures Recovers(X86Keeps, c, X86ToConfig(X86FromConfig(c), c.isDir))
  {
    Pow2Large();
    X86Recovers(c);
  }

  lemma Pow2Large()
    ensures Pow2(12) == 0x1000 && Pow2(52) >= 0x1_0000
  {
    Pow2Add(16, 36);
    assert Pow2(12) == 0x1000;
    Pow2Add(12, 4);
    MulMono(1, Pow2(36), 0x1_0000);
  }

  lemma OnePageIs()
    ensures PageAt(SmallMeta(), OnePage())
  {
    SmallMetaSizes();
    Encodes(TablePte(INVALID_CONFIG, TABLE));
    Encodes(PagePte(INVALID_CONFIG, PAGE));
    TwoFramesAt(SmallMeta(), X86FromConfig(TablePte(INVALID_CONFIG, TABLE)),
                X86FromConfig(PagePte(INVALID_CONFIG, PAGE)));
  }

  lemma InvalidLists(m: Meta, mem: FrameMemory, frame: nat, level: nat, base: nat, i: nat)
    requires m.Wf() && m.HasLevel(level) && frame in mem && i < |mem[frame]| && !m.codec.valid(mem[frame][i])
    ensures EntryFinals(m, mem, frame, level, base, i) == []
  {
    var w := mem[frame][i];
    assert Lawful(m.codec);
    assert m.codec.toConfig(w, false).valid == m.codec.valid(w) == m.codec.toConfig(w, level > 1).valid;
    var infos := EntryInfos(m, mem, frame, level, base, i);
    assert infos == [InfoOf(m, w, level, base + i * m.LevelSize(level))];
    assert Finals(m, infos[1..]) == [];
  }

  /** Invalid entries list no mapping. */
  lemma {:induction false} NothingListed(m: Meta, mem: FrameMemory, frame: nat, level: nat, base: nat, i: nat,
                                         start: int)
    requires m.Wf() && m.HasLevel(level) && frame in mem && |mem[frame]| == m.len && i <= m.len
    requires forall k :: i <= k < m.len ==> !m.codec.valid(mem[frame][k])
    ensures Finals(m, Entries(m, mem, frame, level, base, i, start)) == []
    decreases m.len - i
  {
    if i < m.len {
      MulMono(0, i, m.LevelSize(level));
      NothingListed(m, mem, frame, level, base, i + 1, start);
      FinalsStep(m, mem, frame, level, base, i, start, base + i * m.LevelSize(level));
      InvalidLists(m, mem, frame, level, base, i);
    }
  }

  lemma PageWf(m: Meta, mem: FrameMemory)
    requires Whole(PageAt(m, mem))
    ensures Wf(m, Abs(m, mem, ROOT, 2), 2)
  {
    var t, c := Abs(m, mem, ROOT, 2), Abs(m, mem, TABLE, 1);
    forall i | 0 <= i < 512 ensures !c.slots[i].Sub? {
      SlotOfWord(m, mem, TABLE, 1, i);
    }
    assert Wf(m, c, 1);
    forall i | 0 <= i < 512 ensures WfSlot(m, t.slots[i], 2) {
      SlotOfWord(m, mem, ROOT, 2, i);
    }
  }

  lemma PageTranslates(m: Meta, mem: FrameMemory, v: int)
    requires Whole(PageAt(m, mem)) && v == 0x1000
    ensures Lookup(m, Abs(m, mem, ROOT, 2), 2, v).Some?
  {
    assert m.Index(v, 2) == 0 && m.Index(v, 1) == 1;
    SlotOfWord(m, mem, ROOT, 2, 0);
    SlotOfWord(m, mem, TABLE, 1, 1);
    assert Lookup(m, Abs(m, mem, TABLE, 1), 1, v).Some?;
  }

  lemma PageSkipped(m: Meta, mem: FrameMemory, v: int)
    requires Whole(PageAt(m, mem)) && v == 0x1000
    ensures Finals(m, Entries(m, mem, ROOT, 2, 0, 0, v)) == []
  {
    FinalsStep(m, mem, ROOT, 2, 0, 0, v, 0);
    NothingListed(m, mem, ROOT, 2, 0, 1, v);
  }

  /** Ending the walk early lists no more. */
  lemma {:induction false} CutLists(m: Meta, s: seq<PteInfo>, end: int)
    ensures |Finals(m, Cut(s, end))| <= |Finals(m, s)|
  {
    if s != [] && s[0].vaddr < end {
      CutLists(m, s[1..], end);
      assert ([s[0]] + Cut(s[1..], end))[1..] == Cut(s[1..], end);
    }
  }

  lemma PageMissed(m: Meta, mem: FrameMemory, v: int, end: int)
    requires Whole(PageAt(m, mem)) && v == 0x1000
    ensures Finals(m, Cut(Entries(m, mem, ROOT, 2, 0, 0, v), end)) == []
  {
    PageSkipped(m, mem, v);
    CutLists(m, Entries(m, mem, ROOT, 2, 0, 0, v), end);
  }

  /** The only mapping is the page at 0x1000. A walk that starts there lists nothing, wherever it
      ends. */
  lemma WalkCanMiss(end: int)
    ensures var m, mem, v := SmallMeta(), OnePage(), 0x1000;
            && Whole(PageAt(m, mem)) && Wf(m, Abs(m, mem, ROOT, 2), 2)
            && Lookup(m, Abs(m, mem, ROOT, 2), 2, v).Some?
            && Finals(m, Cut(Entries(m, mem, ROOT, 2, 0, 0, v), end)) == []
  {
    OnePageIs();
    PageWf(SmallMeta(), OnePage());
    PageTranslates(SmallMeta(), OnePage(), 0x1000);
    PageMissed(SmallMeta(), OnePage(), 0x1000, end);
  }
}
