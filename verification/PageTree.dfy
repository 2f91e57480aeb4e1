/**
 The abstract object behind a page table: a tree of tables read off the frame memory,
 the partial function it implements (`Lookup`), the frames it owns (`Footprint`), and
 the framing facts that let one subtree be rewritten without touching the others.
 */
module PageTree {
  import opened Options
  import opened Paging

  datatype Slot = Invalid | Leaf(pa: nat, attrs: Attrs) | Sub(table: Tree)

  datatype Tree = Table(frame: nat, slots: seq<Slot>)

  datatype Hit = Hit(pa: int, attrs: Attrs)

  type FrameMemory = map<nat, seq<Word>>

  /** A freshly cleared frame. */
  function ZeroFrame(len: nat): (ws: seq<Word>)
    ensures |ws| == len && forall k :: 0 <= k < len ==> ws[k] == 0
  {
    seq(len, _ => 0)
  }

  function PutWord(ws: seq<Word>, i: nat, w: Word): seq<Word>
    requires i < |ws|
  {
    ws[i := w]
  }

  // ----- reading a tree off the frame memory -----

  /** One entry, decoded the way every walk in the source decodes it. */
  ghost function SlotAt(m: Meta, mem: FrameMemory, w: Word, level: nat): Slot
    decreases level, 0
  {
    var c := m.codec.toConfig(w, level > 1);
    if !c.valid then Invalid
    else if c.huge || level <= 1 then Leaf(c.paddr, AttrsOf(c))
    else Sub(Abs(m, mem, c.paddr, level - 1))
  }

  ghost function Abs(m: Meta, mem: FrameMemory, frame: nat, level: nat): (t: Tree)
    ensures t.frame == frame
    ensures frame in mem ==> |t.slots| == |mem[frame]|
    ensures frame !in mem ==> t.slots == []
    decreases level, 1
  {
    if frame !in mem then Table(frame, [])
    else Table(frame, seq(|mem[frame]|, i requires 0 <= i < |mem[frame]| => SlotAt(m, mem, mem[frame][i], level)))
  }

  /** The entry of level `k` for `va`, if the table that holds it is reached from this one. */
  ghost function EntryAt(m: Meta, mem: FrameMemory, frame: nat, level: nat, va: int, k: nat): Option<Word>
    requires m.HasLevel(level)
    decreases level
  {
    var i := m.Index(va, level);
    if k > level || frame !in mem || i >= |mem[frame]| then None
    else if k == level then Some(mem[frame][i])
    else
      var c := m.codec.toConfig(mem[frame][i], true);
      if c.valid && !c.huge && level > 1 then EntryAt(m, mem, c.paddr, level - 1, va, k) else None
  }

  /** An entry of level `k` that translates addresses. */
  ghost predicate IsFinal(m: Meta, w: Word, k: nat) {
    var c := m.codec.toConfig(w, k > 1);
    c.valid && (c.huge || k == 1)
  }

  // ----- the function a tree implements -----

  ghost function SlotLookup(m: Meta, s: Slot, level: nat, va: int): Option<Hit>
    requires m.HasLevel(level)
    decreases level, 0
  {
    match s
    case Invalid => None
    case Leaf(pa, attrs) =>
      Some(Hit(pa + va % m.LevelSize(level), attrs))
    case Sub(t) => if level > 1 then Lookup(m, t, level - 1, va) else None
  }

  ghost function Lookup(m: Meta, t: Tree, level: nat, va: int): Option<Hit>
    requires m.HasLevel(level)
    decreases level, 1
  {
    var i := m.Index(va, level);
    if i < |t.slots| then SlotLookup(m, t.slots[i], level, va) else None
  }

  // ----- shape -----

  ghost predicate WfSlot(m: Meta, s: Slot, level: nat)
    decreases level, 0
  {
    s.Sub? ==> level > 1 && Wf(m, s.table, level - 1)
  }

  ghost predicate Wf(m: Meta, t: Tree, level: nat)
    decreases level, 1
  {
    && m.HasLevel(level)
    && |t.slots| == m.len
    && (forall i :: 0 <= i < |t.slots| ==> WfSlot(m, t.slots[i], level))
    && (forall i :: m.Fan(level) <= i < |t.slots| ==> t.slots[i].Invalid?)
  }

  ghost function SlotFrames(s: Slot): set<nat> {
    match s
    case Sub(t) => Footprint(t)
    case _ => {}
  }

  ghost function Footprint(t: Tree): set<nat> {
    {t.frame} + set i, f | 0 <= i < |t.slots| && f in SlotFrames(t.slots[i]) :: f
  }

  /** Every frame is reached by one path only. */
  ghost predicate Separated(t: Tree) {
    && (forall i :: 0 <= i < |t.slots| && t.slots[i].Sub? ==>
          t.frame !in SlotFrames(t.slots[i]) && Separated(t.slots[i].table))
    && (forall i, j {:trigger SlotFrames(t.slots[i]), SlotFrames(t.slots[j])} :: 0 <= i < j < |t.slots| ==>
          SlotFrames(t.slots[i]) !! SlotFrames(t.slots[j]))
  }

  predicate Empty(t: Tree) {
    forall i :: 0 <= i < |t.slots| ==> t.slots[i].Invalid?
  }

  ghost predicate SlotNoEmpties(s: Slot) {
    s.Sub? ==> !Empty(s.table) && NoEmpties(s.table)
  }

  /** No table below the root is empty. */
  ghost predicate NoEmpties(t: Tree) {
    forall i :: 0 <= i < |t.slots| ==> SlotNoEmpties(t.slots[i])
  }

  function Put(t: Tree, i: nat, s: Slot): Tree
    requires i < |t.slots|
  {
    t.(slots := t.slots[i := s])
  }

  lemma PutFrames(t: Tree, i: nat, s: Slot)
    requires i < |t.slots| && Separated(t)
    requires SlotFrames(s) !! Footprint(t) - SlotFrames(t.slots[i])
    requires s.Sub? ==> Separated(s.table)
    ensures Separated(Put(t, i, s))
    ensures Footprint(Put(t, i, s)) == Footprint(t) - SlotFrames(t.slots[i]) + SlotFrames(s)
  {
    var t' := Put(t, i, s);
    forall j | 0 <= j < |t.slots|
      ensures SlotFrames(t.slots[j]) <= Footprint(t)
      ensures j != i ==> SlotFrames(t.slots[j]) !! SlotFrames(t.slots[i])
      ensures j != i ==> SlotFrames(t.slots[j]) !! SlotFrames(s)
      ensures t.frame !in SlotFrames(t.slots[j])
    {
    }
    forall f | f in Footprint(t') ensures f in Footprint(t) - SlotFrames(t.slots[i]) + SlotFrames(s) {
      if f != t.frame {
        var j :| 0 <= j < |t'.slots| && f in SlotFrames(t'.slots[j]);
      }
    }
    forall f | f in Footprint(t) - SlotFrames(t.slots[i]) + SlotFrames(s) ensures f in Footprint(t') {
      if f in SlotFrames(s) {
        assert f in SlotFrames(t'.slots[i]);
      } else if f != t.frame {
        var j :| 0 <= j < |t.slots| && f in SlotFrames(t.slots[j]);
        assert f in SlotFrames(t'.slots[j]);
      }
    }
  }

  lemma SlotFramesIn(t: Tree, i: nat)
    requires i < |t.slots|
    ensures SlotFrames(t.slots[i]) <= Footprint(t)
  {
  }

  // ----- framing -----

  ghost predicate Agree(a: FrameMemory, b: FrameMemory, frames: set<nat>) {
    forall f :: f in frames ==> f in a && f in b && a[f] == b[f]
  }

  /** A tree depends on the frames of its footprint only. */
  lemma {:induction false} AbsFrame(m: Meta, a: FrameMemory, b: FrameMemory, frame: nat, level: nat)
    requires Agree(a, b, Footprint(Abs(m, a, frame, level)))
    ensures Abs(m, b, frame, level) == Abs(m, a, frame, level)
    decreases level
  {
    var t := Abs(m, a, frame, level);
    assert frame in Footprint(t);
    forall i | 0 <= i < |a[frame]|
      ensures SlotAt(m, b, b[frame][i], level) == SlotAt(m, a, a[frame][i], level)
    {
      var s := t.slots[i];
      if s.Sub? {
        SlotFramesIn(t, i);
        assert s == SlotAt(m, a, a[frame][i], level);
        assert SlotFrames(s) == Footprint(Abs(m, a, s.table.frame, level - 1));
        AbsFrame(m, a, b, s.table.frame, level - 1);
      }
    }
  }

  /** Rewriting entry `i` of a table, and anything in memory outside what the other
      entries own, changes slot `i` only. */
  lemma AbsPut(m: Meta, a: FrameMemory, b: FrameMemory, frame: nat, level: nat, i: nat, w: Word)
    requires frame in a && frame in b && i < |a[frame]|
    requires b[frame] == PutWord(a[frame], i, w)
    requires var t := Abs(m, a, frame, level);
             && Separated(t)
             && Agree(a, b, Footprint(t) - SlotFrames(t.slots[i]) - {frame})
    ensures Abs(m, b, frame, level) == Put(Abs(m, a, frame, level), i, SlotAt(m, b, w, level))
  {
    var t := Abs(m, a, frame, level);
    forall j | 0 <= j < |a[frame]| && j != i
      ensures SlotAt(m, b, b[frame][j], level) == t.slots[j]
    {
      var s := t.slots[j];
      if s.Sub? {
        SlotFramesIn(t, j);
        assert SlotFrames(s) !! SlotFrames(t.slots[i]);
        AbsFrame(m, a, b, s.table.frame, level - 1);
      }
    }
    assert Abs(m, b, frame, level).slots == Put(t, i, SlotAt(m, b, w, level)).slots;
  }
}
