/**
 The words the encoders of x86_64 and RISC-V Sv39 make, and what their decoders read, by the places
 the bits have in the manuals.
 */
module PteLayout {
  import opened Arith
  import opened Paging
  import opened PteCodecs

  // ----- bits and numbers -----

  lemma {:induction false} ShrBit(w: nat, k: nat)
    ensures HasBit(w, k) <==> Shr(w, k) % 2 == 1
  {
    if k > 0 {
      ShrBit(w / 2, k - 1);
    }
  }

  /** Bit `k` of a word, by division. */
  lemma BitIs(w: nat, k: nat, p: nat)
    requires p == Pow2(k)
    ensures HasBit(w, k) <==> w / p % 2 == 1
  {
    ShrBit(w, k);
    Halved(w, k);
  }

  /** Setting a clear bit adds its value. */
  lemma {:induction false} SetBitAdds(w: nat, k: nat)
    requires !HasBit(w, k)
    ensures SetBit(w, k) == w + Pow2(k)
  {
    if k > 0 {
      SetBitAdds(w / 2, k - 1);
    }
  }

  /** The value of a flag. */
  function Flag(c: bool, value: nat): nat {
    if c then value else 0
  }

  lemma FlagAdds(c: bool, w: nat, k: nat, p: nat) returns (w': nat)
    requires !HasBit(w, k) && p == Pow2(k)
    ensures w' == SetIf(c, w, k) == w + Flag(c, p)
    ensures forall j :: j != k ==> (HasBit(w', j) <==> HasBit(w, j))
  {
    w' := SetIf(c, w, k);
    SetBitAdds(w, k);
    forall j | j != k ensures HasBit(w', j) <==> HasBit(w, j) {
      SetBitBit(w, k, j);
    }
  }

  lemma SmallPowers()
    ensures Pow2(0) == 0x1 && Pow2(1) == 0x2 && Pow2(2) == 0x4 && Pow2(3) == 0x8 && Pow2(4) == 0x10
    ensures Pow2(5) == 0x20 && Pow2(6) == 0x40 && Pow2(7) == 0x80 && Pow2(8) == 0x100
  {
    Pow2Add(4, 4);
  }

  lemma LargePowers()
    ensures Pow2(10) == 0x400 && Pow2(12) == 0x1000 && Pow2(40) == 0x100_0000_0000
    ensures Pow2(63) == 0x8000_0000_0000_0000
  {
    NinesPowers();
    Pow2Add(9, 1);
    Pow2Add(10, 2);
    Pow2Add(36, 4);
    Pow2Add(36, 27);
  }

  // ----- x86_64 -----

  lemma AddressIs(w: nat)
    ensures X86Address(w) == w / 0x1000 % 0x100_0000_0000 * 0x1000
  {
    LargePowers();
    Halved(w, 12);
    Halved(Shr(w, 12), 40);
  }

  /** The flags that say what kind of entry it is and who may use it. */
  lemma X86Low(c: PteConfig, base: nat) returns (w: nat)
    requires forall j :: 0 <= j <= 8 || j == 63 ==> !HasBit(base, j)
    ensures w == SetIf(c.isDir && c.huge, SetIf(c.global, SetIf(c.dirty, SetIf(c.lower, SetIf(c.writable,
                   SetIf(c.valid, base, PTE_PRESENT), PTE_WRITABLE), PTE_USER), PTE_DIRTY), PTE_GLOBAL), PTE_HUGE)
    ensures w == base + Flag(c.valid, 0x1) + Flag(c.writable, 0x2) + Flag(c.lower, 0x4) + Flag(c.dirty, 0x40)
                 + Flag(c.isDir && c.huge, 0x80) + Flag(c.global, 0x100)
    ensures !HasBit(w, 3) && !HasBit(w, 4) && !HasBit(w, 5) && !HasBit(w, 63)
  {
    SmallPowers();
    w := FlagAdds(c.valid, base, 0, 0x1);
    w := FlagAdds(c.writable, w, 1, 0x2);
    w := FlagAdds(c.lower, w, 2, 0x4);
    w := FlagAdds(c.dirty, w, 6, 0x40);
    w := FlagAdds(c.global, w, 8, 0x100);
    w := FlagAdds(c.isDir && c.huge, w, 7, 0x80);
  }

  /** The encoded word, bit by bit. */
  lemma X86Layout(c: PteConfig)
    ensures X86FromConfig(c) ==
            Flag(c.valid, 0x1) + Flag(c.writable, 0x2) + Flag(c.lower, 0x4)
            + Flag(c.memAttr == Device || c.memAttr == Uncached, 0x8)
            + Flag(c.memAttr == Device || c.memAttr == Uncached, 0x10)
            + Flag(c.valid, 0x20) + Flag(c.dirty, 0x40) + Flag(c.isDir && c.huge, 0x80) + Flag(c.global, 0x100)
            + c.paddr / 0x1000 % 0x100_0000_0000 * 0x1000
            + Flag((!c.isDir || c.huge) && !c.executable, 0x8000_0000_0000_0000)
  {
    var base := X86Address(c.paddr);
    forall j | 0 <= j <= 8 || j == 63 ensures !HasBit(base, j) {
      FieldBits(c.paddr, 12, 40, j);
    }
    AddressIs(c.paddr);
    SmallPowers();
    LargePowers();
    var uc := Uncacheable(c.memAttr);
    var w := X86Low(c, base);
    w := FlagAdds(uc, w, 4, 0x10);
    w := FlagAdds(uc, w, 3, 0x8);
    w := FlagAdds(IsLeaf(c) && !c.executable, w, 63, 0x8000_0000_0000_0000);
    w := FlagAdds(c.valid, w, 5, 0x20);
  }

  /** What is read from any word, bit by bit. */
  lemma X86Reads(w: Word, isDir: bool)
    ensures var c := X86ToConfig(w, isDir);
            && c.paddr == w / 0x1000 % 0x100_0000_0000 * 0x1000 && c.isDir == isDir
            && (c.valid <==> w % 2 == 1) && (c.read <==> w % 2 == 1) && (X86Valid(w) <==> w % 2 == 1)
            && (c.writable <==> w / 0x2 % 2 == 1) && (c.lower <==> w / 0x4 % 2 == 1)
            && (c.dirty <==> w / 0x40 % 2 == 1) && (c.global <==> w / 0x100 % 2 == 1)
            && (c.huge <==> isDir && w / 0x80 % 2 == 1)
            && (c.executable <==> w / 0x8000_0000_0000_0000 % 2 == 0)
            && c.memAttr == if w / 0x8 % 2 == 1 || w / 0x10 % 2 == 1 then Device else Normal
  {
    SmallPowers();
    LargePowers();
    AddressIs(w);
    BitIs(w, 0, 0x1);
    BitIs(w, 1, 0x2);
    BitIs(w, 2, 0x4);
    BitIs(w, 3, 0x8);
    BitIs(w, 4, 0x10);
    BitIs(w, 6, 0x40);
    BitIs(w, 7, 0x80);
    BitIs(w, 8, 0x100);
    BitIs(w, 63, 0x8000_0000_0000_0000);
  }

  // ----- RISC-V Sv39 -----

  /** The encoded word, bit by bit; a table pointer has V and the page number only. */
  lemma Sv39Layout(c: PteConfig)
    ensures var leaf := !c.isDir || c.huge;
            Sv39FromConfig(c) == if !c.valid then 0 else
              0x1 + Flag(leaf && c.read, 0x2) + Flag(leaf && c.writable, 0x4) + Flag(leaf && c.executable, 0x8)
              + Flag(leaf && c.lower, 0x10) + Flag(leaf && c.global, 0x20) + Flag(leaf, 0x40)
              + Flag(leaf && (c.writable || c.dirty), 0x80) + c.paddr / 0x1000 * 0x400
  {
    if c.valid {
      var base := c.paddr / 0x1000 * Pow2(10);
      forall j | 0 <= j < 10 ensures !HasBit(base, j) {
        MultipleNoBit(c.paddr / 0x1000, 10, j);
      }
      LargePowers();
      Sv39Flags(c, base);
    }
  }

  lemma Sv39Flags(c: PteConfig, base: nat)
    requires c.valid && base == c.paddr / 0x1000 * Pow2(10) && forall j :: 0 <= j < 10 ==> !HasBit(base, j)
    ensures Sv39FromConfig(c) ==
            base + 0x1 + Flag(IsLeaf(c) && c.read, 0x2) + Flag(IsLeaf(c) && c.writable, 0x4)
            + Flag(IsLeaf(c) && c.executable, 0x8) + Flag(IsLeaf(c) && c.lower, 0x10)
            + Flag(IsLeaf(c) && c.global, 0x20) + Flag(IsLeaf(c) && c.valid, 0x40)
            + Flag(IsLeaf(c) && (c.writable || c.dirty), 0x80)
  {
    SmallPowers();
    var leaf := IsLeaf(c);
    var w := FlagAdds(true, base, 0, 0x1);
    w := FlagAdds(leaf && c.read, w, 1, 0x2);
    w := FlagAdds(leaf && c.writable, w, 2, 0x4);
    w := FlagAdds(leaf && c.executable, w, 3, 0x8);
    w := FlagAdds(leaf && c.lower, w, 4, 0x10);
    w := FlagAdds(leaf && c.global, w, 5, 0x20);
    w := FlagAdds(leaf && c.valid, w, 6, 0x40);
    w := FlagAdds(leaf && (c.writable || c.dirty), w, 7, 0x80);
  }

  /** What is read from any word, bit by bit; a directory entry with a right is a block. */
  lemma Sv39Reads(w: Word, isDir: bool)
    ensures var c := Sv39ToConfig(w, isDir);
            && c.paddr == w / 0x400 * 0x1000 % USIZE_LIMIT && c.isDir == isDir && c.memAttr == Normal
            && (c.valid <==> w % 2 == 1) && (Sv39Valid(w) <==> w % 2 == 1)
            && (c.read <==> w / 0x2 % 2 == 1) && (c.writable <==> w / 0x4 % 2 == 1)
            && (c.executable <==> w / 0x8 % 2 == 1) && (c.lower <==> w / 0x10 % 2 == 1)
            && (c.global <==> w / 0x20 % 2 == 1) && (c.dirty <==> w / 0x80 % 2 == 1)
            && (c.huge <==> isDir && (w / 0x2 % 2 == 1 || w / 0x4 % 2 == 1 || w / 0x8 % 2 == 1))
  {
    SmallPowers();
    BitIs(w, 0, 0x1);
    BitIs(w, 1, 0x2);
    BitIs(w, 2, 0x4);
    BitIs(w, 3, 0x8);
    BitIs(w, 4, 0x10);
    BitIs(w, 5, 0x20);
    BitIs(w, 7, 0x80);
  }
}
