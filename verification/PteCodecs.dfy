/**
 The page table entries of x86_64 and of RISC-V Sv39 (section 4.4 of the RISC-V Privileged
 Architecture): what survives encoding and decoding,
 and exactly which configurations survive whole.
 */
module PteCodecs {
  import opened Arith
  import opened Paging
  import opened PageWalk

  // ----- bits of a word -----

  /** `w & (1 << k) != 0` */
  predicate HasBit(w: nat, k: nat) {
    if k == 0 then w % 2 == 1 else HasBit(w / 2, k - 1)
  }

  /** `w | (1 << k)` */
  function SetBit(w: nat, k: nat): nat {
    if k == 0 then w + 1 - w % 2 else w % 2 + 2 * SetBit(w / 2, k - 1)
  }

  function SetIf(c: bool, w: nat, k: nat): nat {
    if c then SetBit(w, k) else w
  }

  lemma SetBitHalf(w: nat, k: nat)
    requires k > 0
    ensures SetBit(w, k) / 2 == SetBit(w / 2, k - 1) && SetBit(w, k) % 2 == w % 2
  {
    DivModUnique(SetBit(w, k), 2, SetBit(w / 2, k - 1), w % 2);
  }

  lemma {:induction false} SetBitBit(w: nat, k: nat, j: nat)
    ensures HasBit(SetBit(w, k), j) <==> j == k || HasBit(w, j)
  {
    if k > 0 && j > 0 {
      SetBitHalf(w, k);
      SetBitBit(w / 2, k - 1, j - 1);
    }
  }

  lemma SetIfBit(c: bool, w: nat, k: nat, j: nat) returns (w': nat)
    ensures w' == SetIf(c, w, k)
    ensures HasBit(w', j) <==> (c && j == k) || HasBit(w, j)
  {
    w' := SetIf(c, w, k);
    SetBitBit(w, k, j);
  }

  lemma {:induction false} SmallNoBit(w: nat, n: nat, j: nat)
    requires w < Pow2(n) && n <= j
    ensures !HasBit(w, j)
    decreases j
  {
    if j > 0 {
      SmallNoBit(w / 2, if n > 0 then n - 1 else 0, j - 1);
    }
  }

  /** `w >> n` */
  function Shr(w: nat, n: nat): nat {
    if n == 0 then w else Shr(w / 2, n - 1)
  }

  /** The low `n` bits of `w`. */
  function Low(w: nat, n: nat): nat {
    if n == 0 then 0 else w % 2 + 2 * Low(w / 2, n - 1)
  }

  lemma Halved(w: nat, n: nat)
    ensures w == Shr(w, n) * Pow2(n) + Low(w, n) && Low(w, n) < Pow2(n)
    ensures w / Pow2(n) == Shr(w, n) && w % Pow2(n) == Low(w, n)
  {
    Parted(w, n);
    DivModUnique(w, Pow2(n), Shr(w, n), Low(w, n));
  }

  lemma {:induction false} Parted(w: nat, n: nat)
    ensures w == Shr(w, n) * Pow2(n) + Low(w, n) && Low(w, n) < Pow2(n)
  {
    if n > 0 {
      Parted(w / 2, n - 1);
      Doubled(Shr(w, n), Pow2(n - 1));
    }
  }

  lemma Doubled(q: int, p: int)
    ensures q * (2 * p) == 2 * (q * p)
  {
  }

  lemma {:induction false} ShiftedAway(w: nat, k: nat, n: nat)
    requires k < n
    ensures Shr(SetBit(w, k), n) == Shr(w, n)
  {
    if k > 0 {
      SetBitHalf(w, k);
      ShiftedAway(w / 2, k - 1, n - 1);
    }
  }

  lemma {:induction false} ShiftedDown(w: nat, k: nat, n: nat)
    requires n <= k
    ensures Shr(SetBit(w, k), n) == SetBit(Shr(w, n), k - n)
  {
    if n > 0 {
      SetBitHalf(w, k);
      ShiftedDown(w / 2, k - 1, n - 1);
    }
  }

  lemma {:induction false} SetBitMasked(w: nat, k: nat, n: nat)
    requires n <= k
    ensures Low(SetBit(w, k), n) == Low(w, n)
  {
    if n > 0 {
      SetBitHalf(w, k);
      SetBitMasked(w / 2, k - 1, n - 1);
    }
  }

  /** Bits `lo .. lo + n` of a word, in place. */
  function Field(w: nat, lo: nat, n: nat): nat {
    Low(Shr(w, lo), n) * Pow2(lo)
  }

  lemma SetIfField(c: bool, w: nat, k: nat, lo: nat, n: nat)
    requires k < lo || lo + n <= k
    ensures Field(SetIf(c, w, k), lo, n) == Field(w, lo, n)
  {
    if k < lo {
      ShiftedAway(w, k, lo);
    } else {
      ShiftedDown(w, k, lo);
      SetBitMasked(Shr(w, lo), k - lo, n);
    }
  }

  lemma {:induction false} MultipleNoBit(x: nat, lo: nat, j: nat)
    requires j < lo
    ensures !HasBit(x * Pow2(lo), j)
  {
    Doubled(x, Pow2(lo - 1));
    if j > 0 {
      MultipleNoBit(x, lo - 1, j - 1);
    }
  }

  lemma FieldBits(w: nat, lo: nat, n: nat, j: nat)
    requires j < lo || lo + n <= j
    ensures !HasBit(Field(w, lo, n), j)
  {
    var x := Low(Shr(w, lo), n);
    if j < lo {
      MultipleNoBit(x, lo, j);
    } else {
      Halved(Shr(w, lo), n);
      FieldBound(x, lo, n);
      SmallNoBit(x * Pow2(lo), lo + n, j);
    }
  }

  lemma FieldBound(x: nat, lo: nat, n: nat)
    requires x < Pow2(n)
    ensures x * Pow2(lo) < Pow2(lo + n)
  {
    MulMono(x, Pow2(n) - 1, Pow2(lo));
    Pow2Add(n, lo);
    assert (Pow2(n) - 1) * Pow2(lo) == Pow2(n) * Pow2(lo) - Pow2(lo);
  }

  /** A value is its own field exactly when it is aligned and fits. */
  lemma FieldWhole(w: nat, lo: nat, n: nat)
    ensures Field(w, lo, n) == w <==> w % Pow2(lo) == 0 && w < Pow2(lo + n)
  {
    var q := Shr(w, lo);
    Halved(w, lo);
    Halved(q, n);
    FieldBound(Low(q, n), lo, n);
    if Low(w, lo) == 0 && w < Pow2(lo + n) {
      Pow2Add(n, lo);
      if q >= Pow2(n) {
        MulMono(Pow2(n), q, Pow2(lo));
      }
      DivModUnique(q, Pow2(n), 0, q);
    } else if Field(w, lo, n) == w {
      DivModUnique(w, Pow2(lo), Low(q, n), 0);
    }
  }

  lemma FieldAgain(w: nat, lo: nat, n: nat)
    ensures Field(Field(w, lo, n), lo, n) == Field(w, lo, n)
  {
    var x := Low(Shr(w, lo), n);
    Halved(Shr(w, lo), n);
    FieldBound(x, lo, n);
    ModAddMul(0, x, Pow2(lo));
    FieldWhole(x * Pow2(lo), lo, n);
  }

  predicate IsLeaf(c: PteConfig) {
    !c.isDir || c.huge
  }

  // ----- x86_64 -----

  const PTE_PRESENT: nat := 0
  const PTE_WRITABLE: nat := 1
  const PTE_USER: nat := 2
  const PTE_WRITE_THROUGH: nat := 3
  const PTE_CACHE_DISABLE: nat := 4
  const PTE_ACCESSED: nat := 5
  const PTE_DIRTY: nat := 6
  const PTE_HUGE: nat := 7
  const PTE_GLOBAL: nat := 8
  const PTE_NO_EXECUTE: nat := 63

  /** `& PTE_ADDR_MASK` */
  function X86Address(w: nat): nat {
    Field(w, 12, 40)
  }

  predicate Uncacheable(a: MemAttributes) {
    a == Device || a == Uncached
  }

  function X86FromConfig(c: PteConfig): Word {
    var bits := X86Address(c.paddr);
    var bits := SetIf(c.valid, bits, PTE_PRESENT);
    var bits := SetIf(c.writable, bits, PTE_WRITABLE);
    var bits := SetIf(c.lower, bits, PTE_USER);
    var bits := SetIf(c.dirty, bits, PTE_DIRTY);
    var bits := SetIf(c.global, bits, PTE_GLOBAL);
    var bits := SetIf(c.isDir && c.huge, bits, PTE_HUGE);
    var bits := SetIf(Uncacheable(c.memAttr), bits, PTE_CACHE_DISABLE);
    var bits := SetIf(Uncacheable(c.memAttr), bits, PTE_WRITE_THROUGH);
    var bits := SetIf(IsLeaf(c) && !c.executable, bits, PTE_NO_EXECUTE);
    SetIf(c.valid, bits, PTE_ACCESSED)
  }

  function X86ToConfig(w: Word, isDir: bool): PteConfig {
    PteConfig(
      X86Address(w),
      HasBit(w, PTE_PRESENT),
      HasBit(w, PTE_PRESENT),
      HasBit(w, PTE_WRITABLE),
      !HasBit(w, PTE_NO_EXECUTE),
      HasBit(w, PTE_USER),
      HasBit(w, PTE_DIRTY),
      HasBit(w, PTE_GLOBAL),
      isDir,
      isDir && HasBit(w, PTE_HUGE),
      if HasBit(w, PTE_CACHE_DISABLE) || HasBit(w, PTE_WRITE_THROUGH) then Device else Normal)
  }

  predicate X86Valid(w: Word) {
    HasBit(w, PTE_PRESENT)
  }

  /** What makes a flag bit of an entry come out set. */
  predicate X86Raised(c: PteConfig, j: nat) {
    || (j == PTE_PRESENT && c.valid)
    || (j == PTE_WRITABLE && c.writable)
    || (j == PTE_USER && c.lower)
    || (j == PTE_WRITE_THROUGH && Uncacheable(c.memAttr))
    || (j == PTE_CACHE_DISABLE && Uncacheable(c.memAttr))
    || (j == PTE_ACCESSED && c.valid)
    || (j == PTE_DIRTY && c.dirty)
    || (j == PTE_HUGE && c.isDir && c.huge)
    || (j == PTE_GLOBAL && c.global)
    || (j == PTE_NO_EXECUTE && IsLeaf(c) && !c.executable)
  }

  lemma X86Bit(c: PteConfig, j: nat)
    requires j < 12 || 52 <= j
    ensures HasBit(X86FromConfig(c), j) <==> X86Raised(c, j)
  {
    var w0 := X86Address(c.paddr);
    FieldBits(c.paddr, 12, 40, j);
    var w1 := SetIfBit(c.valid, w0, PTE_PRESENT, j);
    var w2 := SetIfBit(c.writable, w1, PTE_WRITABLE, j);
    var w3 := SetIfBit(c.lower, w2, PTE_USER, j);
    var w4 := SetIfBit(c.dirty, w3, PTE_DIRTY, j);
    var w5 := SetIfBit(c.global, w4, PTE_GLOBAL, j);
    var w6 := SetIfBit(c.isDir && c.huge, w5, PTE_HUGE, j);
    var w7 := SetIfBit(Uncacheable(c.memAttr), w6, PTE_CACHE_DISABLE, j);
    var w8 := SetIfBit(Uncacheable(c.memAttr), w7, PTE_WRITE_THROUGH, j);
    var w9 := SetIfBit(IsLeaf(c) && !c.executable, w8, PTE_NO_EXECUTE, j);
    var w10 := SetIfBit(c.valid, w9, PTE_ACCESSED, j);
  }

  lemma SetIfAddress(c: bool, w: nat, k: nat) returns (w': nat)
    requires k < 12 || 52 <= k
    ensures w' == SetIf(c, w, k) && X86Address(w') == X86Address(w)
  {
    w' := SetIf(c, w, k);
    SetIfField(c, w, k, 12, 40);
  }

  lemma X86KeepsAddress(c: PteConfig)
    ensures X86Address(X86FromConfig(c)) == X86Address(c.paddr)
  {
    FieldAgain(c.paddr, 12, 40);
    var w1 := SetIfAddress(c.valid, X86Address(c.paddr), PTE_PRESENT);
    var w2 := SetIfAddress(c.writable, w1, PTE_WRITABLE);
    var w3 := SetIfAddress(c.lower, w2, PTE_USER);
    var w4 := SetIfAddress(c.dirty, w3, PTE_DIRTY);
    var w5 := SetIfAddress(c.global, w4, PTE_GLOBAL);
    var w6 := SetIfAddress(c.isDir && c.huge, w5, PTE_HUGE);
    var w7 := SetIfAddress(Uncacheable(c.memAttr), w6, PTE_CACHE_DISABLE);
    var w8 := SetIfAddress(Uncacheable(c.memAttr), w7, PTE_WRITE_THROUGH);
    var w9 := SetIfAddress(IsLeaf(c) && !c.executable, w8, PTE_NO_EXECUTE);
    var w10 := SetIfAddress(c.valid, w9, PTE_ACCESSED);
  }

  /** What decoding gives back: `read` follows `valid`, a table pointer loses NX, the memory
      attribute keeps only whether caching is off, and the address loses what the mask drops. */
  lemma X86RoundTrip(c: PteConfig)
    ensures X86ToConfig(X86FromConfig(c), c.isDir) ==
            PteConfig(X86Address(c.paddr), c.valid, c.valid, c.writable, IsLeaf(c) ==> c.executable, c.lower,
                      c.dirty, c.global, c.isDir, c.isDir && c.huge,
                      if Uncacheable(c.memAttr) then Device else Normal)
  {
    X86KeepsAddress(c);
    X86Bit(c, PTE_PRESENT);
    X86Bit(c, PTE_WRITABLE);
    X86Bit(c, PTE_NO_EXECUTE);
    X86Bit(c, PTE_USER);
    X86Bit(c, PTE_DIRTY);
    X86Bit(c, PTE_GLOBAL);
    X86Bit(c, PTE_HUGE);
    X86Bit(c, PTE_CACHE_DISABLE);
    X86Bit(c, PTE_WRITE_THROUGH);
  }

  predicate X86Encodable(c: PteConfig) {
    c.paddr % Pow2(12) == 0 && c.paddr < Pow2(52)
  }

  /** Of the attributes, whatever is valid is readable, and the memory is Device or Normal. */
  function X86Keeps(a: Attrs): Attrs {
    a.(read := true, memory := if Uncacheable(a.memory) then Device else Normal)
  }

  /** A valid entry survives exactly when its address is page aligned and below 2^52. */
  lemma X86Recovers(c: PteConfig)
    ensures Recovers(X86Keeps, c, X86ToConfig(X86FromConfig(c), c.isDir)) <==> c.valid && X86Encodable(c)
  {
    X86RoundTrip(c);
    FieldWhole(c.paddr, 12, 40);
  }

  const X86_CODEC := Codec(X86FromConfig, X86ToConfig, X86Valid, X86Encodable, X86Keeps)

  lemma X86Lawful()
    ensures Lawful(X86_CODEC)
  {
    assert !HasBit(0, PTE_PRESENT);
    X86Bit(INVALID_CONFIG, PTE_PRESENT);
    forall g: PteConfig | g.valid && X86Encodable(g)
      ensures Recovers(X86Keeps, g, X86ToConfig(X86FromConfig(g), g.isDir))
    {
      X86Recovers(g);
    }
  }

  // ----- RISC-V Sv39 -----

  const PTE_V: nat := 0
  const PTE_R: nat := 1
  const PTE_W: nat := 2
  const PTE_X: nat := 3
  const PTE_U: nat := 4
  const PTE_G: nat := 5
  const PTE_A: nat := 6
  const PTE_D: nat := 7

  /** A valid entry; the page number is or-ed in first here, last in the source. */
  function Sv39Word(c: PteConfig, number: nat): Word {
    var leaf := IsLeaf(c);
    var bits := SetBit(number * Pow2(10), PTE_V);
    var bits := SetIf(leaf && c.read, bits, PTE_R);
    var bits := SetIf(leaf && c.writable, bits, PTE_W);
    var bits := SetIf(leaf && c.executable, bits, PTE_X);
    var bits := SetIf(leaf && c.lower, bits, PTE_U);
    var bits := SetIf(leaf && c.global, bits, PTE_G);
    var bits := SetIf(leaf && c.valid, bits, PTE_A);
    SetIf(leaf && (c.writable || c.dirty), bits, PTE_D)
  }

  function Sv39FromConfig(c: PteConfig): Word {
    if !c.valid then 0 else Sv39Word(c, c.paddr / 0x1000)
  }

  /** `(bits >> 10) << 12` in 64 bits */
  function Sv39Address(w: Word): nat {
    w / 0x400 * 0x1000 % USIZE_LIMIT
  }

  function Sv39ToConfig(w: Word, isDir: bool): PteConfig {
    var read, writable, executable := HasBit(w, PTE_R), HasBit(w, PTE_W), HasBit(w, PTE_X);
    PteConfig(
      Sv39Address(w),
      HasBit(w, PTE_V),
      read,
      writable,
      executable,
      HasBit(w, PTE_U),
      HasBit(w, PTE_D),
      HasBit(w, PTE_G),
      isDir,
      isDir && (read || writable || executable),
      Normal)
  }

  predicate Sv39Valid(w: Word) {
    HasBit(w, PTE_V)
  }

  predicate Sv39Raised(c: PteConfig, j: nat) {
    || j == PTE_V
    || (IsLeaf(c) &&
        (|| (j == PTE_R && c.read)
         || (j == PTE_W && c.writable)
         || (j == PTE_X && c.executable)
         || (j == PTE_U && c.lower)
         || (j == PTE_G && c.global)
         || (j == PTE_A && c.valid)
         || (j == PTE_D && (c.writable || c.dirty))))
  }

  lemma Sv39Bit(c: PteConfig, number: nat, j: nat)
    requires j < 10
    ensures HasBit(Sv39Word(c, number), j) <==> Sv39Raised(c, j)
  {
    var leaf := IsLeaf(c);
    MultipleNoBit(number, 10, j);
    var w0 := SetIfBit(true, number * Pow2(10), PTE_V, j);
    var w1 := SetIfBit(leaf && c.read, w0, PTE_R, j);
    var w2 := SetIfBit(leaf && c.writable, w1, PTE_W, j);
    var w3 := SetIfBit(leaf && c.executable, w2, PTE_X, j);
    var w4 := SetIfBit(leaf && c.lower, w3, PTE_U, j);
    var w5 := SetIfBit(leaf && c.global, w4, PTE_G, j);
    var w6 := SetIfBit(leaf && c.valid, w5, PTE_A, j);
    var w7 := SetIfBit(leaf && (c.writable || c.dirty), w6, PTE_D, j);
  }

  lemma SetIfNumber(c: bool, w: nat, k: nat) returns (w': nat)
    requires k < 10
    ensures w' == SetIf(c, w, k) && Shr(w', 10) == Shr(w, 10)
  {
    w' := SetIf(c, w, k);
    ShiftedAway(w, k, 10);
  }

  lemma NumberShifted(number: nat)
    ensures Shr(number * Pow2(10), 10) == number
  {
    Halved(number * Pow2(10), 10);
    ModAddMul(0, number, Pow2(10));
  }

  lemma Sv39KeepsNumber(c: PteConfig, number: nat)
    ensures Shr(Sv39Word(c, number), 10) == number
  {
    var leaf := IsLeaf(c);
    NumberShifted(number);
    var w0 := SetIfNumber(true, number * Pow2(10), PTE_V);
    var w1 := SetIfNumber(leaf && c.read, w0, PTE_R);
    var w2 := SetIfNumber(leaf && c.writable, w1, PTE_W);
    var w3 := SetIfNumber(leaf && c.executable, w2, PTE_X);
    var w4 := SetIfNumber(leaf && c.lower, w3, PTE_U);
    var w5 := SetIfNumber(leaf && c.global, w4, PTE_G);
    var w6 := SetIfNumber(leaf && c.valid, w5, PTE_A);
    var w7 := SetIfNumber(leaf && (c.writable || c.dirty), w6, PTE_D);
  }

  lemma Sv39KeepsAddress(c: PteConfig)
    requires c.valid && c.paddr < USIZE_LIMIT
    ensures Sv39Address(Sv39FromConfig(c)) == c.paddr / 0x1000 * 0x1000
  {
    var w := Sv39FromConfig(c);
    Sv39KeepsNumber(c, c.paddr / 0x1000);
    Halved(w, 10);
    assert Pow2(10) == 0x400;
  }

  /** A table pointer carries no rights; of a leaf, `dirty` is also set when it is writable. */
  lemma Sv39RoundTrip(c: PteConfig)
    requires c.valid && c.paddr < USIZE_LIMIT
    ensures var leaf := IsLeaf(c);
            var read, writable, executable := leaf && c.read, leaf && c.writable, leaf && c.executable;
            Sv39ToConfig(Sv39FromConfig(c), c.isDir) ==
            PteConfig(c.paddr / 0x1000 * 0x1000, true, read, writable, executable, leaf && c.lower,
                      leaf && (c.writable || c.dirty), leaf && c.global,
                      c.isDir, c.isDir && (read || writable || executable), Normal)
  {
    Sv39KeepsAddress(c);
    Sv39Bit(c, c.paddr / 0x1000, PTE_V);
    Sv39Bit(c, c.paddr / 0x1000, PTE_R);
    Sv39Bit(c, c.paddr / 0x1000, PTE_W);
    Sv39Bit(c, c.paddr / 0x1000, PTE_X);
    Sv39Bit(c, c.paddr / 0x1000, PTE_U);
    Sv39Bit(c, c.paddr / 0x1000, PTE_D);
    Sv39Bit(c, c.paddr / 0x1000, PTE_G);
  }

  predicate Sv39Encodable(c: PteConfig) {
    && c.paddr % 0x1000 == 0 && c.paddr < USIZE_LIMIT
    && (c.isDir && c.huge ==> c.read || c.writable || c.executable)
  }

  /** Of the attributes, whatever is writable is dirty, and all memory is Normal. */
  function Sv39Keeps(a: Attrs): Attrs {
    a.(dirty := a.writable || a.dirty, memory := Normal)
  }

  /** A valid entry survives exactly when its address is page aligned and a block has some right. */
  lemma Sv39Recovers(c: PteConfig)
    requires c.paddr < USIZE_LIMIT
    ensures Recovers(Sv39Keeps, c, Sv39ToConfig(Sv39FromConfig(c), c.isDir)) <==> c.valid && Sv39Encodable(c)
  {
    SmallNoBit(0, 0, PTE_V);
    if c.valid {
      Sv39RoundTrip(c);
    }
  }

  const SV39_CODEC := Codec(Sv39FromConfig, Sv39ToConfig, Sv39Valid, Sv39Encodable, Sv39Keeps)

  lemma Sv39Lawful()
    ensures Lawful(SV39_CODEC)
  {
    SmallNoBit(0, 0, PTE_V);
    forall g: PteConfig | g.valid && Sv39Encodable(g)
      ensures Recovers(Sv39Keeps, g, Sv39ToConfig(Sv39FromConfig(g), g.isDir))
    {
      Sv39Recovers(g);
    }
  }

  // ----- the two table types -----

  const PAGE_SHIFT: nat := 12
  const FRAME_LEN: nat := 512
  const X86_LEVEL_BITS: seq<nat> := [9, 9, 9, 9]
  const SV39_LEVEL_BITS: seq<nat> := [9, 9, 9]

  function X86Meta(): Meta {
    MakeMeta(PAGE_SHIFT, X86_LEVEL_BITS, 2, FRAME_LEN, X86_CODEC)
  }

  function Sv39Meta(): Meta {
    MakeMeta(PAGE_SHIFT, SV39_LEVEL_BITS, 1, FRAME_LEN, SV39_CODEC)
  }

  /** Top-level entries and whole tables fill 2^64 evenly, and walks stay below it. */
  ghost predicate Regular(m: Meta) {
    && m.Wf() && WalkFits(m) && m.PageSize() == 0x1000 && m.len * 8 == 0x1000
    && USIZE_LIMIT % m.LevelSize(m.Levels()) == 0 && USIZE_LIMIT % m.Span(m.Levels()) == 0
  }

  lemma {:induction false} NinesSum(bits: seq<nat>)
    requires forall k :: 0 <= k < |bits| ==> bits[k] == 9
    ensures SumBits(bits) == 9 * |bits|
  {
    if bits != [] {
      NinesSum(bits[1..]);
    }
  }

  /** The level sizes of a table with 4096-byte pages and nine bits per level. */
  lemma NinesSize(bits: seq<nat>, level: nat)
    requires 1 <= level <= |bits| + 1 && forall k :: 0 <= k < |bits| ==> bits[k] == 9
    ensures LevelSizeFrom(PAGE_SHIFT, bits, level) == 0x1000 * Pow2(9 * (level - 1))
  {
    NinesSum(bits[|bits| - level + 1..]);
  }

  lemma NinesPowers()
    ensures Pow2(0) == 1 && Pow2(9) == 512 && Pow2(18) == 0x4_0000 && Pow2(27) == 0x800_0000
    ensures Pow2(36) == 0x10_0000_0000
  {
    Pow2Add(9, 9);
    Pow2Add(18, 9);
    Pow2Add(18, 18);
  }

  lemma X86Sizes()
    ensures X86Meta().size == [0x1000, 0x20_0000, 0x4000_0000, 0x80_0000_0000, 0x1_0000_0000_0000]
    ensures X86Meta().fan == [512, 512, 512, 512]
  {
    NinesPowers();
    forall k | 1 <= k <= 5 ensures LevelSizeFrom(PAGE_SHIFT, X86_LEVEL_BITS, k) == 0x1000 * Pow2(9 * (k - 1)) {
      NinesSize(X86_LEVEL_BITS, k);
    }
  }

  lemma Sv39Sizes()
    ensures Sv39Meta().size == [0x1000, 0x20_0000, 0x4000_0000, 0x80_0000_0000]
    ensures Sv39Meta().fan == [512, 512, 512]
  {
    NinesPowers();
    forall k | 1 <= k <= 4 ensures LevelSizeFrom(PAGE_SHIFT, SV39_LEVEL_BITS, k) == 0x1000 * Pow2(9 * (k - 1)) {
      NinesSize(SV39_LEVEL_BITS, k);
    }
  }

  lemma X86Regular(m: Meta)
    requires Whole(m.Wf()) && m.len == FRAME_LEN && m.fan == [512, 512, 512, 512]
    requires m.size == [0x1000, 0x20_0000, 0x4000_0000, 0x80_0000_0000, 0x1_0000_0000_0000]
    ensures Regular(m) && m.Levels() == 4
  {
  }

  lemma Sv39Regular(m: Meta)
    requires Whole(m.Wf()) && m.len == FRAME_LEN && m.fan == [512, 512, 512]
    requires m.size == [0x1000, 0x20_0000, 0x4000_0000, 0x80_0000_0000]
    ensures Regular(m) && m.Levels() == 3
  {
  }

  /** Both table types are instances of everything proved about page tables. */
  lemma Instances()
    ensures Whole(Regular(X86Meta())) && X86Meta().Levels() == 4 && X86Meta().maxBlockLevel == 2
    ensures Whole(Regular(Sv39Meta())) && Sv39Meta().Levels() == 3 && Sv39Meta().maxBlockLevel == 1
    ensures X86Meta().size == [0x1000, 0x20_0000, 0x4000_0000, 0x80_0000_0000, 0x1_0000_0000_0000]
    ensures Sv39Meta().size == [0x1000, 0x20_0000, 0x4000_0000, 0x80_0000_0000]
  {
    X86Lawful();
    Sv39Lawful();
    NinesPowers();
    MakeMetaWf(PAGE_SHIFT, X86_LEVEL_BITS, 2, FRAME_LEN, X86_CODEC);
    MakeMetaWf(PAGE_SHIFT, SV39_LEVEL_BITS, 1, FRAME_LEN, SV39_CODEC);
    X86Sizes();
    Sv39Sizes();
    X86Regular(X86Meta());
    Sv39Regular(Sv39Meta());
  }
}
