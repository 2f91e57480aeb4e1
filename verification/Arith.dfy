/**
 Arithmetic of address ranges. Page tables index the address space with masks and
 shifts, so two addresses are the same to a table when they differ by a multiple of
 the span it covers. Ranges are therefore described by the forward distance from
 their start, taken modulo the span.
 */
module Arith {

  /** `Whole(p)` is p. Around a goal it keeps the verifier from taking the definition of p
      apart, so that a lemma that proves p as a whole is enough. */
  ghost predicate Whole(p: bool) {
    p
  }

  /** usize and u64: values are below this bound. */
  const USIZE_LIMIT: nat := 0x1_0000_0000_0000_0000

  function SaturatingAdd(a: nat, b: nat): nat {
    if a + b < USIZE_LIMIT then a + b else USIZE_LIMIT - 1
  }

  function SaturatingMul(a: nat, b: nat): nat {
    if a * b < USIZE_LIMIT then a * b else USIZE_LIMIT - 1
  }

  function Min(a: int, b: int): int {
    if a <= b then a else b
  }

  function Max(a: int, b: int): int {
    if a <= b then b else a
  }

  function Pow2(n: nat): (p: nat)
    ensures p >= 1
  {
    if n == 0 then 1 else 2 * Pow2(n - 1)
  }

  lemma {:induction false} Pow2Add(a: nat, b: nat)
    ensures Pow2(a + b) == Pow2(a) * Pow2(b)
  {
    if a > 0 {
      Pow2Add(a - 1, b);
    }
  }

  /** Smallest multiple of `d` that is at least `x`. */
  function RoundUp(x: int, d: int): (r: int)
    requires d > 0
  {
    (x + d - 1) / d * d
  }

  /** Forward distance from `s` to `va` around a space of `span` addresses. */
  function Dist(s: int, va: int, span: int): (d: nat)
    requires span > 0
    ensures d < span
  {
    (va - s) % span
  }

  // Uniqueness of quotient and remainder.
  lemma DivModUnique(x: int, d: int, q: int, r: int)
    requires d > 0
    requires x == q * d + r && 0 <= r < d
    ensures x / d == q && x % d == r
  {
    var q' := x / d;
    assert x == q' * d + x % d by { assert x == d * q' + x % d; }
    if q' < q {
      MulGe(q - q', d);
    } else if q' > q {
      MulGe(q' - q, d);
    }
  }

  lemma MulGe(a: int, d: int)
    requires a >= 1 && d >= 0
    ensures a * d >= d
  {
    assert a * d == (a - 1) * d + d;
    assert (a - 1) * d >= 0;
  }

  lemma MulMono(a: int, b: int, d: int)
    requires a <= b && d >= 0
    ensures a * d <= b * d
  {
    assert b * d - a * d == (b - a) * d;
    assert (b - a) * d >= 0;
  }

  lemma ModAddMul(x: int, k: int, d: int)
    requires d > 0
    ensures (x + k * d) % d == x % d
    ensures (x + k * d) / d == x / d + k
  {
    var q, r := x / d, x % d;
    assert x == q * d + r by { assert x == d * q + r; }
    assert x + k * d == (q + k) * d + r;
    DivModUnique(x + k * d, d, q + k, r);
  }

  lemma RoundUpBounds(x: int, d: int)
    requires d > 0
    ensures RoundUp(x, d) % d == 0
    ensures x <= RoundUp(x, d) < x + d
    ensures x % d == 0 ==> RoundUp(x, d) == x
  {
    var q := (x + d - 1) / d;
    assert x + d - 1 == q * d + (x + d - 1) % d by {
      assert x + d - 1 == d * q + (x + d - 1) % d;
    }
    DivModUnique(q * d, d, q, 0);
    if x % d == 0 {
      var p := x / d;
      assert x == p * d by { assert x == d * p + x % d; }
      DivModUnique(x + d - 1, d, p, d - 1);
    }
  }

  lemma RoundUpLe(x: int, y: int, d: int)
    requires d > 0 && x <= y && y % d == 0
    ensures RoundUp(x, d) <= y
  {
    RoundUpBounds(x, d);
    if y < RoundUp(x, d) {
      MultipleGap(y, RoundUp(x, d), d);
    }
  }

  // Two multiples of d that differ, differ by at least d.
  lemma MultipleGap(x: int, y: int, d: int)
    requires d > 0 && x % d == 0 && y % d == 0 && x < y
    ensures x + d <= y
  {
    var a, b := x / d, y / d;
    assert x == a * d by { assert x == d * a + x % d; }
    assert y == b * d by { assert y == d * b + y % d; }
    if b <= a {
      MulMono(b, a, d);
      assert false;
    }
    MulMono(a + 1, b, d);
    assert (a + 1) * d == a * d + d;
  }

  // A multiple of a multiple.
  lemma ModOfProduct(x: int, d: int, f: int)
    requires d > 0 && f > 0 && d * f > 0 && x % (d * f) == 0
    ensures x % d == 0
  {
    var q := x / (d * f);
    assert x == q * (d * f) by { assert x == (d * f) * q + x % (d * f); }
    assert x == (q * f) * d;
    DivModUnique(x, d, q * f, 0);
  }

  lemma DistShift(s: int, n: nat, va: int, span: int)
    requires span > 0 && n <= span
    ensures var d := Dist(s, va, span);
            Dist(s + n, va, span) == if n <= d then d - n else d - n + span
  {
    var d := Dist(s, va, span);
    var q := (va - s) / span;
    assert va - s == q * span + d by { assert va - s == span * q + d; }
    if n <= d {
      DivModUnique(va - (s + n), span, q, d - n);
    } else {
      assert (q - 1) * span == q * span - span;
      DivModUnique(va - (s + n), span, q - 1, d - n + span);
    }
  }

  /** Ranges compose: the addresses within n1 + n2 of s are those within n1 of s and
      those within n2 of the point n1 past s. */
  lemma DistAdd(s: int, n1: nat, n2: nat, va: int, span: int)
    requires span > 0
    ensures Dist(s, va, span) < n1 + n2 <==>
            Dist(s, va, span) < n1 || Dist(s + n1, va, span) < n2
    ensures n1 + n2 <= span && Dist(s + n1, va, span) < n2 ==>
            Dist(s, va, span) == n1 + Dist(s + n1, va, span)
  {
    if n1 <= span {
      DistShift(s, n1, va, span);
    }
  }

  lemma DivModDef(x: int, d: int)
    requires d > 0
    ensures x == (x / d) * d + x % d
    ensures 0 <= x % d < d
  {
    assert x == d * (x / d) + x % d;
  }

  lemma MulAssoc(a: int, b: int, c: int)
    ensures (a * b) * c == a * (b * c)
  {
  }

  lemma SameModGap(a: int, b: int, d: int) returns (k: int)
    requires d > 0 && a % d == b % d
    ensures b - a == k * d
  {
    DivModDef(a, d);
    DivModDef(b, d);
    k := b / d - a / d;
  }

  // From a distance around the whole span to one inside the entry.
  lemma EntryDistInto(v: int, n: nat, va: int, ls: int, fan: int, span: int)
    requires ls > 0 && fan > 0 && span == fan * ls && span > 0
    requires v % ls + n <= ls
    requires Dist(v, va, span) < n
    ensures (va / ls) % fan == (v / ls) % fan
    ensures Dist(v, va, span) == Dist(v, va, ls) == va % ls - v % ls
  {
    var a, r, d, k := v / ls, v % ls, Dist(v, va, span), (va - v) / span;
    DivModDef(v, ls);
    DivModDef(va - v, span);
    MulAssoc(k, fan, ls);
    assert va == (a + k * fan) * ls + (r + d);
    DivModUnique(va, ls, a + k * fan, r + d);
    ModAddMul(a, k, fan);
    DivModUnique(va - v, ls, k * fan, d);
  }

  // And back, from an address of the same entry.
  lemma EntryDistOut(v: int, n: nat, va: int, ls: int, fan: int, span: int)
    requires ls > 0 && fan > 0 && span == fan * ls && span > 0
    requires v % ls + n <= ls
    requires (va / ls) % fan == (v / ls) % fan && Dist(v, va, ls) < n
    ensures Dist(v, va, span) < n
  {
    var a, r, b, q := v / ls, v % ls, va / ls, va % ls;
    DivModDef(v, ls);
    DivModDef(va, ls);
    GapInEntries(v, a, r, va, b, q, ls);
    var k := SameModGap(a, b, fan);
    if r <= q {
      GapInSpans(b - a, k, fan, ls, span);
      MulGe(fan, ls);
      DivModUnique(va - v, span, k, q - r);
    }
  }

  lemma GapInSpans(gap: int, k: int, fan: int, ls: int, span: int)
    requires gap == k * fan && span == fan * ls
    ensures gap * ls == k * span
  {
    MulAssoc(k, fan, ls);
  }

  lemma GapInEntries(v: int, a: int, r: int, va: int, b: int, q: int, ls: int)
    requires ls > 0 && 0 <= r < ls && 0 <= q < ls
    requires v == a * ls + r && va == b * ls + q
    ensures va - v == (b - a) * ls + (q - r)
    ensures Dist(v, va, ls) == if r <= q then q - r else q - r + ls
  {
    if r <= q {
      DivModUnique(va - v, ls, b - a, q - r);
    } else {
      assert (b - a - 1) * ls == (b - a) * ls - ls;
      DivModUnique(va - v, ls, b - a - 1, q - r + ls);
    }
  }

  /** Inside one entry: with span == fan * ls, an address is within n of v (where the
      range stays inside the ls-sized entry of v) exactly when it falls into the same
      entry and is within n of v there. */
  lemma EntryDist(v: int, n: nat, va: int, ls: int, fan: int, span: int)
    requires ls > 0 && fan > 0 && span == fan * ls && span > 0
    requires v % ls + n <= ls
    ensures Dist(v, va, span) < n <==>
            (va / ls) % fan == (v / ls) % fan && Dist(v, va, ls) < n
    ensures Dist(v, va, span) < n ==>
            Dist(v, va, span) == Dist(v, va, ls) == va % ls - v % ls
  {
    if Dist(v, va, span) < n {
      EntryDistInto(v, n, va, ls, fan, span);
    } else if (va / ls) % fan == (v / ls) % fan && Dist(v, va, ls) < n {
      EntryDistOut(v, n, va, ls, fan, span);
    }
  }
}
