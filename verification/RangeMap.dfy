/**
 `VecOp::merge_add` and `merge_same_kind`: a list of typed ranges, edited in place, that
 stands for a partial function from addresses to kinds.
 */
module RangeMap {
  import opened Arith
  import opened Options

  datatype Item<+K> = Item(lo: int, hi: int, kind: K)

  datatype RangeError<+K> = Capacity | Conflict(new_: Item<K>, existing: Item<K>)

  datatype Outcome<+K> = Added | Failed(error: RangeError<K>)

  // ----- the function a list stands for -----

  predicate Covers<K>(x: Item<K>, a: int) {
    x.lo <= a < x.hi
  }

  predicate Apart<K>(x: Item<K>, y: Item<K>) {
    x.hi <= y.lo || y.hi <= x.lo
  }

  predicate NonEmpty<K>(s: seq<Item<K>>) {
    forall i :: 0 <= i < |s| ==> s[i].lo < s[i].hi
  }

  predicate Disjoint<K>(s: seq<Item<K>>) {
    forall i, j {:trigger Apart(s[i], s[j])} :: 0 <= i < j < |s| ==> Apart(s[i], s[j])
  }

  predicate Proper<K>(s: seq<Item<K>>) {
    NonEmpty(s) && Disjoint(s)
  }

  /** Some item gives kind `k` to address `a`. */
  ghost predicate Has<K>(s: seq<Item<K>>, a: int, k: K) {
    exists i :: 0 <= i < |s| && Covers(s[i], a) && s[i].kind == k
  }

  ghost function KindAt<K>(s: seq<Item<K>>, a: int): Option<K> {
    if i: int :| 0 <= i < |s| && Covers(s[i], a) then Some(s[i].kind) else None
  }

  lemma KindAtHas<K>(s: seq<Item<K>>, a: int, k: K)
    requires Disjoint(s)
    ensures KindAt(s, a) == Some(k) <==> Has(s, a, k)
  {
    forall i, j | 0 <= i < |s| && 0 <= j < |s| && Covers(s[i], a) && Covers(s[j], a) ensures i == j {
      if i != j {
        ApartIn(s, i, j);
      }
    }
  }

  /** The old function overridden by `x` on its range. */
  ghost function Overlaid<K>(s: seq<Item<K>>, x: Item<K>, a: int): Option<K> {
    if Covers(x, a) then Some(x.kind) else KindAt(s, a)
  }

  /** `x` is a maximal run of addresses of one kind. */
  ghost predicate MaxRun<K>(f: int -> Option<K>, x: Item<K>) {
    && x.lo < x.hi
    && (forall a :: Covers(x, a) ==> f(a) == Some(x.kind))
    && f(x.lo - 1) != Some(x.kind)
    && f(x.hi) != Some(x.kind)
  }

  /** The items are exactly the maximal runs of `f`. */
  ghost predicate IsRuns<K(!new)>(s: seq<Item<K>>, f: int -> Option<K>) {
    && Proper(s)
    && (forall a :: KindAt(s, a) == f(a))
    && (forall x :: x in s <==> MaxRun(f, x))
  }

  /** `after` is `before` overridden by `x`, as maximal runs. */
  ghost predicate IsOverlay<K(!new)>(before: seq<Item<K>>, x: Item<K>, after: seq<Item<K>>) {
    IsRuns(after, a => Overlaid(before, x, a))
  }

  // ----- merging -----

  predicate Touch<K(==)>(x: Item<K>, y: Item<K>) {
    x.kind == y.kind && x.hi >= y.lo && y.hi >= x.lo
  }

  predicate NoTouch<K(==)>(s: seq<Item<K>>) {
    forall i, j {:trigger Touch(s[i], s[j])} :: 0 <= i < j < |s| ==> !Touch(s[i], s[j])
  }

  function Merged<K>(x: Item<K>, y: Item<K>): Item<K> {
    x.(lo := if x.lo <= y.lo then x.lo else y.lo, hi := if x.hi >= y.hi then x.hi else y.hi)
  }

  function Without<T>(s: seq<T>, i: nat): (r: seq<T>)
    requires i < |s|
    ensures |r| == |s| - 1
  {
    s[..i] + s[i + 1..]
  }

  function With<T>(s: seq<T>, i: nat, x: T): (r: seq<T>)
    requires i <= |s|
    ensures |r| == |s| + 1
  {
    s[..i] + [x] + s[i..]
  }

  /** Item `i` replaced by any number of items. */
  function Replaced<T>(s: seq<T>, i: nat, pieces: seq<T>): seq<T>
    requires i < |s|
  {
    s[..i] + pieces + s[i + 1..]
  }

  lemma ReplaceSteps<T>(s: seq<T>, i: nat, y: T, z: T)
    requires i < |s|
    ensures Without(s, i) == Replaced(s, i, [])
    ensures With(Without(s, i), i, y) == Replaced(s, i, [y]) == s[i := y]
    ensures With(With(Without(s, i), i, y), i + 1, z) == Replaced(s, i, [y, z])
  {
  }

  /** `merge` as one replacement: item `j` goes away, item `i` grows. */
  lemma MergedList<K>(s: seq<Item<K>>, i: nat, j: nat, m: Item<K>)
    requires i < j < |s|
    ensures With(Without(Without(s, j), i), i, m) == Without(s, j)[i := m]
  {
  }

  lemma MergeProper<K>(s: seq<Item<K>>, i: nat, j: nat)
    requires Proper(s) && i < j < |s| && Touch(s[i], s[j])
    ensures Proper(Without(s, j)[i := Merged(s[i], s[j])])
  {
    var m, rest := Merged(s[i], s[j]), Without(s, j);
    var t := rest[i := m];
    forall p, q | 0 <= p < q < |t| ensures Apart(t[p], t[q]) {
      var p', q' := if p < j then p else p + 1, if q < j then q else q + 1;
      assert rest[p] == s[p'] && rest[q] == s[q'];
      assert Apart(s[p'], s[q']);
      if p == i {
        ApartIn(s, j, q');
      } else if q == i {
        ApartIn(s, j, p');
      }
    }
  }

  lemma ApartIn<K>(s: seq<Item<K>>, i: nat, j: nat)
    requires Disjoint(s) && i < |s| && j < |s| && i != j
    ensures Apart(s[i], s[j])
  {
    if j < i {
      assert Apart(s[j], s[i]);
    }
  }

  lemma MergeKeeps<K>(s: seq<Item<K>>, i: nat, j: nat, a: int, k: K)
    requires Proper(s) && i < j < |s| && Touch(s[i], s[j]) && Has(s, a, k)
    ensures Has(Without(s, j)[i := Merged(s[i], s[j])], a, k)
  {
    var t := Without(s, j)[i := Merged(s[i], s[j])];
    var p :| 0 <= p < |s| && Covers(s[p], a) && s[p].kind == k;
    var q := if p == i || p == j then i else if p < j then p else p - 1;
    assert Covers(t[q], a) && t[q].kind == k;
  }

  lemma MergeReflects<K>(s: seq<Item<K>>, i: nat, j: nat, a: int, k: K)
    requires Proper(s) && i < j < |s| && Touch(s[i], s[j])
    requires Has(Without(s, j)[i := Merged(s[i], s[j])], a, k)
    ensures Has(s, a, k)
  {
    var t := Without(s, j)[i := Merged(s[i], s[j])];
    var q :| 0 <= q < |t| && Covers(t[q], a) && t[q].kind == k;
    var p := if q == i then (if Covers(s[i], a) then i else j) else if q < j then q else q + 1;
    assert Covers(s[p], a) && s[p].kind == k;
  }

  lemma MergeKinds<K>(s: seq<Item<K>>, i: nat, j: nat, a: int, k: K)
    requires Proper(s) && i < j < |s| && Touch(s[i], s[j])
    ensures Has(Without(s, j)[i := Merged(s[i], s[j])], a, k) <==> Has(s, a, k)
  {
    if Has(s, a, k) {
      MergeKeeps(s, i, j, a, k);
    } else if Has(Without(s, j)[i := Merged(s[i], s[j])], a, k) {
      MergeReflects(s, i, j, a, k);
    }
  }

  lemma SameKinds<K(!new)>(s: seq<Item<K>>, t: seq<Item<K>>)
    requires Disjoint(s) && Disjoint(t) && forall a, k :: Has(t, a, k) <==> Has(s, a, k)
    ensures forall a :: KindAt(t, a) == KindAt(s, a)
  {
    forall a ensures KindAt(t, a) == KindAt(s, a) {
      if KindAt(t, a).Some? {
        KindAtHas(t, a, KindAt(t, a).value);
        KindAtHas(s, a, KindAt(t, a).value);
      } else if KindAt(s, a).Some? {
        KindAtHas(t, a, KindAt(s, a).value);
        KindAtHas(s, a, KindAt(s, a).value);
      }
    }
  }

  /** Once nothing can be merged, the items are the maximal runs. */
  lemma NoTouchIsRuns<K(!new)>(s: seq<Item<K>>, f: int -> Option<K>)
    requires Proper(s) && NoTouch(s) && forall a :: KindAt(s, a) == f(a)
    ensures IsRuns(s, f)
  {
    forall x ensures x in s <==> MaxRun(f, x) {
      if x in s {
        var i :| 0 <= i < |s| && s[i] == x;
        ItemIsRun(s, f, i);
      }
      if MaxRun(f, x) {
        RunIsItem(s, f, x);
      }
    }
  }

  lemma TouchesOnly<K>(s: seq<Item<K>>, i: nat, j: nat)
    requires NoTouch(s) && i < |s| && j < |s| && Touch(s[i], s[j])
    ensures i == j
  {
    if j < i {
      assert Touch(s[j], s[i]);
    }
  }

  lemma ItemIsRun<K>(s: seq<Item<K>>, f: int -> Option<K>, i: nat)
    requires Proper(s) && NoTouch(s) && i < |s| && forall a :: KindAt(s, a) == f(a)
    ensures MaxRun(f, s[i])
  {
    var x := s[i];
    forall a | Covers(x, a) ensures f(a) == Some(x.kind) {
      KindAtHas(s, a, x.kind);
    }
    if f(x.lo - 1) == Some(x.kind) {
      KindAtHas(s, x.lo - 1, x.kind);
      var j :| 0 <= j < |s| && Covers(s[j], x.lo - 1) && s[j].kind == x.kind;
      TouchesOnly(s, i, j);
    }
    if f(x.hi) == Some(x.kind) {
      KindAtHas(s, x.hi, x.kind);
      var j :| 0 <= j < |s| && Covers(s[j], x.hi) && s[j].kind == x.kind;
      TouchesOnly(s, i, j);
    }
  }

  lemma RunIsItem<K>(s: seq<Item<K>>, f: int -> Option<K>, x: Item<K>)
    requires Proper(s) && NoTouch(s) && MaxRun(f, x) && forall a :: KindAt(s, a) == f(a)
    ensures x in s
  {
    assert Covers(x, x.lo) && f(x.lo) == Some(x.kind);
    KindAtHas(s, x.lo, x.kind);
    var i :| 0 <= i < |s| && Covers(s[i], x.lo) && s[i].kind == x.kind;
    var y := s[i];
    if y.lo < x.lo {
      KindAtHas(s, x.lo - 1, x.kind);
      assert Covers(y, x.lo - 1);
    }
    if x.hi < y.hi {
      KindAtHas(s, x.hi, x.kind);
      assert Covers(y, x.hi);
    } else if y.hi < x.hi {
      assert Covers(x, y.hi) && f(y.hi) == Some(x.kind);
      KindAtHas(s, y.hi, x.kind);
      var j :| 0 <= j < |s| && Covers(s[j], y.hi) && s[j].kind == x.kind;
      TouchesOnly(s, i, j);
    }
    assert y == x;
  }

  // ----- cutting the new range out -----

  /** What is left of `x` outside [lo, hi). */
  function Trim<K>(x: Item<K>, lo: int, hi: int): seq<Item<K>> {
    (if x.lo < lo then [x.(hi := if x.hi <= lo then x.hi else lo)] else []) +
    (if hi < x.hi then [x.(lo := if hi <= x.lo then x.lo else hi)] else [])
  }

  /** What is left of an item that [lo, hi) overlaps, in the four cases. */
  lemma TrimCases<K>(x: Item<K>, lo: int, hi: int)
    requires x.lo < hi && lo < x.hi
    ensures lo <= x.lo && hi >= x.hi ==> Trim(x, lo, hi) == []
    ensures lo > x.lo && hi < x.hi ==> Trim(x, lo, hi) == [x.(hi := lo), x.(lo := hi)]
    ensures lo <= x.lo && hi < x.hi ==> Trim(x, lo, hi) == [x.(lo := hi)]
    ensures lo > x.lo && hi >= x.hi ==> Trim(x, lo, hi) == [x.(hi := lo)]
  {
  }

  function TrimAll<K>(s: seq<Item<K>>, lo: int, hi: int): seq<Item<K>> {
    if s == [] then [] else TrimAll(s[..|s| - 1], lo, hi) + Trim(s[|s| - 1], lo, hi)
  }

  lemma TrimNext<K>(s: seq<Item<K>>, n: nat, lo: int, hi: int)
    requires n < |s|
    ensures TrimAll(s[..n + 1], lo, hi) == TrimAll(s[..n], lo, hi) + Trim(s[n], lo, hi)
  {
    assert s[..n + 1][..n] == s[..n];
  }

  lemma HasConcat<K>(s: seq<Item<K>>, t: seq<Item<K>>, a: int, k: K)
    ensures Has(s + t, a, k) <==> Has(s, a, k) || Has(t, a, k)
  {
    if Has(s, a, k) {
      var i :| 0 <= i < |s| && Covers(s[i], a) && s[i].kind == k;
      assert (s + t)[i] == s[i];
    }
    if Has(t, a, k) {
      var i :| 0 <= i < |t| && Covers(t[i], a) && t[i].kind == k;
      assert (s + t)[|s| + i] == t[i];
    }
  }

  lemma {:induction false} TrimAllHas<K>(s: seq<Item<K>>, lo: int, hi: int, a: int, k: K)
    requires NonEmpty(s) && lo < hi
    ensures Has(TrimAll(s, lo, hi), a, k) <==> !(lo <= a < hi) && Has(s, a, k)
  {
    if s != [] {
      var n := |s| - 1;
      TrimAllHas(s[..n], lo, hi, a, k);
      TrimHas(s[n], lo, hi, a, k);
      HasConcat(TrimAll(s[..n], lo, hi), Trim(s[n], lo, hi), a, k);
      HasConcat(s[..n], [s[n]], a, k);
      assert s == s[..n] + [s[n]];
    }
  }

  lemma TrimHas<K>(x: Item<K>, lo: int, hi: int, a: int, k: K)
    requires x.lo < x.hi && lo < hi
    ensures Has(Trim(x, lo, hi), a, k) <==> !(lo <= a < hi) && Has([x], a, k)
  {
    var t := Trim(x, lo, hi);
    if Has([x], a, k) && !(lo <= a < hi) {
      assert [x][0] == x;
      if a < lo {
        assert Covers(t[0], a);
      } else {
        assert Covers(t[|t| - 1], a);
      }
    }
    if Has(t, a, k) {
      assert Covers([x][0], a) && [x][0].kind == k;
    }
  }

  /** Every piece lies within an item it came from. */
  lemma {:induction false} Parent<K>(s: seq<Item<K>>, lo: int, hi: int, i: nat) returns (p: nat)
    requires NonEmpty(s) && lo < hi && i < |TrimAll(s, lo, hi)|
    ensures p < |s| && s[p].lo <= TrimAll(s, lo, hi)[i].lo && TrimAll(s, lo, hi)[i].hi <= s[p].hi
  {
    var n := |s| - 1;
    if i < |TrimAll(s[..n], lo, hi)| {
      p := Parent(s[..n], lo, hi, i);
    } else {
      p := n;
    }
  }

  lemma DisjointConcat<K>(s: seq<Item<K>>, t: seq<Item<K>>)
    requires Proper(s) && Proper(t)
    requires forall i, j :: 0 <= i < |s| && 0 <= j < |t| ==> Apart(s[i], t[j])
    ensures Proper(s + t)
  {
  }

  lemma TrimProper<K>(x: Item<K>, lo: int, hi: int)
    requires x.lo < x.hi && lo < hi
    ensures Proper(Trim(x, lo, hi))
    ensures forall i :: 0 <= i < |Trim(x, lo, hi)| ==> x.lo <= Trim(x, lo, hi)[i].lo && Trim(x, lo, hi)[i].hi <= x.hi
  {
  }

  lemma {:induction false} TrimAllProper<K>(s: seq<Item<K>>, lo: int, hi: int)
    requires Proper(s) && lo < hi
    ensures Proper(TrimAll(s, lo, hi))
  {
    if s != [] {
      var n := |s| - 1;
      var front, last := TrimAll(s[..n], lo, hi), Trim(s[n], lo, hi);
      TrimAllProper(s[..n], lo, hi);
      TrimProper(s[n], lo, hi);
      forall i, j | 0 <= i < |front| && 0 <= j < |last| ensures Apart(front[i], last[j]) {
        var p := Parent(s[..n], lo, hi, i);
        assert Apart(s[p], s[n]);
      }
      DisjointConcat(front, last);
    }
  }

  lemma {:induction false} TrimAllOutside<K>(s: seq<Item<K>>, lo: int, hi: int, i: nat)
    requires NonEmpty(s) && lo < hi && i < |TrimAll(s, lo, hi)|
    ensures TrimAll(s, lo, hi)[i].hi <= lo || hi <= TrimAll(s, lo, hi)[i].lo
  {
    var n := |s| - 1;
    if i < |TrimAll(s[..n], lo, hi)| {
      TrimAllOutside(s[..n], lo, hi, i);
    }
  }

  /** Of disjoint items at most one is cut in two, and then no other is touched. */
  lemma {:induction false} TrimAllLength<K>(s: seq<Item<K>>, lo: int, hi: int)
    requires Proper(s) && lo < hi
    ensures |TrimAll(s, lo, hi)| <= |s| + 1
    ensures (forall i :: 0 <= i < |s| ==> !(s[i].lo < lo && hi < s[i].hi)) ==> |TrimAll(s, lo, hi)| <= |s|
  {
    if s != [] {
      var n := |s| - 1;
      TrimAllLength(s[..n], lo, hi);
      if s[n].lo < lo && hi < s[n].hi {
        forall i | 0 <= i < n ensures !(s[..n][i].lo < lo && hi < s[..n][i].hi) {
          assert Apart(s[i], s[n]);
        }
      }
    }
  }

  lemma {:induction false} TrimOutside<K>(s: seq<Item<K>>, lo: int, hi: int)
    requires NonEmpty(s) && lo < hi && forall i :: 0 <= i < |s| ==> s[i].hi <= lo || hi <= s[i].lo
    ensures TrimAll(s, lo, hi) == s
  {
    if s != [] {
      var n := |s| - 1;
      TrimOutside(s[..n], lo, hi);
      assert s == s[..n] + [s[n]];
    }
  }

  // ----- what merge_add leaves behind -----

  /** The list after the first `n` items have been cut. */
  ghost function CutUpTo<K>(s: seq<Item<K>>, n: nat, lo: int, hi: int): seq<Item<K>>
    requires n <= |s|
  {
    TrimAll(s[..n], lo, hi) + s[n..]
  }

  /** Outside the new range nothing changed, inside it kinds can only have been dropped. */
  ghost predicate Conservative<K>(s: seq<Item<K>>, t: seq<Item<K>>, x: Item<K>) {
    forall a :: KindAt(t, a) == KindAt(s, a) || (Covers(x, a) && KindAt(t, a) == None)
  }

  /** Outside the new range nothing changed. */
  ghost predicate Spares<K>(s: seq<Item<K>>, t: seq<Item<K>>, x: Item<K>) {
    forall a :: !Covers(x, a) ==> KindAt(t, a) == KindAt(s, a)
  }

  lemma CutNext<K>(s: seq<Item<K>>, n: nat, lo: int, hi: int)
    requires n < |s|
    ensures CutUpTo(s, n, lo, hi) == TrimAll(s[..n], lo, hi) + [s[n]] + s[n + 1..]
    ensures CutUpTo(s, n + 1, lo, hi) == TrimAll(s[..n], lo, hi) + Trim(s[n], lo, hi) + s[n + 1..]
  {
    TrimNext(s, n, lo, hi);
  }

  /** Replacing the item the walk stands on by what is left of it takes the walk one item on. */
  lemma CutStep<K>(s: seq<Item<K>>, n: nat, lo: int, hi: int, t: seq<Item<K>>, i: nat)
    requires n < |s| && t == CutUpTo(s, n, lo, hi) && i == |TrimAll(s[..n], lo, hi)|
    ensures i < |t| && t[i] == s[n]
    ensures Replaced(t, i, Trim(t[i], lo, hi)) == CutUpTo(s, n + 1, lo, hi)
    ensures i + |Trim(t[i], lo, hi)| == |TrimAll(s[..n + 1], lo, hi)|
  {
    CutNext(s, n, lo, hi);
    TrimNext(s, n, lo, hi);
    assert t[..i] == TrimAll(s[..n], lo, hi) && t[i + 1..] == s[n + 1..];
  }

  lemma CutKeeps<K>(t: seq<Item<K>>, i: nat, lo: int, hi: int)
    requires i < |t| && lo < hi && t[i].lo < t[i].hi && (t[i].hi <= lo || hi <= t[i].lo)
    ensures Trim(t[i], lo, hi) == [t[i]] && Replaced(t, i, Trim(t[i], lo, hi)) == t
  {
  }

  lemma CutEnds<K>(s: seq<Item<K>>, n: nat, lo: int, hi: int)
    requires n <= |s|
    ensures |CutUpTo(s, n, lo, hi)| == |TrimAll(s[..n], lo, hi)| + |s| - n
    ensures n == |s| ==> CutUpTo(s, n, lo, hi) == TrimAll(s, lo, hi)
    ensures n == 0 ==> CutUpTo(s, n, lo, hi) == s && TrimAll(s[..n], lo, hi) == []
  {
    if n == |s| {
      assert s[..n] == s;
    }
  }

  lemma CutProper<K>(s: seq<Item<K>>, n: nat, lo: int, hi: int)
    requires Proper(s) && lo < hi && n <= |s|
    ensures Proper(CutUpTo(s, n, lo, hi))
  {
    var front := TrimAll(s[..n], lo, hi);
    TrimAllProper(s[..n], lo, hi);
    forall i, j | 0 <= i < |front| && 0 <= j < |s[n..]| ensures Apart(front[i], s[n..][j]) {
      var p := Parent(s[..n], lo, hi, i);
      assert Apart(s[p], s[n + j]);
    }
    DisjointConcat(front, s[n..]);
  }

  lemma CutHas<K>(s: seq<Item<K>>, n: nat, x: Item<K>, a: int, k: K)
    requires NonEmpty(s) && x.lo < x.hi && n <= |s|
    ensures Has(CutUpTo(s, n, x.lo, x.hi), a, k) ==> Has(s, a, k)
    ensures !Covers(x, a) ==> (Has(CutUpTo(s, n, x.lo, x.hi), a, k) <==> Has(s, a, k))
  {
    TrimAllHas(s[..n], x.lo, x.hi, a, k);
    HasConcat(TrimAll(s[..n], x.lo, x.hi), s[n..], a, k);
    HasConcat(s[..n], s[n..], a, k);
    assert s == s[..n] + s[n..];
  }

  lemma CutConservative<K>(s: seq<Item<K>>, n: nat, x: Item<K>)
    requires Proper(s) && x.lo < x.hi && n <= |s|
    ensures Conservative(s, CutUpTo(s, n, x.lo, x.hi), x)
  {
    var t := CutUpTo(s, n, x.lo, x.hi);
    CutProper(s, n, x.lo, x.hi);
    forall a ensures KindAt(t, a) == KindAt(s, a) || (Covers(x, a) && KindAt(t, a) == None) {
      if KindAt(t, a).Some? {
        var k := KindAt(t, a).value;
        KindAtHas(t, a, k);
        CutHas(s, n, x, a, k);
        KindAtHas(s, a, k);
      } else if KindAt(s, a).Some? {
        var k := KindAt(s, a).value;
        KindAtHas(s, a, k);
        CutHas(s, n, x, a, k);
        KindAtHas(t, a, k);
      }
    }
  }

  /** Cutting and pushing is overlaying. */
  lemma PushedKinds<K(!new)>(s: seq<Item<K>>, x: Item<K>)
    requires Proper(s) && x.lo < x.hi
    ensures var t := TrimAll(s, x.lo, x.hi) + [x];
            Proper(t) && forall a :: KindAt(t, a) == Overlaid(s, x, a)
  {
    var front := TrimAll(s, x.lo, x.hi);
    var t := front + [x];
    TrimAllProper(s, x.lo, x.hi);
    forall i | 0 <= i < |front| ensures Apart(front[i], x) {
      TrimAllOutside(s, x.lo, x.hi, i);
    }
    DisjointConcat(front, [x]);
    forall a ensures KindAt(t, a) == Overlaid(s, x, a) {
      forall k ensures Has(t, a, k) <==> Overlaid(s, x, a) == Some(k) {
        HasConcat(front, [x], a, k);
        TrimAllHas(s, x.lo, x.hi, a, k);
        KindAtHas(s, a, k);
        assert Has([x], a, k) <==> Covers([x][0], a) && [x][0].kind == k;
      }
      if KindAt(t, a).Some? {
        KindAtHas(t, a, KindAt(t, a).value);
      } else if Overlaid(s, x, a).Some? {
        KindAtHas(t, a, Overlaid(s, x, a).value);
      }
    }
  }

  /** If one item is split, no other is touched. */
  lemma SplitAlone<K>(s: seq<Item<K>>, n: nat, x: Item<K>, i: nat)
    requires Proper(s) && n < |s| && s[n].lo < x.lo && x.hi < s[n].hi && i < |s| && i != n
    ensures s[i].hi <= x.lo || x.hi <= s[i].lo
  {
    ApartIn(s, i, n);
  }

  lemma SplitSoFar<K>(s: seq<Item<K>>, n: nat, x: Item<K>)
    requires Proper(s) && x.lo < x.hi && n < |s| && s[n].lo < x.lo && x.hi < s[n].hi
    ensures TrimAll(s[..n], x.lo, x.hi) == s[..n] && CutUpTo(s, n, x.lo, x.hi) == s
  {
    forall i | 0 <= i < n ensures s[..n][i].hi <= x.lo || x.hi <= s[..n][i].lo {
      SplitAlone(s, n, x, i);
    }
    TrimOutside(s[..n], x.lo, x.hi);
  }

  lemma SplitLength<K>(s: seq<Item<K>>, n: nat, x: Item<K>)
    requires Proper(s) && x.lo < x.hi && n < |s| && s[n].lo < x.lo && x.hi < s[n].hi
    ensures |TrimAll(s, x.lo, x.hi)| == |s| + 1
  {
    forall i | n + 1 <= i < |s| ensures s[i].hi <= x.lo || x.hi <= s[i].lo {
      SplitAlone(s, n, x, i);
    }
    SplitSoFar(s, n, x);
    TrimRest(s, n + 1, x.lo, x.hi);
    TrimNext(s, n, x.lo, x.hi);
  }

  lemma {:induction false} TrimRest<K>(s: seq<Item<K>>, n: nat, lo: int, hi: int)
    requires NonEmpty(s) && lo < hi && n <= |s|
    requires forall i :: n <= i < |s| ==> s[i].hi <= lo || hi <= s[i].lo
    ensures TrimAll(s, lo, hi) == TrimAll(s[..n], lo, hi) + s[n..]
    decreases |s|
  {
    if n == |s| {
      assert s[..n] == s;
    } else {
      var k := |s| - 1;
      TrimRest(s[..k], n, lo, hi);
      assert s[..k][..n] == s[..n];
      assert s[n..] == s[..k][n..] + [s[k]];
    }
  }

  // ----- the list -----

  class RangeVec<K(==,!new)> {
    var items: seq<Item<K>>
    const capacity: Option<nat>
    const overwritable: (Item<K>, Item<K>) -> bool

    ghost predicate Valid()
      reads this
    {
      Proper(items) && (capacity.Some? ==> |items| <= capacity.value)
    }

    constructor (capacity: Option<nat>, overwritable: (Item<K>, Item<K>) -> bool)
      ensures Valid() && items == [] && this.capacity == capacity && this.overwritable == overwritable
    {
      this.items, this.capacity, this.overwritable := [], capacity, overwritable;
    }

    predicate Full()
      reads this
    {
      capacity.Some? && |items| >= capacity.value
    }

    predicate Overlaps(x: Item<K>, y: Item<K>) {
      x.lo < y.hi && x.hi > y.lo
    }

    /** `x` lies strictly inside `y`, which it would split in two. */
    predicate Inside(x: Item<K>, y: Item<K>) {
      y.lo < x.lo && x.hi < y.hi
    }

    /** `y` overlaps the new item `x` and may not be overwritten by it. */
    predicate Blocks(x: Item<K>, y: Item<K>) {
      Overlaps(x, y) && !(overwritable(y, x) || y.kind == x.kind)
    }

    /** An address of both, and neither may `y` be overwritten nor is it of the kind of `x`. */
    ghost predicate Refuses(x: Item<K>, y: Item<K>) {
      y.kind != x.kind && !overwritable(y, x) && exists a :: Covers(x, a) && Covers(y, a)
    }

    lemma BlocksIsRefuses(x: Item<K>, y: Item<K>)
      requires x.lo < x.hi && y.lo < y.hi
      ensures Blocks(x, y) <==> Refuses(x, y)
    {
      if Overlaps(x, y) {
        assert Covers(x, Max(x.lo, y.lo)) && Covers(y, Max(x.lo, y.lo));
      }
    }

    method Remove(i: nat)
      requires i < |items|
      modifies this
      ensures items == Without(old(items), i)
    {
      items := Without(items, i);
    }

    method Insert(i: nat, x: Item<K>) returns (ok: bool)
      requires i <= |items|
      modifies this
      ensures ok == !old(Full())
      ensures items == if ok then With(old(items), i, x) else old(items)
    {
      if Full() {
        return false;
      }
      items := With(items, i, x);
      return true;
    }

    /** The search of `merge_same_kind`: the first pair, in lexicographic order. */
    method FindPair() returns (found: bool, i: nat, j: nat)
      ensures found ==> i < j < |items| && Touch(items[i], items[j])
      ensures found ==> forall p, q :: 0 <= p < q < |items| && (p < i || (p == i && q < j)) ==>
                !Touch(items[p], items[q])
      ensures !found ==> NoTouch(items)
    {
      i := 0;
      while i < |items|
        invariant forall p, q :: 0 <= p < q < |items| && p < i ==> !Touch(items[p], items[q])
      {
        j := i + 1;
        while j < |items|
          invariant i < j
          invariant forall q :: i < q < j && q < |items| ==> !Touch(items[i], items[q])
        {
          if Touch(items[i], items[j]) {
            return true, i, j;
          }
          j := j + 1;
        }
        i := i + 1;
      }
      return false, 0, 0;
    }

    method MergeSameKind()
      requires Valid()
      modifies this
      ensures Valid() && NoTouch(items) && |items| <= |old(items)|
      ensures forall a, k :: Has(items, a, k) <==> Has(old(items), a, k)
    {
      while true
        invariant Valid() && |items| <= |old(items)|
        invariant forall a, k :: Has(items, a, k) <==> Has(old(items), a, k)
        decreases |items|
      {
        var found, i, j := FindPair();
        if !found {
          return;
        }
        ghost var s := items;
        var merged := Merged(items[i], items[j]);
        Remove(j);
        Remove(i);
        var _ := Insert(i, merged);
        MergedList(s, i, j, merged);
        MergeProper(s, i, j);
        forall a, k ensures Has(items, a, k) <==> Has(s, a, k) {
          MergeKinds(s, i, j, a, k);
        }
      }
    }

    /** One overlapping item of `merge_add`: removed, cut at one side, or split in two. */
    method Cut(x: Item<K>, i: nat) returns (ok: bool, next: nat)
      requires x.lo < x.hi && i < |items| && items[i].lo < items[i].hi && Overlaps(x, items[i])
      requires capacity.Some? ==> |items| <= capacity.value
      modifies this
      ensures ok ==> items == Replaced(old(items), i, Trim(old(items)[i], x.lo, x.hi))
      ensures ok ==> next == i + |Trim(old(items)[i], x.lo, x.hi)|
      ensures !ok <==> old(Full()) && |Trim(old(items)[i], x.lo, x.hi)| == 2
      ensures !ok ==> items == old(items)[i := old(items)[i].(hi := x.lo)]
      ensures capacity.Some? ==> |items| <= capacity.value
    {
      var existing := items[i];
      TrimCases(existing, x.lo, x.hi);
      ReplaceSteps(items, i, existing.(hi := x.lo), existing.(lo := x.hi));
      if x.lo <= existing.lo && x.hi >= existing.hi {
        Remove(i);
        return true, i;
      } else if x.lo > existing.lo && x.hi < existing.hi {
        var left := existing.(hi := x.lo);
        var right := existing.(lo := x.hi);
        Remove(i);
        ok := Insert(i, left);
        ok := Insert(i + 1, right);
        return ok, i + 2;
      } else if x.lo <= existing.lo {
        ReplaceSteps(items, i, existing.(lo := x.hi), existing);
        Remove(i);
        ok := Insert(i, existing.(lo := x.hi));
        return ok, i + 1;
      } else {
        Remove(i);
        ok := Insert(i, existing.(hi := x.lo));
        return ok, i + 1;
      }
    }

    /** None of the first `n` items stops `x`. */
    ghost predicate Passes(s: seq<Item<K>>, x: Item<K>, n: nat) {
      n <= |s| && forall k :: 0 <= k < n ==> !Blocks(x, s[k])
    }

    lemma PassesNext(s: seq<Item<K>>, x: Item<K>, n: nat)
      requires Whole(Passes(s, x, n)) && n < |s| && !Blocks(x, s[n])
      ensures Passes(s, x, n + 1)
    {
    }

    /** The first item that stops `x`. */
    ghost predicate StopsAt(s: seq<Item<K>>, x: Item<K>, n: nat) {
      n < |s| && Blocks(x, s[n]) && Passes(s, x, n)
    }

    /** `n` of the items of `s` are done and `i` items of the new list hold what is left of them. */
    ghost predicate Walked(s: seq<Item<K>>, x: Item<K>, n: nat, t: seq<Item<K>>, i: nat) {
      && Passes(s, x, n)
      && i == |TrimAll(s[..n], x.lo, x.hi)|
      && t == CutUpTo(s, n, x.lo, x.hi)
    }

    lemma WalkStands(s: seq<Item<K>>, x: Item<K>, n: nat, t: seq<Item<K>>, i: nat)
      requires Whole(Walked(s, x, n, t, i)) && Proper(s)
      ensures n <= |s| && |t| == i + |s| - n
      ensures i < |t| ==> t[i] == s[n] && t[i].lo < t[i].hi
      ensures i == |t| ==> t == TrimAll(s, x.lo, x.hi) && Passes(s, x, |s|) && n == |s|
    {
      CutEnds(s, n, x.lo, x.hi);
      if i < |t| {
        CutStep(s, n, x.lo, x.hi, t, i);
      }
    }

    lemma WalkNext(s: seq<Item<K>>, x: Item<K>, n: nat, t: seq<Item<K>>, i: nat, t': seq<Item<K>>, i': nat)
      requires Whole(Walked(s, x, n, t, i)) && n < |s| && i < |t| && !Blocks(x, t[i]) && t[i] == s[n]
      requires t' == Replaced(t, i, Trim(t[i], x.lo, x.hi)) && i' == i + |Trim(t[i], x.lo, x.hi)|
      ensures Walked(s, x, n + 1, t', i')
    {
      PassesNext(s, x, n);
      CutStep(s, n, x.lo, x.hi, t, i);
    }

    lemma WalkSplit(s: seq<Item<K>>, x: Item<K>, n: nat, t: seq<Item<K>>, i: nat)
      requires Whole(Walked(s, x, n, t, i)) && n < |s| && Proper(s) && x.lo < x.hi
      requires i < |t| && t[i] == s[n] && !Blocks(x, s[n]) && s[n].lo < x.lo && x.hi < s[n].hi
      ensures t == s && i == n && Passes(s, x, n + 1)
    {
      PassesNext(s, x, n);
      SplitSoFar(s, n, x);
    }

    /** Why the walk stopped at item `n`, and what it left behind. */
    ghost predicate Stopped(s: seq<Item<K>>, x: Item<K>, n: nat, t: seq<Item<K>>, e: RangeError<K>) {
      && n < |s|
      && match e
         case Conflict(new_, existing) =>
           new_ == x && existing == s[n] && StopsAt(s, x, n) && t == CutUpTo(s, n, x.lo, x.hi)
         case Capacity =>
           && Passes(s, x, n + 1) && capacity.Some? && |s| >= capacity.value
           && s[n].lo < x.lo && x.hi < s[n].hi && t == s[n := s[n].(hi := x.lo)]
    }

    /** One round of the walk of `merge_add`. */
    method Visit(x: Item<K>, i: nat, ghost s: seq<Item<K>>, ghost n: nat) returns (r: Outcome<K>, next: nat)
      requires Proper(s) && x.lo < x.hi && i < |items| && Whole(Walked(s, x, n, items, i))
      requires capacity.Some? ==> |items| <= capacity.value
      modifies this
      ensures capacity.Some? ==> |items| <= capacity.value
      ensures n < |s| && if r.Added? then Whole(Walked(s, x, n + 1, items, next))
                         else Whole(Stopped(s, x, n, items, r.error))
    {
      ghost var t := items;
      WalkStands(s, x, n, t, i);
      var existing := items[i];
      if !Overlaps(x, existing) {
        CutKeeps(t, i, x.lo, x.hi);
        WalkNext(s, x, n, t, i, t, i + 1);
        return Added, i + 1;
      }
      if !(overwritable(existing, x) || existing.kind == x.kind) {
        return Failed(Conflict(x, existing)), i;
      }
      if existing.lo < x.lo && x.hi < existing.hi {
        WalkSplit(s, x, n, t, i);
      }
      var ok;
      ok, next := Cut(x, i);
      if !ok {
        return Failed(Capacity), i;
      }
      WalkNext(s, x, n, t, i, items, next);
      return Added, next;
    }

    /** The walk of `merge_add` over the old items. */
    method CutAll(x: Item<K>) returns (r: Outcome<K>, ghost n: nat)
      requires Valid() && x.lo < x.hi
      modifies this
      ensures capacity.Some? ==> |items| <= capacity.value
      ensures r.Added? ==> items == TrimAll(old(items), x.lo, x.hi) && Passes(old(items), x, |old(items)|)
      ensures r.Failed? ==> Whole(Stopped(old(items), x, n, items, r.error))
    {
      ghost var s := items;
      var i: nat := 0;
      n := 0;
      CutEnds(s, n, x.lo, x.hi);
      while i < |items|
        invariant Whole(Walked(s, x, n, items, i)) && n <= |s|
        invariant capacity.Some? ==> |items| <= capacity.value
        decreases |s| - n
      {
        var next;
        r, next := Visit(x, i, s, n);
        if r.Failed? {
          return;
        }
        i, n := next, n + 1;
      }
      WalkStands(s, x, n, items, i);
      return Added, n;
    }

    /** `merge_add` */
    method MergeAdd(x: Item<K>) returns (r: Outcome<K>)
      requires Valid() && x.lo < x.hi
      modifies this
      ensures Valid()
      ensures r.Added? ==> IsOverlay(old(items), x, items) && |items| <= |old(items)| + 2
      ensures (r.Failed? && r.error.Conflict?) <==> exists n :: 0 <= n < |old(items)| && Blocks(x, old(items)[n])
      ensures (r.Failed? && r.error.Conflict?) <==> exists n :: 0 <= n < |old(items)| && Refuses(x, old(items)[n])
      ensures r.Failed? && r.error.Conflict? ==>
                exists n: nat :: StopsAt(old(items), x, n) && r.error == Conflict(x, old(items)[n])
      ensures r.Failed? && r.error.Conflict? ==> Conservative(old(items), items, x)
      ensures r == Failed(Capacity) <==>
                (&& (forall n :: 0 <= n < |old(items)| ==> !Blocks(x, old(items)[n]))
                 && capacity.Some? && |TrimAll(old(items), x.lo, x.hi)| + 1 > capacity.value)
      ensures r == Failed(Capacity) ==> |old(items)| + 2 > capacity.value
      ensures r == Failed(Capacity) ==>
                || items == TrimAll(old(items), x.lo, x.hi)
                || exists n :: 0 <= n < |old(items)| && Inside(x, old(items)[n])
                               && items == old(items)[n := old(items)[n].(hi := x.lo)]
      ensures r == Failed(Capacity) ==>
                (Spares(old(items), items, x) <==>
                 !(old(Full()) && exists n :: 0 <= n < |old(items)| && Inside(x, old(items)[n])))
    {
      ghost var s := items;
      forall i | 0 <= i < |s| ensures Blocks(x, s[i]) <==> Refuses(x, s[i]) {
        BlocksIsRefuses(x, s[i]);
      }
      ghost var n;
      r, n := CutAll(x);
      TrimAllLength(s, x.lo, x.hi);
      if r.Failed? {
        if r.error.Conflict? {
          CutProper(s, n, x.lo, x.hi);
          CutConservative(s, n, x);
        } else {
          SplitLength(s, n, x);
          assert Inside(x, s[n]);
          ShrunkProper(s, n, x);
          TailLost(s, n, x);
          forall i | 0 <= i < |s| ensures !Blocks(x, s[i]) {
            if i != n {
              SplitAlone(s, n, x, i);
            }
          }
        }
        return;
      }
      TrimAllProper(s, x.lo, x.hi);
      if Full() {
        forall k | 0 <= k < |s| && Inside(x, s[k]) ensures |items| == |s| + 1 {
          SplitLength(s, k, x);
        }
        CutEnds(s, |s|, x.lo, x.hi);
        CutConservative(s, |s|, x);
        return Failed(Capacity);
      }
      items := items + [x];
      PushedKinds(s, x);
      ghost var t := items;
      MergeSameKind();
      SameKinds(t, items);
      NoTouchIsRuns(items, a => Overlaid(s, x, a));
    }
  }

  lemma ShrunkProper<K>(s: seq<Item<K>>, n: nat, x: Item<K>)
    requires Proper(s) && n < |s| && s[n].lo < x.lo && x.hi < s[n].hi && x.lo < x.hi
    ensures Proper(s[n := s[n].(hi := x.lo)])
  {
    var t := s[n := s[n].(hi := x.lo)];
    forall i, j | 0 <= i < j < |t| ensures Apart(t[i], t[j]) {
      assert Apart(s[i], s[j]);
    }
  }

  /** Where the right part of a split item was, nothing is left. */
  lemma TailLost<K>(s: seq<Item<K>>, n: nat, x: Item<K>)
    requires Proper(s) && n < |s| && s[n].lo < x.lo && x.hi < s[n].hi && x.lo < x.hi
    ensures !Spares(s, s[n := s[n].(hi := x.lo)], x)
  {
    var t, a := s[n := s[n].(hi := x.lo)], x.hi;
    assert Covers(s[n], a) && !Covers(x, a);
    KindAtHas(s, a, s[n].kind);
    forall i | 0 <= i < |t| ensures !Covers(t[i], a) {
      if i != n {
        ApartIn(s, i, n);
      }
    }
  }

  /** On a full list, splitting an item loses its right part: [5, 10) has no kind any more. */
  method FullListLosesTail() returns (r: Outcome<nat>, left: seq<Item<nat>>)
    ensures r == Failed(Capacity) && left == [Item(0, 3, 0)]
  {
    var list := new RangeVec(Some(1), (_, _) => true);
    list.items := [Item(0, 10, 0)];
    var s, x := list.items, Item(3, 5, 1);
    assert list.Inside(x, s[0]) && TrimAll(s, 3, 5) == [Item(0, 3, 0), Item(5, 10, 0)] by {
      assert s[..0] == [] && TrimAll(s[..0], 3, 5) == [];
    }
    r := list.MergeAdd(x);
    left := list.items;
  }
}
