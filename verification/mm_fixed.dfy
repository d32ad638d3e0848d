/** A request at a fixed address, also one that reaches over several areas. */
module FixedRequests {

  import opened Areas
  import opened Machine

  /** The area that covers `x`, from `k` on; |a| if there is none. */
  ghost function Locate(a: seq<Area>, x: nat, k: nat): (i: nat)
    requires k <= |a|
    ensures k <= i <= |a| && (i < |a| ==> Covers(a, i, x)) && forall j: nat | k <= j < i :: !Covers(a, j, x)
    decreases |a| - k
  {
    if k == |a| || Covers(a, k, x) then k else Locate(a, x, k + 1)
  }

  /** Area `i` grown over following ones until it has `need` bytes. */
  ghost function Absorb(a: seq<Area>, i: nat, need: nat): (r: seq<Area>)
    requires i < |a|
    ensures i < |r| && r[i].size >= a[i].size && r[i].base == a[i].base && r[i].free == a[i].free
    decreases |a|
  {
    if a[i].size < need && i + 1 < |a| then Absorb(Merge(a, i), i, need) else a
  }

  /** A free area `i` cut at `u` bytes and, behind that, after `n` more; the middle is taken. */
  ghost function TakeMiddle(a: seq<Area>, i: nat, u: nat, n: nat): (r: seq<Area>)
    requires i < |a| && u < a[i].size
  {
    if u == 0 then Finish(Cut(a, i, n), i) else Finish(Cut(Split(a, i, u), i + 1, n), i + 1)
  }

  /** A request for `n` bytes at `x` in area `i`, `need` bytes from its start. */
  ghost function Fixed(a: seq<Area>, i: nat, x: nat, n: nat, need: nat): (r: seq<Area>)
    requires i < |a| && Covers(a, i, x)
  {
    var b := Absorb(a, i, need);
    if b[i].free then TakeMiddle(b, i, x - a[i].base, n) else Finish(b, i)
  }

  lemma FixedIs(a: seq<Area>, i: nat, x: nat, n: nat, need: nat, b: seq<Area>, u: nat)
    requires i < |a| && Covers(a, i, x) && b == Absorb(a, i, need) && u == x - a[i].base
    ensures u < b[i].size && Fixed(a, i, x, n, need) == if b[i].free then TakeMiddle(b, i, u, n) else Finish(b, i)
  {
  }

  lemma {:induction false} AbsorbTiles(a: seq<Area>, base: nat, size: nat, i: nat, need: nat)
    requires Tiles(a, base, size) && i < |a|
    ensures Tiles(Absorb(a, i, need), base, size)
    decreases |a|
  {
    if a[i].size < need && i + 1 < |a| {
      MergeTiles(a, base, size, i);
      AbsorbTiles(Merge(a, i), base, size, i, need);
    }
  }

  /** What a cut out of the middle changes. */
  lemma TakeMiddleUsed(a: seq<Area>, base: nat, size: nat, i: nat, u: nat, n: nat, x: int)
    requires Tiles(a, base, size) && i < |a| && u < a[i].size && u % PAGE_SIZE == 0 && n % PAGE_SIZE == 0
    ensures Tiles(TakeMiddle(a, i, u, n), base, size)
    ensures Used(TakeMiddle(a, i, u, n), x) ==
            (Used(a, x) || (a[i].base + u <= x < a[i].base + if 0 < n < a[i].size - u then u + n else a[i].size))
  {
    if u > 0 {
      var b := Split(a, i, u);
      SplitTiles(a, base, size, i, u);
      SplitUsed(a, i, u, x);
      CutUsed(b, base, size, i + 1, n, x);
    } else {
      CutUsed(a, base, size, i, n, x);
    }
  }

  lemma PageDifference(x: int, y: int)
    requires x % PAGE_SIZE == 0 && y % PAGE_SIZE == 0
    ensures (x - y) % PAGE_SIZE == 0
  {
    assert x - y == (x / PAGE_SIZE - y / PAGE_SIZE) * PAGE_SIZE;
  }

  lemma FixedTiles(a: seq<Area>, base: nat, size: nat, i: nat, x: nat, n: nat, need: nat)
    requires Tiles(a, base, size) && i < |a| && Covers(a, i, x) && x % PAGE_SIZE == 0 && n % PAGE_SIZE == 0
    ensures Tiles(Fixed(a, i, x, n, need), base, size)
  {
    var b, u := Absorb(a, i, need), x - a[i].base;
    FixedIs(a, i, x, n, need, b, u);
    AbsorbTiles(a, base, size, i, need);
    InPages(a, base, size, i, x, u);
    TakenTiles(b, base, size, i, u, n);
  }

  lemma InPages(a: seq<Area>, base: nat, size: nat, i: nat, x: nat, u: int)
    requires Tiles(a, base, size) && i < |a| && x % PAGE_SIZE == 0 && u == x - a[i].base
    ensures u % PAGE_SIZE == 0
  {
    assert Fit(a, i);
    PageDifference(x, a[i].base);
  }

  lemma TakenTiles(b: seq<Area>, base: nat, size: nat, i: nat, u: nat, n: nat)
    requires Tiles(b, base, size) && i < |b| && u < b[i].size && u % PAGE_SIZE == 0 && n % PAGE_SIZE == 0
    ensures Tiles(TakeMiddle(b, i, u, n), base, size) && Tiles(Finish(b, i), base, size)
  {
    TakeMiddleUsed(b, base, size, i, u, n, 0);
    FinishUsed(b, base, size, i, 0);
  }

  // ---------------------------------------------------------------- which addresses change

  /** An address has the status of its area. */
  lemma StatusAt(a: seq<Area>, base: nat, size: nat, k: nat, y: int)
    requires Tiles(a, base, size) && Covers(a, k, y)
    ensures Used(a, y) == !a[k].free
  {
    if Used(a, y) {
      var j: nat :| Covers(a, j, y) && !a[j].free;
      CoverUnique(a, base, size, j, k, y);
    }
  }

  /** Where area `i` ends once it has grown. */
  ghost function Reach(a: seq<Area>, i: nat, need: nat): nat
    requires i < |a|
  {
    var b := Absorb(a, i, need);
    b[i].base + b[i].size
  }

  /** It ends where an area ended: the one with the last byte that is needed, or the last one. */
  lemma {:induction false} ReachIs(a: seq<Area>, base: nat, size: nat, i: nat, need: nat) returns (j: nat)
    requires Tiles(a, base, size) && i < |a|
    ensures i <= j < |a| && Reach(a, i, need) == a[j].base + a[j].size
    ensures j == i || a[j].base < a[i].base + need
    ensures j + 1 == |a| || a[i].base + need <= Reach(a, i, need)
    decreases |a|
  {
    j := i;
    if a[i].size < need && i + 1 < |a| {
      assert Fit(a, i);
      MergeTiles(a, base, size, i);
      j := ReachIs(Merge(a, i), base, size, i, need);
      j := j + 1;
    }
  }

  /** Growing gives all these addresses the status of area `i`. */
  lemma {:induction false} AbsorbUsed(a: seq<Area>, base: nat, size: nat, i: nat, need: nat, y: int)
    requires Tiles(a, base, size) && i < |a|
    ensures Used(Absorb(a, i, need), y) == if a[i].base <= y < Reach(a, i, need) then !a[i].free else Used(a, y)
    decreases |a|
  {
    if a[i].size < need && i + 1 < |a| {
      assert Fit(a, i);
      MergeTiles(a, base, size, i);
      MergeUsed(a, base, size, i, y);
      AbsorbUsed(Merge(a, i), base, size, i, need, y);
    } else if Covers(a, i, y) {
      StatusAt(a, base, size, i, y);
    }
  }

  /** The status of every address after a fixed request. */
  lemma FixedUsed(a: seq<Area>, base: nat, size: nat, i: nat, x: nat, n: nat, need: nat, y: int)
    requires Tiles(a, base, size) && i < |a| && Covers(a, i, x) && x % PAGE_SIZE == 0 && n % PAGE_SIZE == 0
    ensures var end := Reach(a, i, need);
      Used(Fixed(a, i, x, n, need), y) ==
      if !(a[i].base <= y < end) then Used(a, y)
      else if a[i].free then x <= y < (if 0 < n < end - x then x + n else end)
      else true
  {
    var b, u := Absorb(a, i, need), x - a[i].base;
    FixedIs(a, i, x, n, need, b, u);
    AbsorbTiles(a, base, size, i, need);
    AbsorbUsed(a, base, size, i, need, y);
    InPages(a, base, size, i, x, u);
    if a[i].free { TakeMiddleUsed(b, base, size, i, u, n, y); } else { FinishUsed(b, base, size, i, y); }
  }

  /** From `a` to `a'` exactly the addresses `x` to `e` have come into use. */
  ghost predicate Occupied(a: seq<Area>, a': seq<Area>, x: int, e: int) {
    forall y {:trigger Change(a, a', x, e, y)} :: Change(a, a', x, e, y)
  }

  ghost predicate Change(a: seq<Area>, a': seq<Area>, x: int, e: int, y: int) {
    Used(a', y) == (Used(a, y) || x <= y < e)
  }

  /** The request ends with area `j`, or in an area of the status of the one it starts in. */
  ghost predicate Settles(a: seq<Area>, i: nat, j: nat, e: nat) {
    i < |a| && j < |a| && (a[j].base + a[j].size == e || a[j].free == a[i].free)
  }

  /** A request for `n` bytes at `x` puts exactly the addresses from `x` to its end, or the end of the
      range, into use exactly if it ends with an area or in one of the status of the area it starts
      in. Otherwise the rest of that last area changes its status. */
  lemma FixedExact(a: seq<Area>, base: nat, size: nat, i: nat, x: nat, n: nat, e: nat, j: nat)
    requires Tiles(a, base, size) && i < |a| && Covers(a, i, x) && x % PAGE_SIZE == 0 && n % PAGE_SIZE == 0
    requires 0 < n && e == Min(x + n, base + size) && Covers(a, j, e - 1)
    ensures Occupied(a, Fixed(a, i, x, n, x - a[i].base + n), x, e) <==> Settles(a, i, j, e)
  {
    var a' := Fixed(a, i, x, n, x - a[i].base + n);
    assert Fit(a, j);
    if Settles(a, i, j, e) {
      forall y ensures Change(a, a', x, e, y) { FixedChange(a, base, size, i, x, n, e, j, y); }
    } else {
      FixedChange(a, base, size, i, x, n, e, j, e);
      assert !Change(a, a', x, e, e);
    }
  }

  lemma LastOf(a: seq<Area>, base: nat, size: nat, i: nat, x: nat, n: nat, e: nat, j: nat)
    requires Tiles(a, base, size) && i < |a| && Covers(a, i, x)
    requires 0 < n && e == Min(x + n, base + size) && Covers(a, j, e - 1)
    ensures Reach(a, i, x - a[i].base + n) == a[j].base + a[j].size && i <= j
    ensures e == Min(x + n, a[j].base + a[j].size) && x < e && a[i].base <= a[j].base
  {
    var k := ReachIs(a, base, size, i, x - a[i].base + n);
    AreaWithin(a, base, size, i);
    AreaWithin(a, base, size, k);
    assert Fit(a, k);
    CoverUnique(a, base, size, j, k, e - 1);
    if i < k { Ordered(a, base, size, i, k); }
  }

  /** One address. */
  lemma FixedChange(a: seq<Area>, base: nat, size: nat, i: nat, x: nat, n: nat, e: nat, j: nat, y: int)
    requires Tiles(a, base, size) && i < |a| && Covers(a, i, x) && x % PAGE_SIZE == 0 && n % PAGE_SIZE == 0
    requires 0 < n && e == Min(x + n, base + size) && Covers(a, j, e - 1)
    ensures Change(a, Fixed(a, i, x, n, x - a[i].base + n), x, e, y) <==>
            !(e <= y < a[j].base + a[j].size) || a[j].free == a[i].free
  {
    LastOf(a, base, size, i, x, n, e, j);
    FixedUsed(a, base, size, i, x, n, x - a[i].base + n, y);
    if Covers(a, i, y) { StatusAt(a, base, size, i, y); }
    if Covers(a, j, y) { StatusAt(a, base, size, j, y); }
    ChangeIs(a, Fixed(a, i, x, n, x - a[i].base + n), i, j, x, n, e, y);
  }

  lemma ChangeIs(a: seq<Area>, a': seq<Area>, i: nat, j: nat, x: nat, n: nat, e: nat, y: int)
    requires Covers(a, i, x) && Covers(a, j, e - 1) && i <= j && x < e && a[i].base <= a[j].base && 0 < n
    requires var end := a[j].base + a[j].size;
      && e == Min(x + n, end)
      && Used(a', y) == (if !(a[i].base <= y < end) then Used(a, y)
                         else if a[i].free then x <= y < (if 0 < n < end - x then x + n else end) else true)
    requires (Covers(a, i, y) ==> Used(a, y) == !a[i].free) && (Covers(a, j, y) ==> Used(a, y) == !a[j].free)
    ensures Change(a, a', x, e, y) <==> !(e <= y < a[j].base + a[j].size) || a[j].free == a[i].free
  {
  }

  /** A request of nothing, or one whose end does not fit 64 bits, takes the rest of the area. */
  lemma FixedRest(a: seq<Area>, base: nat, size: nat, i: nat, x: nat, n: nat, need: nat)
    requires Tiles(a, base, size) && i < |a| && Covers(a, i, x) && x % PAGE_SIZE == 0 && n % PAGE_SIZE == 0
    requires need <= a[i].size && (n == 0 || n >= a[i].base + a[i].size - x)
    ensures Occupied(a, Fixed(a, i, x, n, need), x, a[i].base + a[i].size)
  {
    var a', e := Fixed(a, i, x, n, need), a[i].base + a[i].size;
    forall y ensures Change(a, a', x, e, y) {
      FixedUsed(a, base, size, i, x, n, need, y);
      if Covers(a, i, y) { StatusAt(a, base, size, i, y); }
    }
  }

  /** A page is free and the next two are in use; a request for the first two frees the third. */
  lemma FreesPageInUse()
    ensures var a := [Area(0, PAGE_SIZE, true), Area(PAGE_SIZE, 2 * PAGE_SIZE, false)];
      && Tiles(a, 0, 3 * PAGE_SIZE) && Alternating(a) && Used(a, 2 * PAGE_SIZE)
      && !Used(Fixed(a, 0, 0, 2 * PAGE_SIZE, 2 * PAGE_SIZE), 2 * PAGE_SIZE)
  {
    var a := [Area(0, PAGE_SIZE, true), Area(PAGE_SIZE, 2 * PAGE_SIZE, false)];
    assert Fit(a, 0) && Fit(a, 1) && Alternate(a, 0) && Alternate(a, 1) && Covers(a, 1, 2 * PAGE_SIZE);
    FixedUsed(a, 0, 3 * PAGE_SIZE, 0, 0, 2 * PAGE_SIZE, 2 * PAGE_SIZE, 2 * PAGE_SIZE);
  }

  // ---------------------------------------------------------------- maximal areas

  /** Neighbours differ, but for area `i` and the next one if nothing is left of it. */
  ghost predicate Ready(a: seq<Area>, i: nat, left: bool) {
    && i < |a| && (forall k {:trigger Alternate(a, k)} | 0 <= k < |a| && k != i :: Alternate(a, k))
    && (left ==> Alternate(a, i))
  }

  lemma CutReady(a: seq<Area>, i: nat, n: nat, k: nat)
    requires i < |a| && Ready(a, i, n < a[i].size) && k < |Cut(a, i, n)| && k != i
    ensures Alternate(Cut(a, i, n), k)
  {
    assert Alternate(a, if k < i || |Cut(a, i, n)| == |a| then k else k - 1);
    CutAlternates(a, i, n, k);
  }

  lemma TakeMiddleAlternates(a: seq<Area>, i: nat, u: nat, n: nat)
    requires i < |a| && u < a[i].size && Ready(a, i, u + n < a[i].size)
    ensures Alternating(TakeMiddle(a, i, u, n))
  {
    if u == 0 {
      var c := Cut(a, i, n);
      forall k | 0 <= k < |c| && k != i && k + 1 != i ensures Alternate(c, k) { CutReady(a, i, n, k); }
      FinishAlternates(c, i);
    } else {
      BehindAlternates(a, i, u, n);
    }
  }

  /** The cut in front of the request. */
  lemma SplitAlternates(a: seq<Area>, i: nat, u: nat, k: nat, left: bool)
    requires Ready(a, i, left) && 0 < u < a[i].size && k <= |a| && k != i && (k == i + 1 ==> left)
    ensures Alternate(Split(a, i, u), k)
  {
    assert Alternate(a, if k < i then k else k - 1);
    assert Split(a, i, u) == Cut(a, i, u);
    CutAlternates(a, i, u, k);
  }

  lemma BehindAlternates(a: seq<Area>, i: nat, u: nat, n: nat)
    requires i < |a| && Ready(a, i, u + n < a[i].size) && 0 < u < a[i].size
    ensures Alternating(Finish(Cut(Split(a, i, u), i + 1, n), i + 1))
  {
    var b := Split(a, i, u);
    var c := Cut(b, i + 1, n);
    forall k | 0 <= k < |c| && k != i + 1 && k + 1 != i + 1 ensures Alternate(c, k) {
      var m := if k < i + 1 || |c| == |b| then k else k - 1;
      SplitAlternates(a, i, u, m, u + n < a[i].size);
      CutAlternates(b, i + 1, n, k);
    }
    FinishAlternates(c, i + 1);
  }

  /** Growing keeps the other pairs of neighbours. */
  lemma {:induction false} AbsorbAlternates(a: seq<Area>, i: nat, need: nat, k: nat)
    requires i < |a| && (forall m {:trigger Alternate(a, m)} | 0 <= m < |a| && m != i :: Alternate(a, m))
    requires k < |Absorb(a, i, need)| && k != i
    ensures Alternate(Absorb(a, i, need), k)
    decreases |a|
  {
    if a[i].size < need && i + 1 < |a| {
      var b := Merge(a, i);
      forall m | 0 <= m < |b| && m != i ensures Alternate(b, m) { assert Alternate(a, if m < i then m else m + 1); }
      AbsorbAlternates(b, i, need, k);
    } else {
      assert Alternate(a, k);
    }
  }

  /** The area behind the grown one is the one behind the last that it took. */
  lemma {:induction false} BehindReach(a: seq<Area>, base: nat, size: nat, i: nat, need: nat, j: nat)
    requires Tiles(a, base, size) && i <= j < |a| && Reach(a, i, need) == a[j].base + a[j].size
    ensures |Absorb(a, i, need)| == |a| - (j - i)
    ensures j + 1 < |a| ==> Absorb(a, i, need)[i + 1] == a[j + 1]
    decreases |a|
  {
    if a[i].size < need && i + 1 < |a| {
      assert Fit(a, i) && Fit(a, i + 1);
      MergeTiles(a, base, size, i);
      BehindReach(Merge(a, i), base, size, i, need, j - 1);
    } else {
      assert Fit(a, j);
      if j > i { Ordered(a, base, size, i, j); }
    }
  }

  /** A request that is met exactly keeps the areas maximal. */
  lemma FixedAlternates(a: seq<Area>, base: nat, size: nat, i: nat, x: nat, n: nat, e: nat, j: nat)
    requires Tiles(a, base, size) && i < |a| && Covers(a, i, x) && Alternating(a)
    requires 0 < n && e == Min(x + n, base + size) && Covers(a, j, e - 1) && Settles(a, i, j, e)
    ensures Alternating(Fixed(a, i, x, n, x - a[i].base + n))
  {
    var u := x - a[i].base;
    var b := Absorb(a, i, u + n);
    LastOf(a, base, size, i, x, n, e, j);
    BehindReach(a, base, size, i, u + n, j);
    FixedIs(a, i, x, n, u + n, b, u);
    forall k | 0 <= k < |b| && k != i ensures Alternate(b, k) { AbsorbAlternates(a, i, u + n, k); }
    assert Alternate(a, j);
    if a[i].free { TakeMiddleAlternates(b, i, u, n); } else { FinishAlternates(b, i); }
  }

  /** So does one that takes the rest of its area. */
  lemma RestAlternates(a: seq<Area>, i: nat, x: nat, n: nat, need: nat)
    requires i < |a| && Covers(a, i, x) && Alternating(a) && need <= a[i].size
    ensures Alternating(Fixed(a, i, x, n, need))
  {
    FixedIs(a, i, x, n, need, a, x - a[i].base);
    if a[i].free { TakeMiddleAlternates(a, i, x - a[i].base, n); } else { FinishAlternates(a, i); }
  }

  /** Nothing covers an address behind the range. */
  lemma LocateBehind(a: seq<Area>, base: nat, size: nat, x: nat)
    requires Tiles(a, base, size) && x >= base + size
    ensures Locate(a, x, 0) == |a|
  {
    var i := Locate(a, x, 0);
    if i < |a| { AreaWithin(a, base, size, i); }
  }
}
