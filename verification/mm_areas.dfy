/** The areas of a user address space as values: a list that tiles a range, what splitting and
    merging do to it, and which addresses are in use. */
module Areas {

  const PAGE_SIZE := 4096

  datatype Area = Area(base: nat, size: nat, free: bool)

  // ---------------------------------------------------------------- lists of areas

  /** Area `k` is a positive number of pages and the next one starts where it ends. */
  ghost predicate Fit(a: seq<Area>, k: nat) {
    && k < |a| && a[k].size > 0 && a[k].size % PAGE_SIZE == 0 && a[k].base % PAGE_SIZE == 0
    && (k + 1 < |a| ==> a[k + 1].base == a[k].base + a[k].size)
  }

  /** The areas tile the range from `base` to `base + size`. */
  ghost predicate Tiles(a: seq<Area>, base: nat, size: nat) {
    && a != [] && a[0].base == base && a[|a| - 1].base + a[|a| - 1].size == base + size
    && forall k {:trigger Fit(a, k)} | 0 <= k < |a| :: Fit(a, k)
  }

  /** Area `k` and the next one differ in status. */
  ghost predicate Alternate(a: seq<Area>, k: nat) {
    k + 1 < |a| ==> a[k].free != a[k + 1].free
  }

  /** No two neighbours have the same status, so that areas are maximal. */
  ghost predicate Alternating(a: seq<Area>) {
    forall k {:trigger Alternate(a, k)} | 0 <= k < |a| :: Alternate(a, k)
  }

  ghost predicate Covers(a: seq<Area>, k: nat, x: int) {
    k < |a| && a[k].base <= x < a[k].base + a[k].size
  }

  /** Address `x` lies in an area in use. */
  ghost predicate Used(a: seq<Area>, x: int) {
    exists k: nat :: Covers(a, k, x) && !a[k].free
  }

  lemma {:induction false} Ordered(a: seq<Area>, base: nat, size: nat, j: nat, k: nat)
    requires Tiles(a, base, size) && j < k < |a|
    ensures a[j].base + a[j].size <= a[k].base
    decreases k
  {
    assert Fit(a, k - 1);
    if j < k - 1 { Ordered(a, base, size, j, k - 1); }
  }

  lemma CoverUnique(a: seq<Area>, base: nat, size: nat, j: nat, k: nat, x: int)
    requires Tiles(a, base, size) && Covers(a, j, x) && Covers(a, k, x)
    ensures j == k
  {
    if j < k { Ordered(a, base, size, j, k); } else if k < j { Ordered(a, base, size, k, j); }
  }

  /** Every address of the range lies in an area. */
  lemma {:induction false} Covered(a: seq<Area>, base: nat, size: nat, x: int, k: nat) returns (j: nat)
    requires Tiles(a, base, size) && k < |a| && a[k].base <= x < base + size
    ensures k <= j && Covers(a, j, x)
    decreases |a| - k
  {
    j := k;
    if a[k].base + a[k].size <= x {
      assert Fit(a, k);
      j := Covered(a, base, size, x, k + 1);
    }
  }

  /** Areas lie within the range. */
  lemma AreaWithin(a: seq<Area>, base: nat, size: nat, k: nat)
    requires Tiles(a, base, size) && k < |a|
    ensures base <= a[k].base && a[k].base + a[k].size <= base + size
  {
    if k > 0 { Ordered(a, base, size, 0, k); }
    if k < |a| - 1 { Ordered(a, base, size, k, |a| - 1); }
    assert Fit(a, 0) && Fit(a, |a| - 1);
  }

  // ---------------------------------------------------------------- splitting and merging

  /** Area `i` cut after `n` bytes. */
  ghost function Split(a: seq<Area>, i: nat, n: nat): (r: seq<Area>)
    requires i < |a| && 0 < n < a[i].size
    ensures |r| == |a| + 1
  {
    seq(|a| + 1, k requires 0 <= k < |a| + 1 =>
      if k < i then a[k]
      else if k == i then Area(a[i].base, n, a[i].free)
      else if k == i + 1 then Area(a[i].base + n, a[i].size - n, a[i].free)
      else a[k - 1])
  }

  /** Area `i` grown over the next one. */
  ghost function Merge(a: seq<Area>, i: nat): (r: seq<Area>)
    requires i + 1 < |a|
    ensures |r| == |a| - 1
  {
    seq(|a| - 1, k requires 0 <= k < |a| - 1 =>
      if k < i then a[k]
      else if k == i then Area(a[i].base, a[i].size + a[i + 1].size, a[i].free)
      else a[k + 1])
  }

  ghost function Take(a: seq<Area>, i: nat): (r: seq<Area>)
    requires i < |a|
    ensures |r| == |a|
  {
    a[i := a[i].(free := false)]
  }

  lemma PageSum(b: nat, s: nat, n: nat)
    requires b % PAGE_SIZE == 0 && s % PAGE_SIZE == 0 && n % PAGE_SIZE == 0
    ensures (b + n) % PAGE_SIZE == 0 && (s - n) % PAGE_SIZE == 0
  {
  }

  lemma SplitTiles(a: seq<Area>, base: nat, size: nat, i: nat, n: nat)
    requires Tiles(a, base, size) && i < |a| && 0 < n < a[i].size && n % PAGE_SIZE == 0
    ensures Tiles(Split(a, i, n), base, size)
  {
    var r := Split(a, i, n);
    assert Fit(a, i) && Fit(a, |a| - 1);
    PageSum(a[i].base, a[i].size, n);
    forall k | 0 <= k < |r| ensures Fit(r, k) {
      if k < i { assert Fit(a, k); } else if k > i + 1 { assert Fit(a, k - 1); }
    }
  }

  lemma MergeTiles(a: seq<Area>, base: nat, size: nat, i: nat)
    requires Tiles(a, base, size) && i + 1 < |a|
    ensures Tiles(Merge(a, i), base, size)
  {
    var r := Merge(a, i);
    assert Fit(a, i) && Fit(a, i + 1);
    forall k | 0 <= k < |r| ensures Fit(r, k) {
      if k < i { assert Fit(a, k); } else if k > i { assert Fit(a, k + 1); }
    }
  }

  lemma TakeTiles(a: seq<Area>, base: nat, size: nat, i: nat)
    requires Tiles(a, base, size) && i < |a|
    ensures Tiles(Take(a, i), base, size)
  {
    forall k | 0 <= k < |a| ensures Fit(Take(a, i), k) { assert Fit(a, k); }
  }

  /** A cut changes the status of no address. */
  lemma SplitUsed(a: seq<Area>, i: nat, n: nat, x: int)
    requires i < |a| && 0 < n < a[i].size
    ensures Used(Split(a, i, n), x) == Used(a, x)
  {
    var r := Split(a, i, n);
    if Used(a, x) {
      var k: nat :| Covers(a, k, x) && !a[k].free;
      assert Covers(r, if k < i then k else if k > i then k + 1 else if x < a[i].base + n then i else i + 1, x);
    }
    if Used(r, x) {
      var k: nat :| Covers(r, k, x) && !r[k].free;
      assert Covers(a, if k <= i then k else k - 1, x);
    }
  }

  /** Growing over a neighbour gives its addresses the status of the area that grows. */
  lemma MergeUsed(a: seq<Area>, base: nat, size: nat, i: nat, x: int)
    requires Tiles(a, base, size) && i + 1 < |a|
    ensures Used(Merge(a, i), x) == if Covers(a, i, x) || Covers(a, i + 1, x) then !a[i].free else Used(a, x)
  {
    var r := Merge(a, i);
    assert Fit(a, i);
    if Covers(a, i, x) || Covers(a, i + 1, x) {
      assert Covers(r, i, x);
      MergeTiles(a, base, size, i);
      if Used(r, x) {
        var k: nat :| Covers(r, k, x) && !r[k].free;
        CoverUnique(r, base, size, i, k, x);
      }
    } else {
      if Used(a, x) {
        var k: nat :| Covers(a, k, x) && !a[k].free;
        assert Covers(r, if k < i then k else k - 1, x);
      }
      if Used(r, x) {
        var k: nat :| Covers(r, k, x) && !r[k].free;
        assert Covers(a, if k < i then k else k + 1, x);
      }
    }
  }

  lemma TakeUsed(a: seq<Area>, i: nat, x: int)
    requires i < |a|
    ensures Used(Take(a, i), x) == (Used(a, x) || Covers(a, i, x))
  {
    var r := Take(a, i);
    if Used(a, x) {
      var k: nat :| Covers(a, k, x) && !a[k].free;
      assert Covers(r, k, x);
    }
    if Covers(a, i, x) { assert Covers(r, i, x); }
    if Used(r, x) {
      var k: nat :| Covers(r, k, x) && !r[k].free;
      assert Covers(a, k, x);
    }
  }

  // ---------------------------------------------------------------- taking an area

  /** The end of `mm_allocate_region_vm`: area `i` grows over a next one in use, ... */
  ghost function Upward(a: seq<Area>, i: nat): (r: seq<Area>)
    requires i < |a|
    ensures i < |r| && r != []
  {
    if i + 1 < |a| && !a[i + 1].free then Merge(a, i) else a
  }

  /** ... is marked as used, and a previous one in use grows over it. */
  ghost function Finish(a: seq<Area>, i: nat): (r: seq<Area>)
    requires i < |a|
  {
    var b := Take(Upward(a, i), i);
    if i > 0 && !b[i - 1].free then Merge(b, i - 1) else b
  }

  /** The end result: area `i` is in use, and no other address has changed. */
  lemma FinishUsed(a: seq<Area>, base: nat, size: nat, i: nat, x: int)
    requires Tiles(a, base, size) && i < |a|
    ensures Tiles(Finish(a, i), base, size)
    ensures Used(Finish(a, i), x) == (Used(a, x) || Covers(a, i, x))
  {
    var u := Upward(a, i);
    UpwardUsed(a, base, size, i, x);
    TakeTiles(u, base, size, i);
    TakeUsed(u, i, x);
    var b := Take(u, i);
    if i > 0 && !b[i - 1].free {
      MergeTiles(b, base, size, i - 1);
      MergeUsed(b, base, size, i - 1, x);
      if Covers(b, i - 1, x) || Covers(b, i, x) {
        assert Used(b, x);
      }
    }
  }

  lemma UpwardUsed(a: seq<Area>, base: nat, size: nat, i: nat, x: int)
    requires Tiles(a, base, size) && i < |a|
    ensures Tiles(Upward(a, i), base, size)
    ensures (Used(Upward(a, i), x) || Covers(Upward(a, i), i, x)) == (Used(a, x) || Covers(a, i, x))
  {
    if i + 1 < |a| && !a[i + 1].free {
      assert Fit(a, i);
      MergeTiles(a, base, size, i);
      MergeUsed(a, base, size, i, x);
      if Covers(a, i + 1, x) {
        assert Used(a, x);
      }
    }
  }

  /** Neighbours differ again, if they did everywhere but at area `i`. */
  lemma FinishAlternates(a: seq<Area>, i: nat)
    requires i < |a| && forall k {:trigger Alternate(a, k)} | 0 <= k < |a| && k != i && k + 1 != i :: Alternate(a, k)
    ensures Alternating(Finish(a, i))
  {
    var u := Upward(a, i);
    var b := Take(u, i);
    assert i + 1 < |a| ==> Alternate(a, i + 1);
    forall k | 0 <= k < |b| && k + 1 != i ensures Alternate(b, k) {
      assert Alternate(a, if |u| == |a| || k < i then k else k + 1) || k == i;
    }
    var r := Finish(a, i);
    if i > 0 && !b[i - 1].free {
      assert i > 1 ==> Alternate(b, i - 2);
      assert Alternate(b, i);
      forall k | 0 <= k < |r| ensures Alternate(r, k) {
        assert Alternate(b, if k < i - 1 then k else k + 1);
      }
    } else {
      forall k | 0 <= k < |r| ensures Alternate(r, k) {
        assert k + 1 != i ==> Alternate(b, k);
      }
    }
  }

  // ---------------------------------------------------------------- requests

  /** `need` bytes cut off the front of area `i`, or all of it. */
  ghost function Cut(a: seq<Area>, i: nat, need: nat): (r: seq<Area>)
    requires i < |a|
    ensures i < |r|
  {
    if 0 < need < a[i].size then Split(a, i, need) else a
  }

  /** The first free area of at least `need` bytes, from `k` on; |a| if there is none. */
  ghost function FirstFit(a: seq<Area>, need: nat, k: nat): (i: nat)
    requires k <= |a|
    ensures k <= i <= |a|
    ensures i < |a| ==> a[i].free && a[i].size >= need
    ensures forall j | k <= j < i :: !(a[j].free && a[j].size >= need)
    decreases |a| - k
  {
    if k == |a| || (a[k].free && a[k].size >= need) then k else FirstFit(a, need, k + 1)
  }

  /** All of `y` to `y + need` is free. */
  ghost predicate Vacant(a: seq<Area>, base: nat, size: nat, y: int, need: nat) {
    base <= y && y + need <= base + size && forall x | y <= x < y + need :: !Used(a, x)
  }

  /** In an alternating list a vacant range lies in one free area. */
  lemma VacantInOne(a: seq<Area>, base: nat, size: nat, y: int, need: nat) returns (j: nat)
    requires Tiles(a, base, size) && Alternating(a) && need > 0 && Vacant(a, base, size, y, need)
    ensures j < |a| && a[j].free && a[j].base <= y && y + need <= a[j].base + a[j].size
  {
    j := Covered(a, base, size, y, 0);
    assert Fit(a, j) && Covers(a, j, y) && !Used(a, y);
    var end := a[j].base + a[j].size;
    assert end < y + need ==> !Used(a, end);
    if j + 1 < |a| {
      assert Alternate(a, j) && Fit(a, j + 1) && Covers(a, j + 1, end);
    }
  }

  /** The lowest place for a request. */
  ghost predicate Lowest(a: seq<Area>, base: nat, size: nat, x: int, need: nat) {
    Vacant(a, base, size, x, need) && forall y | y < x :: !Vacant(a, base, size, y, need)
  }

  ghost predicate Nowhere(a: seq<Area>, base: nat, size: nat, need: nat) {
    forall y :: !Vacant(a, base, size, y, need)
  }

  /** The first free area that is large enough starts at the lowest address where the request
      fits, and there is such an area exactly if there is such an address. */
  lemma FirstFitIsLowest(a: seq<Area>, base: nat, size: nat, need: nat)
    requires Tiles(a, base, size) && Alternating(a) && need > 0
    ensures var i := FirstFit(a, need, 0);
      if i < |a| then Lowest(a, base, size, a[i].base, need) else Nowhere(a, base, size, need)
  {
    var i := FirstFit(a, need, 0);
    if i < |a| {
      AreaWithin(a, base, size, i);
      forall x | a[i].base <= x < a[i].base + need ensures !Used(a, x) {
        assert Covers(a, i, x);
        forall k: nat | Covers(a, k, x) ensures a[k].free { CoverUnique(a, base, size, i, k, x); }
      }
    }
    forall y | i == |a| || y < a[i].base ensures !Vacant(a, base, size, y, need) {
      if Vacant(a, base, size, y, need) {
        var j := VacantInOne(a, base, size, y, need);
        assert i <= j;
        if i < j { Ordered(a, base, size, i, j); }
      }
    }
  }

  lemma CutUsed(a: seq<Area>, base: nat, size: nat, i: nat, n: nat, x: int)
    requires Tiles(a, base, size) && i < |a| && n % PAGE_SIZE == 0
    ensures Tiles(Finish(Cut(a, i, n), i), base, size)
    ensures Used(Finish(Cut(a, i, n), i), x) ==
            (Used(a, x) || (a[i].base <= x < a[i].base + if 0 < n < a[i].size then n else a[i].size))
  {
    if 0 < n < a[i].size {
      SplitTiles(a, base, size, i, n);
      SplitUsed(a, i, n, x);
    }
    FinishUsed(Cut(a, i, n), base, size, i, x);
  }

  /** A request of `need` bytes from area `i`: the first `need` bytes of the area, or all of it
      when `need` is zero, come into use; nothing else changes. */
  lemma TakeFront(a: seq<Area>, base: nat, size: nat, i: nat, need: nat, x: int)
    requires Tiles(a, base, size) && i < |a| && need <= a[i].size && need % PAGE_SIZE == 0
    ensures Tiles(Finish(Cut(a, i, need), i), base, size)
    ensures Used(Finish(Cut(a, i, need), i), x) ==
            (Used(a, x) || (a[i].base <= x < a[i].base + if need == 0 then a[i].size else need))
  {
    CutUsed(a, base, size, i, need, x);
  }

  /** A request of zero bytes from a region of 256 free pages takes all of them. */
  lemma TakesAllForNothing()
    ensures Finish(Cut([Area(0, 256 * PAGE_SIZE, true)], 0, 0), 0) == [Area(0, 256 * PAGE_SIZE, false)]
  {
  }

  /** A cut at area `i` keeps the other pairs of neighbours. */
  lemma CutAlternates(a: seq<Area>, i: nat, n: nat, k: nat)
    requires i < |a| && k < |Cut(a, i, n)| && k != i
      && Alternate(a, if k < i || |Cut(a, i, n)| == |a| then k else k - 1)
    ensures Alternate(Cut(a, i, n), k)
  {
  }

  /** A request from a free area keeps the areas maximal. */
  lemma TakeFrontAlternates(a: seq<Area>, i: nat, need: nat)
    requires Alternating(a) && i < |a| && need <= a[i].size
    ensures Alternating(Finish(Cut(a, i, need), i))
  {
    var c := Cut(a, i, need);
    forall k | 0 <= k < |c| && k != i && k + 1 != i ensures Alternate(c, k) {
      assert Alternate(a, if k < i || |c| == |a| then k else k - 1);
      CutAlternates(a, i, need, k);
    }
    FinishAlternates(c, i);
  }
}
