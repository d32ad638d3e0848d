/** The kernel heap as a value: the list of segments from `main_segment` down to
    `last_segment`, and the three size counters. The heap grows downward, so the list is
    in descending address order. What `malloc`, `free` and `expand_heap` do to that list
    is defined here, and the layout and accounting laws are proved over every run. */
module HeapLayout {

  const HEADER := 48
  const GRAIN := 0x10
  const PAGE := 0x1000

  datatype Segment = Segment(addr: int, length: int, isFree: bool) {
    function Data(): int { addr + HEADER }
    function End(): int { addr + HEADER + length }
    function Footprint(): int { length + HEADER }
  }

  /** `total`, `free` and `used` are the counters `total_size`, `free_size` and `used_size`. */
  datatype Heap = Heap(segs: seq<Segment>, total: int, free: int, used: int) {
    function Low(): int
      requires segs != []
    {
      segs[|segs| - 1].addr
    }
  }

  // ---------------------------------------------------------------- rounding

  function RoundUp(size: nat, unit: nat): nat
    requires unit > 0
  {
    if size % unit > 0 then size - size % unit + unit else size
  }

  /** The length of the block `malloc(size)` returns. */
  function Granted(size: nat): (r: nat)
    ensures r % GRAIN == 0 && size <= r < size + GRAIN
  {
    RoundUp(size, GRAIN)
  }

  /** The number of bytes one call of `expand_heap(size)` maps. */
  function Growth(size: nat): (r: nat)
    ensures r % GRAIN == 0 && r % PAGE == 0 && size + HEADER <= r < size + HEADER + PAGE && PAGE <= r
  {
    PageIsGrains(RoundUp(size + HEADER, PAGE));
    RoundUp(size + HEADER, PAGE)
  }

  /** Multiples of the page size are multiples of 16. */
  lemma PageIsGrains(x: int)
    ensures x % PAGE == 0 ==> x % GRAIN == 0
  {
    assert x % PAGE == 0 ==> x == x / PAGE * 0x100 * GRAIN;
  }

  /** Sums and differences of multiples of 16 are multiples of 16. */
  lemma GrainSum(a: int, b: int)
    requires a % GRAIN == 0 && b % GRAIN == 0
    ensures (a + b) % GRAIN == 0 && (a - b) % GRAIN == 0
  {
    var p, q := a / GRAIN, b / GRAIN;
    assert a + b == (p + q) * GRAIN && a - b == (p - q) * GRAIN;
  }

  // ---------------------------------------------------------------- invariant

  /** Addresses and lengths are multiples of 16, and no segment below `main_segment` is empty. */
  ghost predicate Aligned(s: Segment) {
    s.addr % GRAIN == 0 && s.addr > 0 && s.length % GRAIN == 0 && s.length > 0
  }

  /** `low` ends at or below the header of its upper neighbour `high`, and the two are
      never both free. */
  ghost predicate Neighbours(high: Segment, low: Segment) {
    low.End() <= high.addr && !(high.isFree && low.isFree)
  }

  ghost predicate Fits(segs: seq<Segment>, i: nat)
    requires 0 < i < |segs|
  {
    Aligned(segs[i]) && Neighbours(segs[i - 1], segs[i])
  }

  ghost predicate Ordered(segs: seq<Segment>) {
    forall i | 0 < i < |segs| :: Fits(segs, i)
  }

  function Held(segs: seq<Segment>, free: bool): int {
    if segs == [] then 0
    else (if segs[0].isFree == free then segs[0].Footprint() else 0) + Held(segs[1..], free)
  }

  /** The counter laws. The header of `main_segment` belongs to no counter. */
  ghost predicate Accounted(h: Heap) {
    && h.used + HEADER == Held(h.segs, false)
    && h.total == h.used + h.free
    && h.free >= Held(h.segs, true)
  }

  /** What `free_size` counts beyond the free segments. */
  ghost function Surplus(h: Heap): int { h.free - Held(h.segs, true) }

  ghost predicate Layout(segs: seq<Segment>) {
    && |segs| >= 2
    && segs[0].length == 0 && !segs[0].isFree && segs[0].addr % GRAIN == 0
    && Ordered(segs)
  }

  ghost predicate Inv(h: Heap) {
    Layout(h.segs) && Accounted(h)
  }

  // ---------------------------------------------------------------- operations

  predicate Usable(s: Segment, size: int) {
    s.isFree && (s.length > size + HEADER || s.length == size)
  }

  /** Index of the first usable segment from the top, or `|segs|`. */
  function FirstFit(segs: seq<Segment>, size: int): (i: nat)
    ensures i <= |segs|
    ensures i < |segs| ==> Usable(segs[i], size)
    ensures forall j | 0 <= j < i :: !Usable(segs[j], size)
  {
    if segs == [] then 0
    else if Usable(segs[0], size) then 0
    else 1 + FirstFit(segs[1..], size)
  }

  /** The segment `malloc` hands out of segment `s`: its upper end, or all of it. */
  function Carved(s: Segment, size: int): Segment {
    if s.length > size + HEADER then Segment(s.addr + s.length - size, size, false)
    else s.(isFree := false)
  }

  function TakeAt(segs: seq<Segment>, i: nat, size: int): seq<Segment>
    requires i < |segs|
  {
    var s := segs[i];
    if s.length > size + HEADER then
      segs[..i] + [Carved(s, size), Segment(s.addr, s.length - size - HEADER, true)] + segs[i + 1..]
    else
      segs[i := Carved(s, size)]
  }

  function Take(h: Heap, i: nat, size: int): Heap
    requires i < |h.segs|
  {
    Heap(TakeAt(h.segs, i, size), h.total, h.free - (size + HEADER), h.used + (size + HEADER))
  }

  /** Segment `i` swallows the segment above it. */
  function Absorb(segs: seq<Segment>, i: nat): (r: seq<Segment>)
    requires 0 < i < |segs|
    ensures |r| == |segs| - 1
  {
    seq(|segs| - 1, k requires 0 <= k < |segs| - 1 =>
      if k < i - 1 then segs[k]
      else if k == i - 1 then segs[i].(length := segs[i].length + segs[i - 1].length + HEADER)
      else segs[k + 1])
  }

  function Expand(segs: seq<Segment>, size: nat): seq<Segment>
    requires segs != []
  {
    var n := |segs| - 1;
    var g := Growth(size);
    if segs[n].isFree && n > 0 then
      segs[..n] + [Segment(segs[n].addr - g, segs[n].length + g - HEADER, true)]
    else
      segs + [Segment(segs[n].addr - g, g - HEADER, true)]
  }

  function Grow(h: Heap, size: nat): Heap
    requires h.segs != []
  {
    Heap(Expand(h.segs, size), h.total + Growth(size) + HEADER, h.free + Growth(size) + HEADER, h.used)
  }

  /** How often `malloc` calls `expand_heap` before it finds a segment (see `TwoExpansions`). */
  function Expansions(h: Heap, size: nat): (k: nat)
    requires h.segs != []
  {
    if FirstFit(h.segs, size) < |h.segs| then 0
    else if FirstFit(Grow(h, size).segs, size) < |Grow(h, size).segs| then 1
    else 2
  }

  /** The heap once the search is bound to succeed. */
  function Prepared(h: Heap, size: nat): Heap
    requires h.segs != []
  {
    match Expansions(h, size)
    case 0 => h
    case 1 => Grow(h, size)
    case _ => Grow(Grow(h, size), size)
  }

  function Mark(segs: seq<Segment>, i: nat): seq<Segment>
    requires i < |segs|
  {
    segs[i := segs[i].(isFree := true)]
  }

  function Merge(segs: seq<Segment>, i: nat): seq<Segment>
    requires 0 < i < |segs|
  {
    var above := segs[i - 1].isFree;
    var below := i + 1 < |segs| && segs[i + 1].isFree;
    if above && below then Absorb(Absorb(segs, i), i)
    else if above then Absorb(segs, i)
    else if below then Absorb(segs, i + 1)
    else segs
  }

  function Release(h: Heap, i: nat): Heap
    requires 0 < i < |h.segs|
  {
    Heap(Merge(Mark(h.segs, i), i), h.total, h.free + h.segs[i].Footprint(), h.used - h.segs[i].Footprint())
  }

  // ---------------------------------------------------------------- sums over the list

  lemma {:induction false} HeldAppend(a: seq<Segment>, b: seq<Segment>, free: bool)
    ensures Held(a + b, free) == Held(a, free) + Held(b, free)
  {
    if a == [] {
      assert a + b == b;
    } else {
      assert (a + b)[1..] == a[1..] + b;
      HeldAppend(a[1..], b, free);
    }
  }

  /** Replacing the middle of the list changes the sums by what the middle holds. */
  lemma HeldSplice(a: seq<Segment>, m: seq<Segment>, n: seq<Segment>, b: seq<Segment>, free: bool)
    ensures Held(a + n + b, free) - Held(a + m + b, free) == Held(n, free) - Held(m, free)
  {
    HeldAppend(a + n, b, free);
    HeldAppend(a, n, free);
    HeldAppend(a + m, b, free);
    HeldAppend(a, m, free);
  }

  lemma HeldOne(s: Segment, free: bool)
    ensures Held([s], free) == if s.isFree == free then s.Footprint() else 0
  {
  }

  lemma HeldTwo(s: Segment, t: Segment, free: bool)
    ensures Held([s, t], free) == Held([s], free) + Held([t], free)
  {
    HeldAppend([s], [t], free);
  }

  // ---------------------------------------------------------------- order

  /** Any segment ends at or below the header of any segment above it. */
  lemma {:induction false} Descending(segs: seq<Segment>, i: nat, j: nat)
    requires Ordered(segs) && i < j < |segs|
    ensures segs[j].End() <= segs[i].addr
  {
    assert Fits(segs, j);
    if i < j - 1 {
      Descending(segs, i, j - 1);
      assert Fits(segs, j - 1);
    }
  }

  /** A list is ordered when its two parts are and they fit at the seam. */
  lemma OrderedJoin(a: seq<Segment>, b: seq<Segment>)
    requires Ordered(a) && Ordered(b)
    requires a != [] && b != [] ==> Aligned(b[0]) && Neighbours(a[|a| - 1], b[0])
    ensures Ordered(a + b)
  {
    forall i | 0 < i < |a + b| ensures Fits(a + b, i) {
      if i > |a| {
        assert Fits(b, i - |a|);
      } else if i < |a| {
        assert Fits(a, i);
      }
    }
  }

  lemma OrderedParts(segs: seq<Segment>, i: nat)
    requires Ordered(segs) && i <= |segs|
    ensures Ordered(segs[..i]) && Ordered(segs[i..])
    ensures 0 < i < |segs| ==> Aligned(segs[i]) && Neighbours(segs[i - 1], segs[i])
  {
    forall k | 0 < k < |segs[..i]| ensures Fits(segs[..i], k) {
      assert Fits(segs, k);
    }
    forall k | 0 < k < |segs[i..]| ensures Fits(segs[i..], k) {
      assert Fits(segs, i + k);
    }
    assert 0 < i < |segs| ==> Fits(segs, i);
  }

  /** Segments `m` may take the place of segments `i..j` when they stay inside the space
      those occupied and fit their new neighbours. */
  lemma OrderedSplice(segs: seq<Segment>, i: nat, j: nat, m: seq<Segment>)
    requires Ordered(segs) && 0 < i <= j <= |segs|
    requires m != [] && Ordered(m) && Aligned(m[0]) && Neighbours(segs[i - 1], m[0])
    requires j < |segs| ==> Neighbours(m[|m| - 1], segs[j])
    ensures Ordered(segs[..i] + m + segs[j..])
  {
    OrderedParts(segs, i);
    OrderedParts(segs, j);
    OrderedJoin(segs[..i], m);
    OrderedJoin(segs[..i] + m, segs[j..]);
  }

  // ---------------------------------------------------------------- malloc

  lemma CarvedFits(s: Segment, size: nat)
    requires Aligned(s) && Usable(s, size) && size > 0 && size % GRAIN == 0
    ensures Aligned(Carved(s, size)) && Carved(s, size).length == size && Carved(s, size).End() == s.End()
    ensures s.length > size + HEADER ==> Aligned(Segment(s.addr, s.length - size - HEADER, true))
  {
  }

  lemma TakeLayout(segs: seq<Segment>, i: nat, size: nat)
    requires Layout(segs) && i < |segs| && Usable(segs[i], size) && size > 0 && size % GRAIN == 0
    ensures Layout(TakeAt(segs, i, size))
    ensures TakeAt(segs, i, size)[i] == Carved(segs[i], size)
  {
    var s, c := segs[i], Carved(segs[i], size);
    OrderedParts(segs, i);
    CarvedFits(s, size);
    if i + 1 < |segs| { OrderedParts(segs, i + 1); }
    if s.length > size + HEADER {
      OrderedSplice(segs, i, i + 1, [c, Segment(s.addr, s.length - size - HEADER, true)]);
    } else {
      OrderedSplice(segs, i, i + 1, [c]);
      assert segs[i := c] == segs[..i] + [c] + segs[i + 1..];
    }
  }

  lemma TakeHeld(segs: seq<Segment>, i: nat, size: nat, free: bool)
    requires i < |segs| && Usable(segs[i], size)
    ensures Held(TakeAt(segs, i, size), free) ==
            Held(segs, free) + (if free then -(size + HEADER) else size + HEADER)
  {
    var s, c := segs[i], Carved(segs[i], size);
    assert segs == segs[..i] + [s] + segs[i + 1..];
    HeldOne(s, free);
    HeldOne(c, free);
    if s.length > size + HEADER {
      var low := Segment(s.addr, s.length - size - HEADER, true);
      HeldOne(low, free);
      HeldTwo(c, low, free);
      HeldSplice(segs[..i], [s], [c, low], segs[i + 1..], free);
    } else {
      assert segs[i := c] == segs[..i] + [c] + segs[i + 1..];
      HeldSplice(segs[..i], [s], [c], segs[i + 1..], free);
    }
  }

  lemma TakeKeepsInv(h: Heap, i: nat, size: nat)
    requires Inv(h) && i < |h.segs| && Usable(h.segs[i], size) && size > 0 && size % GRAIN == 0
    ensures Inv(Take(h, i, size)) && Take(h, i, size).Low() == h.Low() && Surplus(Take(h, i, size)) == Surplus(h)
  {
    TakeLayout(h.segs, i, size);
    TakeHeld(h.segs, i, size, true);
    TakeHeld(h.segs, i, size, false);
  }

  lemma GrownFits(s: Segment, size: nat)
    requires s.addr % GRAIN == 0 && s.length % GRAIN == 0 && s.addr > Growth(size) && s.length >= 0
    ensures Aligned(Segment(s.addr - Growth(size), Growth(size) - HEADER, true))
    ensures Aligned(Segment(s.addr - Growth(size), s.length + Growth(size) - HEADER, true))
  {
    var g := Growth(size);
    GrainSum(s.addr, g);
    GrainSum(g, HEADER);
    GrainSum(s.length, g - HEADER);
  }

  lemma ExpandLayout(segs: seq<Segment>, size: nat)
    requires Layout(segs) && segs[|segs| - 1].addr > Growth(size)
    ensures Layout(Expand(segs, size))
  {
    var n, g := |segs| - 1, Growth(size);
    OrderedParts(segs, n);
    GrownFits(segs[n], size);
    if segs[n].isFree {
      var t := Segment(segs[n].addr - g, segs[n].length + g - HEADER, true);
      OrderedSplice(segs, n, n + 1, [t]);
      assert segs[..n] + [t] + segs[n + 1..] == segs[..n] + [t];
    } else {
      OrderedJoin(segs, [Segment(segs[n].addr - g, g - HEADER, true)]);
    }
  }

  lemma ExpandHeld(segs: seq<Segment>, size: nat, free: bool)
    requires |segs| >= 2
    ensures free ==>
      Held(Expand(segs, size), free) == Held(segs, free) + Growth(size) - if segs[|segs| - 1].isFree then HEADER else 0
    ensures !free ==> Held(Expand(segs, size), free) == Held(segs, free)
  {
    var n := |segs| - 1;
    var t := Expand(segs, size)[|Expand(segs, size)| - 1];
    HeldAppend(segs[..n], [segs[n]], free);
    assert segs == segs[..n] + [segs[n]];
    HeldOne(segs[n], free);
    HeldOne(t, free);
    HeldAppend(if segs[n].isFree then segs[..n] else segs, [t], free);
  }

  lemma GrowKeepsInv(h: Heap, size: nat)
    requires Inv(h) && h.Low() > Growth(size)
    ensures Inv(Grow(h, size)) && Grow(h, size).Low() == h.Low() - Growth(size)
    ensures Surplus(Grow(h, size)) ==
            Surplus(h) + if h.segs[|h.segs| - 1].isFree then HEADER + HEADER else HEADER
  {
    ExpandLayout(h.segs, size);
    ExpandHeld(h.segs, size, true);
    ExpandHeld(h.segs, size, false);
  }

  /** Two expansions always suffice, also when the first leaves a segment that is too
      large to match and too small to split. */
  lemma TwoExpansions(h: Heap, size: nat)
    requires |h.segs| >= 2 && h.segs[|h.segs| - 1].length >= 0
    ensures FirstFit(Prepared(h, size).segs, size) < |Prepared(h, size).segs|
  {
    var h1 := Grow(h, size);
    var last := h1.segs[|h1.segs| - 1];
    assert last.isFree && last.length >= size;
    var h2 := Grow(h1, size);
    var last2 := h2.segs[|h2.segs| - 1];
    assert last2.length == last.length + Growth(size) - HEADER;
    assert !Usable(last, size) ==> Usable(last2, size);
  }

  // ---------------------------------------------------------------- free

  lemma AbsorbFits(high: Segment, low: Segment)
    requires Aligned(high) && Aligned(low) && low.End() <= high.addr
    ensures var m := low.(length := low.length + high.length + HEADER);
            Aligned(m) && m.End() <= high.End() && m.addr == low.addr
  {
  }

  lemma AbsorbHeld(segs: seq<Segment>, i: nat, free: bool)
    requires 0 < i < |segs| && segs[i - 1].isFree && segs[i].isFree
    ensures Held(Absorb(segs, i), free) == Held(segs, free)
  {
    var high, low := segs[i - 1], segs[i];
    var m := low.(length := low.length + high.length + HEADER);
    assert segs == segs[..i - 1] + [high, low] + segs[i + 1..];
    assert Absorb(segs, i) == segs[..i - 1] + [m] + segs[i + 1..];
    HeldOne(high, free);
    HeldOne(low, free);
    HeldOne(m, free);
    HeldTwo(high, low, free);
    HeldSplice(segs[..i - 1], [high, low], [m], segs[i + 1..], free);
  }

  lemma MarkHeld(segs: seq<Segment>, i: nat, free: bool)
    requires i < |segs| && !segs[i].isFree
    ensures Held(Mark(segs, i), free) ==
            Held(segs, free) + (if free then segs[i].Footprint() else -segs[i].Footprint())
  {
    var s, t := segs[i], segs[i].(isFree := true);
    assert segs == segs[..i] + [s] + segs[i + 1..];
    assert Mark(segs, i) == segs[..i] + [t] + segs[i + 1..];
    HeldOne(s, free);
    HeldOne(t, free);
    HeldSplice(segs[..i], [s], [t], segs[i + 1..], free);
  }

  lemma MergeHeld(segs: seq<Segment>, i: nat, free: bool)
    requires 0 < i < |segs| && segs[i].isFree
    ensures Held(Merge(segs, i), free) == Held(segs, free)
  {
    var above := segs[i - 1].isFree;
    var below := i + 1 < |segs| && segs[i + 1].isFree;
    if above {
      AbsorbHeld(segs, i, free);
      if below {
        AbsorbHeld(Absorb(segs, i), i, free);
      }
    } else if below {
      AbsorbHeld(segs, i + 1, free);
    }
  }

  /** The block that results when segment `i` is freed: from the lower free neighbour (or
      itself) to the upper one. */
  function Merged(segs: seq<Segment>, i: nat): (m: (nat, nat, Segment))
    requires 0 < i < |segs|
  {
    var lo := if i + 1 < |segs| && segs[i + 1].isFree then i + 1 else i;
    var hi := if segs[i - 1].isFree then i - 1 else i;
    var above := if hi < i then segs[hi].Footprint() else 0;
    var below := if lo > i then segs[i].Footprint() else 0;
    (hi, lo + 1, Segment(segs[lo].addr, segs[lo].length + above + below, true))
  }

  lemma MergeIsSplice(segs: seq<Segment>, i: nat)
    requires 0 < i < |segs| && segs[i].isFree
    ensures var (hi, lo, m) := Merged(segs, i);
            Merge(segs, i) == segs[..hi] + [m] + segs[lo..]
  {
    var above := segs[i - 1].isFree;
    var below := i + 1 < |segs| && segs[i + 1].isFree;
    var (hi, lo, m) := Merged(segs, i);
    if above && below {
      var a := Absorb(segs, i);
      assert Absorb(a, i) == segs[..i - 1] + [m] + segs[i + 2..];
    } else if above {
      assert Absorb(segs, i) == segs[..i - 1] + [m] + segs[i + 1..];
    } else if below {
      assert Absorb(segs, i + 1) == segs[..i] + [m] + segs[i + 2..];
    } else {
      assert segs == segs[..i] + [m] + segs[i + 1..];
    }
  }

  lemma ReleaseLayout(segs: seq<Segment>, i: nat)
    requires Layout(segs) && 0 < i < |segs| && !segs[i].isFree
    ensures Layout(Merge(Mark(segs, i), i))
  {
    var marked := Mark(segs, i);
    var (hi, lo, m) := Merged(marked, i);
    MergeIsSplice(marked, i);
    assert marked[..hi] == segs[..hi] && marked[lo..] == segs[lo..];
    MergedFits(segs, i);
    OrderedSplice(segs, hi, lo, [m]);
  }

  lemma MergedFits(segs: seq<Segment>, i: nat)
    requires Layout(segs) && 0 < i < |segs| && !segs[i].isFree
    ensures var (hi, lo, m) := Merged(Mark(segs, i), i);
            && 0 < hi < lo <= |segs|
            && Aligned(m) && Neighbours(segs[hi - 1], m)
            && (lo < |segs| ==> Neighbours(m, segs[lo]))
  {
    OrderedParts(segs, i);
    if i > 1 { OrderedParts(segs, i - 1); }
    if i + 1 < |segs| { OrderedParts(segs, i + 1); }
    if i + 2 < |segs| { OrderedParts(segs, i + 2); }
    var s := segs[i].(isFree := true);
    var s' := s;
    if segs[i - 1].isFree {
      AbsorbFits(segs[i - 1], s);
      s' := s.(length := s.length + segs[i - 1].length + HEADER);
    }
    if i + 1 < |segs| && segs[i + 1].isFree {
      AbsorbFits(s', segs[i + 1]);
    }
  }

  lemma ReleaseKeepsInv(h: Heap, i: nat)
    requires Inv(h) && 0 < i < |h.segs| && !h.segs[i].isFree
    ensures Inv(Release(h, i)) && Release(h, i).Low() == h.Low() && Surplus(Release(h, i)) == Surplus(h)
  {
    var marked := Mark(h.segs, i);
    ReleaseLayout(h.segs, i);
    MergeIsSplice(marked, i);
    MarkHeld(h.segs, i, true);
    MarkHeld(h.segs, i, false);
    MergeHeld(marked, i, true);
    MergeHeld(marked, i, false);
  }

  // ---------------------------------------------------------------- live blocks

  /** The segments in use (`main_segment` among them). */
  ghost function Live(segs: seq<Segment>): set<Segment> {
    set s | s in segs && !s.isFree
  }

  lemma TakeLive(segs: seq<Segment>, i: nat, size: nat)
    requires i < |segs| && Usable(segs[i], size)
    ensures Live(TakeAt(segs, i, size)) == Live(segs) + {Carved(segs[i], size)}
  {
    var s, c, t := segs[i], Carved(segs[i], size), TakeAt(segs, i, size);
    assert segs == segs[..i] + [s] + segs[i + 1..];
    if s.length > size + HEADER {
      assert t == segs[..i] + [c, Segment(s.addr, s.length - size - HEADER, true)] + segs[i + 1..];
      assert t[i] == c;
    } else {
      assert t == segs[..i] + [c] + segs[i + 1..];
      assert t[i] == c;
    }
  }

  lemma ExpandLive(segs: seq<Segment>, size: nat)
    requires segs != []
    ensures Live(Expand(segs, size)) == Live(segs)
  {
    var n := |segs| - 1;
    assert segs == segs[..n] + [segs[n]];
  }

  lemma Distinct(segs: seq<Segment>, i: nat, j: nat)
    requires Layout(segs) && i < |segs| && j < |segs| && segs[i].addr == segs[j].addr
    ensures i == j
  {
    assert i > 0 ==> Fits(segs, i);
    assert j > 0 ==> Fits(segs, j);
    if i < j {
      Descending(segs, i, j);
    } else if j < i {
      Descending(segs, j, i);
    }
  }

  lemma ReleaseLive(segs: seq<Segment>, i: nat)
    requires Layout(segs) && 0 < i < |segs| && !segs[i].isFree
    ensures Live(Merge(Mark(segs, i), i)) == Live(segs) - {segs[i]}
  {
    var marked := Mark(segs, i);
    var (hi, lo, m) := Merged(marked, i);
    MergeIsSplice(marked, i);
    var out := Merge(marked, i);
    assert out == segs[..hi] + [m] + segs[lo..];
    forall s | s in Live(segs) && s != segs[i] ensures s in out {
      var k :| 0 <= k < |segs| && segs[k] == s;
      assert k < hi || k >= lo;
      if k < hi { assert out[k] == s; } else { assert out[k - lo + hi + 1] == s; }
    }
    forall s | s in out && !s.isFree ensures s in segs && s != segs[i] { StaysLive(segs, i, hi, lo, m, s); }
  }

  lemma StaysLive(segs: seq<Segment>, i: nat, hi: nat, lo: nat, m: Segment, s: Segment)
    requires Layout(segs) && hi <= i < lo <= |segs| && m.isFree && !s.isFree && s in segs[..hi] + [m] + segs[lo..]
    ensures s in segs && s != segs[i]
  {
    var out := segs[..hi] + [m] + segs[lo..];
    var k :| 0 <= k < |out| && out[k] == s;
    var k' := if k < hi then k else k - hi - 1 + lo;
    assert segs[k'] == s;
    if s == segs[i] { Distinct(segs, k', i); }
  }

  /** A block handed out lies inside a segment that was free, so it meets no live block. */
  lemma TakeIsFresh(segs: seq<Segment>, i: nat, size: nat, s: Segment)
    requires Layout(segs) && i < |segs| && Usable(segs[i], size) && size > 0 && size % GRAIN == 0
    requires s in Live(segs)
    ensures var c := Carved(segs[i], size);
            c.End() <= s.addr || s.End() <= c.addr
  {
    assert Fits(segs, i);
    CarvedFits(segs[i], size);
    var k :| 0 <= k < |segs| && segs[k] == s;
    if k < i { Descending(segs, k, i); } else { Descending(segs, i, k); }
  }

  // ---------------------------------------------------------------- runs

  datatype Op = Malloc(size: nat) | Free(ptr: int)

  /** The heap `heap_init` builds in the page below `high`. */
  function Init(high: int): Heap {
    Heap([Segment(high - HEADER, 0, false), Segment(high - PAGE, PAGE - HEADER - HEADER, true)], PAGE, PAGE, 0)
  }

  function IndexOf(segs: seq<Segment>, ptr: int): (i: nat)
    ensures i <= |segs|
    ensures i < |segs| ==> segs[i].Data() == ptr
    ensures forall j | 0 <= j < i :: segs[j].Data() != ptr
  {
    if segs == [] || segs[0].Data() == ptr then 0 else 1 + IndexOf(segs[1..], ptr)
  }

  /** `ptr` is NULL or the address of a block in use. */
  ghost predicate Freeable(h: Heap, ptr: int) {
    ptr != 0 ==> exists s :: s in Live(h.segs) && s != h.segs[0] && s.Data() == ptr
  }

  /** `malloc` never looks at `heap_low`: the addresses below the heap must hold what it maps. */
  predicate Room(h: Heap, size: nat)
    requires h.segs != []
  {
    var k, g := Expansions(h, size), Growth(size);
    h.Low() > if k == 0 then 0 else if k == 1 then g else g + g
  }

  ghost predicate Allowed(h: Heap, op: Op) {
    && Inv(h)
    && match op
       case Malloc(size) => size == 0 || Room(h, Granted(size))
       case Free(ptr) => Freeable(h, ptr)
  }

  lemma PreparedKeepsInv(h: Heap, size: nat)
    requires Inv(h) && Room(h, size)
    ensures Inv(Prepared(h, size)) && Live(Prepared(h, size).segs) == Live(h.segs)
    ensures Prepared(h, size).segs[0] == h.segs[0]
    ensures FirstFit(Prepared(h, size).segs, size) < |Prepared(h, size).segs|
  {
    assert Fits(h.segs, |h.segs| - 1);
    TwoExpansions(h, size);
    if Expansions(h, size) > 0 {
      GrowKeepsBlocks(h, size);
      if Expansions(h, size) > 1 {
        GrowKeepsBlocks(Grow(h, size), size);
      }
    }
  }

  lemma GrowKeepsBlocks(h: Heap, size: nat)
    requires Inv(h) && h.Low() > Growth(size)
    ensures Inv(Grow(h, size)) && Grow(h, size).Low() == h.Low() - Growth(size)
    ensures Live(Grow(h, size).segs) == Live(h.segs) && Grow(h, size).segs[0] == h.segs[0]
  {
    GrowKeepsInv(h, size);
    ExpandLive(h.segs, size);
  }

  /** The block `malloc(size)` returns. */
  ghost function Block(h: Heap, size: nat): Segment
    requires Inv(h) && Room(h, Granted(size))
  {
    PreparedKeepsInv(h, Granted(size));
    var p := Prepared(h, Granted(size));
    Carved(p.segs[FirstFit(p.segs, Granted(size))], Granted(size))
  }

  ghost function Apply(h: Heap, op: Op): Heap
    requires Allowed(h, op)
  {
    match op
    case Malloc(size) =>
      if size == 0 then h
      else
        PreparedKeepsInv(h, Granted(size));
        var p := Prepared(h, Granted(size));
        Take(p, FirstFit(p.segs, Granted(size)), Granted(size))
    case Free(ptr) =>
      if ptr == 0 then h
      else
        FreeableIndex(h, ptr);
        Release(h, IndexOf(h.segs, ptr))
  }

  lemma FreeableIndex(h: Heap, ptr: int)
    requires Inv(h) && ptr != 0 && Freeable(h, ptr)
    ensures var i := IndexOf(h.segs, ptr);
            && 0 < i < |h.segs| && !h.segs[i].isFree && h.segs[i].Data() == ptr
            && forall s | s in Live(h.segs) && s.Data() == ptr :: s == h.segs[i]
  {
    var i := IndexOf(h.segs, ptr);
    forall s | s in Live(h.segs) && s.Data() == ptr ensures i < |h.segs| && s == h.segs[i] {
      var k :| 0 <= k < |h.segs| && h.segs[k] == s;
      Distinct(h.segs, i, k);
    }
  }

  lemma TakeStep(p: Heap, i: nat, n: nat)
    requires Inv(p) && i < |p.segs| && Usable(p.segs[i], n) && n > 0 && n % GRAIN == 0
    ensures var c := Carved(p.segs[i], n);
            && Inv(Take(p, i, n))
            && Live(Take(p, i, n).segs) == Live(p.segs) + {c}
            && c.Data() % GRAIN == 0 && c.length == n
            && forall s | s in Live(p.segs) :: c.End() <= s.addr || s.End() <= c.addr
  {
    OrderedParts(p.segs, i);
    TakeInv(p, i, n);
    CarvedFits(p.segs[i], n);
    TakeLive(p.segs, i, n);
    forall s | s in Live(p.segs)
      ensures Carved(p.segs[i], n).End() <= s.addr || s.End() <= Carved(p.segs[i], n).addr
    {
      TakeIsFresh(p.segs, i, n, s);
    }
  }

  lemma TakeInv(h: Heap, i: nat, size: nat)
    requires Inv(h) && i < |h.segs| && Usable(h.segs[i], size) && size > 0 && size % GRAIN == 0
    ensures Inv(Take(h, i, size))
  {
    TakeKeepsInv(h, i, size);
  }

  /** `malloc` of a nonzero size adds one block: 16-aligned, as long as the request rounded
      up to 16, and clear of every other block in use. */
  lemma MallocStep(h: Heap, size: nat)
    requires Inv(h) && size > 0 && Room(h, Granted(size))
    ensures Inv(Apply(h, Malloc(size)))
    ensures Live(Apply(h, Malloc(size)).segs) == Live(h.segs) + {Block(h, size)}
    ensures Block(h, size).Data() % GRAIN == 0 && Block(h, size).length == Granted(size)
    ensures forall s | s in Live(h.segs) :: Block(h, size).End() <= s.addr || s.End() <= Block(h, size).addr
  {
    PreparedKeepsInv(h, Granted(size));
    var p := Prepared(h, Granted(size));
    TakeStep(p, FirstFit(p.segs, Granted(size)), Granted(size));
  }

  /** `free` removes exactly the block it is given. */
  lemma FreeStep(h: Heap, ptr: int)
    requires Inv(h) && Freeable(h, ptr)
    ensures Inv(Apply(h, Free(ptr)))
    ensures forall s :: s in Live(Apply(h, Free(ptr)).segs) <==> s in Live(h.segs) && (ptr == 0 || s.Data() != ptr)
  {
    if ptr != 0 {
      FreeableIndex(h, ptr);
      var i := IndexOf(h.segs, ptr);
      ReleaseKeepsInv(h, i);
      ReleaseLive(h.segs, i);
      assert h.segs[i] in Live(h.segs);
    }
  }

  ghost predicate AllowedRun(h: Heap, ops: seq<Op>)
    decreases |ops|
  {
    ops == [] || (Allowed(h, ops[0]) && AllowedRun(Apply(h, ops[0]), ops[1..]))
  }

  ghost function Run(h: Heap, ops: seq<Op>): Heap
    requires AllowedRun(h, ops)
    decreases |ops|
  {
    if ops == [] then h else Run(Apply(h, ops[0]), ops[1..])
  }

  lemma InitInv(high: int)
    requires high % PAGE == 0 && high > PAGE
    ensures Inv(Init(high))
  {
    var h := Init(high);
    PageIsGrains(high);
    GrainSum(high, HEADER);
    GrainSum(high, PAGE);
    HeldTwo(h.segs[0], h.segs[1], true);
    HeldTwo(h.segs[0], h.segs[1], false);
    assert h.segs == [h.segs[0], h.segs[1]];
  }

  /** Every run of `malloc` and `free` keeps the layout and the counters, and a block stays
      where it is, at its length, for as long as no step frees it. */
  lemma {:induction false} RunKeepsInv(h: Heap, ops: seq<Op>)
    requires Inv(h) && AllowedRun(h, ops)
    ensures Inv(Run(h, ops))
    ensures forall s | s in Live(h.segs) && Free(s.Data()) !in ops :: s in Live(Run(h, ops).segs)
    decreases |ops|
  {
    if ops != [] {
      match ops[0] {
        case Malloc(size) => if size > 0 { MallocStep(h, size); }
        case Free(ptr) => FreeStep(h, ptr);
      }
      RunKeepsInv(Apply(h, ops[0]), ops[1..]);
    }
  }

  /** No two blocks in use overlap, and no counter is negative. */
  lemma InvConsequences(h: Heap, s: Segment, t: Segment)
    requires Inv(h) && s in Live(h.segs) && t in Live(h.segs) && s != t
    ensures s.End() <= t.addr || t.End() <= s.addr
    ensures h.used >= 0 && h.free >= 0 && h.total >= 0
  {
    var i :| 0 <= i < |h.segs| && h.segs[i] == s;
    var j :| 0 <= j < |h.segs| && h.segs[j] == t;
    if i < j { Descending(h.segs, i, j); } else { Descending(h.segs, j, i); }
    forall s | s in h.segs[1..] ensures s.length >= 0 {
      var k :| 0 <= k < |h.segs[1..]| && h.segs[1..][k] == s;
      assert Fits(h.segs, k + 1);
    }
    HeldPositive(h.segs[1..], true);
    HeldPositive(h.segs[1..], false);
  }

  lemma {:induction false} HeldPositive(segs: seq<Segment>, free: bool)
    requires forall s | s in segs :: s.length >= 0
    ensures Held(segs, free) >= 0
  {
    if segs != [] { HeldPositive(segs[1..], free); }
  }

  // ---------------------------------------------------------------- where blocks come from

  /** If a free segment has exactly the length asked for, or room for another header as well, `malloc`
      expands nothing and the block is the upper end of the highest such segment; what is left
      of it stays free. */
  lemma MallocPlaces(h: Heap, size: nat, i: nat, n: nat)
    requires Inv(h) && size > 0 && n == Granted(size) && i < |h.segs|
    requires h.segs[i].isFree && (h.segs[i].length == n || h.segs[i].length > n + 48)
    requires forall j | 0 <= j < i :: !(h.segs[j].isFree && (h.segs[j].length == n || h.segs[j].length > n + 48))
    ensures Room(h, n)
    ensures var s, b, h' := h.segs[i], Block(h, size), Apply(h, Malloc(size));
      && Inv(h') && h'.total == h.total && h'.Low() == h.Low()
      && b.length == n && b.End() == s.End() && b.addr >= s.addr
      && (if s.length == n then h'.segs == h.segs[i := b]
          else h'.segs == h.segs[..i] + [b, Segment(s.addr, s.length - n - 48, true)] + h.segs[i + 1..])
  {
    assert Usable(h.segs[i], n) && FirstFit(h.segs, n) == i;
    assert Fits(h.segs, |h.segs| - 1);
    TakeKeepsInv(h, i, n);
  }

  /** If there is none the heap grows, by one expansion or two, and the block is the upper end of what
      is then the lowest segment. */
  lemma MallocGrows(h: Heap, size: nat, n: nat)
    requires Inv(h) && size > 0 && n == Granted(size) && Room(h, n)
    requires forall j | 0 <= j < |h.segs| ::
      !(h.segs[j].isFree && (h.segs[j].length == n || h.segs[j].length > n + 48))
    ensures var b, h', g := Block(h, size), Apply(h, Malloc(size)), Growth(n);
      && Inv(h') && (h'.Low() == h.Low() - g || h'.Low() == h.Low() - g - g) && h'.total > h.total
      && b.length == n && h'.Low() <= b.addr && b.End() <= h.segs[|h.segs| - 1].End()
  {
    assert FirstFit(h.segs, n) == |h.segs|;
    PreparedKeepsInv(h, n);
    GrownTop(h, n);
    var p := Prepared(h, n);
    TakeKeepsInv(p, FirstFit(p.segs, n), n);
  }

  /** Only the lowest segment changes or is added. */
  lemma GrownTop(h: Heap, n: nat)
    requires Inv(h) && Room(h, n) && FirstFit(h.segs, n) == |h.segs|
    ensures var p, g := Prepared(h, n), Growth(n);
      && (p.Low() == h.Low() - g || p.Low() == h.Low() - g - g) && p.total > h.total
      && FirstFit(p.segs, n) == |p.segs| - 1 && p.segs[|p.segs| - 1].End() <= h.segs[|h.segs| - 1].End()
  {
    PreparedKeepsInv(h, n);
    GrowKeepsInv(h, n);
    assert Fits(h.segs, |h.segs| - 1);
    forall j | 0 <= j < |Expand(h.segs, n)| - 1 ensures !Usable(Expand(h.segs, n)[j], n) {
      assert Expand(h.segs, n)[j] == h.segs[j];
    }
  }

  /** So the heap grows exactly if no free segment has the length asked for or room for a header more. */
  lemma GrowsExactly(h: Heap, size: nat, n: nat)
    requires Inv(h) && size > 0 && n == Granted(size) && Room(h, n)
    ensures Inv(Apply(h, Malloc(size)))
    ensures Apply(h, Malloc(size)).Low() == h.Low() <==>
            exists j :: 0 <= j < |h.segs| && h.segs[j].isFree && (h.segs[j].length == n || h.segs[j].length > n + 48)
  {
    var i := FirstFit(h.segs, n);
    if i < |h.segs| {
      MallocPlaces(h, size, i, n);
    } else {
      assert forall j | 0 <= j < |h.segs| :: !Usable(h.segs[j], n);
      MallocGrows(h, size, n);
    }
  }

  /** Freeing a block between two blocks in use and asking for the same size again, when no higher
      segment fits, gives the same block and the same heap. */
  lemma FreeThenMalloc(h: Heap, i: nat)
    requires Inv(h) && 0 < i < |h.segs| && !h.segs[i].isFree && !h.segs[i - 1].isFree
    requires i + 1 < |h.segs| ==> !h.segs[i + 1].isFree
    requires forall j | 0 <= j < i ::
      !(h.segs[j].isFree && (h.segs[j].length == h.segs[i].length || h.segs[j].length > h.segs[i].length + 48))
    ensures Freeable(h, h.segs[i].Data()) && var freed := Apply(h, Free(h.segs[i].Data()));
      && Inv(freed) && h.segs[i].length > 0 && Allowed(freed, Malloc(h.segs[i].length))
      && Block(freed, h.segs[i].length) == h.segs[i]
      && Apply(freed, Malloc(h.segs[i].length)) == h
  {
    var s := h.segs[i];
    assert Fits(h.segs, i) && s in Live(h.segs);
    assert s != h.segs[0];
    FreeableIndex(h, s.Data());
    ReleaseKeepsInv(h, i);
    var freed := Release(h, i);
    assert freed.segs == Mark(h.segs, i);
    assert IndexOf(h.segs, s.Data()) == i by { Distinct(h.segs, IndexOf(h.segs, s.Data()), i); }
    MallocPlaces(freed, s.length, i, s.length);
    assert freed.segs[i := s] == h.segs;
  }

  /** Over every run `free_size` counts what it counted beyond the free segments at the start exactly if
      the heap has not grown; otherwise it counts more. */
  lemma {:induction false} FreeCountExact(h: Heap, ops: seq<Op>)
    requires Inv(h) && AllowedRun(h, ops)
    ensures Inv(Run(h, ops)) && Run(h, ops).Low() <= h.Low() && Surplus(Run(h, ops)) >= Surplus(h)
    ensures Surplus(Run(h, ops)) == Surplus(h) <==> Run(h, ops).Low() == h.Low()
    decreases |ops|
  {
    if ops != [] {
      SurplusStep(h, ops[0]);
      FreeCountExact(Apply(h, ops[0]), ops[1..]);
    }
  }

  lemma SurplusStep(h: Heap, op: Op)
    requires Allowed(h, op)
    ensures var h' := Apply(h, op);
      && Inv(h') && h'.Low() <= h.Low() && Surplus(h') >= Surplus(h)
      && (Surplus(h') == Surplus(h) <==> h'.Low() == h.Low())
  {
    match op
    case Malloc(size) =>
      if size > 0 {
        var n := Granted(size);
        SurplusPrepared(h, n);
        var p := Prepared(h, n);
        TakeKeepsInv(p, FirstFit(p.segs, n), n);
      }
    case Free(ptr) =>
      if ptr != 0 {
        FreeableIndex(h, ptr);
        ReleaseKeepsInv(h, IndexOf(h.segs, ptr));
      }
  }

  lemma SurplusPrepared(h: Heap, n: nat)
    requires Inv(h) && Room(h, n)
    ensures var p := Prepared(h, n);
      && Inv(p) && FirstFit(p.segs, n) < |p.segs| && p.Low() <= h.Low() && Surplus(p) >= Surplus(h)
      && (Surplus(p) == Surplus(h) <==> p.Low() == h.Low())
  {
    PreparedKeepsInv(h, n);
    if Expansions(h, n) > 0 {
      GrowKeepsInv(h, n);
      if Expansions(h, n) > 1 { GrowKeepsInv(Grow(h, n), n); }
    }
  }

  /** The heap of the first page counts one header too many, and two more once it has grown. */
  lemma CountsHeaders(high: int)
    requires high % PAGE == 0 && high > 4 * PAGE
    ensures Surplus(Init(high)) == 48 && Surplus(Grow(Init(high), PAGE)) == 48 + 96
  {
    InitInv(high);
    HeldTwo(Init(high).segs[0], Init(high).segs[1], true);
    assert Init(high).segs == [Init(high).segs[0], Init(high).segs[1]];
    GrowKeepsInv(Init(high), PAGE);
  }
}
