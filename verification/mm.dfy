/** The memory handler of a process: a doubly linked list of regions that tiles its address
    space. The handler's lock is held throughout. */
module MemoryRegions {

  import opened Distinctness
  import opened Areas
  import opened FixedRequests
  import opened Machine

  /** `DIV_ROUNDUP(n, PAGE_SIZE)` */
  function PagesOf(n: nat): nat {
    (n + (PAGE_SIZE - 1)) / PAGE_SIZE
  }

  lemma PagesExact(n: nat)
    requires n % PAGE_SIZE == 0
    ensures PagesOf(n) * PAGE_SIZE == n
  {
  }

  class Region {
    var base: nat
    var size: nat
    var blockCount: nat
    var isFree: bool
    var next: Region?
    var last: Region?

    constructor (base: nat, size: nat, isFree: bool, next: Region?, last: Region?)
      ensures this.base == base && this.size == size && this.isFree == isFree && this.next == next && this.last == last
      ensures blockCount == PagesOf(size)
    {
      this.base, this.size, this.isFree, this.next, this.last := base, size, isFree, next, last;
      blockCount := PagesOf(size);
    }
  }

  /** Region `i` is linked to its neighbours. */
  ghost predicate Node(q: seq<Region>, i: nat)
    reads q`next, q`last
  {
    && i < |q| && q[i].next == (if i + 1 < |q| then q[i + 1] else null)
    && q[i].last == (if i == 0 then null else q[i - 1])
  }

  ghost predicate Chain(q: seq<Region>)
    reads q`next, q`last
  {
    Distinct(q) && forall i {:trigger Node(q, i)} | 0 <= i < |q| :: Node(q, i)
  }

  /** The neighbours of a region are linked with each other. */
  method Detach(region: Region, ghost q: seq<Region>, ghost i: nat)
    requires Chain(q) && 0 < i < |q| && q[i] == region
    modifies q`next, q`last
    ensures Chain(Without(q, i))
  {
    assert Node(q, i) && Node(q, i - 1);
    if region.last != null {
      region.last.next := region.next;
    }
    if region.next != null {
      region.next.last := region.last;
    }
    DistinctDrop(q, i);
    ghost var p := Without(q, i);
    forall k | 0 <= k < |p| ensures Node(p, k) {
      var j := if k < i then k else k + 1;
      assert old(Node(q, j));
      Apart(q, j, i - 1);
      Apart(q, j, if i + 1 < |q| then i + 1 else i);
    }
  }

  /** A new region is linked in behind region `i`. */
  method Attach(r: Region, region: Region, ghost q: seq<Region>, ghost i: nat)
    requires Chain(q) && i < |q| && q[i] == region && r !in q && r.next == region.next && r.last == region
    modifies q`next, q`last
    ensures Chain(Inserted(q, i + 1, r))
  {
    assert Node(q, i);
    if region.next != null {
      region.next.last := r;
    }
    region.next := r;
    DistinctInsert(q, i + 1, r);
    ghost var p := Inserted(q, i + 1, r);
    forall k | 0 <= k < |p| ensures Node(p, k) {
      if k != i + 1 {
        var j := if k <= i then k else k - 1;
        assert old(Node(q, j));
        Apart(q, j, i);
        Apart(q, j, if i + 1 < |q| then i + 1 else i);
      }
    }
  }

  /** A region holds this area and counts its pages. */
  ghost predicate Holds(r: Region, a: Area)
    reads r`base, r`size, r`isFree, r`blockCount
  {
    a == Area(r.base, r.size, r.isFree) && r.blockCount * PAGE_SIZE == r.size
  }

  /** `regions` is the list, `areas` what its regions hold. */
  class Handler {
    var base: nat
    var size: nat
    var regionCount: nat
    var first: Region?
    var lastFree: Region?
    ghost var regions: seq<Region>
    ghost var areas: seq<Area>

    /** `mm_create_handler` */
    constructor (base: nat, size: nat)
      requires size > 0 && base % PAGE_SIZE == 0 && size % PAGE_SIZE == 0 && base + size < U64
      ensures Valid() && fresh(regions) && this.base == base && this.size == size && areas == [Area(base, size, true)]
    {
      var region := new Region(base, size, true, null, null);
      this.base, this.size, regionCount := base, size, 1;
      first, lastFree, regions, areas := region, region, [region], [Area(base, size, true)];
      new;
      assert Node(regions, 0) && Shown(0) && Fit(areas, 0);
      forall i: nat, j: nat ensures Differ(regions, i, j) { }
    }

    /** A handler whose regions are still to come. */
    constructor Empty(base: nat, size: nat, count: nat)
      ensures this.base == base && this.size == size && regionCount == count
    {
      this.base, this.size, regionCount := base, size, count;
      first, lastFree, regions, areas := null, null, [], [];
    }

    /** The list is linked, and the heads and the count are right. */
    ghost predicate Linked()
      reads this, regions`next, regions`last
    {
      regions != [] && Chain(regions) && first == lastFree == regions[0] && regionCount == |regions|
    }

    ghost predicate Shown(i: nat)
      reads this, regions
    {
      i < |regions| == |areas| && Holds(regions[i], areas[i])
    }

    /** And the regions tile the address space. */
    ghost predicate Valid()
      reads this, regions
    {
      && Linked() && |areas| == |regions| && Tiles(areas, base, size) && base + size < U64
      && forall i {:trigger Shown(i)} | 0 <= i < |regions| :: Shown(i)
    }

    /** `remove_region`, of any region but the first. */
    method RemoveRegion(region: Region, ghost i: nat)
      requires Linked() && 0 < i < |regions| && regions[i] == region
      modifies this`regions, this`lastFree, this`regionCount, regions`next, regions`last
      ensures Linked() && regions == Without(old(regions), i)
    {
      assert Node(regions, i);
      Apart(regions, 0, i);
      Detach(region, regions, i);
      var heir := if region.last != null then region.last else region.next;
      lastFree := if lastFree == region then heir else lastFree;
      regionCount := regionCount - 1;
      regions := Without(regions, i);
    }

    /** `merge_region`: region `i` takes in the next one. */
    method MergeRegion(region: Region, ghost i: nat) returns (ok: bool)
      requires Valid() && i < |regions| && regions[i] == region
      modifies this`regions, this`areas, this`lastFree, this`regionCount, regions
      ensures Valid() && ok == (i + 1 < |old(regions)|)
      ensures if ok then areas == Merge(old(areas), i) && regions == Without(old(regions), i + 1)
              else areas == old(areas) && regions == old(regions)
    {
      assert Node(regions, i);
      if region.next == null {
        return false;
      }
      assert Node(regions, i + 1) && Shown(i) && Shown(i + 1);
      var from := region.next;
      region.size := region.size + from.size;
      region.blockCount := region.blockCount + from.blockCount;
      RemoveRegion(from, i + 1);
      MergeTiles(areas, base, size, i);
      areas := Merge(areas, i);
      forall k | 0 <= k < |regions| ensures Shown(k) {
        var j := if k <= i then k else k + 1;
        assert old(Shown(j));
        Apart(old(regions), i, j);
      }
      ok := true;
    }

    /** `split_region`: region `i` keeps `n` bytes and a new region gets the rest, which is
        returned; a request for nothing or for at least the whole region leaves it as it is. */
    method SplitRegion(region: Region, n: nat, ghost i: nat) returns (r: Region)
      requires Valid() && i < |regions| && regions[i] == region && n % PAGE_SIZE == 0
      modifies this`regions, this`areas, this`regionCount, regions
      ensures Valid()
      ensures if 0 < n < old(areas)[i].size
              then fresh(r) && regions == Inserted(old(regions), i + 1, r) && areas == Split(old(areas), i, n)
              else r == region && regions == old(regions) && areas == old(areas)
    {
      assert Shown(i);
      if n == 0 || region.size == n {
        return region;
      }
      if region.size < n {
        return region;
      }
      assert Fit(areas, i);
      PagesExact(n);
      r := InsertAfter(region, region.base + n, region.size - n, i);
      region.size := n;
      region.blockCount := PagesOf(n);
      SplitTiles(areas, base, size, i, n);
      areas := Split(areas, i, n);
      forall k | 0 <= k < |regions| ensures Shown(k) {
        if k != i + 1 {
          var j := if k <= i then k else k - 1;
          assert old(Shown(j));
          Apart(old(regions), i, j);
        }
      }
    }

    /** A new region behind region `i`, with the same status. */
    method InsertAfter(region: Region, from: nat, length: nat, ghost i: nat) returns (r: Region)
      requires Linked() && i < |regions| && regions[i] == region && length % PAGE_SIZE == 0
      modifies this`regions, this`regionCount, regions`next, regions`last
      ensures Linked() && fresh(r) && regions == Inserted(old(regions), i + 1, r)
        && Holds(r, Area(from, length, region.isFree))
    {
      PagesExact(length);
      r := new Region(from, length, region.isFree, region.next, region);
      Attach(r, region, regions, i);
      regionCount := regionCount + 1;
      regions := Inserted(regions, i + 1, r);
    }

    /** The common end of `mm_allocate_region_vm`: the region comes into use and joins the
        regions in use on both sides. */
    method FinishRegion(region: Region, ghost i: nat)
      requires Valid() && i < |regions| && regions[i] == region
      modifies this`regions, this`areas, this`lastFree, this`regionCount, regions
      ensures Valid() && areas == Finish(old(areas), i)
    {
      JoinNext(region, i);
      Occupy(region, i);
      assert Node(regions, i);
      if region.last != null {
        assert Shown(i - 1);
        if !region.last.isFree {
          var merged := MergeRegion(region.last, i - 1);
        }
      }
    }

    method JoinNext(region: Region, ghost i: nat)
      requires Valid() && i < |regions| && regions[i] == region
      modifies this`regions, this`areas, this`lastFree, this`regionCount, regions
      ensures Valid() && areas == Upward(old(areas), i) && i < |regions| && regions[i] == region
      ensures forall k | 0 <= k < |regions| :: regions[k] in old(regions)
    {
      assert Node(regions, i);
      if region.next != null {
        assert Shown(i + 1);
        if !region.next.isFree {
          var merged := MergeRegion(region, i);
        }
      }
    }

    method Occupy(region: Region, ghost i: nat)
      requires Valid() && i < |regions| && regions[i] == region
      modifies this`areas, region`isFree
      ensures Valid() && areas == Take(old(areas), i)
    {
      region.isFree := false;
      TakeTiles(areas, base, size, i);
      areas := Take(areas, i);
      forall k | 0 <= k < |regions| ensures Shown(k) {
        assert old(Shown(k));
        Apart(regions, i, k);
      }
    }

    /** The search of a request without a fixed address. */
    method Search(need: nat) returns (region: Region?, ghost i: nat)
      requires Valid()
      ensures i == FirstFit(areas, need, 0)
      ensures var j := FirstFit(areas, need, 0); region == if j < |areas| then regions[j] else null
    {
      var k: nat, tmp := 0, lastFree;
      while k < regionCount
        invariant k <= |regions| && tmp == (if k < |regions| then regions[k] else null)
        invariant FirstFit(areas, need, k) == FirstFit(areas, need, 0)
      {
        assert Node(regions, k) && Shown(k);
        if tmp.isFree {
          if tmp.size >= need {
            return tmp, k;
          }
        }
        tmp := tmp.next;
        k := k + 1;
      }
      return null, k;
    }

    /** A request without a fixed address, already rounded; `ENOMEM` when nothing fits. */
    method AllocateAnywhere(need: nat) returns (ok: bool, result: nat)
      requires Valid() && need % PAGE_SIZE == 0
      modifies this`regions, this`areas, this`lastFree, this`regionCount, regions
      ensures Valid() && ok == (FirstFit(old(areas), need, 0) < |old(areas)|)
      ensures !ok ==> areas == old(areas)
      ensures ok ==> var i := FirstFit(old(areas), need, 0);
        result == old(areas)[i].base && areas == Finish(Cut(old(areas), i, need), i)
    {
      result := 0;
      ghost var i;
      var region;
      region, i := Search(need);
      if region == null {
        return false, 0;
      }
      assert Shown(i);
      result := region.base;
      var rest := SplitRegion(region, need, i);
      FinishRegion(region, i);
      ok := true;
    }

    /** `mm_get_region`: the region that covers an address. */
    method GetRegion(x: nat) returns (region: Region?, ghost i: nat)
      requires Valid()
      ensures i == Locate(areas, x, 0)
      ensures var j := Locate(areas, x, 0); region == if j < |areas| then regions[j] else null
    {
      if x > base + size {
        LocateBehind(areas, base, size, x);
        return null, |areas|;
      }
      var k: nat, tmp := 0, first;
      while k < regionCount
        invariant k <= |regions| && tmp == (if k < |regions| then regions[k] else null)
        invariant Locate(areas, x, k) == Locate(areas, x, 0)
      {
        assert Node(regions, k) && Shown(k);
        if tmp.base <= x && tmp.base + tmp.size > x {
          return tmp, k;
        }
        tmp := tmp.next;
        k := k + 1;
      }
      return null, k;
    }

    /** Take in following regions until there are `need` bytes. There is no way to end up
        behind the handler's range, so the error return of the original loop is never taken. */
    method AbsorbRegions(region: Region, need: nat, ghost i: nat)
      requires Valid() && i < |regions| && regions[i] == region
      modifies this`regions, this`areas, this`lastFree, this`regionCount, regions
      ensures Valid() && i < |regions| && regions[i] == region && areas == Absorb(old(areas), i, need)
      ensures forall k | 0 <= k < |regions| :: regions[k] in old(regions)
    {
      assert Shown(i);
      while region.size < need
        invariant Valid() && i < |regions| && regions[i] == region && Shown(i)
        invariant Absorb(areas, i, need) == Absorb(old(areas), i, need)
        invariant forall k | 0 <= k < |regions| :: regions[k] in old(regions)
        decreases |areas|
      {
        var merged := MergeRegion(region, i);
        assert Shown(i);
        if !merged {
          AreaWithin(areas, base, size, i);
          assert region.base + region.size <= base + size;
          break;
        }
      }
    }

    /** The part of a fixed request that cuts a free region. */
    method CutRegion(region: Region, u: nat, n: nat, ghost i: nat)
      requires Valid() && i < |regions| && regions[i] == region && u < areas[i].size && u % PAGE_SIZE == 0
        && n % PAGE_SIZE == 0
      modifies this`regions, this`areas, this`lastFree, this`regionCount, regions
      ensures Valid() && areas == TakeMiddle(old(areas), i, u, n)
    {
      ghost var j := if u == 0 then i else i + 1;
      var middle := SplitRegion(region, u, i);
      var rest := SplitRegion(middle, n, j);
      FinishRegion(middle, j);
    }

    /** A fixed request in region `i`, `need` bytes from its start. */
    method AllocateIn(region: Region, x: nat, n: nat, need: nat, ghost i: nat)
      requires Valid() && i < |regions| && regions[i] == region && Covers(areas, i, x) && x % PAGE_SIZE == 0
        && n % PAGE_SIZE == 0
      modifies this`regions, this`areas, this`lastFree, this`regionCount, regions
      ensures Valid() && areas == Fixed(old(areas), i, x, n, need)
    {
      assert Shown(i) && Fit(areas, i);
      var u := x - region.base;
      ghost var b := Absorb(areas, i, need);
      FixedIs(areas, i, x, n, need, b, u);
      AbsorbRegions(region, need, i);
      TakeAbsorbed(region, u, n, i, b);
    }

    method TakeAbsorbed(region: Region, u: nat, n: nat, ghost i: nat, ghost b: seq<Area>)
      requires Valid() && areas == b && i < |regions| && regions[i] == region && u < b[i].size
        && u % PAGE_SIZE == 0 && n % PAGE_SIZE == 0
      modifies this`regions, this`areas, this`lastFree, this`regionCount, regions
      ensures Valid() && areas == if b[i].free then TakeMiddle(b, i, u, n) else Finish(b, i)
    {
      assert Shown(i);
      if region.isFree {
        CutRegion(region, u, n, i);
      } else {
        FinishRegion(region, i);
      }
    }

    /** A request at a fixed address, already rounded. Outside the regions nothing is done, and
        only a request that reaches behind the range fails (`EINVAL`). */
    method AllocateFixed(x: nat, n: nat) returns (ok: bool)
      requires Valid() && x < U64 && n < U64 && x % PAGE_SIZE == 0 && n % PAGE_SIZE == 0
      modifies this`regions, this`areas, this`lastFree, this`regionCount, regions
      ensures Valid() && FixedDone(old(areas), areas, base, size, x, n, ok)
    {
      ghost var i;
      var region;
      region, i := GetRegion(x);
      if region == null {
        return Sum(x, n) <= base + size;
      }
      assert Shown(i);
      AllocateIn(region, x, n, Sum(x - region.base, n), i);
      ok := true;
    }

    /** `mm_allocate_region_vm`. The address is rounded down and the size up to pages, both in
        64 bits. */
    method Allocate(at: nat, length: nat, isFixed: bool) returns (ok: bool, result: nat)
      requires Valid() && at < U64 && length < U64
      modifies this`regions, this`areas, this`lastFree, this`regionCount, regions
      ensures Valid()
      ensures isFixed ==>
        result == Start(at) && FixedDone(old(areas), areas, base, size, Start(at), Need(at, length), ok)
      ensures !isFixed ==> Served(old(areas), areas, base, size, Need(at, length), ok, result)
    {
      var x, n := Round(at, length);
      if isFixed {
        ok := AllocateFixed(x, n);
        result := x;
      } else {
        ghost var a := areas;
        ok, result := AllocateAnywhere(n);
        AnywhereExactly(a, areas, base, size, n, ok, result);
      }
    }
  }

  /** Copy `k` of the first `n` copies: it holds what its source holds, and is linked to the
      copies next to it; the last copy still has its source's forward link. */
  ghost predicate Copied(from: seq<Region>, copies: seq<Region>, k: nat)
    reads from, copies
  {
    && k < |copies| <= |from|
    && copies[k].base == from[k].base && copies[k].size == from[k].size && copies[k].isFree == from[k].isFree
    && copies[k].blockCount == from[k].blockCount
    && copies[k].last == (if k == 0 then from[k].last else copies[k - 1])
    && copies[k].next == (if k + 1 < |copies| then copies[k + 1] else from[k].next)
  }

  ghost predicate AllCopied(from: seq<Region>, copies: seq<Region>)
    reads from, copies
  {
    forall k {:trigger Copied(from, copies, k)} | 0 <= k < |copies| :: Copied(from, copies, k)
  }

  /** One more copy, linked behind the last one. */
  method CopyNext(region: Region, prev: Region?, ghost from: seq<Region>,
    ghost copies: seq<Region>) returns (copy: Region)
    requires |copies| < |from| && region == from[|copies|] && AllCopied(from, copies) && Distinct(copies)
    requires (forall k | 0 <= k < |copies| :: copies[k] !in from)
      && prev == if copies == [] then null else copies[|copies| - 1]
    modifies if prev == null then {} else {prev}
    ensures fresh(copy) && AllCopied(from, copies + [copy]) && Distinct(copies + [copy])
  {
    copy := new Region(region.base, region.size, region.isFree, region.next, region.last);
    copy.blockCount := region.blockCount;
    if prev != null {
      copy.last := prev;
      prev.next := copy;
    }
    DistinctPush(copies, copy);
    forall k | 0 <= k < |copies + [copy]| ensures Copied(from, copies + [copy], k) {
      if k < |copies| {
        assert old(Copied(from, copies, k));
        Apart(copies, k, |copies| - 1);
      }
    }
  }

  /** The loop of `mm_clone_handler`. */
  method CopyRegions(source: Handler, copy: Handler) returns (ghost copies: seq<Region>)
    requires source.Valid() && copy != source
    modifies copy`first, copy`lastFree
    ensures |copies| == |source.regions| && AllCopied(source.regions, copies) && Distinct(copies)
    ensures (forall k | 0 <= k < |copies| :: fresh(copies[k])) && copy.first == copy.lastFree == copies[0]
    ensures source.Valid() && source.regions == old(source.regions)
  {
    ghost var from := source.regions;
    copies := [];
    var prev: Region?, region, i: nat := null, source.first, 0;
    while i < source.regionCount
      invariant |copies| == i <= |from| && region == (if i < |from| then from[i] else null)
      invariant prev == (if i == 0 then null else copies[i - 1]) && AllCopied(from, copies) && Distinct(copies)
      invariant forall k | 0 <= k < |copies| :: fresh(copies[k])
      invariant source.Valid() && source.regions == from
      invariant i > 0 ==> copy.first == copy.lastFree == copies[0]
    {
      assert Node(from, i);
      Apart(from, 0, i);
      var next := CopyNext(region, prev, from, copies);
      if region == source.first {
        copy.first := next;
      }
      if region == source.lastFree {
        copy.lastFree := next;
      }
      copies := copies + [next];
      prev := next;
      region := region.next;
      i := i + 1;
    }
  }

  /** `mm_clone_handler` */
  method Clone(source: Handler) returns (copy: Handler)
    requires source.Valid()
    ensures copy.Valid() && fresh(copy) && fresh(copy.regions)
    ensures copy.base == source.base && copy.size == source.size && copy.areas == source.areas
  {
    copy := new Handler.Empty(source.base, source.size, source.regionCount);
    ghost var from := source.regions;
    ghost var copies := CopyRegions(source, copy);
    copy.regions, copy.areas := copies, source.areas;
    forall k | 0 <= k < |copies| ensures Node(copies, k) {
      assert Copied(from, copies, k) && Node(from, k);
    }
    forall k | 0 <= k < |copies| ensures copy.Shown(k) {
      assert Copied(from, copies, k) && source.Shown(k);
    }
  }

  method Round(at: nat, length: nat) returns (x: nat, n: nat)
    requires at < U64 && length < U64
    ensures x == Start(at) && n == Need(at, length)
    ensures x < U64 && n < U64 && x % PAGE_SIZE == 0 && n % PAGE_SIZE == 0
  {
    n, x := length, at;
    if at % PAGE_SIZE != 0 {
      n := (n + at % PAGE_SIZE) % U64;
      x := at - at % PAGE_SIZE;
    }
    if n % PAGE_SIZE != 0 {
      n := (n - n % PAGE_SIZE + PAGE_SIZE) % U64;
    }
    NeedIsPages(at, length);
  }

  function Start(at: nat): nat {
    at - at % PAGE_SIZE
  }

  /** The size of a request after rounding. */
  function Need(at: nat, length: nat): (n: nat)
    requires length < U64
  {
    var n := if at % PAGE_SIZE == 0 then length else (length + at % PAGE_SIZE) % U64;
    if n % PAGE_SIZE == 0 then n else (n - n % PAGE_SIZE + PAGE_SIZE) % U64
  }

  /** The request starts on the page of `at`; its size is a number of pages, and the smallest that covers
      the request from there exactly if that fits 64 bits, and too small otherwise. */
  lemma NeedIsPages(at: nat, length: nat)
    requires length < U64
    ensures Start(at) % PAGE_SIZE == 0 && Start(at) <= at < Start(at) + PAGE_SIZE
    ensures Need(at, length) % PAGE_SIZE == 0 && Need(at, length) < U64
    ensures var n := at - Start(at) + length;
      && (n <= Need(at, length) <==> n + PAGE_SIZE <= U64)
      && (n + PAGE_SIZE <= U64 ==> Need(at, length) < n + PAGE_SIZE)
  {
    var off := at % PAGE_SIZE;
    WholePages(at);
    assert U64 == 0x10_0000_0000_0000 * PAGE_SIZE;
    if off + length >= U64 { Wrapped(off + length); }
  }

  /** A request for all addresses from the second on is one of nothing. */
  lemma WrapsToNothing()
    ensures Need(1, U64 - 1) == 0
  {
  }

  lemma WholePages(at: nat)
    ensures (at - at % PAGE_SIZE) % PAGE_SIZE == 0
  {
    assert at - at % PAGE_SIZE == at / PAGE_SIZE * PAGE_SIZE;
  }

  lemma Wrapped(x: nat)
    requires U64 <= x < U64 + PAGE_SIZE
    ensures x % U64 == x - U64
  {
  }

  /** The outcome of a fixed request. */
  ghost predicate FixedDone(a: seq<Area>, a': seq<Area>, base: nat, size: nat, x: nat, n: nat, ok: bool) {
    var i := Locate(a, x, 0);
    if i == |a| then a' == a && ok == (Sum(x, n) <= base + size)
    else ok && a' == Fixed(a, i, x, n, Sum(x - a[i].base, n))
  }

  /** What a fixed request does. One that ends with an area, or in an area of the status of the one it
      starts in, puts exactly its addresses into use, as far as they are in the range, and keeps
      maximal areas maximal; any other does not. A request of nothing, or one whose end does not fit
      64 bits, takes the rest of the area. Outside the areas nothing happens. */
  ghost predicate Placed(a: seq<Area>, a': seq<Area>, base: nat, size: nat, x: nat, n: nat, ok: bool) {
    var i := Locate(a, x, 0);
    if i == |a| then a' == a && ok == (Sum(x, n) <= base + size)
    else ok && if n == 0 || x - a[i].base + n >= U64 then Rested(a, a', i, x) else Settled(a, a', base, size, i, x, n)
  }

  ghost predicate Rested(a: seq<Area>, a': seq<Area>, i: nat, x: nat)
    requires i < |a|
  {
    Occupied(a, a', x, a[i].base + a[i].size) && (Alternating(a) ==> Alternating(a'))
  }

  ghost predicate Settled(a: seq<Area>, a': seq<Area>, base: nat, size: nat, i: nat, x: nat, n: nat)
    requires 0 < n
  {
    var e := Min(x + n, base + size);
    && e > 0
    && var j := Locate(a, e - 1, 0);
    (Occupied(a, a', x, e) <==> Settles(a, i, j, e)) && (Alternating(a) && Settles(a, i, j, e) ==> Alternating(a'))
  }

  lemma FixedExactly(a: seq<Area>, a': seq<Area>, base: nat, size: nat, x: nat, n: nat, ok: bool)
    requires Tiles(a, base, size) && base + size < U64 && x % PAGE_SIZE == 0 && n % PAGE_SIZE == 0 && n < U64
    requires FixedDone(a, a', base, size, x, n, ok)
    ensures Placed(a, a', base, size, x, n, ok)
  {
    var i := Locate(a, x, 0);
    if i < |a| {
      AreaWithin(a, base, size, i);
      FixedIn(a, a', base, size, i, x, n, x - a[i].base);
    }
  }

  /** In area `i`, `u` bytes from its start. */
  lemma FixedIn(a: seq<Area>, a': seq<Area>, base: nat, size: nat, i: nat, x: nat, n: nat, u: nat)
    requires Tiles(a, base, size) && i < |a| && Covers(a, i, x) && x % PAGE_SIZE == 0 && n % PAGE_SIZE == 0 && n < U64
    requires u == x - a[i].base && a[i].base + a[i].size < U64 && a' == Fixed(a, i, x, n, Sum(u, n))
    ensures if n == 0 || u + n >= U64 then Rested(a, a', i, x) else Settled(a, a', base, size, i, x, n)
  {
    if n == 0 || u + n >= U64 {
      SumWraps(u, n);
      FixedRests(a, a', base, size, i, x, n, Sum(u, n));
    } else {
      SumExact(u, n);
      FixedSettles(a, a', base, size, i, x, n);
    }
  }

  lemma FixedRests(a: seq<Area>, a': seq<Area>, base: nat, size: nat, i: nat, x: nat, n: nat, need: nat)
    requires Tiles(a, base, size) && i < |a| && Covers(a, i, x) && x % PAGE_SIZE == 0 && n % PAGE_SIZE == 0
    requires need <= a[i].size && (n == 0 || n >= a[i].base + a[i].size - x) && a' == Fixed(a, i, x, n, need)
    ensures Rested(a, a', i, x)
  {
    FixedRest(a, base, size, i, x, n, need);
    if Alternating(a) { RestAlternates(a, i, x, n, need); }
  }

  lemma FixedSettles(a: seq<Area>, a': seq<Area>, base: nat, size: nat, i: nat, x: nat, n: nat)
    requires Tiles(a, base, size) && i < |a| && Covers(a, i, x) && x % PAGE_SIZE == 0 && n % PAGE_SIZE == 0 && 0 < n
    requires a' == Fixed(a, i, x, n, x - a[i].base + n)
    ensures Settled(a, a', base, size, i, x, n)
  {
    var e := Min(x + n, base + size);
    var j := LastAt(a, base, size, i, x, n, e);
    FixedExact(a, base, size, i, x, n, e, j);
    if Alternating(a) && Settles(a, i, j, e) { FixedAlternates(a, base, size, i, x, n, e, j); }
  }

  /** The area in which the request ends. */
  lemma LastAt(a: seq<Area>, base: nat, size: nat, i: nat, x: nat, n: nat, e: nat) returns (j: nat)
    requires Tiles(a, base, size) && i < |a| && Covers(a, i, x) && 0 < n && e == Min(x + n, base + size)
    ensures 0 < e && j == Locate(a, e - 1, 0) < |a|
  {
    AreaWithin(a, base, size, i);
    var k := Covered(a, base, size, e - 1, i);
    j := Locate(a, e - 1, 0);
  }

  lemma SumWraps(u: nat, n: nat)
    requires u < U64 && n < U64 && (n == 0 || u + n >= U64)
    ensures Sum(u, n) <= u
  {
  }

  /** A sum in 64 bits. */
  function Sum(a: nat, b: nat): nat {
    (a + b) % U64
  }

  lemma SumExact(a: nat, b: nat)
    requires a + b < U64
    ensures Sum(a, b) == a + b
  {
  }

  /** What a request without a fixed address does. It takes its bytes from the front of the
      first free area that has them (for a request of nothing, all of the first free area).
      While the areas are maximal, that is the lowest range that is free and long enough, and a
      failure (`ENOMEM`) means that there is none. */
  ghost predicate Served(a: seq<Area>, a': seq<Area>, base: nat, size: nat, n: nat, ok: bool, result: nat) {
    var i := FirstFit(a, n, 0);
    && ok == (i < |a|)
    && (!ok ==> a' == a)
    && (ok ==> result == a[i].base && Occupied(a, a', result, result + if n == 0 then a[i].size else n))
    && (Alternating(a) ==> Alternating(a') && (n > 0 ==> Found(a, base, size, n, ok, result)))
  }

  ghost predicate Found(a: seq<Area>, base: nat, size: nat, n: nat, ok: bool, result: nat) {
    if ok then Lowest(a, base, size, result, n) else Nowhere(a, base, size, n)
  }

  lemma TakenOccupies(a: seq<Area>, a': seq<Area>, base: nat, size: nat, i: nat, n: nat, e: nat)
    requires Tiles(a, base, size) && i < |a| && n <= a[i].size && n % PAGE_SIZE == 0 && a' == Finish(Cut(a, i, n), i)
    requires e == a[i].base + if n == 0 then a[i].size else n
    ensures Occupied(a, a', a[i].base, e)
  {
    forall y ensures Change(a, a', a[i].base, e, y) { TakeFront(a, base, size, i, n, y); }
  }

  /** The first fit of maximal areas is the lowest place. */
  lemma FirstIsFound(a: seq<Area>, base: nat, size: nat, n: nat, ok: bool, result: nat)
    requires Tiles(a, base, size) && Alternating(a) && n > 0 && ok == (FirstFit(a, n, 0) < |a|)
    requires ok ==> result == a[FirstFit(a, n, 0)].base
    ensures Found(a, base, size, n, ok, result)
  {
    FirstFitIsLowest(a, base, size, n);
  }

  lemma AnywhereTaken(a: seq<Area>, a': seq<Area>, base: nat, size: nat, n: nat, i: nat)
    requires Tiles(a, base, size) && n % PAGE_SIZE == 0 && i == FirstFit(a, n, 0) < |a| && a' == Finish(Cut(a, i, n), i)
    ensures Served(a, a', base, size, n, true, a[i].base)
  {
    var e := a[i].base + if n == 0 then a[i].size else n;
    TakenOccupies(a, a', base, size, i, n, e);
    if Alternating(a) {
      TakeFrontAlternates(a, i, n);
      if n > 0 { FirstIsFound(a, base, size, n, true, a[i].base); }
    }
  }

  lemma AnywhereExactly(a: seq<Area>, a': seq<Area>, base: nat, size: nat, n: nat, ok: bool, result: nat)
    requires Tiles(a, base, size) && n % PAGE_SIZE == 0 && ok == (FirstFit(a, n, 0) < |a|) && (!ok ==> a' == a)
    requires ok ==> var i := FirstFit(a, n, 0); result == a[i].base && a' == Finish(Cut(a, i, n), i)
    ensures Served(a, a', base, size, n, ok, result)
  {
    if ok {
      AnywhereTaken(a, a', base, size, n, FirstFit(a, n, 0));
    } else if Alternating(a) && n > 0 {
      FirstIsFound(a, base, size, n, ok, result);
    }
  }
}
