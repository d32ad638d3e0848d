/** `malloc`, `free` and `realloc` of the kernel heap over an address-indexed store of
    segment headers and data bytes. Each method refines an operation of `HeapLayout`. */
module KernelHeap {

  import opened HeapLayout
  import opened Machine

  const NULL := 0
  const SIGNATURE := 0xff

  datatype Header = Header(isFree: bool, length: int, next: int, last: int, signature: int)

  // ---------------------------------------------------------------- memory

  /** Memory holds headers and data. Writing a header destroys every header it overlaps. */
  function Put(hdr: map<int, Header>, a: int, h: Header): map<int, Header> {
    Erase(hdr, a)[a := h]
  }

  function Erase(hdr: map<int, Header>, a: int): map<int, Header> {
    map k | k in hdr && (k + HEADER <= a || a + HEADER <= k) :: hdr[k]
  }

  /** The data bytes that survive a write to the header at `a`. */
  function Wipe(data: map<int, Byte>, a: int): map<int, Byte> {
    map x | x in data && (x < a || a + HEADER <= x) :: data[x]
  }

  ghost function Bytes(data: map<int, Byte>, s: Segment): map<int, Byte> {
    map x | x in data && s.Data() <= x < s.End() :: data[x]
  }

  /** No byte of a block in `live` differs. */
  ghost predicate Keeps(live: set<Segment>, before: map<int, Byte>, after: map<int, Byte>) {
    forall s | s in live :: Bytes(before, s) == Bytes(after, s)
  }

  ghost function ByteAt(data: map<int, Byte>, x: int): Option<Byte> {
    if x in data then Some(data[x]) else None
  }

  /** `n` bytes at `to` are what the `n` bytes at `from` were. */
  ghost predicate Moved(before: map<int, Byte>, from: int, after: map<int, Byte>, to: int, n: int) {
    forall x | to <= x < to + n :: ByteAt(after, x) == ByteAt(before, Source(x, to, from))
  }

  /** The address `memcpy(dst, src, n)` reads for the byte it stores at `x`. */
  function Source(x: int, dst: int, src: int): int {
    src + (x - dst)
  }

  function Copied(data: map<int, Byte>, dst: int, src: int, n: int): map<int, Byte> {
    (map x | x in data && (x < dst || dst + n <= x) :: data[x]) +
    (map x: int | dst <= x < dst + n && Source(x, dst, src) in data :: data[Source(x, dst, src)])
  }

  /** The `n` bytes at `a` meet no header. */
  ghost predicate AllOutside(segs: seq<Segment>, a: int, n: int) {
    forall i | 0 <= i < |segs| :: segs[i].addr + HEADER <= a || a + n <= segs[i].addr
  }

  /** A header at `a` lies outside every block in `live`. */
  ghost predicate Clear(live: set<Segment>, a: int) {
    forall s | s in live :: a + HEADER <= s.Data() || s.End() <= a
  }

  lemma WipeKeeps(live: set<Segment>, data: map<int, Byte>, a: int)
    requires Clear(live, a)
    ensures Keeps(live, data, Wipe(data, a))
  {
    forall s | s in live ensures Bytes(data, s) == Bytes(Wipe(data, a), s) {
    }
  }

  lemma HeaderClear(segs: seq<Segment>, k: nat)
    requires Layout(segs) && k < |segs|
    ensures Clear(Live(segs), segs[k].addr)
  {
    forall s | s in Live(segs) ensures segs[k].addr + HEADER <= s.Data() || s.End() <= segs[k].addr {
      var j :| 0 <= j < |segs| && segs[j] == s;
      if j < k {
        Descending(segs, j, k);
        assert Fits(segs, k);
      } else if k < j {
        Descending(segs, k, j);
      }
    }
  }

  // ---------------------------------------------------------------- the linked list

  /** What the list `segs` says the header of segment `i` must hold. */
  function HeaderOf(segs: seq<Segment>, i: nat): Header
    requires i < |segs|
  {
    Header(segs[i].isFree, segs[i].length,
           if i + 1 < |segs| then segs[i + 1].addr else NULL,
           if i > 0 then segs[i - 1].addr else NULL,
           SIGNATURE)
  }

  /** Headers do not overlap. */
  ghost predicate Spaced(segs: seq<Segment>) {
    forall i, j | 0 <= i < j < |segs| :: segs[j].addr + HEADER <= segs[i].addr
  }

  ghost predicate Stored(hdr: map<int, Header>, segs: seq<Segment>, i: nat)
    requires i < |segs|
  {
    segs[i].addr != NULL && segs[i].addr in hdr && hdr[segs[i].addr] == HeaderOf(segs, i)
  }

  /** The headers in memory are the doubly linked list `segs`. */
  ghost predicate Linked(hdr: map<int, Header>, segs: seq<Segment>) {
    && Spaced(segs)
    && (forall i | 0 <= i < |segs| :: segs[i].addr in hdr)
    && forall i | 0 <= i < |segs| :: Stored(hdr, segs, i)
  }

  lemma LinkedFrom(hdr: map<int, Header>, segs: seq<Segment>)
    requires Spaced(segs) && forall i | 0 <= i < |segs| :: Stored(hdr, segs, i)
    ensures Linked(hdr, segs)
  {
    forall i | 0 <= i < |segs| ensures segs[i].addr in hdr {
      assert Stored(hdr, segs, i);
    }
  }

  lemma LayoutSpaced(segs: seq<Segment>)
    requires Layout(segs)
    ensures Spaced(segs)
  {
    forall i, j | 0 <= i < j < |segs| ensures segs[j].addr + HEADER <= segs[i].addr {
      Descending(segs, i, j);
      assert Fits(segs, j);
    }
  }

  class Allocator {
    var hdr: map<int, Header>
    var data: map<int, Byte>
    var heapEnd: int
    var lastSegment: int
    var mainSegment: int
    var totalSize: int
    var freeSize: int
    var usedSize: int
    ghost var segs: seq<Segment>

    ghost function Abs(): Heap
      reads this
    {
      Heap(segs, totalSize, freeSize, usedSize)
    }

    ghost predicate Anchored()
      reads this
    {
      && segs != []
      && mainSegment == segs[0].addr
      && lastSegment == heapEnd == segs[|segs| - 1].addr
    }

    ghost predicate Valid()
      reads this
    {
      Inv(Abs()) && Linked(hdr, segs) && Anchored()
    }

    /** A store to the header at `a`. Headers it does not overlap survive, and so do the bytes
        of blocks it lies outside of. */
    method WriteHeader(a: int, h: Header, ghost live: set<Segment>)
      requires Clear(live, a)
      modifies this`hdr, this`data
      ensures hdr == Put(old(hdr), a, h)
      ensures Keeps(live, old(data), data)
    {
      hdr := Put(hdr, a, h);
      data := Wipe(data, a);
      WipeKeeps(live, old(data), a);
    }

    /** `memset(header, 0, sizeof(struct heap_segment_header))` */
    method ClearHeader(a: int, ghost live: set<Segment>)
      requires Clear(live, a)
      modifies this`hdr, this`data
      ensures hdr == Erase(old(hdr), a)
      ensures Keeps(live, old(data), data)
    {
      hdr := Erase(hdr, a);
      data := Wipe(data, a);
      WipeKeeps(live, old(data), a);
    }

    /** `merge_last_to_this`: the segment at `header` swallows its upper neighbour. */
    method MergeLastToThis(header: int, ghost i: nat, ghost live: set<Segment>)
      requires Linked(hdr, segs) && Anchored() && 2 <= i < |segs| && segs[i].addr == header
      requires Clear(live, header) && Clear(live, segs[i - 1].addr) && Clear(live, segs[i - 2].addr)
      modifies this`hdr, this`data, this`segs
      ensures segs == Absorb(old(segs), i) && Linked(hdr, segs) && Anchored()
      ensures Keeps(live, old(data), data)
    {
      AbsorbLinked(hdr, segs, i);
      Swallow(header, hdr[header].last, live);
      segs := Absorb(segs, i);
    }

    /** `merge_this_to_next`: the lower neighbour swallows the segment at `header`. */
    method MergeThisToNext(header: int, ghost i: nat, ghost live: set<Segment>)
      requires Linked(hdr, segs) && Anchored() && 1 <= i && i + 1 < |segs| && segs[i].addr == header
      requires Clear(live, header) && Clear(live, segs[i - 1].addr) && Clear(live, segs[i + 1].addr)
      modifies this`hdr, this`data, this`segs
      ensures segs == Absorb(old(segs), i + 1) && Linked(hdr, segs) && Anchored()
      ensures Keeps(live, old(data), data)
    {
      AbsorbLinked(hdr, segs, i + 1);
      Swallow(hdr[header].next, header, live);
      segs := Absorb(segs, i + 1);
    }

    /** The stores both merge functions make: `low` takes over the bytes and the upper link
        of `high`, whose header is cleared. */
    method Swallow(low: int, high: int, ghost live: set<Segment>)
      requires CanSwallow(hdr, low, high)
      requires Clear(live, low) && Clear(live, high) && Clear(live, hdr[high].last)
      modifies this`hdr, this`data
      ensures hdr == Swallowed(old(hdr), low, high)
      ensures Keeps(live, old(data), data)
    {
      WriteHeader(low, hdr[low].(length := hdr[low].length + hdr[high].length + HEADER, last := hdr[high].last), live);
      var above := hdr[low].last;
      WriteHeader(above, hdr[above].(next := low), live);
      ClearHeader(high, live);
    }

    method MergeLastAndThisToNext(header: int, ghost i: nat, ghost live: set<Segment>)
      requires Linked(hdr, segs) && Anchored() && 2 <= i && i + 1 < |segs| && segs[i].addr == header
      requires Clear(live, header) && Clear(live, segs[i - 1].addr) && Clear(live, segs[i - 2].addr)
      requires Clear(live, segs[i + 1].addr)
      modifies this`hdr, this`data, this`segs
      ensures segs == Absorb(Absorb(old(segs), i), i) && Linked(hdr, segs) && Anchored()
      ensures Keeps(live, old(data), data)
    {
      MergeLastToThis(header, i, live);
      MergeThisToNext(header, i - 1, live);
    }

    /** `split_segment`: carve `size` bytes and a header off the upper end of a free segment. */
    method SplitSegment(segment: int, size: int, ghost i: nat, ghost live: set<Segment>) returns (r: int)
      requires Linked(hdr, segs) && 1 <= i < |segs| && segs[i].addr == segment && segs[i].isFree && size >= 0
      requires Anchored() && segs[i].End() <= segs[i - 1].addr && segment + segs[i].length - size != NULL
      requires Clear(live, segment) && Clear(live, segs[i - 1].addr) && Clear(live, segment + segs[i].length - size)
      modifies this`hdr, this`data, this`segs, this`lastSegment
      ensures r == NULL <==> old(segs)[i].length <= size + HEADER
      ensures r == NULL ==> segs == old(segs) && hdr == old(hdr)
      ensures r != NULL ==> segs == SplitAt(old(segs), i, size) && r == segs[i].addr
      ensures Linked(hdr, segs) && Anchored()
      ensures Keeps(live, old(data), data)
    {
      assert Stored(hdr, segs, i);
      if hdr[segment].length > size + HEADER {
        SplitEnds(hdr, segs, i, size);
        var carved := segment + hdr[segment].length - size;
        if hdr[segment].next == NULL {
          lastSegment := segment;
        }
        InsertCarved(segment, carved, size, i, live);
        return carved;
      }
      return NULL;
    }

    method InsertCarved(segment: int, carved: int, size: int, ghost i: nat, ghost live: set<Segment>)
      requires Linked(hdr, segs) && 1 <= i < |segs| && segs[i].addr == segment && segs[i].isFree && size >= 0
      requires carved == segment + segs[i].length - size && carved != NULL && segs[i].length > size + HEADER
      requires segs[i].End() <= segs[i - 1].addr
      requires Clear(live, segment) && Clear(live, segs[i - 1].addr) && Clear(live, carved)
      modifies this`hdr, this`data, this`segs
      ensures segs == SplitAt(old(segs), i, size) && Linked(hdr, segs)
      ensures Keeps(live, old(data), data)
    {
      SplitLinked(hdr, segs, i, size);
      LinkCarved(segment, carved, size, live);
      segs := SplitAt(segs, i, size);
    }

    /** The header stores of `split_segment`. */
    method LinkCarved(segment: int, carved: int, size: int, ghost live: set<Segment>)
      requires CanCarve(hdr, segment, carved)
      requires Clear(live, segment) && Clear(live, hdr[segment].last) && Clear(live, carved)
      modifies this`hdr, this`data
      ensures hdr == CarvedOff(old(hdr), segment, carved, size)
      ensures Keeps(live, old(data), data)
    {
      WriteHeader(carved, Header(true, size, segment, hdr[segment].last, SIGNATURE), live);
      var above := hdr[segment].last;
      if above != NULL {
        WriteHeader(above, hdr[above].(next := carved), live);
      }
      WriteHeader(segment, hdr[segment].(last := carved, length := hdr[segment].length - (size + HEADER)), live);
    }

    method SetFree(header: int, value: bool, ghost i: nat, ghost live: set<Segment>)
      requires Linked(hdr, segs) && i < |segs| && segs[i].addr == header && Clear(live, header)
      modifies this`hdr, this`data, this`segs
      ensures segs == old(segs)[i := old(segs)[i].(isFree := value)] && Linked(hdr, segs)
      ensures Keeps(live, old(data), data)
    {
      assert Stored(hdr, segs, i);
      WriteHeader(header, hdr[header].(isFree := value), live);
      FlagLinked(old(hdr), hdr, segs, i, value);
      segs := segs[i := segs[i].(isFree := value)];
    }

    /** `expand_heap`: map pages below the heap. A free lowest segment is extended down to
        them, leaving the bytes of one header unclaimed; otherwise they become a segment. */
    method ExpandHeap(size: nat)
      requires Valid() && heapEnd > Growth(size)
      modifies this
      ensures Valid() && Abs() == Grow(old(Abs()), size)
      ensures Keeps(Live(old(segs)), old(data), data)
    {
      GrowPrepared(Abs(), size);
      MapPages(size, Live(segs));
    }

    method MapPages(size: nat, ghost live: set<Segment>)
      requires Linked(hdr, segs) && |segs| >= 2 && Anchored() && heapEnd > Growth(size)
      requires Clear(live, segs[|segs| - 1].addr - Growth(size))
      requires Clear(live, segs[|segs| - 1].addr) && Clear(live, segs[|segs| - 2].addr)
      modifies this
      ensures Linked(hdr, segs) && Anchored() && Abs() == Grow(old(Abs()), size)
      ensures Keeps(live, old(data), data)
    {
      var length := Growth(size);
      heapEnd := heapEnd - length;
      InsertExpansion(heapEnd, length, size, live);
      totalSize := totalSize + length + HEADER;
      freeSize := freeSize + length + HEADER;
    }

    method InsertExpansion(segment: int, length: nat, ghost size: nat, ghost live: set<Segment>)
      requires Linked(hdr, segs) && |segs| >= 2 && lastSegment == segs[|segs| - 1].addr
      requires length == Growth(size) && segment == lastSegment - length && segment > 0
      requires Clear(live, segment) && Clear(live, segs[|segs| - 1].addr) && Clear(live, segs[|segs| - 2].addr)
      modifies this`hdr, this`data, this`lastSegment, this`segs
      ensures segs == Expand(old(segs), size) && Linked(hdr, segs) && lastSegment == segment
      ensures segs != [] && segs[0] == old(segs[0]) && segs[|segs| - 1].addr == segment
      ensures Keeps(live, old(data), data)
    {
      LinkExpansion(segment, length, live);
      ExpandLinked(old(hdr), hdr, segs, size);
      segs := Expand(segs, size);
    }

    /** The header stores of `expand_heap`. */
    method LinkExpansion(segment: int, length: nat, ghost live: set<Segment>)
      requires Linked(hdr, segs) && |segs| >= 2 && lastSegment == segs[|segs| - 1].addr
      requires length >= HEADER && segment == lastSegment - length
      requires Clear(live, segment) && Clear(live, segs[|segs| - 1].addr) && Clear(live, segs[|segs| - 2].addr)
      modifies this`hdr, this`data, this`lastSegment
      ensures ExpandStored(old(hdr), hdr, segs, length) && lastSegment == segment
      ensures Keeps(live, old(data), data)
    {
      ghost var n := |segs| - 1;
      assert Stored(hdr, segs, n) && Stored(hdr, segs, n - 1);
      if lastSegment != NULL && hdr[lastSegment].isFree && hdr[lastSegment].last != NULL {
        var above := hdr[lastSegment].last;
        var size := hdr[lastSegment].length + length;
        WriteHeader(segment, Header(true, size - HEADER, NULL, above, SIGNATURE), live);
        WriteHeader(above, hdr[above].(next := segment), live);
      } else {
        WriteHeader(segment, Header(true, length - HEADER, NULL, lastSegment, SIGNATURE), live);
        if lastSegment != NULL {
          WriteHeader(lastSegment, hdr[lastSegment].(next := segment), live);
        }
      }
      lastSegment := segment;
    }

    /** `heap_init`: the page below `high` holds `main_segment` at its top and one free segment. */
    constructor (high: int, mem: map<int, Byte>)
      requires high % PAGE == 0 && high > PAGE
      ensures Valid() && Abs() == Init(high)
    {
      heapEnd := high - PAGE;
      mainSegment := high - PAGE + (PAGE - HEADER);
      hdr := map[high - HEADER := Header(false, 0, high - PAGE, NULL, SIGNATURE),
                 high - PAGE := Header(true, PAGE - HEADER - HEADER, NULL, high - HEADER, SIGNATURE)];
      data := mem;
      lastSegment := high - PAGE;
      totalSize := PAGE;
      freeSize := PAGE;
      usedSize := 0;
      segs := Init(high).segs;
      InitInv(high);
      LayoutSpaced(Init(high).segs);
    }

    /** Hand out the usable segment `i`, split when it is too long. */
    method TakeSegment(segment: int, size: nat, ghost i: nat) returns (p: int)
      requires Valid() && i < |segs| && segs[i].addr == segment && Usable(segs[i], size)
      requires size > 0 && size % GRAIN == 0
      modifies this
      ensures Valid() && Abs() == Take(old(Abs()), i, size)
      ensures p == Carved(old(segs)[i], size).Data()
      ensures Keeps(Live(old(segs)), old(data), data)
    {
      ghost var taken := Take(Abs(), i, size);
      TakePrepared(segs, i, size);
      TakeKeepsInv(Abs(), i, size);
      var current := CarveSegment(segment, size, i, Live(segs));
      assert Stored(hdr, segs, i);
      usedSize := usedSize + (hdr[current].length + HEADER);
      freeSize := freeSize - (hdr[current].length + HEADER);
      p := current + HEADER;
      assert Abs() == taken;
    }

    /** The header stores of `TakeSegment`. */
    method CarveSegment(segment: int, size: nat, ghost i: nat, ghost live: set<Segment>) returns (current: int)
      requires Linked(hdr, segs) && 1 <= i < |segs| && segs[i].addr == segment && Usable(segs[i], size)
      requires Anchored() && segs[i].End() <= segs[i - 1].addr && segment + segs[i].length - size != NULL
      requires Clear(live, segment) && Clear(live, segs[i - 1].addr) && Clear(live, Carved(segs[i], size).addr)
      modifies this`hdr, this`data, this`segs, this`lastSegment
      ensures segs == TakeAt(old(segs), i, size) && current == Carved(old(segs)[i], size).addr
      ensures i < |segs| && segs[i] == Carved(old(segs)[i], size)
      ensures Linked(hdr, segs) && Anchored()
      ensures Keeps(live, old(data), data)
    {
      assert Stored(hdr, segs, i);
      current := segment;
      if hdr[segment].length > size + HEADER {
        current := SplitSegment(segment, size, i, live);
      }
      SetFree(current, false, i, live);
      TakeIsSplit(old(segs), i, size);
    }

    /** `malloc`: first fit from the top of the heap; when nothing fits, expand and retry. */
    method Malloc(size: nat) returns (p: int)
      requires Valid() && (size > 0 ==> Room(Abs(), Granted(size)))
      modifies this
      ensures Valid() && Abs() == Apply(old(Abs()), HeapLayout.Malloc(size))
      ensures p == if size == 0 then NULL else Block(old(Abs()), size).Data()
      ensures Keeps(Live(old(segs)), old(data), data)
      decreases if size == 0 then 0 else Expansions(Abs(), Granted(size))
    {
      if size == 0 {
        return NULL;
      }
      var size' := size;
      if size % 0x10 > 0 {
        size' := size' - size % 0x10;
        size' := size' + 0x10;
      }
      assert size' == Granted(size) == Granted(size');
      var segment := FindSegment(size');
      if segment != NULL {
        p := TakeSegment(segment, size', FirstFit(segs, size'));
        return;
      }
      RetryLemma(Abs(), size);
      ExpandLive(segs, size');
      ExpandHeap(size');
      p := Malloc(size');
    }

    /** The search loop of `malloc`. */
    method FindSegment(size: nat) returns (current: int)
      requires Valid()
      ensures var i := FirstFit(segs, size); current == if i < |segs| then segs[i].addr else NULL
      ensures current == NULL <==> FirstFit(segs, size) == |segs|
    {
      current := mainSegment;
      ghost var i := 0;
      while current != NULL
        invariant i <= |segs| && current == (if i < |segs| then segs[i].addr else NULL)
        invariant forall j | 0 <= j < i :: !Usable(segs[j], size)
        decreases |segs| - i
      {
        assert Stored(hdr, segs, i);
        if hdr[current].isFree && (hdr[current].length > size + HEADER || hdr[current].length == size) {
          break;
        }
        current := hdr[current].next;
        i := i + 1;
      }
      assert i < |segs| ==> Stored(hdr, segs, i);
      FirstFitIs(segs, size, i);
    }

    /** `free`: mark the block free and join it with its free neighbours. */
    method Free(address: int)
      requires Valid() && Freeable(Abs(), address)
      modifies this
      ensures Valid() && Abs() == Apply(old(Abs()), HeapLayout.Free(address))
      ensures Keeps(Live(segs), old(data), data)
    {
      if address != NULL {
        FreeableIndex(Abs(), address);
        ReleaseSegment(address - HEADER, IndexOf(segs, address));
      }
    }

    /** `free` of the segment at `header`. */
    method ReleaseSegment(header: int, ghost i: nat)
      requires Valid() && 0 < i < |segs| && !segs[i].isFree && segs[i].addr == header
      modifies this
      ensures Valid() && Abs() == Release(old(Abs()), i)
      ensures Keeps(Live(segs), old(data), data)
    {
      ghost var live := Live(segs) - {segs[i]};
      ghost var released := Release(Abs(), i);
      ReleasePrepared(Abs(), i);
      SetFree(header, true, i, live);
      assert Stored(hdr, segs, i);
      freeSize := freeSize + (hdr[header].length + HEADER);
      usedSize := usedSize - (hdr[header].length + HEADER);
      JoinNeighbours(header, i, live);
      assert Abs() == released;
    }

    /** `memcpy(dst, src, n)`, which destroys the headers it falls into. */
    method CopyBytes(dst: int, src: int, n: nat)
      requires Linked(hdr, segs) && AllOutside(segs, dst, n)
      modifies this`hdr, this`data
      ensures Linked(hdr, segs) && data == Copied(old(data), dst, src, n)
    {
      hdr := map k | k in hdr && (k + HEADER <= dst || dst + n <= k) :: hdr[k];
      data := Copied(data, dst, src, n);
      forall i | 0 <= i < |segs| ensures Stored(hdr, segs, i) {
        assert Stored(old(hdr), segs, i);
      }
      LinkedFrom(hdr, segs);
    }

    /** `realloc`: a new block holds the first bytes of the old block `s`, which is freed. A
        request of size zero returns NULL and leaves the old block alone. */
    method Realloc(buffer: int, size: nat, ghost s: Segment) returns (p: int, ghost c: Segment)
      requires Valid() && (size > 0 ==> Room(Abs(), Granted(size)))
      requires buffer != NULL ==> s in Live(segs) && s != segs[0] && s.Data() == buffer
      modifies this
      ensures Valid()
      ensures size == 0 ==> p == NULL && Abs() == old(Abs()) && Keeps(Live(old(segs)), old(data), data)
      ensures size > 0 ==> p == c.Data() && c.length == Granted(size) && c !in Live(old(segs))
      ensures size > 0 && buffer == NULL ==>
        Live(segs) == Live(old(segs)) + {c} && Keeps(Live(old(segs)), old(data), data)
      ensures size > 0 && buffer != NULL ==>
        && Live(segs) == Live(old(segs)) - {s} + {c}
        && Moved(old(data), buffer, data, p, if size < s.length then size else s.length)
        && Keeps(Live(old(segs)) - {s}, old(data), data)
    {
      p, c := Allocate(size);
      if p != NULL && buffer != NULL {
        ghost var bytes := data;
        MoveBlock(buffer, p, size, s, c);
        MovedThrough(old(data), bytes, data, s, c, if size < s.length then size else s.length);
      }
    }

    /** `malloc`, in terms of the block `c` it adds. */
    method Allocate(size: nat) returns (p: int, ghost c: Segment)
      requires Valid() && (size > 0 ==> Room(Abs(), Granted(size)))
      modifies this
      ensures Valid() && segs[0] == old(segs)[0]
      ensures p == NULL <==> size == 0
      ensures size == 0 ==> Abs() == old(Abs())
      ensures size > 0 ==>
        && p == c.Data() && c.length == Granted(size) && c !in Live(old(segs)) && Live(segs) == Live(old(segs)) + {c}
      ensures Keeps(Live(old(segs)), old(data), data)
    {
      ReallocPrepared(Abs(), size);
      p := Malloc(size);
      c := if size > 0 then Block(old(Abs()), size) else segs[0];
    }

    /** The second half of `realloc`: copy block `s` into block `c`, then free `s`. */
    method MoveBlock(buffer: int, p: int, size: nat, ghost s: Segment, ghost c: Segment)
      requires Valid() && s in Live(segs) && s != segs[0] && s.Data() == buffer && buffer != NULL
      requires c in Live(segs) && c != s && c.Data() == p && size <= c.length
      modifies this
      ensures Valid() && Live(segs) == Live(old(segs)) - {s}
      ensures Moved(old(data), buffer, data, p, if size < s.length then size else s.length)
      ensures Keeps(Live(old(segs)) - {s, c}, old(data), data)
    {
      var oldSize := BlockLength(buffer, s);
      if size < oldSize {
        oldSize := size;
      }
      CopyBlock(p, buffer, oldSize, c);
      ghost var bytes := data;
      Discard(buffer, s);
      FreedThrough(old(data), bytes, data, buffer, c, oldSize);
    }

    /** `memcpy` into block `c`. */
    method CopyBlock(p: int, buffer: int, n: int, ghost c: Segment)
      requires Valid() && c in Live(segs) && c.Data() == p && 0 <= n <= c.length
      modifies this`hdr, this`data
      ensures Valid() && Moved(old(data), buffer, data, p, n)
      ensures Keeps(Live(segs) - {c}, old(data), data)
    {
      MovePrepared(Abs(), c);
      CopyBytes(p, buffer, n);
      CopyKeeps(Live(segs) - {c}, old(data), c, buffer, n);
    }

    /** `free`, in terms of the block `s` it takes back. */
    method Discard(buffer: int, ghost s: Segment)
      requires Valid() && s in Live(segs) && s != segs[0] && s.Data() == buffer && buffer != NULL
      modifies this
      ensures Valid() && Live(segs) == Live(old(segs)) - {s}
      ensures Keeps(Live(old(segs)) - {s}, old(data), data)
    {
      FreeableIndex(Abs(), buffer);
      FreeStep(Abs(), buffer);
      Free(buffer);
    }

    /** `get_heap_segment_header(buffer)->length` */
    method BlockLength(buffer: int, ghost s: Segment) returns (n: int)
      requires Valid() && s in Live(segs) && s.Data() == buffer
      ensures n == s.length >= 0
    {
      ghost var i :| 0 <= i < |segs| && segs[i] == s;
      assert Stored(hdr, segs, i);
      assert i > 0 ==> Fits(segs, i);
      n := hdr[buffer - HEADER].length;
    }

    /** The three merging cases of `free`. */
    method JoinNeighbours(header: int, ghost i: nat, ghost live: set<Segment>)
      requires Linked(hdr, segs) && Anchored() && 1 <= i < |segs| && segs[i].addr == header
      requires !segs[0].isFree
      requires forall k | 0 <= k < |segs| :: Clear(live, segs[k].addr)
      modifies this`hdr, this`data, this`segs
      ensures segs == Merge(old(segs), i) && Linked(hdr, segs) && Anchored()
      ensures Keeps(live, old(data), data)
    {
      assert Stored(hdr, segs, i) && Stored(hdr, segs, i - 1);
      assert i + 1 < |segs| ==> Stored(hdr, segs, i + 1);
      var next, last := hdr[header].next, hdr[header].last;
      if next != NULL && last != NULL && hdr[next].isFree && hdr[last].isFree {
        MergeLastAndThisToNext(header, i, live);
      } else if last != NULL && hdr[last].isFree {
        MergeLastToThis(header, i, live);
      } else if next != NULL && hdr[next].isFree {
        MergeThisToNext(header, i, live);
      }
    }
  }

  lemma ReleasePrepared(h: Heap, i: nat)
    requires Inv(h) && 0 < i < |h.segs| && !h.segs[i].isFree
    ensures Inv(Release(h, i)) && Live(Release(h, i).segs) == Live(h.segs) - {h.segs[i]}
    ensures Clear(Live(h.segs) - {h.segs[i]}, h.segs[i].addr)
    ensures forall k | 0 <= k < |h.segs| :: Clear(Live(h.segs) - {h.segs[i]}, Mark(h.segs, i)[k].addr)
  {
    ReleaseKeepsInv(h, i);
    ReleaseLive(h.segs, i);
    forall k | 0 <= k < |h.segs| ensures Clear(Live(h.segs) - {h.segs[i]}, Mark(h.segs, i)[k].addr) {
      HeaderClear(h.segs, k);
    }
    HeaderClear(h.segs, i);
  }

  lemma ReallocPrepared(h: Heap, size: nat)
    requires Inv(h) && (size > 0 ==> Room(h, Granted(size)))
    ensures size > 0 ==>
      && Live(Apply(h, HeapLayout.Malloc(size)).segs) == Live(h.segs) + {Block(h, size)}
      && Block(h, size) !in Live(h.segs)
      && Block(h, size).length == Granted(size)
      && Block(h, size).Data() != NULL
      && Apply(h, HeapLayout.Malloc(size)).segs[0] == h.segs[0]
  {
    if size > 0 {
      MallocStep(h, size);
      PreparedKeepsInv(h, Granted(size));
      var c := Block(h, size);
      assert c !in Live(h.segs);
      TakeInside(Prepared(h, Granted(size)), Granted(size));
    }
  }

  lemma TakeInside(p: Heap, n: nat)
    requires Inv(p) && n > 0 && n % GRAIN == 0 && FirstFit(p.segs, n) < |p.segs|
    ensures var i := FirstFit(p.segs, n);
            Carved(p.segs[i], n).addr > 0 && TakeAt(p.segs, i, n)[0] == p.segs[0]
  {
    var i := FirstFit(p.segs, n);
    TakePrepared(p.segs, i, n);
  }

  /** The new block meets no header and no other block. */
  lemma MovePrepared(h: Heap, c: Segment)
    requires Inv(h) && c in Live(h.segs)
    ensures forall t | t in Live(h.segs) && t != c :: c.End() <= t.addr || t.End() <= c.addr
    ensures AllOutside(h.segs, c.Data(), c.length)
  {
    forall t | t in Live(h.segs) && t != c ensures c.End() <= t.addr || t.End() <= c.addr {
      InvConsequences(h, c, t);
    }
    forall k | 0 <= k < |h.segs| ensures h.segs[k].addr + HEADER <= c.Data() || c.End() <= h.segs[k].addr {
      HeaderClear(h.segs, k);
    }
  }

  lemma CopyKeeps(live: set<Segment>, data: map<int, Byte>, c: Segment, src: int, n: nat)
    requires n <= c.length && (forall t | t in live :: c.End() <= t.addr || t.End() <= c.addr)
    ensures Keeps(live, data, Copied(data, c.Data(), src, n))
    ensures Moved(data, src, Copied(data, c.Data(), src, n), c.Data(), n)
  {
    forall t | t in live ensures Bytes(data, t) == Bytes(Copied(data, c.Data(), src, n), t) {
    }
  }

  lemma KeptByte(before: map<int, Byte>, after: map<int, Byte>, t: Segment, x: int)
    requires Bytes(before, t) == Bytes(after, t) && t.Data() <= x < t.End()
    ensures ByteAt(before, x) == ByteAt(after, x)
  {
    assert x in Bytes(before, t) <==> x in Bytes(after, t);
    if x in before { assert Bytes(before, t)[x] == before[x]; }
  }

  lemma MovedThrough(b0: map<int, Byte>, b1: map<int, Byte>, b2: map<int, Byte>, s: Segment, c: Segment, n: int)
    requires n <= s.length && Bytes(b0, s) == Bytes(b1, s) && Moved(b1, s.Data(), b2, c.Data(), n)
    ensures Moved(b0, s.Data(), b2, c.Data(), n)
  {
    forall x | c.Data() <= x < c.Data() + n ensures ByteAt(b2, x) == ByteAt(b0, Source(x, c.Data(), s.Data())) {
      KeptByte(b0, b1, s, Source(x, c.Data(), s.Data()));
    }
  }

  lemma FreedThrough(b0: map<int, Byte>, b1: map<int, Byte>, b2: map<int, Byte>, src: int, c: Segment, n: nat)
    requires n <= c.length && Moved(b0, src, b1, c.Data(), n) && Bytes(b1, c) == Bytes(b2, c)
    ensures Moved(b0, src, b2, c.Data(), n)
  {
    forall x | c.Data() <= x < c.Data() + n ensures ByteAt(b2, x) == ByteAt(b0, Source(x, c.Data(), src)) {
      KeptByte(b1, b2, c, x);
    }
  }

  lemma FirstFitIs(segs: seq<Segment>, size: int, i: nat)
    requires i <= |segs| && (i < |segs| ==> Usable(segs[i], size))
    requires forall j | 0 <= j < i :: !Usable(segs[j], size)
    ensures FirstFit(segs, size) == i
  {
  }

  /** Expanding once and starting over is the same allocation, with one expansion less to go. */
  lemma RetryLemma(h: Heap, size: nat)
    requires Inv(h) && size > 0 && Room(h, Granted(size)) && FirstFit(h.segs, Granted(size)) == |h.segs|
    ensures var n := Granted(size);
            && h.Low() > Growth(n) && Inv(Grow(h, n))
            && Expansions(Grow(h, n), n) == Expansions(h, n) - 1
            && Room(Grow(h, n), n)
            && Apply(h, HeapLayout.Malloc(size)) == Apply(Grow(h, n), HeapLayout.Malloc(n))
            && Block(h, size) == Block(Grow(h, n), n)
  {
    var n := Granted(size);
    GrantedAgain(size);
    GrowKeepsInv(h, n);
    PreparedKeepsInv(h, n);
  }

  lemma GrantedAgain(size: nat)
    ensures Granted(Granted(size)) == Granted(size)
  {
  }

  lemma TakePrepared(segs: seq<Segment>, i: nat, size: nat)
    requires Layout(segs) && i < |segs| && Usable(segs[i], size) && size > 0 && size % GRAIN == 0
    ensures 1 <= i && segs[i].End() <= segs[i - 1].addr && Carved(segs[i], size).addr > 0
    ensures Clear(Live(segs), segs[i].addr) && Clear(Live(segs), segs[i - 1].addr)
    ensures Clear(Live(segs), Carved(segs[i], size).addr)
    ensures segs[i].addr + segs[i].length - size > 0
  {
    assert Fits(segs, i);
    HeaderClear(segs, i);
    HeaderClear(segs, i - 1);
    CarvedFits(segs[i], size);
    var c := Carved(segs[i], size);
    forall s | s in Live(segs) ensures c.addr + HEADER <= s.Data() || s.End() <= c.addr {
      TakeIsFresh(segs, i, size, s);
    }
  }

  lemma TakeIsSplit(segs: seq<Segment>, i: nat, size: nat)
    requires i < |segs| && Usable(segs[i], size)
    ensures segs[i].length > size + HEADER ==>
      TakeAt(segs, i, size) == SplitAt(segs, i, size)[i := Carved(segs[i], size)]
  {
  }

  /** What `expand_heap` leaves in memory. */
  ghost predicate ExpandStored(hdr: map<int, Header>, hdr': map<int, Header>, segs: seq<Segment>, g: nat)
    requires Linked(hdr, segs) && |segs| >= 2
  {
    var n := |segs| - 1;
    var a, m := segs[n].addr - g, if segs[n].isFree then n - 1 else n;
    && a in hdr' && (forall k | 0 <= k <= m :: segs[k].addr in hdr')
    && (forall k | 0 <= k < m :: hdr'[segs[k].addr] == hdr[segs[k].addr])
    && hdr'[segs[m].addr] == hdr[segs[m].addr].(next := a)
    && hdr'[a] == Header(true, (if segs[n].isFree then segs[n].length else 0) + g - HEADER, NULL, segs[m].addr,
    SIGNATURE)
  }

  lemma FlagLinked(hdr: map<int, Header>, hdr': map<int, Header>, segs: seq<Segment>, i: nat, value: bool)
    requires Linked(hdr, segs) && i < |segs|
    requires forall k | 0 <= k < |segs| :: segs[k].addr in hdr'
    requires forall k | 0 <= k < |segs| && k != i :: hdr'[segs[k].addr] == hdr[segs[k].addr]
    requires hdr'[segs[i].addr] == hdr[segs[i].addr].(isFree := value)
    ensures Linked(hdr', segs[i := segs[i].(isFree := value)])
  {
    var r := segs[i := segs[i].(isFree := value)];
    forall k | 0 <= k < |r| ensures Stored(hdr', r, k) {
      assert Stored(hdr, segs, k);
    }
  }

  /** A header placed `g` bytes below the heap meets no block. */
  lemma BelowClear(segs: seq<Segment>, g: nat)
    requires Layout(segs) && g >= HEADER
    ensures Clear(Live(segs), segs[|segs| - 1].addr - g)
  {
    var n := |segs| - 1;
    forall s | s in Live(segs) ensures segs[n].addr - g + HEADER <= s.Data() {
      var j :| 0 <= j < |segs| && segs[j] == s;
      if j < n {
        Descending(segs, j, n);
        assert Fits(segs, n);
      }
    }
  }

  lemma GrowPrepared(h: Heap, size: nat)
    requires Inv(h) && h.Low() > Growth(size)
    ensures |h.segs| >= 2 && Clear(Live(h.segs), h.segs[|h.segs| - 1].addr - Growth(size))
    ensures Clear(Live(h.segs), h.segs[|h.segs| - 1].addr) && Clear(Live(h.segs), h.segs[|h.segs| - 2].addr)
    ensures Inv(Grow(h, size)) && Expand(h.segs, size)[0] == h.segs[0] && Expand(h.segs, size) != []
  {
    HeaderClear(h.segs, |h.segs| - 1);
    HeaderClear(h.segs, |h.segs| - 2);
    BelowClear(h.segs, Growth(size));
    GrowKeepsInv(h, size);
  }

  lemma ExpandLinked(hdr: map<int, Header>, hdr': map<int, Header>, segs: seq<Segment>, size: nat)
    requires Linked(hdr, segs) && |segs| >= 2 && segs[|segs| - 1].addr > Growth(size)
    requires ExpandStored(hdr, hdr', segs, Growth(size))
    ensures Linked(hdr', Expand(segs, size))
  {
    var r := Expand(segs, size);
    var m := |r| - 2;
    assert forall k | 0 <= k <= m :: r[k] == segs[k];
    assert r[m + 1].addr == segs[|segs| - 1].addr - Growth(size);
    forall k | 0 <= k < |r| ensures Stored(hdr', r, k) {
      if k <= m { assert Stored(hdr, segs, k); }
    }
    LinkedFrom(hdr', r);
  }

  /** The list after `split_segment`, before `malloc` marks the carved segment used. */
  ghost function SplitAt(segs: seq<Segment>, i: nat, size: int): (r: seq<Segment>)
    requires i < |segs|
    ensures |r| == |segs| + 1
  {
    seq(|segs| + 1, k requires 0 <= k <= |segs| =>
      if k < i then segs[k]
      else if k == i then Segment(segs[i].addr + segs[i].length - size, size, true)
      else if k == i + 1 then Segment(segs[i].addr, segs[i].length - size - HEADER, true)
      else segs[k - 1])
  }

  lemma SplitEnds(hdr: map<int, Header>, segs: seq<Segment>, i: nat, size: int)
    requires Linked(hdr, segs) && 1 <= i < |segs|
    ensures SplitAt(segs, i, size)[0] == segs[0]
    ensures SplitAt(segs, i, size)[|segs|].addr == segs[|segs| - 1].addr
    ensures hdr[segs[i].addr].next == NULL ==> i == |segs| - 1
  {
    assert Stored(hdr, segs, i);
    assert i + 1 < |segs| ==> Stored(hdr, segs, i + 1);
  }

  lemma SplitSpaced(segs: seq<Segment>, i: nat, size: nat)
    requires Spaced(segs) && 1 <= i < |segs| && segs[i].length > size + HEADER && segs[i].End() <= segs[i - 1].addr
    ensures Spaced(SplitAt(segs, i, size))
  {
    var r := SplitAt(segs, i, size);
    forall j, k | 0 <= j < k < |r| ensures r[k].addr + HEADER <= r[j].addr {
      assert j < i - 1 ==> segs[i - 1].addr + HEADER <= segs[j].addr;
    }
  }

  /** The carved header lies between `segment` and the segment above it. */
  ghost predicate CanCarve(hdr: map<int, Header>, segment: int, carved: int) {
    && segment in hdr && hdr[segment].last in hdr && hdr[segment].last != NULL
    && segment + HEADER <= carved && carved + HEADER <= hdr[segment].last
  }

  /** Memory after the stores of `LinkCarved`. */
  ghost function CarvedOff(hdr: map<int, Header>, segment: int, carved: int, size: int): map<int, Header>
    requires CanCarve(hdr, segment, carved)
  {
    var s, above := hdr[segment], hdr[segment].last;
    var h := Put(hdr, carved, Header(true, size, segment, above, SIGNATURE));
    Put(Put(h, above, h[above].(next := carved)), segment, s.(last := carved, length := s.length - (size + HEADER)))
  }

  /** The header of the part that is carved off, */
  lemma SplitCarvedAt(hdr: map<int, Header>, segs: seq<Segment>, i: nat, size: nat)
    requires Linked(hdr, segs) && 1 <= i < |segs| && segs[i].isFree
    requires segs[i].length > size + HEADER && segs[i].addr + segs[i].length - size != NULL
    requires CanCarve(hdr, segs[i].addr, segs[i].addr + segs[i].length - size)
    requires hdr[segs[i].addr].last == segs[i - 1].addr
    ensures Stored(CarvedOff(hdr, segs[i].addr, segs[i].addr + segs[i].length - size, size), SplitAt(segs, i, size), i)
  {
    var carved := segs[i].addr + segs[i].length - size;
    CarvedOffAt(hdr, segs[i].addr, carved, size, carved);
  }

  /** and that of every segment there was. */
  lemma SplitLinkedAt(hdr: map<int, Header>, segs: seq<Segment>, i: nat, size: nat, k: nat)
    requires Linked(hdr, segs) && 1 <= i < |segs| && segs[i].isFree && k < |segs|
    requires segs[i].length > size + HEADER && segs[i].addr + segs[i].length - size != NULL
    requires CanCarve(hdr, segs[i].addr, segs[i].addr + segs[i].length - size)
    requires hdr[segs[i].addr].last == segs[i - 1].addr
    ensures var h := CarvedOff(hdr, segs[i].addr, segs[i].addr + segs[i].length - size, size);
      Stored(h, SplitAt(segs, i, size), if k < i then k else k + 1)
  {
    assert Stored(hdr, segs, k);
    CarvedOffAt(hdr, segs[i].addr, segs[i].addr + segs[i].length - size, size, segs[k].addr);
  }

  lemma SplitLinked(hdr: map<int, Header>, segs: seq<Segment>, i: nat, size: nat)
    requires Linked(hdr, segs) && 1 <= i < |segs| && segs[i].isFree && segs[i].End() <= segs[i - 1].addr
    requires segs[i].addr + segs[i].length - size != NULL && segs[i].length > size + HEADER
    ensures hdr[segs[i].addr].last == segs[i - 1].addr
    ensures CanCarve(hdr, segs[i].addr, segs[i].addr + segs[i].length - size)
    ensures Linked(CarvedOff(hdr, segs[i].addr, segs[i].addr + segs[i].length - size, size), SplitAt(segs, i, size))
  {
    assert Stored(hdr, segs, i) && Stored(hdr, segs, i - 1);
    var r, carved := SplitAt(segs, i, size), segs[i].addr + segs[i].length - size;
    SplitSpaced(segs, i, size);
    var h := CarvedOff(hdr, segs[i].addr, carved, size);
    forall k | 0 <= k < |r| ensures Stored(h, r, k) { SplitStored(hdr, segs, i, size, k); }
    LinkedFrom(h, r);
  }

  lemma SplitStored(hdr: map<int, Header>, segs: seq<Segment>, i: nat, size: nat, k: nat)
    requires Linked(hdr, segs) && 1 <= i < |segs| && segs[i].isFree && k <= |segs|
    requires segs[i].length > size + HEADER && segs[i].addr + segs[i].length - size != NULL
    requires CanCarve(hdr, segs[i].addr, segs[i].addr + segs[i].length - size)
    requires hdr[segs[i].addr].last == segs[i - 1].addr
    ensures Stored(CarvedOff(hdr, segs[i].addr, segs[i].addr + segs[i].length - size, size), SplitAt(segs, i, size), k)
  {
    if k == i {
      SplitCarvedAt(hdr, segs, i, size);
    } else {
      SplitLinkedAt(hdr, segs, i, size, if k < i then k else k - 1);
    }
  }

  lemma AbsorbSpaced(segs: seq<Segment>, i: nat)
    requires Spaced(segs) && 0 < i < |segs|
    ensures Spaced(Absorb(segs, i))
  {
    var r := Absorb(segs, i);
    forall j, k | 0 <= j < k < |r| ensures r[k].addr + HEADER <= r[j].addr {
    }
  }

  /** `low`, `high` and the segment above `high` have headers that do not overlap. */
  ghost predicate CanSwallow(hdr: map<int, Header>, low: int, high: int) {
    && low in hdr && high in hdr && hdr[high].last in hdr
    && low + HEADER <= high && high + HEADER <= hdr[high].last
  }

  /** Memory after the stores of `Swallow`. */
  ghost function Swallowed(hdr: map<int, Header>, low: int, high: int): map<int, Header>
    requires CanSwallow(hdr, low, high)
  {
    var above := hdr[high].last;
    var h := Put(hdr, low, hdr[low].(length := hdr[low].length + hdr[high].length + HEADER, last := above));
    Erase(Put(h, above, h[above].(next := low)), high)
  }

  lemma AbsorbLinked(hdr: map<int, Header>, segs: seq<Segment>, i: nat)
    requires Linked(hdr, segs) && 2 <= i < |segs|
    ensures CanSwallow(hdr, segs[i].addr, segs[i - 1].addr)
    ensures hdr[segs[i].addr].last == segs[i - 1].addr && hdr[segs[i - 1].addr].next == segs[i].addr
    ensures hdr[segs[i - 1].addr].last == segs[i - 2].addr
    ensures Linked(Swallowed(hdr, segs[i].addr, segs[i - 1].addr), Absorb(segs, i))
    ensures Absorb(segs, i)[0] == segs[0]
    ensures Absorb(segs, i)[|segs| - 2].addr == segs[|segs| - 1].addr
  {
    assert Stored(hdr, segs, i) && Stored(hdr, segs, i - 1);
    var r := Absorb(segs, i);
    var h := Swallowed(hdr, segs[i].addr, segs[i - 1].addr);
    AbsorbSpaced(segs, i);
    forall k | 0 <= k < |r| ensures Stored(h, r, k) {
      AbsorbLinkedAt(hdr, segs, i, k);
    }
    LinkedFrom(h, r);
  }

  lemma AbsorbLinkedAt(hdr: map<int, Header>, segs: seq<Segment>, i: nat, k: nat)
    requires Linked(hdr, segs) && 2 <= i < |segs| && k < |segs| - 1
    requires CanSwallow(hdr, segs[i].addr, segs[i - 1].addr) && hdr[segs[i - 1].addr].last == segs[i - 2].addr
    ensures Stored(Swallowed(hdr, segs[i].addr, segs[i - 1].addr), Absorb(segs, i), k)
  {
    var k' := if k < i - 1 then k else k + 1;
    assert Stored(hdr, segs, k');
    assert Stored(hdr, segs, i - 1);
    SwallowedAt(hdr, segs[i].addr, segs[i - 1].addr, segs[k'].addr);
  }

  lemma SwallowedAt(hdr: map<int, Header>, low: int, high: int, x: int)
    requires CanSwallow(hdr, low, high) && x in hdr
    requires x == low || x + HEADER <= low || low + HEADER <= x
    requires x + HEADER <= high || high + HEADER <= x
    requires var above := hdr[high].last; x == above || x + HEADER <= above || above + HEADER <= x
    ensures x in Swallowed(hdr, low, high)
    ensures Swallowed(hdr, low, high)[x] ==
            if x == low then hdr[x].(length := hdr[x].length + hdr[high].length + HEADER, last := hdr[high].last)
            else if x == hdr[high].last then hdr[x].(next := low)
            else hdr[x]
  {
  }

  lemma CarvedOffAt(hdr: map<int, Header>, segment: int, carved: int, size: int, x: int)
    requires CanCarve(hdr, segment, carved)
    requires x == carved || (x in hdr && (x + HEADER <= carved || carved + HEADER <= x))
    requires x == segment || x + HEADER <= segment || segment + HEADER <= x
    requires var above := hdr[segment].last; x == above || x + HEADER <= above || above + HEADER <= x
    ensures x in CarvedOff(hdr, segment, carved, size)
    ensures CarvedOff(hdr, segment, carved, size)[x] ==
            if x == carved then Header(true, size, segment, hdr[segment].last, SIGNATURE)
            else if x == segment then hdr[x].(last := carved, length := hdr[x].length - (size + HEADER))
            else if x == hdr[segment].last then hdr[x].(next := carved)
            else hdr[x]
  {
  }
}
