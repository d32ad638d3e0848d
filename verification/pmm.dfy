/** The physical page allocator. */
module PhysicalPages {

  import opened Bitmaps
  import opened PageRuns
  import opened PageLinks
  import opened Machine

  /** The two counters wrap around together. */
  lemma Conserved(used: int, available: int, c: int)
    ensures ((used - c) % U64 + (available + c)) % U64 == (used + available) % U64
  {
    var q, r := (used - c) / U64, (used - c) % U64;
    assert used - c == q * U64 + r;
    assert used + available == q * U64 + (r + (available + c));
  }

  /** Free pages lie from `first` on, below the end of memory, and page 0 is in use. */
  ghost predicate Within(bits: seq<bool>, end: nat, first: nat) {
    && 0 < end < |bits| && bits[0]
    && (forall i | end <= i < |bits| :: bits[i])
    && (forall i | 0 <= i < first && i < |bits| :: bits[i])
  }

  class Pages {
    const bitmap: Bitmap
    const tags: array<Tag>
    const highest: nat
    var available: nat
    var used: nat
    var firstFree: nat
    var lastEntry: int

    /** The state before boot: every bit set, no page available. */
    constructor (b: Bitmap, memory: array<Tag>)
      requires b.Valid() && (memory as object) != b.bytes && 0 < memory.Length < |b.bits|
        && forall i | 0 <= i < |b.bits| :: b.bits[i]
      ensures Valid() && bitmap == b && tags == memory && available == 0 && used == 0
    {
      bitmap, tags, highest := b, memory, memory.Length;
      available, used, firstFree, lastEntry := 0, 0, 0, -1;
      new;
      ghost var bits := bitmap.bits;
      NoneFree(bits, |bits|);
      forall s: nat, e: nat ensures !RunAt(bits, s, e) {
        assert s < |bits| ==> bits[s];
      }
    }

    ghost predicate Valid()
      reads this, bitmap, bitmap.bytes, tags
    {
      bitmap.Valid() && Apart() && Agrees(bitmap.bits)
    }

    /** The bitmap does not lie in the pages. */
    ghost predicate Apart() {
      var memory: object := tags;
      memory != bitmap.bytes
    }

    /** Everything else agrees with the bits: the tags of the runs, the number of free pages,
        and the bound below which no page is free. */
    ghost predicate Agrees(bits: seq<bool>)
      reads this, tags
    {
      && highest == tags.Length && Within(bits, highest, firstFree)
      && available == CountFree(bits, |bits|) && used < U64 && (used + available) % U64 == 0
      && AllTagged(bits, tags[..]) && Link(highest, lastEntry)
    }

    /** `used_pages` is the negative of `available_pages` in 64 bits, and never the number of pages
        that are not available. */
    lemma UsedIsNegative()
      requires Valid() && highest < U64
      ensures used == (if available == 0 then 0 else U64 - available) != highest - available
    {
      FreeBelow(bitmap.bits, highest, |bitmap.bits|);
    }

    /** The tags and the entry of the list. */
    ghost function Now(): Lists
      reads this, tags
    {
      Lists(tags[..], lastEntry)
    }

    /** Take a run header out of the list. */
    method Unlink(node: nat)
      requires node < tags.Length && Linked(tags.Length, tags[node])
      modifies tags, this`lastEntry
      ensures Now() == Unlinked(old(Now()), node)
    {
      if tags[node].last != -1 {
        tags[tags[node].last] := tags[tags[node].last].(next := tags[node].next);
      }
      if tags[node].next != -1 {
        tags[tags[node].next] := tags[tags[node].next].(last := tags[node].last);
      }
      if node == lastEntry {
        lastEntry := tags[node].last;
      }
    }

    /** `pmm_remove_pages_to_free_list` on the run from `index` to `e`. */
    method RemoveRun(index: nat, count: nat, ghost e: nat)
      requires Tagged(tags[..], index, e) && 0 < count <= e - index + 1
      modifies tags, this`lastEntry
      ensures Now() == Removed(old(Now()), index, count, e)
    {
      if tags[index].pageCount == count {
        Unlink(index);
      } else {
        var head := index + count;
        tags[head] := tags[head].(next := tags[index].next, last := tags[index].last);
        if index == lastEntry {
          lastEntry := head;
        }
        tags[head] := tags[head].(pageCount := tags[index].pageCount - count,
                                  indexStart := tags[index].indexStart + count,
                                  indexEnd := tags[index].indexEnd, end := tags[index].end);
        tags[tags[head].end] := tags[tags[head].end].(start := head);
      }
    }

    /** `pmm_add_page_to_free_list` between two runs: the lower one grows to the end `e` of the
        upper one. */
    method JoinBoth(index: nat, count: nat, ghost s: nat, ghost e: nat)
      requires 0 < index && 0 < count && Tagged(tags[..], s, index - 1) && Tagged(tags[..], index + count, e)
      modifies tags, this`lastEntry
      ensures Now() == Bridged(old(Now()), index, count, s, e)
    {
      var next := index + count;
      var head := tags[index - 1].start;
      tags[head] := tags[head].(end := tags[next].end);
      tags[tags[head].end] := tags[tags[head].end].(start := head);
      tags[head] := tags[head].(indexEnd := tags[next].indexEnd);
      tags[head] := tags[head].(pageCount := tags[head].pageCount + (count + tags[next].pageCount));
      ghost var t := old(tags[..]);
      ghost var t1 := t[s := t[s].(end := e, indexEnd := e, pageCount := e - s + 1)];
      assert tags[..] == t1[e := t1[e].(start := s)];
      Unlink(next);
    }

    /** Below a run: its header moves down to `index`. */
    method JoinNext(index: nat, count: nat, ghost e: nat)
      requires 0 < count && Tagged(tags[..], index + count, e)
      modifies tags, this`lastEntry
      ensures Now() == Lowered(old(Now()), index, count, e)
    {
      var next := index + count;
      tags[index] := tags[index].(end := tags[next].end);
      tags[tags[index].end] := tags[tags[index].end].(start := index);
      tags[index] := tags[index].(indexStart := index, pageCount := tags[next].pageCount + count,
                                  indexEnd := tags[next].indexEnd,
                                  next := tags[next].next, last := tags[next].last);
      if next == lastEntry {
        lastEntry := index;
      }
    }

    /** Above a run: it grows. */
    method JoinLast(index: nat, count: nat, ghost s: nat)
      requires 0 < index && 0 < count && index + count <= tags.Length && Tagged(tags[..], s, index - 1)
      modifies tags
      ensures Now() == Extended(old(Now()), index, count, s)
    {
      var head, end := tags[index - 1].start, index + count - 1;
      tags[head] := tags[head].(pageCount := tags[head].pageCount + count, indexEnd := index + count - 1, end := end);
      tags[end] := tags[end].(start := head);
    }

    /** Away from any run: a new one, at the end of the list. */
    method NewRun(index: nat, count: nat)
      requires 0 < count && index + count <= tags.Length && Link(tags.Length, lastEntry)
      modifies tags, this`lastEntry
      ensures Now() == Appended(old(Now()), index, count)
    {
      var end := index + count - 1;
      tags[index] := tags[index].(indexStart := index, indexEnd := end, pageCount := count, end := end);
      tags[end] := tags[end].(start := index);
      tags[index] := tags[index].(last := lastEntry, next := -1);
      if lastEntry != -1 {
        tags[lastEntry] := tags[lastEntry].(next := index);
      }
      lastEntry := index;
    }

    /** The run that pages to be freed become part of. */
    lemma Bounds(index: nat, count: nat) returns (s: nat, e: nat)
      requires Valid() && 0 < index && 0 < count && index + count <= highest
      requires forall i | index <= i < index + count :: bitmap.bits[i]
      ensures Joined(bitmap.bits, index, count, s, e)
      ensures s == From(bitmap.bits, Now(), index) && e == To(bitmap.bits, Now(), index + count)
    {
      var bits := bitmap.bits;
      s, e := index, index + count - 1;
      if !bits[index + count] {
        e := RunFrom(bits, index + count, index + count);
      }
      if !bits[index - 1] {
        s := RunTo(bits, index - 1, index - 1);
      }
    }

    /** `pmm_add_page_to_free_list`, before the bits of the pages are cleared. */
    method AddRun(index: nat, count: nat, ghost s: nat, ghost e: nat)
      requires Valid() && index + count <= highest && Joined(bitmap.bits, index, count, s, e)
      modifies tags, this`lastEntry
      ensures Now() == Added(bitmap.bits, old(Now()), index, count, s, e)
    {
      var nextUsed := bitmap.Get(index + count);
      var lastUsed := bitmap.Get(index - 1);
      if !nextUsed {
        if !lastUsed {
          JoinBoth(index, count, s, e);
        } else {
          JoinNext(index, count, e);
        }
      } else if !lastUsed {
        JoinLast(index, count, s);
      } else {
        NewRun(index, count);
      }
    }

    /** `count` more pages are available; a negative number are in use instead. */
    method CountPages(count: int)
      requires used < U64 && (used + available) % U64 == 0 && 0 <= available + count
      modifies this`available, this`used
      ensures available == old(available) + count && used < U64 && (used + available) % U64 == 0
    {
      Conserved(used, available, count);
      available := available + count;
      used := (used - count) % U64;
    }

    /** The bits of freed pages are cleared. */
    method ClearPages(index: nat, count: nat, ghost s: nat, ghost e: nat, ghost t: seq<Tag>)
      requires bitmap.Valid() && Apart() && AllTagged(bitmap.bits, t) && Joined(bitmap.bits, index, count, s, e)
      requires Inside(t, tags[..], s, e) && Tagged(tags[..], s, e) && Within(bitmap.bits, highest, firstFree)
      requires available == CountFree(bitmap.bits, |bitmap.bits|) + count && index + count <= highest == tags.Length
      requires used < U64 && (used + available) % U64 == 0 && Link(highest, lastEntry)
      modifies this`firstFree, bitmap, bitmap.bytes
      ensures Valid() && bitmap.bits == Filled(old(bitmap.bits), index, count, false)
    {
      ghost var bits := bitmap.bits;
      bitmap.SetAll(index, count, false);
      if firstFree > index {
        firstFree := index;
      }
      CountClear(bits, index, count, |bits|);
      TagsAfterFree(bits, t, tags[..], index, count, s, e);
    }

    /** `pmm_free_pages` */
    method Free(index: nat, count: nat)
      requires Valid() && 0 < index && 0 < count && index + count <= highest
      requires forall i | index <= i < index + count :: bitmap.bits[i]
      modifies this, tags, bitmap, bitmap.bytes
      ensures Valid() && bitmap.bits == Filled(old(bitmap.bits), index, count, false)
      ensures available == old(available) + count
      ensures var s, e := From(old(bitmap.bits), old(Now()), index), To(old(bitmap.bits), old(Now()), index + count);
        && s >= 0 && e >= 0 && Joined(old(bitmap.bits), index, count, s, e)
        && Now() == Added(old(bitmap.bits), old(Now()), index, count, s, e)
    {
      ghost var s, e := Bounds(index, count);
      AddedInside(bitmap.bits, Now(), index, count, s, e);
      AddRun(index, count, s, e);
      CountPages(count);
      ClearPages(index, count, s, e, old(tags[..]));
    }

    /** The use of the lowest free page, whose bit has just been set. */
    method TakePage(index: nat, ghost bits: seq<bool>)
      requires Agrees(bits) && index < highest && !bits[index] && (forall i | 0 <= i < index :: bits[i])
      requires bitmap.Valid() && Apart() && bitmap.bits == bits[index := true]
      modifies this, tags
      ensures Valid() && available == old(available) - 1
      ensures var e := old(tags[index].end);
        e >= 0 && RunAt(bits, index, e) && Tagged(old(tags[..]), index, e) && Now() == Removed(old(Now()), index, 1, e)
    {
      ghost var t := tags[..];
      ghost var e := RunFrom(bits, index, index);
      CountSet(bits, index, |bits|);
      firstFree := index;
      CountPages(-1);
      RemovedInside(Now(), index, 1, e);
      RemoveRun(index, 1, e);
      TagsAfterTake(bits, t, tags[..], index, e);
    }

    /** `pmm_allocate_page`; -1 stands for the panic when no page is free. */
    method Allocate() returns (page: int)
      requires Valid()
      modifies this, tags, bitmap, bitmap.bytes
      ensures Valid()
      ensures page == -1 <==> forall i | 0 <= i < |old(bitmap.bits)| :: old(bitmap.bits)[i]
      ensures page == -1 ==> bitmap.bits == old(bitmap.bits)
      ensures page != -1 ==>
        0 < page < highest && !old(bitmap.bits)[page] && (forall i | 0 <= i < page :: old(bitmap.bits)[i])
      ensures page != -1 ==> bitmap.bits == old(bitmap.bits)[page := true] && available == old(available) - 1
      ensures page != -1 ==> var e := old(tags[..])[page].end;
        && e >= 0 && Tagged(old(tags[..]), page, e) && RunAt(old(bitmap.bits), page, e)
        && Now() == Removed(old(Now()), page, 1, e)
    {
      ghost var bits := bitmap.bits;
      var index, taken := firstFree, true;
      while index < highest && taken
        modifies bitmap, bitmap.bytes
        invariant bitmap.Valid() && firstFree <= index && (forall i | 0 <= i < index && i < |bits| :: bits[i])
        invariant if taken then bitmap.bits == bits
                  else index < highest && !bits[index] && bitmap.bits == bits[index := true]
        decreases highest - index, taken
      {
        taken := bitmap.Exchange(index, true);
        if taken {
          assert bits[index := true] == bits;
          index := index + 1;
        }
      }
      if taken {
        return -1;
      }
      TakePage(index, bits);
      return index;
    }

    /** The owner of a page in use writes to its start. */
    method Scribble(page: nat, v: Tag)
      requires Valid() && page < highest && bitmap.bits[page]
      modifies tags
      ensures Valid() && tags[..] == old(tags[..])[page := v]
    {
      ghost var t := tags[..];
      tags[page] := v;
      assert tags[..] == t[page := v];
      TagsAfterWrite(bitmap.bits, t, page, v);
    }
  }

  lemma {:induction false} NoneFree(bits: seq<bool>, n: nat)
    requires n <= |bits| && forall i | 0 <= i < |bits| :: bits[i]
    ensures CountFree(bits, n) == 0
  {
    if n > 0 { NoneFree(bits, n - 1); }
  }

  /** Pages 5 and 6 are released, then page 10, and page 5 is taken: the header of page 10 still
      points at it. */
  method TakeFromTwoRuns(p: Pages)
    requires p.Valid() && p.highest == 11 && p.lastEntry == -1
    requires forall i | 0 <= i < |p.bitmap.bits| :: p.bitmap.bits[i]
    modifies p, p.tags, p.bitmap, p.bitmap.bytes
    ensures p.Valid() && p.tags[10].last == 5 && p.tags[10].next == -1 && p.lastEntry == 10
    ensures forall i | 0 <= i < |p.bitmap.bits| :: p.bitmap.bits[i] == (i != 6 && i != 10)
  {
    p.Free(5, 2);
    assert p.tags[5].end == 6 && p.lastEntry == 5;
    p.Free(10, 1);
    assert p.tags[5].end == 6 && p.tags[10].last == 5 && p.tags[10].next == -1 && p.lastEntry == 10;
    ghost var bits := p.bitmap.bits;
    assert !bits[5];
    var page := p.Allocate();
    assert page <= 5 && !bits[page];
  }

  /** Whatever the owner of page 5 stores there, releasing pages 7 to 9 then overwrites a link in it
      and makes it the entry of the list. */
  method OverwritesPageInUse(p: Pages, v: Tag)
    requires p.Valid() && p.highest == 11 && p.lastEntry == -1
    requires forall i | 0 <= i < |p.bitmap.bits| :: p.bitmap.bits[i]
    modifies p, p.tags, p.bitmap, p.bitmap.bytes
    ensures p.Valid() && p.bitmap.bits[5] && p.tags[5] == v.(next := -1) && p.lastEntry == 5
  {
    TakeFromTwoRuns(p);
    p.Scribble(5, v);
    ghost var l := p.Now();
    p.Free(7, 3);
    assert l.tags[10].last == 5 && l.tags[10].next == -1;
  }

  /** The first page released at boot makes `used_pages` the largest 64-bit number. */
  method FirstRelease(p: Pages)
    requires p.Valid() && 1 < p.highest && forall i | 0 <= i < |p.bitmap.bits| :: p.bitmap.bits[i]
    modifies p, p.tags, p.bitmap, p.bitmap.bytes
    ensures p.Valid() && p.available == 1 && p.used == U64 - 1
  {
    NoneFree(p.bitmap.bits, |p.bitmap.bits|);
    p.Free(1, 1);
  }
}
