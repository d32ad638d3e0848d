/** The free pages of physical memory as runs: a bitmap of pages, tags at both ends of every run,
    and list links in the tags. */
module PageRuns {

  import opened Bitmaps

  /** The start of a page, as the allocator uses it while the page is free: the structures
      `free_list_info_t` and, in its first two fields, `free_list_info_end_t`. Pointers are page
      numbers, -1 is NULL. */
  datatype Tag = Tag(end: int, start: int, indexStart: int, indexEnd: int, pageCount: int, last: int, next: int)

  // ---------------------------------------------------------------- runs of free pages

  /** Pages `s` to `e` are a maximal run of free pages. A set bit is a page in use. */
  ghost predicate RunAt(bits: seq<bool>, s: nat, e: nat) {
    && 0 < s <= e < |bits| - 1 && bits[s - 1] && bits[e + 1]
    && forall i | s <= i <= e :: !bits[i]
  }

  ghost predicate Link(n: nat, p: int) {
    -1 <= p < n
  }

  /** The tags at the ends of a run give its bounds and its length. */
  ghost predicate Tagged(tags: seq<Tag>, s: nat, e: nat) {
    && s <= e < |tags|
    && tags[s].end == e && tags[e].start == s
    && tags[s].indexStart == s && tags[s].indexEnd == e && tags[s].pageCount == e - s + 1
    && Link(|tags|, tags[s].last) && Link(|tags|, tags[s].next)
  }

  ghost predicate AllTagged(bits: seq<bool>, tags: seq<Tag>) {
    forall s: nat, e: nat {:trigger RunAt(bits, s, e)} :: RunAt(bits, s, e) ==> Tagged(tags, s, e)
  }

  /** A free page after a used one starts a run. */
  lemma {:induction false} RunFrom(bits: seq<bool>, s: nat, i: nat) returns (e: nat)
    requires 0 < s <= i < |bits| && bits[s - 1] && bits[|bits| - 1] && forall j | s <= j <= i :: !bits[j]
    ensures i <= e && RunAt(bits, s, e)
    decreases |bits| - i
  {
    if bits[i + 1] {
      e := i;
    } else {
      e := RunFrom(bits, s, i + 1);
    }
  }

  /** A free page before a used one ends a run. */
  lemma {:induction false} RunTo(bits: seq<bool>, e: nat, i: nat) returns (s: nat)
    requires i <= e < |bits| - 1 && bits[e + 1] && bits[0] && forall j | i <= j <= e :: !bits[j]
    ensures s <= i && RunAt(bits, s, e)
    decreases i
  {
    if bits[i - 1] {
      s := i;
    } else {
      s := RunTo(bits, e, i - 1);
    }
  }

  // ---------------------------------------------------------------- counting

  function CountFree(bits: seq<bool>, n: nat): (c: nat)
    requires n <= |bits|
    ensures c <= n
  {
    if n == 0 then 0 else CountFree(bits, n - 1) + if bits[n - 1] then 0 else 1
  }

  lemma {:induction false} CountSet(bits: seq<bool>, i: nat, n: nat)
    requires i < |bits| && n <= |bits| && !bits[i]
    ensures CountFree(bits[i := true], n) == CountFree(bits, n) - if i < n then 1 else 0
  {
    if n > 0 { CountSet(bits, i, n - 1); }
  }

  lemma {:induction false} CountClear(bits: seq<bool>, index: nat, count: nat, n: nat)
    requires index + count <= |bits| && n <= |bits| && forall i | index <= i < index + count :: bits[i]
    ensures CountFree(Filled(bits, index, count, false), n) ==
            CountFree(bits, n) + if n <= index then 0 else if n < index + count then n - index else count
  {
    if n > 0 { CountClear(bits, index, count, n - 1); }
  }

  /** Only pages below the end of memory, other than page 0, are free. */
  lemma {:induction false} FreeBelow(bits: seq<bool>, end: nat, n: nat)
    requires n <= |bits| && 0 < end && (0 < |bits| ==> bits[0]) && forall i | end <= i < |bits| :: bits[i]
    ensures CountFree(bits, n) <= if n == 0 then 0 else if n < end then n - 1 else end - 1
  {
    if n > 0 { FreeBelow(bits, end, n - 1); }
  }

  // ---------------------------------------------------------------- what the operations do to runs

  /** Two runs of the same bits that meet are the same; here the bits `a` and `b` agree on the
      pages around. */
  lemma SameRun(a: seq<bool>, b: seq<bool>, s: nat, e: nat)
    requires |a| == |b| && RunAt(a, s, e) && forall i | s - 1 <= i <= e + 1 :: b[i] == a[i]
    ensures RunAt(b, s, e)
  {
    assert b[s - 1] == a[s - 1] && b[e + 1] == a[e + 1];
    forall i | s <= i <= e ensures !b[i] { assert !a[i]; }
  }

  /** Using the first page of a run shortens it or removes it, and touches no other run. */
  lemma RunsAfterTake(bits: seq<bool>, index: nat, e: nat, s': nat, e': nat)
    requires RunAt(bits, index, e) && RunAt(bits[index := true], s', e')
    ensures (s' == index + 1 && e' == e) || (RunAt(bits, s', e') && (e' < index || e < s'))
  {
    var bits' := bits[index := true];
    assert bits'[index] && bits'[index - 1] && bits'[e + 1] && bits'[s' - 1] && bits'[e' + 1] && !bits'[s']
      && !bits'[e'];
    assert (s' == index + 1 && e' == e) || e' < index - 1 || e < s';
    if s' != index + 1 {
      SameRun(bits', bits, s', e');
    }
  }

  /** The run that freeing `count` used pages at `index` makes: from `s` to `e`. */
  ghost predicate Joined(bits: seq<bool>, index: nat, count: nat, s: nat, e: nat) {
    && 0 < index && 0 < count && index + count < |bits| && (forall i | index <= i < index + count :: bits[i])
    && (if bits[index - 1] then s == index else RunAt(bits, s, index - 1))
    && (if bits[index + count] then e == index + count - 1 else RunAt(bits, index + count, e))
  }

  /** Freeing joins the pages with the runs on both sides, and touches no other run. */
  lemma RunsAfterFree(bits: seq<bool>, index: nat, count: nat, s: nat, e: nat, s': nat, e': nat)
    requires Joined(bits, index, count, s, e) && RunAt(Filled(bits, index, count, false), s', e')
    ensures (s' == s && e' == e) || (RunAt(bits, s', e') && (e' < s || e < s'))
  {
    var bits' := Filled(bits, index, count, false);
    forall i | s <= i <= e ensures !bits'[i] { }
    assert bits'[s - 1] && bits'[e + 1] && bits'[s' - 1] && bits'[e' + 1];
    assert (s' == s && e' == e) || e' < s || e < s';
    assert e' < s ==> e' < s - 1;
    if s' != s {
      SameRun(bits', bits, s', e');
    }
  }

  // ---------------------------------------------------------------- what the operations do to tags

  /** The fields that are not list links. */
  function Core(t: Tag): Tag {
    t.(last := -1, next := -1)
  }

  ghost predicate Linked(n: nat, t: Tag) {
    Link(n, t.last) && Link(n, t.next)
  }

  /** From `t` to `t'` only list links have changed outside pages `s` to `e`, and only to other
      page numbers or NULL. */
  ghost predicate Inside(t: seq<Tag>, t': seq<Tag>, s: nat, e: int) {
    && |t'| == |t|
    && forall i {:trigger t'[i]} | 0 <= i < |t| ::
         (Linked(|t|, t[i]) ==> Linked(|t|, t'[i])) && (i < s || e < i ==> Core(t'[i]) == Core(t[i]))
  }

  lemma InsideThen(t: seq<Tag>, t': seq<Tag>, t'': seq<Tag>, s: nat, e: int)
    requires Inside(t, t', s, e) && Inside(t', t'', s, e)
    ensures Inside(t, t'', s, e)
  {
    forall i | 0 <= i < |t| ensures
      (Linked(|t|, t[i]) ==> Linked(|t|, t''[i])) && (i < s || e < i ==> Core(t''[i]) == Core(t[i]))
    {
      var mid := t'[i];
    }
  }

  /** The tags of a run outside `s` to `e` stay right. */
  lemma TagsKept(t: seq<Tag>, t': seq<Tag>, s: nat, e: int, s': nat, e': nat)
    requires Inside(t, t', s, e) && Tagged(t, s', e') && (e' < s || e < s')
    ensures Tagged(t', s', e')
  {
    assert Core(t'[s']) == Core(t[s']) && Core(t'[e']) == Core(t[e']);
  }

  /** The tags agree with the bits after the first page of a run has been taken off it. */
  lemma TagsAfterTake(bits: seq<bool>, t: seq<Tag>, t': seq<Tag>, index: nat, e: nat)
    requires AllTagged(bits, t) && RunAt(bits, index, e) && Inside(t, t', index, e)
    requires index < e ==> Tagged(t', index + 1, e)
    ensures AllTagged(bits[index := true], t')
  {
    forall s': nat, e': nat | RunAt(bits[index := true], s', e') ensures Tagged(t', s', e') {
      RunsAfterTake(bits, index, e, s', e');
      if s' != index + 1 {
        TagsKept(t, t', index, e, s', e');
      }
    }
  }

  /** The tags agree with the bits after pages have been joined with the runs next to them. */
  lemma TagsAfterFree(bits: seq<bool>, t: seq<Tag>, t': seq<Tag>, index: nat, count: nat, s: nat, e: nat)
    requires AllTagged(bits, t) && Joined(bits, index, count, s, e) && Inside(t, t', s, e) && Tagged(t', s, e)
    ensures AllTagged(Filled(bits, index, count, false), t')
  {
    forall s': nat, e': nat | RunAt(Filled(bits, index, count, false), s', e') ensures Tagged(t', s', e') {
      RunsAfterFree(bits, index, count, s, e, s', e');
      if s' != s {
        TagsKept(t, t', s, e, s', e');
      }
    }
  }

  /** What is written into a page in use does not matter. */
  lemma TagsAfterWrite(bits: seq<bool>, t: seq<Tag>, page: nat, v: Tag)
    requires AllTagged(bits, t) && page < |t| && page < |bits| && bits[page]
    ensures AllTagged(bits, t[page := v])
  {
    forall s: nat, e: nat | RunAt(bits, s, e) ensures Tagged(t[page := v], s, e) {
      assert Tagged(t, s, e) && page != s && page != e;
    }
  }
}
