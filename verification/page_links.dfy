/** The list of runs of free pages: what each operation stores into tags and links, and when it
    stores into a page that is in use. */
module PageLinks {

  import opened Bitmaps
  import opened PageRuns

  /** The starts of all pages and `pmm_last_free_entry_free_list`. */
  datatype Lists = Lists(tags: seq<Tag>, last: int)

  ghost predicate Sound(l: Lists) {
    Link(|l.tags|, l.last)
  }

  // ---------------------------------------------------------------- the operations

  /** A run header taken out of the list. */
  ghost function Unlinked(l: Lists, node: nat): Lists
    requires node < |l.tags| && Linked(|l.tags|, l.tags[node])
  {
    var t := l.tags;
    var a, b := t[node].last, t[node].next;
    var t1 := if a == -1 then t else t[a := t[a].(next := b)];
    var t2 := if b == -1 then t1 else t1[b := t1[b].(last := a)];
    Lists(t2, if node == l.last then a else l.last)
  }

  /** The header of a run moved up by `count` pages. */
  ghost function Shortened(l: Lists, index: nat, count: nat): Lists
    requires index + count < |l.tags| && 0 <= l.tags[index].end < |l.tags|
  {
    var t, head := l.tags, index + count;
    var h := t[head].(next := t[index].next, last := t[index].last, pageCount := t[index].pageCount - count,
                      indexStart := t[index].indexStart + count, indexEnd := t[index].indexEnd, end := t[index].end);
    var t1 := t[head := h];
    Lists(t1[h.end := t1[h.end].(start := head)], if index == l.last then head else l.last)
  }

  /** `pmm_remove_pages_to_free_list` on the run from `index` to `e`. */
  ghost function Removed(l: Lists, index: nat, count: nat, e: nat): Lists
    requires Tagged(l.tags, index, e) && 0 < count <= e - index + 1
  {
    if count == e - index + 1 then Unlinked(l, index) else Shortened(l, index, count)
  }

  /** Two runs joined: the lower one, from `s`, grows to the end `e` of the upper one. */
  ghost function Bridged(l: Lists, index: nat, count: nat, s: nat, e: nat): Lists
    requires 0 < index && 0 < count && Tagged(l.tags, s, index - 1) && Tagged(l.tags, index + count, e)
  {
    var t, next := l.tags, index + count;
    var t1 := t[s := t[s].(end := e, indexEnd := e, pageCount := e - s + 1)];
    Unlinked(Lists(t1[e := t1[e].(start := s)], l.last), next)
  }

  /** The header of the run above moved down to `index`. */
  ghost function Lowered(l: Lists, index: nat, count: nat, e: nat): Lists
    requires 0 < count && Tagged(l.tags, index + count, e)
  {
    var t, next := l.tags, index + count;
    var t1 := t[index := Tag(e, t[index].start, index, e, e - index + 1, t[next].last, t[next].next)];
    Lists(t1[e := t1[e].(start := index)], if next == l.last then index else l.last)
  }

  /** The run below, from `s`, extended. */
  ghost function Extended(l: Lists, index: nat, count: nat, s: nat): Lists
    requires 0 < index && 0 < count && index + count <= |l.tags| && Tagged(l.tags, s, index - 1)
  {
    var t, end := l.tags, index + count - 1;
    var t1 := t[s := t[s].(pageCount := end - s + 1, indexEnd := end, end := end)];
    Lists(t1[end := t1[end].(start := s)], l.last)
  }

  /** A new run at the end of the list. */
  ghost function Appended(l: Lists, index: nat, count: nat): Lists
    requires 0 < count && index + count <= |l.tags| && Sound(l)
  {
    var t, end := l.tags, index + count - 1;
    var t1 := t[index := Tag(end, t[index].start, index, end, count, t[index].last, t[index].next)];
    var t2 := t1[end := t1[end].(start := index)];
    var t3 := t2[index := t2[index].(last := l.last, next := -1)];
    Lists(if l.last == -1 then t3 else t3[l.last := t3[l.last].(next := index)], index)
  }

  /** `pmm_add_page_to_free_list`; the run that results is from `s` to `e`. */
  ghost function Added(bits: seq<bool>, l: Lists, index: nat, count: nat, s: nat, e: nat): Lists
    requires Joined(bits, index, count, s, e) && index + count <= |l.tags| && Sound(l)
    requires AllTagged(bits, l.tags)
  {
    if !bits[index + count] then
      (if !bits[index - 1] then Bridged(l, index, count, s, e) else Lowered(l, index, count, e))
    else if !bits[index - 1] then Extended(l, index, count, s)
    else Appended(l, index, count)
  }

  /** The bounds of the run that results, as the tags next to the pages give them. */
  ghost function From(bits: seq<bool>, l: Lists, index: nat): int
    requires 0 < index <= |l.tags| && index < |bits|
  {
    if bits[index - 1] then index else l.tags[index - 1].start
  }

  ghost function To(bits: seq<bool>, l: Lists, next: nat): int
    requires 0 < next < |bits| && next <= |l.tags|
  {
    if bits[next] || next == |l.tags| then next - 1 else l.tags[next].end
  }

  // ---------------------------------------------------------------- what they store

  /** Closed form of unlinking. */
  lemma UnlinkedAt(l: Lists, node: nat, i: nat)
    requires node < |l.tags| && Linked(|l.tags|, l.tags[node]) && i < |l.tags|
    ensures var t, r := l.tags, Unlinked(l, node);
      && |r.tags| == |t|
      && r.tags[i] == t[i].(next := if i == t[node].last then t[node].next else t[i].next,
                            last := if i == t[node].next then t[node].last else t[i].last)
  {
  }

  lemma UnlinkedInside(l: Lists, node: nat)
    requires node < |l.tags| && Linked(|l.tags|, l.tags[node]) && Sound(l)
    ensures Sound(Unlinked(l, node)) && Inside(l.tags, Unlinked(l, node).tags, 0, -1)
  {
  }

  lemma RemovedInside(l: Lists, index: nat, count: nat, e: nat)
    requires Tagged(l.tags, index, e) && 0 < count <= e - index + 1 && Sound(l)
    ensures var r := Removed(l, index, count, e);
      Sound(r) && Inside(l.tags, r.tags, index, e) && (index + count <= e ==> Tagged(r.tags, index + count, e))
  {
    if count == e - index + 1 { UnlinkedInside(l, index); }
  }

  lemma BridgedInside(l: Lists, index: nat, count: nat, s: nat, e: nat)
    requires 0 < index && 0 < count && Tagged(l.tags, s, index - 1) && Tagged(l.tags, index + count, e) && Sound(l)
    ensures var r := Bridged(l, index, count, s, e); Sound(r) && Inside(l.tags, r.tags, s, e) && Tagged(r.tags, s, e)
  {
    var t, next := l.tags, index + count;
    var t1 := t[s := t[s].(end := e, indexEnd := e, pageCount := e - s + 1)];
    var mid := Lists(t1[e := t1[e].(start := s)], l.last);
    UnlinkedInside(mid, next);
    UnlinkedAt(mid, next, s);
    UnlinkedAt(mid, next, e);
    InsideThen(t, mid.tags, Unlinked(mid, next).tags, s, e);
  }

  lemma AddedInside(bits: seq<bool>, l: Lists, index: nat, count: nat, s: nat, e: nat)
    requires Joined(bits, index, count, s, e) && index + count <= |l.tags| && Sound(l) && AllTagged(bits, l.tags)
    ensures var r := Added(bits, l, index, count, s, e);
      Sound(r) && Inside(l.tags, r.tags, s, e) && Tagged(r.tags, s, e)
  {
    if !bits[index + count] && !bits[index - 1] { BridgedInside(l, index, count, s, e); }
  }

  // ---------------------------------------------------------------- stores into pages in use

  /** The pages outside the run being built whose links `pmm_free_pages` overwrites. */
  ghost function FreeTargets(bits: seq<bool>, l: Lists, index: nat, count: nat): set<int>
    requires 0 < index && index + count < |bits| && index + count <= |l.tags|
    requires !bits[index + count] ==> index + count < |l.tags|
  {
    var next := index + count;
    if !bits[next] && !bits[index - 1] then {l.tags[next].last, l.tags[next].next}
    else if bits[next] && bits[index - 1] then {l.last}
    else {}
  }

  /** The pages outside the run from `index` to `e` whose links `pmm_allocate_page` overwrites. */
  ghost function TakeTargets(l: Lists, index: nat, e: nat): set<int>
    requires index < |l.tags|
  {
    if index == e then {l.tags[index].last, l.tags[index].next} else {}
  }

  /** The owner of page `p` has stored `v` at its start. */
  ghost function Owned(l: Lists, p: nat, v: Tag): Lists
    requires p < |l.tags|
  {
    Lists(l.tags[p := v], l.last)
  }

  lemma FreeFrame(bits: seq<bool>, l: Lists, index: nat, count: nat, s: nat, e: nat, p: nat)
    requires Joined(bits, index, count, s, e) && index + count <= |l.tags| && Sound(l) && AllTagged(bits, l.tags)
    requires p < |l.tags| && (p < s || e < p)
    ensures var r := Added(bits, l, index, count, s, e);
      && |r.tags| == |l.tags|
      && (p !in FreeTargets(bits, l, index, count) ==> r.tags[p] == l.tags[p])
  {
    if !bits[index + count] && !bits[index - 1] { BridgedFrame(l, index, count, s, e, p); }
  }

  lemma BridgedFrame(l: Lists, index: nat, count: nat, s: nat, e: nat, p: nat)
    requires 0 < index && 0 < count && Tagged(l.tags, s, index - 1) && Tagged(l.tags, index + count, e)
    requires p < |l.tags| && (p < s || e < p)
    ensures var r, node := Bridged(l, index, count, s, e), l.tags[index + count];
      |r.tags| == |l.tags| && (p != node.last && p != node.next ==> r.tags[p] == l.tags[p])
  {
    var t := l.tags;
    var t1 := t[s := t[s].(end := e, indexEnd := e, pageCount := e - s + 1)];
    UnlinkedAt(Lists(t1[e := t1[e].(start := s)], l.last), index + count, p);
  }

  lemma TakeFrame(l: Lists, index: nat, e: nat, p: nat)
    requires Tagged(l.tags, index, e) && p < |l.tags| && (p < index || e < p)
    ensures var r := Removed(l, index, 1, e);
      |r.tags| == |l.tags| && (p !in TakeTargets(l, index, e) ==> r.tags[p] == l.tags[p])
  {
    if index == e { UnlinkedAt(l, index, p); }
  }

  /** `pmm_free_pages` leaves a page in use alone, whatever its owner has stored there, exactly if
      it is not one of those pages. */
  lemma FreeLeavesAlone(bits: seq<bool>, l: Lists, index: nat, count: nat, s: nat, e: nat, p: nat)
    requires Joined(bits, index, count, s, e) && index + count <= |l.tags| && Sound(l) && AllTagged(bits, l.tags)
    requires p < |l.tags| && p < |bits| && bits[p] && (p < s || e < p)
    ensures forall v {:trigger Owned(l, p, v)} :: AllTagged(bits, Owned(l, p, v).tags)
    ensures (forall v {:trigger Owned(l, p, v)} :: Added(bits, Owned(l, p, v), index, count, s, e).tags[p] == v) <==>
            p !in FreeTargets(bits, l, index, count)
  {
    forall v ensures AllTagged(bits, Owned(l, p, v).tags) { TagsAfterWrite(bits, l.tags, p, v); }
    forall v | p !in FreeTargets(bits, l, index, count)
      ensures Added(bits, Owned(l, p, v), index, count, s, e).tags[p] == v
    {
      FreeFrame(bits, Owned(l, p, v), index, count, s, e, p);
    }
    if p in FreeTargets(bits, l, index, count) {
      var v := Tag(0, 0, 0, 0, 0, -2, -2);
      FreeOverwrites(bits, l, index, count, s, e, p, v);
    }
  }

  lemma FreeOverwrites(bits: seq<bool>, l: Lists, index: nat, count: nat, s: nat, e: nat, p: nat, v: Tag)
    requires Joined(bits, index, count, s, e) && index + count <= |l.tags| && Sound(l) && AllTagged(bits, l.tags)
    requires p < |l.tags| && p < |bits| && bits[p] && (p < s || e < p) && v.last == v.next == -2
    requires p in FreeTargets(bits, l, index, count) && AllTagged(bits, Owned(l, p, v).tags)
    ensures Added(bits, Owned(l, p, v), index, count, s, e).tags[p] != v
  {
    if !bits[index + count] && !bits[index - 1] {
      var t := Owned(l, p, v).tags;
      var t1 := t[s := t[s].(end := e, indexEnd := e, pageCount := e - s + 1)];
      assert Tagged(t, index + count, e);
      UnlinkedAt(Lists(t1[e := t1[e].(start := s)], l.last), index + count, p);
    }
  }

  /** The same for `pmm_allocate_page`. */
  lemma TakeLeavesAlone(bits: seq<bool>, l: Lists, index: nat, e: nat, p: nat)
    requires RunAt(bits, index, e) && AllTagged(bits, l.tags) && p < |l.tags| && p < |bits| && bits[p]
    ensures forall v {:trigger Owned(l, p, v)} :: Tagged(Owned(l, p, v).tags, index, e)
    ensures (forall v {:trigger Owned(l, p, v)} :: Removed(Owned(l, p, v), index, 1, e).tags[p] == v) <==>
            p !in TakeTargets(l, index, e)
  {
    forall v ensures Tagged(Owned(l, p, v).tags, index, e) { TagsAfterWrite(bits, l.tags, p, v); }
    forall v | p !in TakeTargets(l, index, e) ensures Removed(Owned(l, p, v), index, 1, e).tags[p] == v {
      TakeFrame(Owned(l, p, v), index, e, p);
    }
    if p in TakeTargets(l, index, e) {
      var v := Tag(0, 0, 0, 0, 0, -2, -2);
      UnlinkedAt(Owned(l, p, v), index, p);
      assert Removed(Owned(l, p, v), index, 1, e).tags[p] != v;
    }
  }

  // ---------------------------------------------------------------- links that point at free pages

  ghost predicate Free(bits: seq<bool>, p: int) {
    p == -1 || (0 <= p < |bits| && !bits[p])
  }

  ghost predicate FreeLinks(bits: seq<bool>, t: Tag) {
    Free(bits, t.last) && Free(bits, t.next)
  }

  /** The list leads to free pages only. */
  ghost predicate Clean(bits: seq<bool>, l: Lists) {
    && Free(bits, l.last)
    && forall s: nat, e: nat {:trigger RunAt(bits, s, e)} | RunAt(bits, s, e) ::
         s < |l.tags| && FreeLinks(bits, l.tags[s])
  }

  /** Then no page in use is stored into. */
  lemma CleanTargets(bits: seq<bool>, l: Lists, index: nat, count: nat, s: nat, e: nat, p: nat)
    requires Joined(bits, index, count, s, e) && index + count <= |l.tags| && AllTagged(bits, l.tags)
    requires Clean(bits, l) && p < |bits| && bits[p]
    ensures p !in FreeTargets(bits, l, index, count)
  {
    if !bits[index + count] { assert RunAt(bits, index + count, e); }
  }

  lemma CleanTakeTargets(bits: seq<bool>, l: Lists, index: nat, e: nat, p: nat)
    requires RunAt(bits, index, e) && Clean(bits, l) && p < |bits| && bits[p]
    ensures index < |l.tags| && p !in TakeTargets(l, index, e)
  {
  }

  /** Freeing pages keeps the list clean. */
  lemma CleanAfterFree(bits: seq<bool>, l: Lists, index: nat, count: nat, s: nat, e: nat)
    requires Joined(bits, index, count, s, e) && index + count <= |l.tags| && Sound(l) && AllTagged(bits, l.tags)
    requires Clean(bits, l)
    ensures Clean(Filled(bits, index, count, false), Added(bits, l, index, count, s, e))
  {
    var bits', r := Filled(bits, index, count, false), Added(bits, l, index, count, s, e);
    AddedInside(bits, l, index, count, s, e);
    if !bits[index + count] { assert RunAt(bits, index + count, e); }
    if !bits[index - 1] { assert RunAt(bits, s, index - 1); }
    forall s': nat, e': nat | RunAt(bits', s', e') ensures s' < |r.tags| && FreeLinks(bits', r.tags[s']) {
      RunsAfterFree(bits, index, count, s, e, s', e');
      if s' != s { assert RunAt(bits, s', e'); }
      LinksAfterFree(bits, l, index, count, s, e, s');
    }
  }

  /** Every link is an old one of a run, an old one of the same page, or the new run. */
  lemma LinksAfterFree(bits: seq<bool>, l: Lists, index: nat, count: nat, s: nat, e: nat, i: nat)
    requires Joined(bits, index, count, s, e) && index + count <= |l.tags| && Sound(l) && AllTagged(bits, l.tags)
    requires Clean(bits, l) && i < |l.tags| && (i == s || FreeLinks(bits, l.tags[i]))
    ensures var r := Added(bits, l, index, count, s, e);
      |r.tags| == |l.tags| && FreeLinks(Filled(bits, index, count, false), r.tags[i])
  {
    var bits' := Filled(bits, index, count, false);
    FreeAfterFree(bits, index, count);
    if !bits[index + count] {
      assert RunAt(bits, index + count, e);
      if !bits[index - 1] {
        assert RunAt(bits, s, index - 1);
        LinksBridged(bits', l, index, count, s, e, i);
      } else {
        LinksLowered(bits', l, index, count, e, i);
      }
    } else if !bits[index - 1] {
      assert RunAt(bits, s, index - 1);
    } else {
      LinksAppended(bits', l, index, count, i);
    }
  }

  lemma FreeAfterFree(bits: seq<bool>, index: nat, count: nat)
    requires index + count < |bits| && 0 < count
    ensures forall p :: Free(bits, p) ==> Free(Filled(bits, index, count, false), p)
    ensures Free(Filled(bits, index, count, false), index)
  {
  }

  lemma LinksBridged(bits: seq<bool>, l: Lists, index: nat, count: nat, s: nat, e: nat, i: nat)
    requires 0 < index && 0 < count && Tagged(l.tags, s, index - 1) && Tagged(l.tags, index + count, e)
    requires i < |l.tags| && FreeLinks(bits, l.tags[i]) && FreeLinks(bits, l.tags[index + count])
    ensures var r := Bridged(l, index, count, s, e); |r.tags| == |l.tags| && FreeLinks(bits, r.tags[i])
  {
    var t := l.tags;
    var t1 := t[s := t[s].(end := e, indexEnd := e, pageCount := e - s + 1)];
    UnlinkedAt(Lists(t1[e := t1[e].(start := s)], l.last), index + count, i);
  }

  lemma LinksLowered(bits: seq<bool>, l: Lists, index: nat, count: nat, e: nat, i: nat)
    requires 0 < count && Tagged(l.tags, index + count, e)
    requires i < |l.tags| && (i == index || FreeLinks(bits, l.tags[i])) && FreeLinks(bits, l.tags[index + count])
    ensures var r := Lowered(l, index, count, e); |r.tags| == |l.tags| && FreeLinks(bits, r.tags[i])
  {
  }

  lemma LinksAppended(bits: seq<bool>, l: Lists, index: nat, count: nat, i: nat)
    requires 0 < count && index + count <= |l.tags| && Sound(l) && Free(bits, l.last) && Free(bits, index)
    requires i < |l.tags| && (i == index || FreeLinks(bits, l.tags[i]))
    ensures var r := Appended(l, index, count); |r.tags| == |l.tags| && FreeLinks(bits, r.tags[i])
  {
  }

  // ---------------------------------------------------------------- taking a page

  /** The links of the run header `s'` once the page `index` has been taken off the run that ends at
      `e`: only the neighbours of a run that is taken whole get new ones. */
  ghost function NextAfter(l: Lists, index: nat, e: nat, s': nat): int
    requires index < |l.tags| && s' < |l.tags|
  {
    if index == e && s' == l.tags[index].last then l.tags[index].next else l.tags[s'].next
  }

  ghost function LastAfter(l: Lists, index: nat, e: nat, s': nat): int
    requires index < |l.tags| && s' < |l.tags|
  {
    if index == e && s' == l.tags[index].next then l.tags[index].last else l.tags[s'].last
  }

  /** No other run is left pointing at `index`. */
  ghost predicate Released(bits: seq<bool>, l: Lists, index: nat, e: nat)
    requires index < |l.tags|
  {
    var t := l.tags[index];
    && (index < e ==> t.last != index && t.next != index)
    && (index == e == l.last ==> t.last != index)
    && forall s': nat, e': nat {:trigger RunAt(bits, s', e')} | RunAt(bits, s', e') && s' != index ::
         s' < |l.tags| && NextAfter(l, index, e, s') != index && LastAfter(l, index, e, s') != index
  }

  /** Links after the page has been taken. */
  lemma LinksAfterTake(l: Lists, index: nat, e: nat, s': nat)
    requires Tagged(l.tags, index, e) && s' < |l.tags|
    ensures var r := Removed(l, index, 1, e);
      && |r.tags| == |l.tags|
      && (s' != index && (s' < index || e < s') ==>
            r.tags[s'].next == NextAfter(l, index, e, s') && r.tags[s'].last == LastAfter(l, index, e, s'))
      && (s' == index + 1 <= e ==> r.tags[s'].next == l.tags[index].next && r.tags[s'].last == l.tags[index].last)
  {
    if index == e { UnlinkedAt(l, index, s'); }
  }

  /** Taking a page keeps the list clean exactly in that case. */
  lemma CleanAfterTake(bits: seq<bool>, l: Lists, index: nat, e: nat)
    requires RunAt(bits, index, e) && AllTagged(bits, l.tags) && Sound(l) && Clean(bits, l)
    ensures Clean(bits[index := true], Removed(l, index, 1, e)) <==> Released(bits, l, index, e)
  {
    var bits', r := bits[index := true], Removed(l, index, 1, e);
    assert forall p :: Free(bits', p) <==> Free(bits, p) && p != index;
    forall s': nat, e': nat | RunAt(bits', s', e')
      ensures s' < |r.tags| && (Released(bits, l, index, e) ==> FreeLinks(bits', r.tags[s']))
    {
      TakenLinks(bits, l, index, e, s', e');
    }
    forall s': nat, e': nat | RunAt(bits, s', e') && s' != index && Clean(bits', r)
      ensures s' < |l.tags| && NextAfter(l, index, e, s') != index && LastAfter(l, index, e, s') != index
    {
      OtherRunKept(bits, index, e, s', e');
      assert RunAt(bits', s', e');
      LinksAfterTake(l, index, e, s');
    }
    if index < e {
      ShortenedRun(bits, index, e);
      LinksAfterTake(l, index, e, index + 1);
    }
  }

  lemma ShortenedRun(bits: seq<bool>, index: nat, e: nat)
    requires RunAt(bits, index, e) && index < e
    ensures RunAt(bits[index := true], index + 1, e)
  {
  }

  lemma OtherRunKept(bits: seq<bool>, index: nat, e: nat, s': nat, e': nat)
    requires RunAt(bits, index, e) && RunAt(bits, s', e') && s' != index
    ensures RunAt(bits[index := true], s', e') && (e' < index || e < s')
  {
    assert bits[index - 1] && bits[e + 1] && bits[s' - 1] && bits[e' + 1] && !bits[index] && !bits[s'];
    var bits' := bits[index := true];
    assert forall i | s' <= i <= e' :: !bits[i];
  }

  lemma TakenLinks(bits: seq<bool>, l: Lists, index: nat, e: nat, s': nat, e': nat)
    requires RunAt(bits, index, e) && AllTagged(bits, l.tags) && Clean(bits, l) && RunAt(bits[index := true], s', e')
    ensures s' < |l.tags|
    ensures Released(bits, l, index, e) ==> FreeLinks(bits[index := true], Removed(l, index, 1, e).tags[s'])
  {
    RunsAfterTake(bits, index, e, s', e');
    LinksAfterTake(l, index, e, s');
    if s' != index + 1 || e' != e { assert RunAt(bits, s', e'); }
  }

  // ---------------------------------------------------------------- the run the list ends with

  /** A list that ends with the run from `s0` to `e0` still ends with it after pages are freed, wherever
      it starts and ends now. Only pages without a free neighbour come behind it, and if it is joined
      with the run below, the list ends where its link says. */
  lemma LastAfterFree(bits: seq<bool>, l: Lists, index: nat, count: nat, s: nat, e: nat, s0: nat, e0: nat)
    requires Joined(bits, index, count, s, e) && index + count <= |l.tags| && Sound(l) && AllTagged(bits, l.tags)
    requires RunAt(bits, s0, e0) && l.last == s0
    ensures var bits', r := Filled(bits, index, count, false), Added(bits, l, index, count, s, e);
      if bits[index - 1] && bits[index + count] then r.last == index && RunAt(bits', index, index + count - 1)
      else if s < index && s0 == index + count then r.last == l.tags[s0].last
      else 0 <= r.last <= s0 && RunAt(bits', r.last, if s <= s0 <= e then e else e0)
  {
    var bits' := Filled(bits, index, count, false);
    assert RunAt(bits', s, e);
    if s <= s0 <= e {
      assert s0 == s || s0 == index + count by { assert !bits[s0] && bits[s0 - 1]; }
    } else {
      assert e0 < s || e < s0;
      SameRun(bits, bits', s0, e0);
    }
  }

  /** It does after a page is taken, too, if anything is left of it. */
  lemma LastAfterTake(bits: seq<bool>, l: Lists, index: nat, e: nat, s0: nat, e0: nat)
    requires RunAt(bits, index, e) && AllTagged(bits, l.tags) && RunAt(bits, s0, e0) && l.last == s0
    ensures var bits', r := bits[index := true], Removed(l, index, 1, e);
      if s0 == index == e then r.last == l.tags[index].last
      else s0 <= r.last && RunAt(bits', r.last, e0)
  {
    if s0 == index {
      assert e0 == e;
    } else {
      SameRun(bits, bits[index := true], s0, e0);
    }
  }
}
