/** Removing entries from a directory: the entries behind them are moved down, and the rest of the
    last cluster is zeroed. */
module FatRemove {

  import opened FatTable
  import opened FatContent
  import opened FatVolume
  import opened FatDirectory
  import opened FatNames
  import opened FatSearch
  import opened Distinctness
  import opened Machine

  /** Entries `first` to `next - 1` of a directory of `d` entries are removed. */
  datatype Removal = Removal(d: nat, first: nat, next: nat)

  ghost predicate Inside(r: Removal) { r.first < r.next <= r.d }

  /** The number of entries left; also the number of entries that are moved, which is more than
      there are behind the removed ones. */
  function Left(r: Removal): nat
    requires Inside(r)
  {
    r.d - (r.next - r.first)
  }

  /** The buffer that is written: what could be read, and what was in it before. */
  ghost function Moved(c: seq<Byte>, r: Removal, garbage: seq<Byte>): (b: seq<Byte>)
    requires Inside(r) && |garbage| == ENTRY_SIZE * Left(r)
    ensures |b| == |garbage|
  {
    seq(|garbage|, i requires 0 <= i < |garbage| =>
      if ENTRY_SIZE * r.next + i < |c| then c[ENTRY_SIZE * r.next + i] else garbage[i])
  }

  /** The bytes of the directory afterwards; `s` is what its clusters, down to the last one written,
      held before. */
  ghost function After(s: seq<Byte>, r: Removal, b: seq<Byte>, size: nat): (t: seq<Byte>)
    requires Inside(r) && size > 0
    ensures |t| == |s|
  {
    var at := ENTRY_SIZE * r.first;
    var from, to := FillStart(at, |b|, size), Extent(LastCluster(at + |b|, size), size) + size;
    if from <= to then Overwrite(Overwrite(s, at, b), from, Zeros(to - from)) else s
  }

  /** Where a removal starts: the directory holds the bytes `c`, with no entry in use from `d` on, and
      `s` are its clusters down to the last one written, new ones included. */
  ghost predicate Setting(c: seq<Byte>, s: seq<Byte>, r: Removal, size: nat) {
    && Inside(r) && size > 0 && size % ENTRY_SIZE == 0 && |c| % ENTRY_SIZE == 0 && ENTRY_SIZE * r.d <= |c|
    && |s| == Extent(LastCluster(ENTRY_SIZE * (r.first + Left(r)), size), size) + size
    && (c <= s || s <= c)
    && Slack(c, r.d)
  }

  /** From entry `d` on none is in use. */
  ghost predicate Slack(c: seq<Byte>, d: nat) {
    forall k: nat {:trigger Unused(c, k)} :: d <= k ==> Unused(c, k)
  }

  /** Entry `k` is not there or not in use. */
  ghost predicate Unused(c: seq<Byte>, k: nat) {
    var p := ENTRY_SIZE * k;
    p + ENTRY_SIZE <= |c| ==> c[p] == 0 || c[p] == 0x05 || c[p] == 0xE5
  }

  /** Byte `i` of the entries that should be left. */
  ghost function Expected(c: seq<Byte>, r: Removal, i: nat): Byte
    requires Inside(r) && ENTRY_SIZE * r.d <= |c| && i < ENTRY_SIZE * Left(r)
  {
    if i < ENTRY_SIZE * r.first then c[i] else c[i + ENTRY_SIZE * (r.next - r.first)]
  }

  /** The directory holds the entries that should be left, and no other. */
  ghost predicate RightlyRemoved(c: seq<Byte>, t: seq<Byte>, r: Removal)
    requires Inside(r) && ENTRY_SIZE * r.d <= |c|
  {
    && ENTRY_SIZE * Left(r) <= |t|
    && (forall i | 0 <= i < ENTRY_SIZE * Left(r) :: t[i] == Expected(c, r, i))
    && Slack(t, Left(r))
  }

  /** Where the zeros start: behind the entries left, if they and as many again as were in front of the
      removed ones fit the first cluster, and otherwise behind all that was moved. */
  lemma FillsFrom(r: Removal, size: nat)
    requires Inside(r) && size > 0
    ensures var at, n := ENTRY_SIZE * r.first, ENTRY_SIZE * Left(r);
      && FillStart(at, n, size) == (if at + n <= size then n else at + n)
      && at + n <= Extent(LastCluster(at + n, size), size) + size && FillStart(at, n, size) >= n
  {
    var at, n := ENTRY_SIZE * r.first, ENTRY_SIZE * Left(r);
    var q := LastCluster(at + n, size);
    EndsInside(at + n, size);
    if at + n > size { ExtentGrows(1, q, size); }
  }

  /** The entries that should be left are there in any case. */
  lemma ExpectedKept(c: seq<Byte>, s: seq<Byte>, r: Removal, garbage: seq<Byte>, size: nat, i: nat)
    requires Setting(c, s, r, size) && |garbage| == ENTRY_SIZE * Left(r) && i < ENTRY_SIZE * Left(r)
    ensures ENTRY_SIZE * Left(r) <= |s| && After(s, r, Moved(c, r, garbage), size)[i] == Expected(c, r, i)
  {
    FillsFrom(r, size);
  }

  /** Byte `p` behind them. */
  lemma BehindAt(c: seq<Byte>, s: seq<Byte>, r: Removal, garbage: seq<Byte>, size: nat, p: nat)
    requires Setting(c, s, r, size) && |garbage| == ENTRY_SIZE * Left(r) && ENTRY_SIZE * Left(r) <= p < |s|
    ensures var at, n := ENTRY_SIZE * r.first, ENTRY_SIZE * Left(r);
      After(s, r, Moved(c, r, garbage), size)[p] ==
      if at + n > size && p < at + n then Moved(c, r, garbage)[p - at] else 0
  {
    FillsFrom(r, size);
  }

  lemma BehindUnused(c: seq<Byte>, s: seq<Byte>, r: Removal, garbage: seq<Byte>, size: nat, k: nat)
    requires Setting(c, s, r, size) && |garbage| == ENTRY_SIZE * Left(r) && Left(r) <= k
    requires ENTRY_SIZE * (r.first + Left(r)) <= size || ENTRY_SIZE * (r.d + r.first) <= |c|
    ensures Unused(After(s, r, Moved(c, r, garbage), size), k)
  {
    var at, n, p := ENTRY_SIZE * r.first, ENTRY_SIZE * Left(r), ENTRY_SIZE * k;
    if p + ENTRY_SIZE <= |s| {
      BehindAt(c, s, r, garbage, size, p);
      if at + n > size && p < at + n {
        var m := k + (r.next - r.first);
        assert Moved(c, r, garbage)[p - at] == c[ENTRY_SIZE * m];
        assert Unused(c, m);
      }
    }
  }

  /** Removing entries is right, whatever was in the buffer, exactly if the entries left and as many
      again as were in front of the removed ones fit one cluster, or the directory has room behind
      its entries for the ones in front of the removed ones. */
  lemma RemovalExact(c: seq<Byte>, s: seq<Byte>, r: Removal, size: nat)
    requires Setting(c, s, r, size)
    ensures (forall garbage: seq<Byte> | |garbage| == ENTRY_SIZE * Left(r) ::
               RightlyRemoved(c, After(s, r, Moved(c, r, garbage), size), r)) <==>
            ENTRY_SIZE * (r.first + Left(r)) <= size || ENTRY_SIZE * (r.d + r.first) <= |c|
  {
    if ENTRY_SIZE * (r.first + Left(r)) <= size || ENTRY_SIZE * (r.d + r.first) <= |c| {
      forall garbage: seq<Byte> | |garbage| == ENTRY_SIZE * Left(r)
        ensures RightlyRemoved(c, After(s, r, Moved(c, r, garbage), size), r)
      {
        Removed(c, s, r, garbage, size);
      }
    } else {
      var garbage := Phantom(c, s, r, size);
    }
  }

  lemma Removed(c: seq<Byte>, s: seq<Byte>, r: Removal, garbage: seq<Byte>, size: nat)
    requires Setting(c, s, r, size) && |garbage| == ENTRY_SIZE * Left(r)
    requires ENTRY_SIZE * (r.first + Left(r)) <= size || ENTRY_SIZE * (r.d + r.first) <= |c|
    ensures RightlyRemoved(c, After(s, r, Moved(c, r, garbage), size), r)
  {
    var t := After(s, r, Moved(c, r, garbage), size);
    FillsFrom(r, size);
    forall i | 0 <= i < ENTRY_SIZE * Left(r) ensures t[i] == Expected(c, r, i) {
      ExpectedKept(c, s, r, garbage, size, i);
    }
    forall k: nat | Left(r) <= k ensures Unused(t, k) { BehindUnused(c, s, r, garbage, size, k); }
  }

  lemma WholeEntriesBehind(length: nat, n: nat)
    requires length % ENTRY_SIZE == 0 && length < ENTRY_SIZE * n
    ensures length <= ENTRY_SIZE * n - ENTRY_SIZE
  {
  }

  /** Otherwise a byte of the buffer that was not read becomes the first byte of an entry. */
  lemma Phantom(c: seq<Byte>, s: seq<Byte>, r: Removal, size: nat) returns (garbage: seq<Byte>)
    requires Setting(c, s, r, size)
    requires ENTRY_SIZE * (r.first + Left(r)) > size && ENTRY_SIZE * (r.d + r.first) > |c|
    ensures |garbage| == ENTRY_SIZE * Left(r)
    ensures !RightlyRemoved(c, After(s, r, Moved(c, r, garbage), size), r)
  {
    garbage := seq(ENTRY_SIZE * Left(r), _ => 0x41);
    var k := r.first + Left(r) - 1;
    var at, p := ENTRY_SIZE * r.first, ENTRY_SIZE * k;
    FillsFrom(r, size);
    BehindAt(c, s, r, garbage, size, p);
    WholeEntriesBehind(|c|, r.d + r.first);
    assert Moved(c, r, garbage)[p - at] == 0x41;
    assert !Unused(After(s, r, Moved(c, r, garbage), size), k);
  }

  /** Two full clusters of 512 bytes, and the second of their 32 entries is removed. */
  lemma GarbageAppears(c: seq<Byte>) returns (garbage: seq<Byte>)
    requires |c| == 1024
    ensures var r := Removal(32, 1, 2);
      && |garbage| == 31 * ENTRY_SIZE
      && !RightlyRemoved(c, After(c, r, Moved(c, r, garbage), 512), r)
  {
    LastClusterIs(1, 1024, 512);
    garbage := Phantom(c, c, Removal(32, 1, 2), 512);
  }

  // ---------------------------------------------------------------- on the volume

  /** What a write up to the end of the moved entries leaves of the chain. */
  lemma ShapeOf(before: Data, cs: seq<nat>, cs': seq<nat>, size: nat, r: Removal)
    requires Blocks(before, size) && size > 0 && size % ENTRY_SIZE == 0 && Within(before, cs) && Within(before, cs')
    requires Inside(r) && cs' != [] && (cs <= cs' || cs' <= cs)
    requires ENTRY_SIZE * r.d <= |Content(before, cs)| && Slack(Content(before, cs), r.d)
    requires ENTRY_SIZE * (r.first + Left(r)) <= Extent(|cs'|, size)
    requires |cs'| == 1 || Extent(|cs'| - 1, size) < ENTRY_SIZE * (r.first + Left(r))
    ensures Setting(Content(before, cs), Content(before, cs'), r, size)
  {
    if cs <= cs' { SharedContent(before, cs, cs'); } else { SharedContent(before, cs', cs); }
    LengthOf(before, cs, size);
    LengthOf(before, cs', size);
    SettingOf(Content(before, cs), Content(before, cs'), r, size, |cs'|);
  }

  lemma SettingOf(c: seq<Byte>, s: seq<Byte>, r: Removal, size: nat, n: nat)
    requires Inside(r) && size > 0 && size % ENTRY_SIZE == 0 && |c| % ENTRY_SIZE == 0 && ENTRY_SIZE * r.d <= |c|
    requires n > 0 && |s| == Extent(n, size) && (c <= s || s <= c)
    requires ENTRY_SIZE * (r.first + Left(r)) <= Extent(n, size)
    requires n == 1 || Extent(n - 1, size) < ENTRY_SIZE * (r.first + Left(r))
    requires Slack(c, r.d)
    ensures Setting(c, s, r, size)
  {
    LastClusterIs(n - 1, ENTRY_SIZE * (r.first + Left(r)), size);
  }

  lemma LengthOf(data: Data, cs: seq<nat>, size: nat)
    requires Blocks(data, size) && size % ENTRY_SIZE == 0 && Within(data, cs)
    ensures |Content(data, cs)| == Extent(|cs|, size) && Extent(|cs|, size) % ENTRY_SIZE == 0
  {
    PrefixLength(data, cs, |cs|, size);
    WholeEntries(|cs|, size);
  }

  lemma SlackBehind(data: Data, cs: seq<nat>, items: seq<Item>)
    requires Within(data, cs) && Lists(Stream(data, cs), items)
    ensures ENTRY_SIZE * |Directory(items)| <= |Content(data, cs)| && Slack(Content(data, cs), |Directory(items)|)
  {
    var c, es := Content(data, cs), Stream(data, cs);
    forall k: nat | |Directory(items)| <= k ensures Unused(c, k) {
      if ENTRY_SIZE * k + ENTRY_SIZE <= |c| { assert es[k][0] == c[ENTRY_SIZE * k]; }
    }
  }

  lemma {:induction false} WholeEntries(k: nat, size: nat)
    requires size % ENTRY_SIZE == 0
    ensures Extent(k, size) % ENTRY_SIZE == 0
  {
    if k > 0 { WholeEntries(k - 1, size); }
  }

  function Garbage(memory: nat -> Byte, n: nat): (g: seq<Byte>)
    ensures |g| == n
  {
    seq(n, i requires 0 <= i < n => memory(i))
  }

  /** The buffer that is written is `Moved`. */
  lemma MovedIs(c: seq<Byte>, r: Removal, garbage: seq<Byte>, bytes: seq<Byte>)
    requires Inside(r) && ENTRY_SIZE * r.d <= |c| && |garbage| == ENTRY_SIZE * Left(r)
    requires bytes == Slice(c, ENTRY_SIZE * r.next, |garbage|)
    ensures |bytes| <= |garbage| && bytes + garbage[|bytes|..] == Moved(c, r, garbage)
  {
  }

  /** The clusters `cs'` of the directory hold what a removal makes of those in `cs`. */
  ghost predicate Changed(before: Data, data: Data, cs: seq<nat>, cs': seq<nat>, r: Removal, garbage: seq<Byte>,
                          size: nat)
    requires Within(data, cs') && Inside(r) && |garbage| == ENTRY_SIZE * Left(r) && size > 0
  {
    && Within(before, cs) && Within(before, cs')
    && Setting(Content(before, cs), Content(before, cs'), r, size)
    && Content(data, cs') == After(Content(before, cs'), r, Moved(Content(before, cs), r, garbage), size)
  }

  lemma MoveDone(before: Data, data: Data, cs: seq<nat>, cs': seq<nat>, r: Removal, garbage: seq<Byte>, size: nat)
    requires Blocks(before, size) && size > 0 && size % ENTRY_SIZE == 0 && Within(before, cs) && Within(data, cs')
    requires Inside(r) && cs' != [] && (cs <= cs' || cs' <= cs) && |garbage| == ENTRY_SIZE * Left(r)
    requires ENTRY_SIZE * r.d <= |Content(before, cs)| && Slack(Content(before, cs), r.d)
    requires var at := ENTRY_SIZE * r.first;
      && at + |garbage| <= Extent(|cs'|, size) && (|cs'| == 1 || Extent(|cs'| - 1, size) < at + |garbage|)
      && Refilled(before, data, Span(cs', at, Moved(Content(before, cs), r, garbage)), size)
    ensures Changed(before, data, cs, cs', r, garbage, size)
  {
    ContentAfter(before, data, cs', r, Moved(Content(before, cs), r, garbage), size);
    ShapeOf(before, cs, cs', size, r);
  }

  lemma ContentAfter(before: Data, data: Data, cs: seq<nat>, r: Removal, b: seq<Byte>, size: nat)
    requires Inside(r) && size > 0 && Within(data, cs)
    requires Refilled(before, data, Span(cs, ENTRY_SIZE * r.first, b), size)
    ensures Within(before, cs) && Content(data, cs) == After(Content(before, cs), r, b, size)
  {
  }

  /** The move of the entries behind the removed ones. */
  method Move(ctx: Context, base: nat, size: nat, first: nat, next: nat, memory: nat -> Byte, ghost cs: seq<nat>,
              ghost r: Removal)
    returns (ok: bool, ghost cs': seq<nat>)
    requires ctx.Valid() && ctx.Reserved01() && Chain(ctx.fat[..], cs) && cs[0] == base && Within(ctx.data, cs)
    requires ctx.clusterSize % ENTRY_SIZE == 0 && Inside(r) && r.first == first && r.next == next
    requires size == ENTRY_SIZE * r.d <= |Content(ctx.data, cs)| && Slack(Content(ctx.data, cs), r.d)
    modifies ctx`fat1, ctx`fat2, ctx`nextFree, ctx`freeCount, ctx`data, ctx.fat
    ensures ctx.Sound(old(ctx.fat[..]), old(ctx.Drift()) + (if ok && Left(r) == 0 then 1 else 0), old(ctx.Mirrored()))
    ensures Edit(old(ctx.fat[..]), ctx.fat[..], cs, cs') && cs' != [] && cs'[0] == base && Within(ctx.data, cs')
    ensures ok ==>
      Changed(old(ctx.data), ctx.data, cs, cs', r, Garbage(memory, ENTRY_SIZE * Left(r)), ctx.clusterSize)
    ensures !ok ==> ctx.Full() && Extent(|cs'|, ctx.clusterSize) < ENTRY_SIZE * (r.first + Left(r))
    ensures forall c | 0 <= c < |ctx.data| && c !in cs' :: c < |old(ctx.data)| && ctx.data[c] == old(ctx.data)[c]
  {
    ghost var before := ctx.data;
    var n := size - ENTRY_SIZE * (next - first);
    var bytes := ctx.ReadChain(base, ENTRY_SIZE * next, n, cs);
    var garbage := Garbage(memory, n);
    MovedIs(Content(before, cs), r, garbage, bytes);
    var buffer := bytes + garbage[|bytes|..];
    var written;
    ok, written, cs' := ctx.WriteChain(base, ENTRY_SIZE * first, buffer, true, true, cs);
    if ok {
      assert buffer[..written] == buffer;
      MoveDone(before, ctx.data, cs, cs', r, garbage, ctx.clusterSize);
    }
  }

  /** The end of `fat_remove_entry_with_path`: entries `first` to `next - 1` are removed; `memory` is
      what the allocated buffer holds. A full volume fails an assertion. */
  method Remove(ctx: Context, base: nat, per: nat, first: nat, next: nat, memory: nat -> Byte, ghost cs: seq<nat>,
                ghost items: seq<Item>)
    returns (ok: bool, ghost cs': seq<nat>)
    requires Holding(ctx, base, per, cs, items) && ctx.Reserved01() && first < next <= |Directory(items)|
    modifies ctx`fat1, ctx`fat2, ctx`nextFree, ctx`freeCount, ctx`data, ctx.fat
    ensures var r := Removal(|Directory(items)|, first, next);
      && ctx.Sound(old(ctx.fat[..]), old(ctx.Drift()) + (if ok && Left(r) == 0 then 1 else 0), old(ctx.Mirrored()))
      && Edit(old(ctx.fat[..]), ctx.fat[..], cs, cs') && cs' != [] && cs'[0] == base && Within(ctx.data, cs')
      && (ok ==> Changed(old(ctx.data), ctx.data, cs, cs', r, Garbage(memory, ENTRY_SIZE * Left(r)), ctx.clusterSize))
      && (!ok ==> ctx.Full() && Extent(|cs'|, ctx.clusterSize) < ENTRY_SIZE * (r.first + Left(r)))
    ensures forall c | 0 <= c < |ctx.data| && c !in cs' :: c < |old(ctx.data)| && ctx.data[c] == old(ctx.data)[c]
  {
    SlackBehind(ctx.data, cs, items);
    var size := End(ctx, base, per, cs, items);
    ok, cs' := Move(ctx, base, size, first, next, memory, cs, Removal(|Directory(items)|, first, next));
  }

  // ---------------------------------------------------------------- what is listed afterwards

  lemma SameEntry(c: seq<Byte>, t: seq<Byte>, r: Removal, k: nat)
    requires Inside(r) && ENTRY_SIZE * r.d <= |c| && RightlyRemoved(c, t, r) && k < Left(r)
    ensures var j := if k < r.first then k else k + (r.next - r.first);
      Slice(t, k * ENTRY_SIZE, ENTRY_SIZE) == Slice(c, j * ENTRY_SIZE, ENTRY_SIZE)
  {
    var j := if k < r.first then k else k + (r.next - r.first);
    var e, f := Slice(t, k * ENTRY_SIZE, ENTRY_SIZE), Slice(c, j * ENTRY_SIZE, ENTRY_SIZE);
    forall p | 0 <= p < ENTRY_SIZE ensures e[p] == f[p] {
      assert t[ENTRY_SIZE * k + p] == Expected(c, r, ENTRY_SIZE * k + p);
    }
  }

  /** A right removal takes the removed entries out of the stream and leaves nothing else in use. */
  lemma RemovedStream(before: Data, data: Data, cs: seq<nat>, cs': seq<nat>, r: Removal)
    requires Within(before, cs) && Within(data, cs') && Inside(r) && ENTRY_SIZE * r.d <= |Content(before, cs)|
    requires RightlyRemoved(Content(before, cs), Content(data, cs'), r)
    ensures var es, es' := Stream(before, cs), Stream(data, cs');
      && r.d <= |es| && es[..r.first] + es[r.next..r.d] <= es'
      && forall k | Left(r) <= k < |es'| :: !InUse(es'[k])
  {
    var c, t, es, es' := Content(before, cs), Content(data, cs'), Stream(before, cs), Stream(data, cs');
    var left := es[..r.first] + es[r.next..r.d];
    forall k | 0 <= k < |left| ensures es'[k] == left[k] {
      SameEntry(c, t, r, k);
    }
    forall k | Left(r) <= k < |es'| ensures !InUse(es'[k]) {
      assert Unused(t, k) && es'[k][0] == t[ENTRY_SIZE * k];
    }
  }

  /** Removing item `k`. */
  ghost function RemovalOf(items: seq<Item>, k: nat): Removal
    requires AllProper(items) && k < |items|
  {
    Removal(|Directory(items)|, |Flat(Groups(items), k)|, |Flat(Groups(items), k + 1)|)
  }

  /** The entries of the other items. */
  lemma DirectoryWithout(items: seq<Item>, k: nat)
    requires AllProper(items) && k < |items|
    ensures var d, first, next := Directory(items), |Flat(Groups(items), k)|, |Flat(Groups(items), k + 1)|;
      && first < next <= |d| && AllProper(Without(items, k)) && Directory(Without(items, k)) == d[..first] + d[next..]
  {
    GroupsWithout(items, k);
    FlatWithout(Groups(items), k);
  }

  lemma FlatWithout(g: seq<seq<Entry>>, k: nat)
    requires k < |g|
    ensures var all, first, next := Flat(g, |g|), |Flat(g, k)|, |Flat(g, k + 1)|;
      && first <= next <= |all| && Flat(Without(g, k), |g| - 1) == all[..first] + all[next..]
  {
    var h := Without(g, k);
    FlatPrefix(g, k, |g|);
    FlatPrefix(g, k, k + 1);
    FlatSame(g, h, k);
    FlatRest(g, h, k, |h|);
    StartOf(Flat(g, k), Flat(g, |g|));
  }

  lemma StartOf(a: seq<Entry>, b: seq<Entry>)
    requires a <= b
    ensures b[..|a|] == a
  {
  }

  lemma GroupsWithout(items: seq<Item>, k: nat)
    requires AllProper(items) && k < |items|
    ensures AllProper(Without(items, k)) && Groups(Without(items, k)) == Without(Groups(items), k)
    ensures |Flat(Groups(items), k)| < |Flat(Groups(items), k + 1)|
  {
  }

  lemma {:induction false} FlatRest(g: seq<seq<Entry>>, h: seq<seq<Entry>>, k: nat, n: nat)
    requires k <= n <= |h| && |g| == |h| + 1 && Flat(g, k) == Flat(h, k) && forall i | k <= i < |h| :: h[i] == g[i + 1]
    ensures Flat(g, k + 1) <= Flat(g, n + 1) && Flat(h, n) == Flat(g, k) + Flat(g, n + 1)[|Flat(g, k + 1)|..]
    decreases n
  {
    FlatPrefix(g, k + 1, n + 1);
    if n > k {
      FlatRest(g, h, k, n - 1);
      BehindStart(Flat(g, k), Flat(g, k + 1), Flat(g, n), g[n]);
    }
  }

  lemma BehindStart(front: seq<Entry>, start: seq<Entry>, all: seq<Entry>, last: seq<Entry>)
    requires start <= all
    ensures front + all[|start|..] + last == front + (all + last)[|start|..]
  {
  }

  /** Removing an item where it is right leaves a directory that lists the other items: a name is
      found afterwards exactly if one of those shows it. */
  lemma RemovedThenListed(before: Data, data: Data, cs: seq<nat>, cs': seq<nat>, items: seq<Item>, k: nat,
                          name: seq<Byte>, stack: seq<Byte>)
    requires Within(before, cs) && Within(data, cs') && Lists(Stream(before, cs), items) && k < |items|
    requires |stack| == BUFFER_SIZE
    requires var r := RemovalOf(items, k);
      && Inside(r) && ENTRY_SIZE * r.d <= |Content(before, cs)|
      && RightlyRemoved(Content(before, cs), Content(data, cs'), r)
    ensures Lists(Stream(data, cs'), Without(items, k))
    ensures Find(Stream(data, cs'), name, 0, stack, false).At? <==>
            exists j :: 0 <= j < |items| && j != k && Shown(items[j]) == Some(name)
  {
    var r := RemovalOf(items, k);
    DirectoryWithout(items, k);
    RemovedStream(before, data, cs, cs', r);
    PartsOf(Stream(before, cs), Directory(items), r.first, r.next);
    MissingIffNotShown(Stream(data, cs'), Without(items, k), name, stack);
    ShownWithout(items, k, name);
  }

  lemma ShownWithout(items: seq<Item>, k: nat, name: seq<Byte>)
    requires AllProper(items) && k < |items| && AllProper(Without(items, k))
    ensures (exists i :: 0 <= i < |items| - 1 && Shown(Without(items, k)[i]) == Some(name)) <==>
            exists j :: 0 <= j < |items| && j != k && Shown(items[j]) == Some(name)
  {
    var rest := Without(items, k);
    if j :| 0 <= j < |items| && j != k && Shown(items[j]) == Some(name) {
      assert Shown(rest[if j < k then j else j - 1]) == Some(name);
    }
  }

  lemma PartsOf(es: seq<Entry>, d: seq<Entry>, first: nat, next: nat)
    requires d <= es && first <= next <= |d|
    ensures es[..first] == d[..first] && es[next..|d|] == d[next..]
  {
  }
}
