/** Directories as streams of 32-byte entries, read through a cache of one cluster. */
module FatDirectory {

  import opened FatTable
  import opened FatContent
  import opened FatVolume
  import opened Machine

  const ENTRY_SIZE := 32

  type Entry = seq<Byte>

  /** A 32-bit entry number. */
  type Number = n: nat | n < U32

  // ---------------------------------------------------------------- the uncached reader

  /** Entry `n` of the directory: the 32 bytes at offset `32 * n` of its chain. */
  ghost function EntryAt(data: Data, cs: seq<nat>, n: nat): Option<Entry>
    requires Within(data, cs)
  {
    var bytes := Content(data, cs);
    if (n + 1) * ENTRY_SIZE <= |bytes| then Some(Slice(bytes, n * ENTRY_SIZE, ENTRY_SIZE)) else None
  }

  /** The cluster `steps` links after `c`, if the chain goes that far. */
  function Walk(fat: Table, c: nat, steps: nat): (r: Option<nat>)
    requires LinksInRange(fat) && c < |fat|
    ensures r.Some? ==> r.value < |fat|
    decreases steps
  {
    if steps == 0 then Some(c)
    else if Stops(Next(fat, c)) then None
    else Walk(fat, Next(fat, c), steps - 1)
  }

  lemma {:induction false} WalkFollowsChain(fat: Table, cs: seq<nat>, i: nat, steps: nat)
    requires LinksInRange(fat) && Chain(fat, cs) && i < |cs| && cs[i] < |fat|
    ensures Walk(fat, cs[i], steps) == if i + steps < |cs| then Some(cs[i + steps]) else None
    decreases steps
  {
    assert Linked(fat, cs, i);
    if steps > 0 && i + 1 < |cs| {
      assert Linked(fat, cs, i + 1);
      WalkFollowsChain(fat, cs, i + 1, steps - 1);
    }
  }

  // ---------------------------------------------------------------- the cached reader

  /** `id` is one more than the index of the cluster held (0: nothing held), in 32 bits;
      `last` is that cluster's number and `buffer` its bytes. */
  datatype Cache = Cache(id: nat, last: nat, buffer: seq<Byte>)

  function Pred32(x: nat): (r: nat)
    requires x < U32
    ensures r < U32
  {
    if x == 0 then U32 - 1 else x - 1
  }

  /** The walk to the cluster `want` places down the chain starts at the cluster held. (An `id` of
      0 or 1 never does: the decremented index is then the largest number or zero.) */
  predicate Forward(cache: Cache, want: nat) {
    cache.id > 1 && want > cache.id - 1
  }

  /** What one call of `fat_read_entry_with_cache` does to the cache and returns, for the
      entry `off` of the cluster `want` places down the chain. */
  function LookupAt(cache: Cache, fat: Table, data: Data, base: nat, want: nat, off: nat): (Cache, Option<Entry>)
    requires LinksInRange(fat) && |data| == |fat| && base < |fat| && cache.id < U32
    requires Forward(cache, want) ==> cache.last < |fat|
  {
    var id := Pred32(cache.id);
    if want == id then (cache, Some(EntryIn(cache.buffer, off)))
    else
      var found := if Forward(cache, want) then Walk(fat, cache.last, want - id) else Walk(fat, base, want);
      match found
      case None => (cache.(id := id), None)
      case Some(c) => (Cache((want + 1) % U32, c, data[c]), Some(EntryIn(data[c], off)))
  }

  function Lookup(cache: Cache, fat: Table, data: Data, base: nat, per: nat, n: nat): (Cache, Option<Entry>)
    requires LinksInRange(fat) && |data| == |fat| && base < |fat| && per > 0 && cache.id < U32
    requires Forward(cache, n / per) ==> cache.last < |fat|
  {
    LookupAt(cache, fat, data, base, n / per, n % per)
  }

  function EntryIn(block: seq<Byte>, i: nat): Entry {
    Slice(block, i * ENTRY_SIZE, ENTRY_SIZE)
  }

  /** The cache is empty or holds a cluster of the chain. */
  ghost predicate Coherent(cache: Cache, data: Data, cs: seq<nat>) {
    && cache.id <= |cs| < U32 && Within(data, cs)
    && (cache.id > 0 ==> cache.last == cs[cache.id - 1] && cache.buffer == data[cache.last])
  }

  // ---------------------------------------------------------------- the cached reader refines the uncached one

  /** An entry lies inside one cluster. */
  lemma SliceInBlock(data: Data, cs: seq<nat>, size: nat, q: nat, off: nat, n: nat)
    requires Blocks(data, size) && Within(data, cs) && q < |cs| && off + n <= size
    ensures Slice(Content(data, cs), Extent(q, size) + off, n) == Slice(data[cs[q]], off, n)
  {
    PrefixLength(data, cs, q, size);
    PrefixOfContent(data, cs, q + 1, |cs|);
    SliceSkip(Prefix(data, cs, q), data[cs[q]], Content(data, cs), off, n);
  }

  lemma SliceSkip(a: seq<Byte>, b: seq<Byte>, all: seq<Byte>, off: nat, n: nat)
    requires a + b <= all && off + n <= |b|
    ensures Slice(all, |a| + off, n) == Slice(b, off, n)
  {
    assert forall i | 0 <= i < |b| :: all[|a| + i] == (a + b)[|a| + i] == b[i];
  }

  lemma EntryArithmetic(n: nat, per: nat, clusters: nat)
    requires per > 0
    ensures var q, r, size := n / per, n % per, per * ENTRY_SIZE;
            && n * ENTRY_SIZE == q * size + r * ENTRY_SIZE && (r + 1) * ENTRY_SIZE <= size
            && (q < clusters <==> (n + 1) * ENTRY_SIZE <= clusters * size)
  {
    var q, r, size := n / per, n % per, per * ENTRY_SIZE;
    assert n == q * per + r && r < per;
    assert q * size == q * per * ENTRY_SIZE;
    if q < clusters {
      Times(q + 1, clusters, size);
      assert (q + 1) * size == q * size + size;
    } else {
      Times(clusters, q, size);
    }
  }

  lemma Times(a: nat, b: nat, c: nat)
    requires a <= b
    ensures a * c <= b * c
  {
  }

  lemma EntryInCluster(data: Data, cs: seq<nat>, per: nat, n: nat)
    requires per > 0 && Blocks(data, per * ENTRY_SIZE) && Within(data, cs)
    ensures EntryAt(data, cs, n) ==
            if n / per < |cs| then Some(EntryIn(data[cs[n / per]], n % per)) else None
  {
    var q, r, size := n / per, n % per, per * ENTRY_SIZE;
    EntryArithmetic(n, per, |cs|);
    PrefixLength(data, cs, |cs|, size);
    ExtentIsProduct(|cs|, size);
    if q < |cs| {
      ExtentIsProduct(q, size);
      SliceInBlock(data, cs, size, q, r * ENTRY_SIZE, ENTRY_SIZE);
    }
  }

  lemma LookupFinds(cache: Cache, fat: Table, data: Data, cs: seq<nat>, want: nat, off: nat)
    requires LinksInRange(fat) && Chain(fat, cs) && |data| == |fat| && want < U32 - 1
    requires Coherent(cache, data, cs) && cs[0] < |fat| && (cache.id > 1 ==> cache.last < |fat|)
    ensures var (after, e) := LookupAt(cache, fat, data, cs[0], want, off);
            && e == (if want < |cs| then Some(EntryIn(data[cs[want]], off)) else None)
            && (e.Some? ==> Coherent(after, data, cs))
            && (e.None? ==> after == cache.(id := Pred32(cache.id)))
  {
    var id := Pred32(cache.id);
    if want != id {
      if Forward(cache, want) {
        assert Linked(fat, cs, id);
        WalkFollowsChain(fat, cs, id, want - id);
      } else {
        WalkFollowsChain(fat, cs, 0, want);
      }
    }
  }

  lemma Halved(n: nat, per: nat)
    requires n < U32 && per >= 2
    ensures n / per < U32 - 1
  {
    assert n == n / per * per + n % per;
    assert n / per * 2 <= n / per * per;
  }

  /** A coherent cache answers with the entry of the directory, whether the request hits,
      moves forward or moves back, and stays coherent as long as the answer is not NULL. */
  lemma LookupRefines(cache: Cache, fat: Table, data: Data, cs: seq<nat>, per: nat, n: Number)
    requires LinksInRange(fat) && Chain(fat, cs) && |data| == |fat| && per >= 2 && Blocks(data, per * ENTRY_SIZE)
    requires Coherent(cache, data, cs)
    ensures cs[0] < |fat| && (cache.id > 1 ==> cache.last < |fat|)
    ensures var (after, e) := Lookup(cache, fat, data, cs[0], per, n);
            && e == EntryAt(data, cs, n)
            && (e.Some? ==> Coherent(after, data, cs))
            && (e.None? ==> after == cache.(id := Pred32(cache.id)))
  {
    assert Linked(fat, cs, 0);
    if cache.id > 0 { assert Linked(fat, cs, cache.id - 1); }
    Halved(n, per);
    LookupFinds(cache, fat, data, cs, n / per, n % per);
    EntryInCluster(data, cs, per, n);
  }

  /** The answers to a sequence of requests, up to and including the first NULL. */
  ghost function Answers(cache: Cache, fat: Table, data: Data, cs: seq<nat>, per: nat,
    ns: seq<Number>): seq<Option<Entry>>
    requires LinksInRange(fat) && Chain(fat, cs) && |data| == |fat| && per >= 2 && Blocks(data, per * ENTRY_SIZE)
    requires Coherent(cache, data, cs)
    decreases |ns|
  {
    if ns == [] then []
    else
      LookupRefines(cache, fat, data, cs, per, ns[0]);
      var (after, e) := Lookup(cache, fat, data, cs[0], per, ns[0]);
      if e.None? then [e] else [e] + Answers(after, fat, data, cs, per, ns[1..])
  }

  /** For any sequence of entry numbers, each answer up to the first NULL is the entry an
      uncached read of the chain finds. */
  lemma {:induction false} AnswersRefine(cache: Cache, fat: Table, data: Data, cs: seq<nat>, per: nat,
    ns: seq<Number>, i: nat)
    requires LinksInRange(fat) && Chain(fat, cs) && |data| == |fat| && per >= 2 && Blocks(data, per * ENTRY_SIZE)
    requires Coherent(cache, data, cs)
    requires i < |Answers(cache, fat, data, cs, per, ns)|
    ensures i < |ns| && Answers(cache, fat, data, cs, per, ns)[i] == EntryAt(data, cs, ns[i])
    decreases |ns|
  {
    LookupRefines(cache, fat, data, cs, per, ns[0]);
    var (after, e) := Lookup(cache, fat, data, cs[0], per, ns[0]);
    if i > 0 {
      var rest := Answers(after, fat, data, cs, per, ns[1..]);
      assert Answers(cache, fat, data, cs, per, ns) == [e] + rest;
      AnswersRefine(after, fat, data, cs, per, ns[1..], i - 1);
    }
  }

  // ---------------------------------------------------------------- the reader as an object

  /** `fat_entry_valid` */
  predicate InUse(e: Entry)
    requires |e| == ENTRY_SIZE
  {
    e[0] != 0 && e[0] != 0x05 && e[0] != 0xE5
  }

  /** Entries end where the chain ends. */
  lemma NoneBeyond(data: Data, cs: seq<nat>, m: nat, n: nat)
    requires Within(data, cs) && EntryAt(data, cs, m).None? && m <= n
    ensures EntryAt(data, cs, n).None?
  {
  }

  /** Entry `n` exists and is in use. */
  ghost predicate Occupied(data: Data, cs: seq<nat>, n: nat)
    requires Within(data, cs)
  {
    var e := EntryAt(data, cs, n);
    e.Some? && |e.value| == ENTRY_SIZE && InUse(e.value)
  }

  class Reader {
    const ctx: Context
    const base: nat
    const per: nat
    var id: nat
    var last: nat
    var buffer: seq<Byte>

    constructor (context: Context, first: nat, perCluster: nat)
      ensures ctx == context && base == first && per == perCluster && id == 0
    {
      ctx, base, per, id, last, buffer := context, first, perCluster, 0, 0, [];
    }

    ghost function State(): Cache
      reads this
    {
      Cache(id, last, buffer)
    }

    /** The volume is intact and `cs` is the chain of this directory. */
    ghost predicate On(cs: seq<nat>)
      reads this, ctx, ctx.fat
    {
      && ctx.Valid() && Chain(ctx.fat[..], cs) && cs[0] == base && base < ctx.fat.Length
      && ctx.clusterSize == per * ENTRY_SIZE && per >= 2 && Within(ctx.data, cs)
    }

    ghost predicate Valid(cs: seq<nat>)
      reads this, ctx, ctx.fat
    {
      match State()
      case Cache(_, _, _) => On(cs) && Coherent(State(), ctx.data, cs)
    }

    /** Follow `steps` links from `start`; NULL at the end of the chain. */
    method Follow(start: nat, from: nat, to: nat) returns (r: Option<nat>)
      requires ctx.Valid() && start < ctx.fat.Length
      ensures r == Walk(ctx.fat[..], start, if from <= to then to - from else 0)
    {
      var cluster: nat, index: nat := start, from;
      while index < to
        invariant cluster < ctx.fat.Length && (from <= to ==> from <= index <= to) && (from > to ==> index == from)
        invariant Walk(ctx.fat[..], cluster, if index <= to then to - index else 0) ==
                  Walk(ctx.fat[..], start, if from <= to then to - from else 0)
      {
        cluster := ctx.fat[cluster] % LINK;
        if cluster >= END || cluster == 0 {
          return None;
        }
        index := index + 1;
      }
      return Some(cluster);
    }

    /** The caching part of `fat_read_entry_with_cache`. */
    method Fetch(want: nat, off: nat) returns (e: Option<Entry>)
      requires ctx.Valid() && base < ctx.fat.Length && id < U32 && want < U32
      requires Forward(State(), want) ==> last < ctx.fat.Length
      modifies this
      ensures (State(), e) == LookupAt(old(State()), ctx.fat[..], ctx.data, base, want, off)
    {
      if want != Pred32(id) {
        id := Pred32(id);
        var cluster, index := base, 0;
        if id != 0 && want > id {
          cluster, index := last, id;
        }
        var found := Follow(cluster, index, want);
        if found.None? {
          return None;
        }
        buffer := ctx.data[found.value];
        id := (want + 1) % U32;
        last := found.value;
      }
      return Some(EntryIn(buffer, off));
    }

    /** `fat_read_entry_with_cache` */
    method ReadEntry(n: Number, ghost cs: seq<nat>) returns (e: Option<Entry>)
      requires Valid(cs)
      modifies this
      ensures On(cs) && e == EntryAt(ctx.data, cs, n)
      ensures e.Some? ==> Valid(cs) && |e.value| == ENTRY_SIZE
      ensures e.None? ==> State() == old(State()).(id := Pred32(old(id)))
    {
      var q, r := Place(n);
      Finds(n, q, r, cs);
      e := Fetch(q, r);
    }

    /** The cluster and the place in it of entry `n`. */
    method Place(n: Number) returns (q: nat, r: nat)
      requires per >= 2
      ensures q == n / per && r == n % per && q < U32
    {
      Halved(n, per);
      q, r := n / per, n % per;
    }

    lemma Finds(n: Number, q: nat, r: nat, cs: seq<nat>)
      requires Valid(cs) && q == n / per && r == n % per
      ensures id < U32 && (id > 1 ==> last < ctx.fat.Length)
      ensures var (after, e) := LookupAt(State(), ctx.fat[..], ctx.data, base, q, r);
        && e == EntryAt(ctx.data, cs, n) && (e.Some? ==> Coherent(after, ctx.data, cs) && |e.value| == ENTRY_SIZE)
        && (e.None? ==> after == State().(id := Pred32(id)))
    {
      LookupRefines(State(), ctx.fat[..], ctx.data, cs, per, n);
    }

    /** `fat_get_dir_size`: the end of the last entry in use. */
    method DirSize(ghost cs: seq<nat>) returns (size: nat)
      requires Valid(cs) && EntryAt(ctx.data, cs, U32 - 1).None?
      modifies this
      ensures On(cs) && size % ENTRY_SIZE == 0
      ensures size > 0 ==> Occupied(ctx.data, cs, size / ENTRY_SIZE - 1)
      ensures forall n | size / ENTRY_SIZE <= n :: !Occupied(ctx.data, cs, n)
    {
      var index, end := 0, 0;
      var e := ReadEntry(0, cs);
      while e.Some?
        invariant On(cs) && 0 <= end <= index < U32 && e == EntryAt(ctx.data, cs, index)
        invariant e.Some? ==> Valid(cs) && |e.value| == ENTRY_SIZE
        invariant end > 0 ==> Occupied(ctx.data, cs, end - 1)
        invariant forall n | end <= n < index :: !Occupied(ctx.data, cs, n)
        decreases U32 - index
      {
        index := index + 1;
        if InUse(e.value) {
          end := index;
        }
        e := ReadEntry(index, cs);
      }
      forall n | end <= n ensures !Occupied(ctx.data, cs, n) {
        if index <= n { NoneBeyond(ctx.data, cs, index, n); }
      }
      size := end * ENTRY_SIZE;
    }
  }
}
