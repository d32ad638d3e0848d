/** What the cached reader of directory entries answers once a request behind the end of the
    directory has moved the index of its cache. */
module FatCache {

  import opened FatTable
  import opened FatContent
  import opened FatVolume
  import opened FatDirectory
  import opened Machine

  /** The cache holds the cluster with index `h`, whatever index it claims. */
  ghost predicate Holds(cache: Cache, data: Data, cs: seq<nat>, h: nat) {
    && cache.id < U32 && Within(data, cs)
    && h < |cs| < U32 && cache.last == cs[h] && cache.buffer == data[cs[h]]
  }

  /** The index of the cluster from which a request for the cluster `w` is answered. */
  function Source(id: nat, h: nat, w: nat): nat
    requires id < U32
  {
    if id > 0 && w == id - 1 then h
    else if id > 1 && w > id - 1 then h + (w - (id - 1))
    else w
  }

  /** The number of the entry at place `r` of cluster `a`. */
  function NumberAt(a: nat, r: nat, per: nat): nat { a * per + r }

  /** The claimed index and the one held after a request. */
  datatype Indices = Indices(id: nat, held: nat)

  function After(s: Indices, len: nat, w: nat): Indices
    requires s.id < U32
  {
    var a := Source(s.id, s.held, w);
    if a < len then Indices(w + 1, a) else Indices(Pred32(s.id), s.held)
  }

  /** One request, in any state. */
  lemma LookupAnswers(cache: Cache, fat: Table, data: Data, cs: seq<nat>, h: nat, w: nat, off: nat)
    requires LinksInRange(fat) && Chain(fat, cs) && |data| == |fat| && w < U32 - 1 && Holds(cache, data, cs, h)
    ensures cs[0] < |fat| && cache.last < |fat|
    ensures var (after, e) := LookupAt(cache, fat, data, cs[0], w, off);
      var a, s := Source(cache.id, h, w), After(Indices(cache.id, h), |cs|, w);
      && e == (if a < |cs| then Some(EntryIn(data[cs[a]], off)) else None)
      && Holds(after, data, cs, s.held) && after.id == s.id
  {
    assert Linked(fat, cs, 0) && Linked(fat, cs, h);
    if Forward(cache, w) {
      WalkFollowsChain(fat, cs, h, w - (cache.id - 1));
    } else {
      WalkFollowsChain(fat, cs, 0, w);
    }
  }

  /** The same for entry numbers: the entry answered lies as many clusters further on as the cluster
      held lies from the one claimed. */
  lemma EntryAnswers(cache: Cache, fat: Table, data: Data, cs: seq<nat>, h: nat, per: nat, n: Number)
    requires LinksInRange(fat) && Chain(fat, cs) && |data| == |fat| && per >= 2 && Blocks(data, per * ENTRY_SIZE)
    requires Holds(cache, data, cs, h)
    ensures cs[0] < |fat| && cache.last < |fat|
    ensures var (after, e) := Lookup(cache, fat, data, cs[0], per, n);
      var s := After(Indices(cache.id, h), |cs|, n / per);
      && e == EntryAt(data, cs, NumberAt(Source(cache.id, h, n / per), n % per, per))
      && Holds(after, data, cs, s.held) && after.id == s.id
  {
    Halved(n, per);
    LookupAnswers(cache, fat, data, cs, h, n / per, n % per);
    var a := Source(cache.id, h, n / per);
    Quotient(a, n % per, per);
    EntryInCluster(data, cs, per, NumberAt(a, n % per, per));
  }

  lemma Quotient(a: nat, r: nat, per: nat)
    requires r < per
    ensures (a * per + r) / per == a && (a * per + r) % per == r
  {
    var n := a * per + r;
    var q, s := n / per, n % per;
    assert n == q * per + s;
    OnlyMultiple(q - a, per, r - s);
  }

  lemma OnlyMultiple(k: int, per: nat, x: int)
    requires k * per == x && x < per && 0 < per + x
    ensures k == 0
  {
    Times(1, if k > 0 then k else 1, per);
    Times(1, if k < 0 then -k else 1, per);
  }

  // ---------------------------------------------------------------- runs of requests

  /** The entry numbers that a sequence of requests is answered with. */
  function Numbers(s: Indices, len: nat, per: nat, ns: seq<Number>): (r: seq<nat>)
    requires s.id < U32 && per >= 2 && len < U32
    ensures |r| == |ns|
    decreases |ns|
  {
    if ns == [] then []
    else
      Halved(ns[0], per);
      var w := ns[0] / per;
      [NumberAt(Source(s.id, s.held, w), ns[0] % per, per)] + Numbers(After(s, len, w), len, per, ns[1..])
  }

  /** The answers to a sequence of requests. */
  ghost function Replies(cache: Cache, fat: Table, data: Data, cs: seq<nat>, h: nat, per: nat,
                         ns: seq<Number>): (r: seq<Option<Entry>>)
    requires LinksInRange(fat) && Chain(fat, cs) && |data| == |fat| && per >= 2 && Blocks(data, per * ENTRY_SIZE)
    requires Holds(cache, data, cs, h)
    ensures |r| == |ns|
    decreases |ns|
  {
    if ns == [] then []
    else
      EntryAnswers(cache, fat, data, cs, h, per, ns[0]);
      var (after, e) := Lookup(cache, fat, data, cs[0], per, ns[0]);
      var s := After(Indices(cache.id, h), |cs|, ns[0] / per);
      [e] + Replies(after, fat, data, cs, s.held, per, ns[1..])
  }

  /** Every answer of every run, also behind the end of the directory, is the entry with the
      number that the two indices give. */
  lemma {:induction false} RepliesExact(cache: Cache, fat: Table, data: Data, cs: seq<nat>, h: nat, per: nat,
                                        ns: seq<Number>, i: nat)
    requires LinksInRange(fat) && Chain(fat, cs) && |data| == |fat| && per >= 2 && Blocks(data, per * ENTRY_SIZE)
    requires Holds(cache, data, cs, h) && i < |ns|
    ensures Replies(cache, fat, data, cs, h, per, ns)[i] ==
            EntryAt(data, cs, Numbers(Indices(cache.id, h), |cs|, per, ns)[i])
    decreases |ns|
  {
    EntryAnswers(cache, fat, data, cs, h, per, ns[0]);
    if i > 0 {
      var (after, e) := Lookup(cache, fat, data, cs[0], per, ns[0]);
      var s := After(Indices(cache.id, h), |cs|, ns[0] / per);
      RepliesExact(after, fat, data, cs, s.held, per, ns[1..], i - 1);
    }
  }

  // ---------------------------------------------------------------- the request after a NULL

  /** With `k` the index claimed before the NULL: the next request is answered from the cluster
      it asks for. */
  predicate Right(k: nat, w: nat) {
    k <= 1 || w < k - 2 || (k == 2 && w != 0)
  }

  /** A cache that held a cluster answers the request after a NULL with the entry asked for exactly
      if `Right` says so, and otherwise with the entry one cluster further on. */
  lemma AfterNull(cache: Cache, fat: Table, data: Data, cs: seq<nat>, per: nat, n: Number, m: Number)
    requires LinksInRange(fat) && Chain(fat, cs) && |data| == |fat| && per >= 2 && Blocks(data, per * ENTRY_SIZE)
    requires Coherent(cache, data, cs) && cache.id > 0 && EntryAt(data, cs, n).None?
    ensures cs[0] < |fat| && cache.last < |fat|
    ensures var (stale, e) := Lookup(cache, fat, data, cs[0], per, n);
      var right := Right(cache.id, m / per);
      && e.None? && stale == cache.(id := cache.id - 1)
      && Lookup(stale, fat, data, cs[0], per, m).1 == EntryAt(data, cs, if right then m else m + per)
      && (!right && m / per + 1 < |cs| ==> cs[m / per + 1] != cs[m / per])
  {
    LookupRefines(cache, fat, data, cs, per, n);
    var k, w := cache.id, m / per;
    assert Linked(fat, cs, k - 1);
    EntryAnswers(cache.(id := k - 1), fat, data, cs, k - 1, per, m);
    SourceAfterNull(k, w);
    Shifted(m, per);
    if w + 1 < |cs| { ChainDistinct(fat, cs, w, w + 1); }
  }

  lemma SourceAfterNull(k: nat, w: nat)
    requires 0 < k < U32
    ensures Source(k - 1, k - 1, w) == if Right(k, w) then w else w + 1
  {
  }

  lemma Shifted(m: nat, per: nat)
    requires per > 0
    ensures m / per * per + m % per == m && (m / per + 1) * per + m % per == m + per
  {
    var w := m / per;
    assert (w + 1) * per == w * per + per;
  }

  /** An empty cache answers right after a NULL. */
  lemma EmptyAfterNull(cache: Cache, fat: Table, data: Data, cs: seq<nat>, per: nat, n: Number, m: Number)
    requires LinksInRange(fat) && Chain(fat, cs) && |data| == |fat| && per >= 2 && Blocks(data, per * ENTRY_SIZE)
    requires Coherent(cache, data, cs) && cache.id == 0 && EntryAt(data, cs, n).None?
    ensures cs[0] < |fat| && m / per < U32 - 2
    ensures var (stale, e) := Lookup(cache, fat, data, cs[0], per, n);
      e.None? && stale == cache.(id := U32 - 1) && Lookup(stale, fat, data, cs[0], per, m).1 == EntryAt(data, cs, m)
  {
    LookupRefines(cache, fat, data, cs, per, n);
    Halved(m, per);
    assert Linked(fat, cs, 0);
    WalkFollowsChain(fat, cs, 0, m / per);
    EntryInCluster(data, cs, per, m);
  }

  /** Two clusters, the second of them held: a request behind the end, then one for entry 0, which
      is answered with the first entry of the second cluster. */
  lemma StaleAfterNull(fat: Table, data: Data, cs: seq<nat>, per: nat)
    requires LinksInRange(fat) && Chain(fat, cs) && |data| == |fat| && per >= 2 && Blocks(data, per * ENTRY_SIZE)
    requires |cs| == 2 && 2 * per < U32 && cs[0] < |fat| && cs[1] < |fat|
    ensures var (stale, e) := Lookup(Cache(2, cs[1], data[cs[1]]), fat, data, cs[0], per, 2 * per);
      e.None? && stale.id < U32 && Lookup(stale, fat, data, cs[0], per, 0).1 == EntryAt(data, cs, per)
  {
    var held := Cache(2, cs[1], data[cs[1]]);
    ChainWithin(fat, data, cs);
    assert 2 * per / per == 2;
    EntryInCluster(data, cs, per, 2 * per);
    AfterNull(held, fat, data, cs, per, 2 * per, 0);
  }
}
