/** Searching and extending a directory on the volume: `fat_find_entry` through the cluster
    cache, and the part of `fat_add_entry_with_path` that writes a name. */
module FatSearch {

  import opened FatTable
  import opened FatContent
  import opened FatVolume
  import opened FatDirectory
  import opened FatNames
  import opened FatEntries
  import opened FatShort
  import opened Machine

  /** All entries of the directory with clusters `cs`. */
  ghost function Stream(data: Data, cs: seq<nat>): (es: seq<Entry>)
    requires Within(data, cs)
    ensures Sized(es)
  {
    var bytes := Content(data, cs);
    seq(|bytes| / ENTRY_SIZE, n requires 0 <= n < |bytes| / ENTRY_SIZE => Slice(bytes, n * ENTRY_SIZE, ENTRY_SIZE))
  }

  lemma StreamEntry(data: Data, cs: seq<nat>, n: nat)
    requires Within(data, cs)
    ensures EntryAt(data, cs, n) == if n < |Stream(data, cs)| then Some(Stream(data, cs)[n]) else None
  {
  }

  /** The name buffer after `y` of the `order` parts have been copied. */
  ghost function Partial(es: seq<Entry>, i: nat, order: nat, y: nat, buffer: seq<Byte>): (r: seq<Byte>)
    requires Sized(es) && y <= order && i + y <= |es| && LFN_NAME_SIZE * order < |buffer|
    ensures |r| == |buffer|
  {
    seq(|buffer|, p requires 0 <= p < |buffer| =>
      if LFN_NAME_SIZE * (order - y) <= p < LFN_NAME_SIZE * order
      then ParseLong(es[i + (order - 1 - p / LFN_NAME_SIZE)])[p % LFN_NAME_SIZE]
      else if p == LFN_NAME_SIZE * order then 0
      else buffer[p])
  }

  /** `text` with `part` in its place at `a`. */
  function Patched(text: seq<Byte>, a: nat, part: seq<Byte>): (r: seq<Byte>)
    requires a + |part| <= |text|
    ensures |r| == |text|
  {
    text[..a] + part + text[a + |part|..]
  }

  lemma PartialStep(es: seq<Entry>, i: nat, order: nat, y: nat, buffer: seq<Byte>)
    requires Sized(es) && y < order && i + y < |es| && LFN_NAME_SIZE * order < |buffer|
    ensures var b, a := Partial(es, i, order, y, buffer), LFN_NAME_SIZE * (order - 1 - y);
            Partial(es, i, order, y + 1, buffer) == Patched(b, a, ParseLong(es[i + y]))
  {
    var b, a := Partial(es, i, order, y, buffer), LFN_NAME_SIZE * (order - 1 - y);
    var r := Partial(es, i, order, y + 1, buffer);
    var w := Patched(b, a, ParseLong(es[i + y]));
    assert |r| == |w|;
    forall p | 0 <= p < |r| ensures r[p] == w[p] {
      if a <= p < a + LFN_NAME_SIZE {
        assert p / LFN_NAME_SIZE == order - 1 - y && p % LFN_NAME_SIZE == p - a;
      } else if p >= a + LFN_NAME_SIZE {
        assert w[p] == b[p];
      }
    }
  }

  lemma PartialEnds(es: seq<Entry>, i: nat, order: nat, buffer: seq<Byte>)
    requires Sized(es) && i <= |es| && LFN_NAME_SIZE * order < |buffer|
    ensures Partial(es, i, order, 0, buffer) == buffer[LFN_NAME_SIZE * order := 0]
    ensures i + order <= |es| ==> Partial(es, i, order, order, buffer) == Assemble(es, i, order, buffer)
  {
  }

  /** The inner loop of `fat_find_entry`: collect the parts of a long name. */
  method Collect(reader: Reader, first: nat, order: nat, buffer: seq<Byte>, ghost cs: seq<nat>)
    returns (ok: bool, text: seq<Byte>)
    requires reader.Valid(cs) && |buffer| == BUFFER_SIZE && LFN_NAME_SIZE * order < BUFFER_SIZE
    requires first <= |Stream(reader.ctx.data, cs)| && first + order < U32
    modifies reader
    ensures reader.On(cs) && ok == (first + order <= |Stream(reader.ctx.data, cs)|)
    ensures ok ==> reader.Valid(cs) && text == Assemble(Stream(reader.ctx.data, cs), first, order, buffer)
  {
    ghost var es := Stream(reader.ctx.data, cs);
    PartialEnds(es, first, order, buffer);
    text := buffer[LFN_NAME_SIZE * order := 0];
    for y := 0 to order
      invariant reader.Valid(cs) && first + y <= |es| && text == Partial(es, first, order, y, buffer)
    {
      StreamEntry(reader.ctx.data, cs, first + y);
      var e := reader.ReadEntry(first + y, cs);
      if e.None? {
        return false, text;
      }
      PartialStep(es, first, order, y, buffer);
      var part := ReadLong(e.value);
      text := Patched(text, LFN_NAME_SIZE * (order - 1 - y), part);
    }
    ok := true;
  }

  /** One round of the outer loop of `fat_find_entry` on the entry `e` at `index`: the result
      if it ends the search, otherwise the index of the next entry and what is kept. */
  method Examine(reader: Reader, name: seq<Byte>, e: Entry, index: nat, buffer: seq<Byte>, long: bool,
    ghost cs: seq<nat>)
    returns (r: Option<Found>, next: nat, text: seq<Byte>, named: bool)
    requires reader.Valid(cs) && |buffer| == BUFFER_SIZE && |Stream(reader.ctx.data, cs)| + BUFFER_SIZE < U32
    requires index < |Stream(reader.ctx.data, cs)| && e == Stream(reader.ctx.data, cs)[index]
    modifies reader
    ensures reader.On(cs) && |text| == BUFFER_SIZE
    ensures r.None? ==> reader.Valid(cs) && index < next <= |Stream(reader.ctx.data, cs)|
    ensures Find(Stream(reader.ctx.data, cs), name, index, buffer, long) ==
            if r.Some? then r.value else Find(Stream(reader.ctx.data, cs), name, next, text, named)
  {
    r, next, text, named := None, index + 1, buffer, long;
    ghost var es := Stream(reader.ctx.data, cs);
    if InUse(e) {
      if IsLong(e) {
        r, next, text := ExamineLong(reader, e, index, buffer, cs);
        named := true;
        LongRound(es, name, index, buffer, long, r, next, text);
      } else {
        text := ReadName(e, buffer, long);
        named := false;
        if name == CString(text) {
          r := Some(At(index));
        }
        ShortRound(es, name, index, buffer, long, r, text);
      }
    } else {
      UnusedRound(es, name, index, buffer, long);
    }
  }

  /** The branch for a long-name entry. */
  method ExamineLong(reader: Reader, e: Entry, index: nat, buffer: seq<Byte>, ghost cs: seq<nat>)
    returns (r: Option<Found>, next: nat, text: seq<Byte>)
    requires reader.Valid(cs) && |buffer| == BUFFER_SIZE && |Stream(reader.ctx.data, cs)| + BUFFER_SIZE < U32
    requires index < |Stream(reader.ctx.data, cs)| && e == Stream(reader.ctx.data, cs)[index]
    modifies reader
    ensures reader.On(cs) && |text| == BUFFER_SIZE
    ensures r.None? ==> reader.Valid(cs) && index < next <= |Stream(reader.ctx.data, cs)|
    ensures Gathered(Stream(reader.ctx.data, cs), index, Order(e), buffer, r, next, text)
  {
    r, next, text := Some(Fault), index, buffer;
    var order := Order(e);
    if order != 0 && LFN_NAME_SIZE * order < BUFFER_SIZE {
      var ok, parts := Collect(reader, index, order, buffer, cs);
      if ok {
        r, next, text := None, index + order, parts;
      }
    }
  }

  /** What that branch does about `n` entries from `i` on. */
  ghost predicate Gathered(es: seq<Entry>, i: nat, n: nat, buffer: seq<Byte>, r: Option<Found>, next: nat,
                           text: seq<Byte>)
    requires Sized(es) && |buffer| == BUFFER_SIZE
  {
    if n == 0 || LFN_NAME_SIZE * n >= BUFFER_SIZE || i + n > |es| then r == Some(Fault)
    else r == None && next == i + n && text == Assemble(es, i, n, buffer)
  }

  lemma LongRound(es: seq<Entry>, name: seq<Byte>, i: nat, buffer: seq<Byte>, long: bool, r: Option<Found>, next: nat,
                  text: seq<Byte>)
    requires Sized(es) && |buffer| == BUFFER_SIZE == |text| && i < |es| && InUse(es[i]) && IsLong(es[i])
    requires Gathered(es, i, Order(es[i]), buffer, r, next, text)
    ensures Find(es, name, i, buffer, long) == if r.Some? then r.value else Find(es, name, next, text, true)
  {
  }

  lemma ShortRound(es: seq<Entry>, name: seq<Byte>, i: nat, buffer: seq<Byte>, long: bool, r: Option<Found>,
                   text: seq<Byte>)
    requires Sized(es) && |buffer| == BUFFER_SIZE == |text| && i < |es| && InUse(es[i]) && !IsLong(es[i])
    requires text == (if long then buffer else Put(buffer, ShortText(es[i])))
    requires r == if CString(text) == name then Some(At(i)) else None
    ensures Find(es, name, i, buffer, long) == if r.Some? then r.value else Find(es, name, i + 1, text, false)
  {
  }

  lemma UnusedRound(es: seq<Entry>, name: seq<Byte>, i: nat, buffer: seq<Byte>, long: bool)
    requires Sized(es) && |buffer| == BUFFER_SIZE && i < |es| && !InUse(es[i])
    ensures Find(es, name, i, buffer, long) == Find(es, name, i + 1, buffer, long)
  {
  }

  /** The name of a short entry: the one collected before it, or its own. */
  method ReadName(e: Entry, buffer: seq<Byte>, long: bool) returns (text: seq<Byte>)
    requires |e| == ENTRY_SIZE && |buffer| == BUFFER_SIZE
    ensures text == (if long then buffer else Put(buffer, ShortText(e))) && |text| == BUFFER_SIZE
  {
    if long {
      text := buffer;
    } else {
      text := ReadShort(buffer, e);
    }
  }

  /** `fat_find_entry`. The name buffer starts out with whatever the stack held. */
  method FindEntry(reader: Reader, name: seq<Byte>, stack: seq<Byte>, ghost cs: seq<nat>) returns (r: Found)
    requires reader.Valid(cs) && reader.id == 0 && |stack| == BUFFER_SIZE
    requires |Stream(reader.ctx.data, cs)| + BUFFER_SIZE < U32
    modifies reader
    ensures reader.On(cs) && r == Find(Stream(reader.ctx.data, cs), name, 0, stack, false)
  {
    ghost var es := Stream(reader.ctx.data, cs);
    var index, buffer, long := 0, stack, false;
    StreamEntry(reader.ctx.data, cs, 0);
    var e := reader.ReadEntry(0, cs);
    while e.Some?
      invariant reader.On(cs) && 0 <= index <= |es| && |buffer| == BUFFER_SIZE
      invariant e == (if index < |es| then Some(es[index]) else None)
      invariant e.Some? ==> reader.Valid(cs)
      invariant Find(es, name, index, buffer, long) == Find(es, name, 0, stack, false)
      decreases |es| - index
    {
      var found, next, text, named := Examine(reader, name, e.value, index, buffer, long, cs);
      if found.Some? {
        return found.value;
      }
      index, buffer, long := next, text, named;
      StreamEntry(reader.ctx.data, cs, index);
      e := reader.ReadEntry(index, cs);
    }
    r := Missing;
  }

  // ---------------------------------------------------------------- adding a name

  /** The entries as the bytes of a buffer. */
  function Bytes(es: seq<Entry>): (b: seq<Byte>)
    requires forall i | 0 <= i < |es| :: |es[i]| == ENTRY_SIZE
    ensures |b| == ENTRY_SIZE * |es|
  {
    seq(ENTRY_SIZE * |es|, p requires 0 <= p < ENTRY_SIZE * |es| => es[p / ENTRY_SIZE][p % ENTRY_SIZE])
  }

  lemma BytesGrow(es: seq<Entry>, e: Entry)
    requires Sized(es) && |e| == ENTRY_SIZE
    ensures Sized(es + [e]) && Bytes(es + [e]) == Bytes(es) + e
  {
    forall p | 0 <= p < ENTRY_SIZE ensures Bytes(es + [e])[ENTRY_SIZE * |es| + p] == e[p] {
      assert (ENTRY_SIZE * |es| + p) / ENTRY_SIZE == |es| && (ENTRY_SIZE * |es| + p) % ENTRY_SIZE == p;
    }
  }

  lemma BytesNext(es: seq<Entry>, i: nat)
    requires Sized(es) && i < |es|
    ensures Sized(es[..i]) && Sized(es[..i + 1]) && Bytes(es[..i + 1]) == Bytes(es[..i]) + es[i]
  {
    BytesGrow(es[..i], es[i]);
    assert es[..i] + [es[i]] == es[..i + 1];
  }

  lemma BytesEntry(es: seq<Entry>, n: nat)
    requires Sized(es) && n < |es|
    ensures Bytes(es)[ENTRY_SIZE * n..ENTRY_SIZE * n + ENTRY_SIZE] == es[n]
  {
    var b := Bytes(es)[ENTRY_SIZE * n..ENTRY_SIZE * n + ENTRY_SIZE];
    forall p | 0 <= p < ENTRY_SIZE ensures b[p] == es[n][p] {
      assert (ENTRY_SIZE * n + p) / ENTRY_SIZE == n && (ENTRY_SIZE * n + p) % ENTRY_SIZE == p;
    }
  }

  /** The loop of `fat_add_entry_with_path` that fills the entry buffer. */
  method LongLayout(name: seq<Byte>, checksum: Byte, stack: seq<Byte>) returns (b: seq<Byte>)
    requires Name(name) && |stack| == LFN_NAME_SIZE
    ensures b == Bytes(LongEntries(name, checksum))
  {
    var n := LongCount(name);
    b := [];
    ghost var es := LongEntries(name, checksum);
    for i := 0 to n
      invariant Sized(es[..i]) && b == Bytes(es[..i])
    {
      var order := (n - i) + (if i == 0 then LAST_LONG_ENTRY else 0);
      var e := new Byte[ENTRY_SIZE];
      MakeLong(e, name[LFN_NAME_SIZE * (n - 1 - i)..], order, checksum, stack);
      b := b + e[..];
      BytesNext(es, i);
    }
    assert es[..n] == es;
  }

  /** The entry buffer. */
  method Layout(name: seq<Byte>, checksum: Byte, sfn: Entry, long: bool, stack: seq<Byte>) returns (b: seq<Byte>)
    requires Name(name) && |sfn| == ENTRY_SIZE && |stack| == LFN_NAME_SIZE
    ensures b == Bytes(NewEntries(name, checksum, sfn, long))
  {
    if long {
      b := LongLayout(name, checksum, stack);
      BytesGrow(LongEntries(name, checksum), sfn);
      b := b + sfn;
    } else {
      BytesGrow([], sfn);
      b := sfn;
    }
  }

  /** Contents of chains of which one continues the other agree as far as both go. */
  lemma SharedContent(data: Data, cs: seq<nat>, cs': seq<nat>)
    requires Within(data, cs) && Within(data, cs') && cs <= cs'
    ensures Content(data, cs) <= Content(data, cs')
  {
    PrefixFrame(data, data, cs, cs', |cs|);
    PrefixOfContent(data, cs', |cs|, |cs'|);
  }

  /** Entries written behind the first `d` of a directory appear there in order. */
  lemma Appended(bytes: seq<Byte>, bytes': seq<Byte>, d: nat, news: seq<Entry>, n: nat)
    requires Sized(news) && ENTRY_SIZE * (d + |news|) <= |bytes|
    requires bytes' == Overwrite(bytes, ENTRY_SIZE * d, Bytes(news)) && n < d + |news|
    ensures Slice(bytes', n * ENTRY_SIZE, ENTRY_SIZE) ==
            if n < d then Slice(bytes, n * ENTRY_SIZE, ENTRY_SIZE) else news[n - d]
  {
    if n >= d {
      BytesEntry(news, n - d);
      var s := Slice(bytes', n * ENTRY_SIZE, ENTRY_SIZE);
      forall p | 0 <= p < ENTRY_SIZE ensures s[p] == news[n - d][p] {
        assert s[p] == bytes'[n * ENTRY_SIZE + p] == Bytes(news)[ENTRY_SIZE * (n - d) + p];
      }
    }
  }

  lemma SharedSlice(a: seq<Byte>, b: seq<Byte>, at: nat, n: nat)
    requires (a <= b || b <= a) && at + n <= |a| && at + n <= |b|
    ensures Slice(a, at, n) == Slice(b, at, n)
  {
  }

  /** The directory after new entries have been written behind its first `d`. */
  lemma StreamAppended(before: Data, data: Data, cs: seq<nat>, cs': seq<nat>, d: nat, news: seq<Entry>)
    requires Within(before, cs) && (cs <= cs' || cs' <= cs) && Sized(news)
    requires Rewritten(before, data, Span(cs', ENTRY_SIZE * d, Bytes(news))) && d <= |Stream(before, cs)|
    requires ENTRY_SIZE * (d + |news|) <= |Content(before, cs')|
    ensures Within(data, cs') && Stream(before, cs)[..d] + news <= Stream(data, cs')
  {
    var a, a', b := Content(before, cs), Content(before, cs'), Content(data, cs');
    if cs <= cs' { SharedContent(before, cs, cs'); } else { SharedContent(before, cs', cs); }
    var es, es' := Stream(before, cs)[..d] + news, Stream(data, cs');
    forall n | 0 <= n < |es| ensures es'[n] == es[n] {
      Appended(a', b, d, news, n);
      if n < d { SharedSlice(a, a', n * ENTRY_SIZE, ENTRY_SIZE); }
      assert es'[n] == Slice(b, n * ENTRY_SIZE, ENTRY_SIZE);
    }
  }

  /** When the chain has not grown, the entries behind the new ones are the old ones. */
  lemma StreamKept(before: Data, data: Data, cs: seq<nat>, cs': seq<nat>, d: nat, news: seq<Entry>, n: nat)
    requires Within(before, cs) && cs' <= cs && Sized(news) && Within(data, cs')
    requires Rewritten(before, data, Span(cs', ENTRY_SIZE * d, Bytes(news)))
    requires d + |news| <= n < |Stream(data, cs')|
    ensures n < |Stream(before, cs)| && Stream(data, cs')[n] == Stream(before, cs)[n]
  {
    SharedContent(before, cs', cs);
    var a, b := Content(before, cs'), Content(data, cs');
    var s, t := Slice(b, n * ENTRY_SIZE, ENTRY_SIZE), Slice(a, n * ENTRY_SIZE, ENTRY_SIZE);
    forall p | 0 <= p < ENTRY_SIZE ensures s[p] == t[p] {
      assert s[p] == b[n * ENTRY_SIZE + p] && t[p] == a[n * ENTRY_SIZE + p];
    }
  }

  /** From entry `n` on the entries are still what they were. */
  ghost predicate KeptBehind(es: seq<Entry>, es': seq<Entry>, n: nat) {
    forall m | n <= m < |es'| :: m < |es| && es'[m] == es[m]
  }

  lemma AllKept(before: Data, data: Data, cs: seq<nat>, cs': seq<nat>, d: nat, news: seq<Entry>)
    requires Within(before, cs) && cs' <= cs && Sized(news) && Within(data, cs')
    requires Rewritten(before, data, Span(cs', ENTRY_SIZE * d, Bytes(news)))
    ensures KeptBehind(Stream(before, cs), Stream(data, cs'), d + |news|)
  {
    forall n | d + |news| <= n < |Stream(data, cs')|
      ensures n < |Stream(before, cs)| && Stream(data, cs')[n] == Stream(before, cs)[n]
    {
      StreamKept(before, data, cs, cs', d, news, n);
    }
  }

  /** Where the listed entries end, `fat_get_dir_size` ends too. */
  lemma SizeOfListing(data: Data, cs: seq<nat>, items: seq<Item>, size: nat)
    requires Within(data, cs) && Lists(Stream(data, cs), items) && (items != [] ==> !items[|items| - 1].Hole?)
    requires size % ENTRY_SIZE == 0 && (size > 0 ==> Occupied(data, cs, size / ENTRY_SIZE - 1))
    requires forall n | size / ENTRY_SIZE <= n :: !Occupied(data, cs, n)
    ensures size == ENTRY_SIZE * |Directory(items)|
  {
    var d, end, es := |Directory(items)|, size / ENTRY_SIZE, Stream(data, cs);
    if end > 0 {
      StreamEntry(data, cs, end - 1);
      assert end <= d;
    }
    if items != [] {
      LastEntryInUse(items);
      StreamEntry(data, cs, d - 1);
      assert es[d - 1] == Directory(items)[d - 1];
      assert Occupied(data, cs, d - 1);
    }
  }

  /** The volume holds the directory with clusters `cs` at `base`, and it lists `items`. */
  ghost predicate Holding(ctx: Context, base: nat, per: nat, cs: seq<nat>, items: seq<Item>)
    reads ctx, ctx.fat
  {
    && ctx.Valid() && Chain(ctx.fat[..], cs) && cs[0] == base && base < ctx.fat.Length && |cs| < U32
    && ctx.clusterSize == per * ENTRY_SIZE && per >= 2 && Within(ctx.data, cs)
    && |Stream(ctx.data, cs)| + BUFFER_SIZE < U32
    && Lists(Stream(ctx.data, cs), items) && (items != [] ==> !items[|items| - 1].Hole?)
  }

  /** The check for an existing entry. */
  method Taken(ctx: Context, base: nat, per: nat, name: seq<Byte>, stack: seq<Byte>, ghost cs: seq<nat>,
    ghost items: seq<Item>)
    returns (taken: bool)
    requires Holding(ctx, base, per, cs, items) && |stack| == BUFFER_SIZE
    ensures taken <==> exists i :: 0 <= i < |items| && Shown(items[i]) == Some(name)
  {
    var reader := new Reader(ctx, base, per);
    var found := FindEntry(reader, name, stack, cs);
    MissingIffNotShown(Stream(ctx.data, cs), items, name, stack);
    taken := found.At?;
  }

  /** The place for a new entry. */
  method End(ctx: Context, base: nat, per: nat, ghost cs: seq<nat>, ghost items: seq<Item>) returns (size: nat)
    requires Holding(ctx, base, per, cs, items)
    ensures size == ENTRY_SIZE * |Directory(items)|
  {
    var reader := new Reader(ctx, base, per);
    StreamEntry(ctx.data, cs, U32 - 1);
    size := reader.DirSize(cs);
    SizeOfListing(ctx.data, cs, items, size);
  }

  /** How the write of `bytes` at the end of a directory, `at`, has ended: the chain has just the clusters
      that old and new entries need; or it has kept its clusters, is too short for them, and holds as
      many of the bytes as it has room for. */
  ghost predicate Ended(before: Data, data: Data, cs: seq<nat>, cs': seq<nat>, at: nat, bytes: seq<Byte>, size: nat,
                        stored: bool)
  {
    var room := Extent(|cs'|, size);
    if stored then
      at + |bytes| <= room && cs' != [] && Extent(|cs'| - 1, size) < at + |bytes| && (cs <= cs' || cs' <= cs)
    else
      && cs <= cs' && at <= room < at + |bytes|
      && Rewritten(before, data, Span(cs', at, bytes[..room - at]))
  }

  /** The old entries, up to the `d`-th, fit the chain they are in, and any that has grown from it. */
  lemma RoomIs(before: Data, cs: seq<nat>, cs': seq<nat>, d: nat, size: nat)
    requires Blocks(before, size) && Within(before, cs) && d <= |Stream(before, cs)| && cs <= cs'
    ensures ENTRY_SIZE * d <= Extent(|cs'|, size)
  {
    PrefixLength(before, cs, |cs|, size);
    ExtentGrows(|cs|, |cs'|, size);
  }

  /** A write that does not stop appends the new entries. */
  lemma EntriesStored(before: Data, data: Data, cs: seq<nat>, cs': seq<nat>, d: nat, news: seq<Entry>, size: nat)
    requires Within(before, cs) && (cs <= cs' || cs' <= cs) && Sized(news) && d <= |Stream(before, cs)|
    requires Within(before, cs') && Blocks(before, size)
    requires Rewritten(before, data, Span(cs', ENTRY_SIZE * d, Bytes(news)))
    requires ENTRY_SIZE * d + |Bytes(news)| <= Extent(|cs'|, size)
    ensures Within(data, cs') && Stream(before, cs)[..d] + news <= Stream(data, cs')
    ensures cs' <= cs ==> KeptBehind(Stream(before, cs), Stream(data, cs'), d + |news|)
  {
    PrefixLength(before, cs', |cs'|, size);
    StreamAppended(before, data, cs, cs', d, news);
    if cs' <= cs {
      AllKept(before, data, cs, cs', d, news);
    }
  }

  /** The write of the new entries. */
  method Store(ctx: Context, base: nat, bytes: seq<Byte>, ghost cs: seq<nat>, ghost d: nat, size: nat,
    ghost news: seq<Entry>)
    returns (ghost stored: bool, ghost cs': seq<nat>)
    requires ctx.Valid() && ctx.Reserved01() && Chain(ctx.fat[..], cs) && cs[0] == base && Within(ctx.data, cs)
    requires size == ENTRY_SIZE * d && d <= |Stream(ctx.data, cs)| && Sized(news) && news != [] && bytes == Bytes(news)
    modifies ctx`fat1, ctx`fat2, ctx`nextFree, ctx`freeCount, ctx`data, ctx.fat
    ensures ctx.Sound(old(ctx.fat[..]), old(ctx.Drift()), old(ctx.Mirrored()))
    ensures Edit(old(ctx.fat[..]), ctx.fat[..], cs, cs') && cs' != [] && cs'[0] == base && Within(ctx.data, cs')
    ensures stored ==> Stream(old(ctx.data), cs)[..d] + news <= Stream(ctx.data, cs')
    ensures Ended(old(ctx.data), ctx.data, cs, cs', size, bytes, ctx.clusterSize, stored) && (!stored ==> ctx.Full())
    ensures stored && cs' <= cs ==> KeptBehind(Stream(old(ctx.data), cs), Stream(ctx.data, cs'), d + |news|)
    ensures forall c | 0 <= c < |ctx.data| && c !in cs' :: c < |old(ctx.data)| && ctx.data[c] == old(ctx.data)[c]
  {
    ghost var before := ctx.data;
    var ok, written;
    ok, written, cs' := ctx.WriteChain(base, size, bytes, true, false, cs);
    stored := ok;
    if stored {
      assert bytes[..written] == bytes;
      EntriesStored(before, ctx.data, cs, cs', d, news, ctx.clusterSize);
    } else {
      RoomIs(before, cs, cs', d, ctx.clusterSize);
    }
  }

  /** `fat_add_entry_with_path` once the directory is known; `entry` is the entry without its name,
      and `after` what follows the name in memory. A failed write goes unreported. */
  method AddEntry(ctx: Context, base: nat, per: nat, name: seq<Byte>, after: seq<Byte>, entry: Entry,
                  long: bool, stack: seq<Byte>, ghost cs: seq<nat>, ghost items: seq<Item>)
    returns (taken: bool, ghost stored: bool, ghost cs': seq<nat>)
    requires Holding(ctx, base, per, cs, items) && ctx.Reserved01() && |stack| == BUFFER_SIZE
    requires Name(name) && |entry| == ENTRY_SIZE
    modifies ctx`fat1, ctx`fat2, ctx`nextFree, ctx`freeCount, ctx`data, ctx.fat
    ensures taken <==> exists i :: 0 <= i < |items| && Shown(items[i]) == Some(name)
    ensures taken ==> cs' == cs && ctx.data == old(ctx.data) && ctx.fat[..] == old(ctx.fat[..])
    ensures ctx.Sound(old(ctx.fat[..]), old(ctx.Drift()), old(ctx.Mirrored()))
    ensures Edit(old(ctx.fat[..]), ctx.fat[..], cs, cs') && cs' != [] && cs'[0] == base && Within(ctx.data, cs')
    ensures var news := CreatedEntries(name, after, entry, long);
      && (stored ==> !taken && Directory(items) + news <= Stream(ctx.data, cs'))
      && (!taken ==> Ended(old(ctx.data), ctx.data, cs, cs', ENTRY_SIZE * |Directory(items)|, Bytes(news),
                           ctx.clusterSize, stored))
      && (!taken && !stored ==> ctx.Full())
      && (stored && cs' <= cs ==>
            forall n | |Directory(items)| + |news| <= n < |Stream(ctx.data, cs')| :: !InUse(Stream(ctx.data, cs')[n]))
    ensures forall c | 0 <= c < |ctx.data| && c !in cs' :: c < |old(ctx.data)| && ctx.data[c] == old(ctx.data)[c]
  {
    cs', stored := cs, false;
    EditRefl(ctx.fat[..], cs);
    taken := Taken(ctx, base, per, name, stack, cs, items);
    if !taken {
      var size := End(ctx, base, per, cs, items);
      var e := new Byte[ENTRY_SIZE](i requires 0 <= i < ENTRY_SIZE => entry[i]);
      assert e[..] == entry;
      MakeShort(e, name, after);
      var sfn := e[..];
      var checksum := LongChecksum(sfn[..11]);
      var bytes := Layout(name, checksum, sfn, long, stack[..LFN_NAME_SIZE]);
      ghost var d := |Directory(items)|;
      assert Stream(ctx.data, cs)[..d] == Directory(items);
      stored, cs' := Store(ctx, base, bytes, cs, d, size, NewEntries(name, checksum, sfn, long));
    }
  }

  /** A stored name is found at its short entry, and every name found before is found where
      it was. */
  lemma AddedThenFound(es: seq<Entry>, es': seq<Entry>, items: seq<Item>, added: Item, stack: seq<Byte>)
    requires Lists(es, items) && Sized(es') && Proper(added) && |stack| == BUFFER_SIZE
    requires forall i | 0 <= i < |items| :: Shown(items[i]) != Shown(added)
    requires Directory(items) + Entries(added) <= es'
    ensures Shown(added).Some? ==>
      Find(es', Shown(added).value, 0, stack, false) == At(|Directory(items)| + |Entries(added)| - 1)
    ensures forall name | Find(es, name, 0, stack, false).At? ::
      Find(es', name, 0, stack, false) == Find(es, name, 0, stack, false)
    ensures (forall i | |Directory(items)| + |Entries(added)| <= i < |es'| :: !InUse(es'[i])) ==>
      Lists(es', items + [added])
  {
    if Shown(added).Some? { NextIsFound(es', items, |items|, added, Shown(added).value, stack); }
    DirectoryGrows(items, added);
    forall name | Find(es, name, 0, stack, false).At?
      ensures Find(es', name, 0, stack, false) == Find(es, name, 0, stack, false)
    {
      MissingIffNotShown(es, items, name, stack);
      var k := First(items, name, 0);
      FirstIsFound(es, items, name, k, stack);
      FirstIsFound(es', items, name, k, stack);
    }
  }
}
