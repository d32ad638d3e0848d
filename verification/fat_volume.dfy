/** The mounted FAT32 volume: the cached table, its two copies on disk, the data area and
    the allocation state, with the cluster and chain operations of the driver. Disk
    accesses inside the partition succeed; cluster numbers index the data area directly. */
module FatVolume {

  import opened FatTable
  import opened FatContent
  import opened Machine

  /** A write of `buffer` at offset `at` of the chain `cs`, started on the volume with table
      `table`, data `before`, a free count `drift` off and copies in step or not. */
  datatype Job = Job(table: Table, drift: int, mirrored: bool, before: Data, cs: seq<nat>, at: nat, buffer: seq<Byte>)

  /** The write loop has visited `k` clusters of `chain`, which hold `pos` bytes, and written
      `written` bytes; `left` bytes are to be written, the first of them `skip` bytes further on. */
  datatype Progress = Progress(chain: seq<nat>, k: nat, pos: nat, written: nat, left: nat, skip: nat, current: nat,
                               next: nat)

  /** The bytes `b` at offset `at` of a chain. */
  datatype Span = Span(chain: seq<nat>, at: nat, b: seq<Byte>)

  class Context {
    const fat: array<nat>
    const clusterSize: nat
    var fat1: Table
    var fat2: Table
    var data: Data
    var nextFree: nat
    var freeCount: int

    /** A mounted volume with cached table `table`. */
    constructor (table: array<nat>, copy1: Table, copy2: Table, blocks: Data, size: nat, hint: nat, count: int)
      ensures fat == table && clusterSize == size && fat1 == copy1 && fat2 == copy2
      ensures data == blocks && nextFree == hint && freeCount == count
    {
      fat, clusterSize, fat1, fat2, data, nextFree, freeCount := table, size, copy1, copy2, blocks, hint, count;
    }

    ghost predicate Valid()
      reads this, fat
    {
      && clusterSize > 0 && fat.Length >= 2
      && LinksInRange(fat[..])
      && |fat1| == |fat2| == |data| == fat.Length
      && Blocks(data, clusterSize)
    }

    /** Entries 0 and 1 belong to no file and are never free. */
    ghost predicate Reserved01()
      requires fat.Length >= 2
      reads fat
    {
      Next(fat[..], 0) != 0 && Next(fat[..], 1) != 0
    }

    /** Both copies on disk are the cached table. */
    ghost predicate Mirrored()
      reads this`fat1, this`fat2, fat
    {
      fat1 == fat[..] && fat2 == fat[..]
    }

    /** How far `free_cluster_count` is from the number of free entries. */
    ghost function Drift(): int
      reads this`freeCount, fat
    {
      freeCount - CountFree(fat[..])
    }

    /** `fat_set_next_cluster`: the cached entry, then its two copies on disk. */
    method SetNext(current: nat, next: nat)
      requires Valid() && current < fat.Length && next < LINK && (Stops(next) || next < fat.Length)
      modifies this`fat1, this`fat2, fat
      ensures Valid() && fat[..] == SetLink(old(fat[..]), current, next)
      ensures old(Mirrored()) ==> Mirrored()
      ensures SameReserved(old(fat[..]), fat[..])
    {
      SetLinkInRange(fat[..], current, next);
      SetLinkEffect(fat[..], current, next);
      SetLinkReserved(fat[..], current, next);
      fat[current] := next % LINK + fat[current] / LINK * LINK;
      fat1 := fat1[current := fat[current]];
      fat2 := fat2[current := fat[current]];
      assert fat[..] == SetLink(old(fat[..]), current, next);
    }

    /** `fat_allocate_cluster`: the lowest free cluster from the hint on becomes a chain of
        its own and the new hint. */
    method AllocateCluster() returns (ok: bool, c: nat)
      requires Valid()
      modifies this`fat1, this`fat2, this`nextFree, this`freeCount, fat
      ensures Valid() && Drift() == old(Drift()) && (old(Mirrored()) ==> Mirrored())
      ensures ok ==>
        && c < fat.Length && old(nextFree) <= c && (old(Reserved01()) ==> c >= 2)
        && Next(old(fat[..]), c) == 0 && nextFree == c
        && fat[..] == SetLink(old(fat[..]), c, END_OF_CLUSTERCHAIN)
        && (forall d | old(nextFree) <= d < c :: Next(old(fat[..]), d) != 0)
      ensures !ok ==>
        fat[..] == old(fat[..]) && nextFree == old(nextFree) && Full()
      ensures SameReserved(old(fat[..]), fat[..])
    {
      var i := nextFree;
      while i < fat.Length
        invariant forall d | old(nextFree) <= d < i && d < fat.Length :: Next(fat[..], d) != 0
      {
        if fat[i] % LINK == 0 {
          CountSetLink(fat[..], i, END_OF_CLUSTERCHAIN);
          SetNext(i, END_OF_CLUSTERCHAIN);
          nextFree := i;
          freeCount := freeCount - 1;
          return true, i;
        }
        i := i + 1;
      }
      return false, 0;
    }

    /** `fat_free_cluster`. The hint is not lowered. */
    method FreeCluster(c: nat)
      requires Valid() && c < fat.Length
      modifies this`fat1, this`fat2, this`freeCount, fat
      ensures Valid() && fat[..] == SetLink(old(fat[..]), c, 0) && freeCount == old(freeCount) + 1
      ensures Drift() == old(Drift()) + (if Next(old(fat[..]), c) == 0 then 1 else 0)
      ensures old(Mirrored()) ==> Mirrored()
      ensures SameReserved(old(fat[..]), fat[..])
    {
      CountSetLink(fat[..], c, 0);
      SetNext(c, 0);
      freeCount := freeCount + 1;
    }

    /** `fat_free_all_following_clusters`: terminates on every table whose links are in
        range, cyclic ones included. */
    method FreeAllFollowing(cluster: nat)
      requires Valid() && (Stops(cluster) || cluster < fat.Length)
      modifies this`fat1, this`fat2, this`freeCount, fat
      ensures Valid() && fat[..] == FreeWalk(old(fat[..]), cluster)
      ensures freeCount == old(freeCount) + FreeSteps(old(fat[..]), cluster)
      ensures old(Mirrored()) ==> Mirrored()
      ensures SameReserved(old(fat[..]), fat[..])
    {
      var current: nat := cluster;
      while current < END && current != 0
        invariant Valid() && (Stops(current) || current < fat.Length)
        invariant FreeWalk(fat[..], current) == FreeWalk(old(fat[..]), cluster)
        invariant freeCount + FreeSteps(fat[..], current) == old(freeCount) + FreeSteps(old(fat[..]), cluster)
        invariant old(Mirrored()) ==> Mirrored()
        invariant SameReserved(old(fat[..]), fat[..])
        decreases FreeSteps(fat[..], current)
      {
        ghost var before := fat[..];
        var next := fat[current] % LINK;
        assert next == Next(before, current);
        FreeCluster(current);
        current := next;
      }
    }

    /** No cluster from the hint on is free. */
    ghost predicate Full()
      reads this`nextFree, fat
    {
      forall d | nextFree <= d < fat.Length :: Next(fat[..], d) != 0
    }

    /** Allocate a cluster and link it behind the end of a chain. */
    method Extend(current: nat, ghost chain: seq<nat>) returns (ok: bool, c: nat)
      requires Valid() && Reserved01() && Chain(fat[..], chain) && current == chain[|chain| - 1]
      modifies this`fat1, this`fat2, this`nextFree, this`freeCount, fat
      ensures Valid() && Reserved01() && Drift() == old(Drift()) && (old(Mirrored()) ==> Mirrored())
      ensures SameReserved(old(fat[..]), fat[..])
      ensures ok ==>
        && current < fat.Length && 2 <= c < fat.Length && c < END && Next(old(fat[..]), c) == 0 && c !in chain
        && Chain(fat[..], chain + [c])
        && (forall d | 0 <= d < fat.Length && d != current && d != c :: fat[..][d] == old(fat[..])[d])
      ensures !ok ==> fat[..] == old(fat[..]) && Full()
    {
      ghost var before := fat[..];
      ChainAboveReserved(before, chain);
      assert Linked(before, chain, |chain| - 1);
      ok, c := AllocateCluster();
      if ok {
        ExtendChain(before, chain, c);
        SetNext(current, c);
      }
    }

    /** `fat_read_cluster_chain`: the bytes of the chain from `alignment` on, at most `size` of
        them, stopping at the end of the chain. */
    method ReadChain(start: nat, alignment: nat, size: nat, ghost cs: seq<nat>) returns (buffer: seq<Byte>)
      requires Valid() && Chain(fat[..], cs) && cs[0] == start
      ensures Within(data, cs) && buffer == Slice(Content(data, cs), alignment, size)
    {
      ChainWithin(fat[..], data, cs);
      buffer := [];
      var current: nat, skip: nat, left: nat, chunk: nat := start, alignment, size, 0;
      ghost var k, seen := 0, Prefix(data, cs, 0);
      while left > 0
        invariant k <= |cs| && (if k < |cs| then current == cs[k] else current >= END)
        invariant seen == Prefix(data, cs, k) && buffer == Slice(seen, alignment, size)
        invariant left == size - |buffer| && skip == (if alignment >= |seen| then alignment - |seen| else 0)
        invariant skip > 0 ==> chunk == 0
        decreases left + skip
      {
        ChainEnds(fat[..], cs, k, current);
        if current >= END || current == 0 {
          return;
        }
        SliceGrow(seen, data[current], alignment, size);
        if skip < clusterSize {
          chunk := left;
          if skip + chunk > clusterSize {
            chunk := clusterSize - skip;
          }
          buffer := buffer + data[current][skip..skip + chunk];
          skip := 0;
        } else {
          skip := skip - clusterSize;
        }
        left := left - chunk;
        seen := seen + data[current];
        current := fat[current] % LINK;
        k := k + 1;
      }
      PrefixOfContent(data, cs, k, |cs|);
      SliceFull(seen, Content(data, cs), alignment, size);
    }

    /** `fat_write_cluster` */
    method WriteCluster(c: nat, at: nat, bytes: seq<Byte>)
      requires Valid() && c < fat.Length && at + |bytes| <= clusterSize
      modifies this`data
      ensures Valid() && data == old(data)[c := Overwrite(old(data)[c], at, bytes)]
    {
      data := data[c := Overwrite(data[c], at, bytes)];
    }

    /** The loop of `fat_write_cluster_chain`: walk the chain, extending it where it ends,
        and write the buffer from `alignment` on. `k` clusters of `chain` have been visited. */
    method WriteClusters(start: nat, alignment: nat, buffer: seq<Byte>, ghost job: Job)
      returns (ok: bool, written: nat, current: nat, next: nat, chunk: nat, ghost p: Progress)
      requires alignment == job.at && buffer == job.buffer
      requires Going(job, Progress(job.cs, 0, 0, 0, |buffer|, alignment, start, start))
      modifies this`fat1, this`fat2, this`nextFree, this`freeCount, this`data, fat
      ensures Going(job, p) && p.written == written && p.current == current && p.next == next
      ensures |p.chain| > |job.cs| ==> p.k == |p.chain|
      ensures ok ==> p.left == 0 && p.skip == 0 && LastChunk(p.k, p.pos, clusterSize, alignment, written, chunk)
      ensures p.k == 0 ==> chunk == 0
      ensures !ok ==> p.k == |p.chain| && TooShort(p.pos, alignment, |buffer|, written) && Full()
    {
      ok, written, current, next, chunk := true, 0, start, start, 0;
      var left: nat, skip: nat := |buffer|, alignment;
      p := Progress(job.cs, 0, 0, 0, |buffer|, alignment, start, start);
      while left > 0 || skip > 0
        invariant Going(job, p) && p == Progress(p.chain, p.k, p.pos, written, left, skip, current, next)
        invariant |p.chain| > |job.cs| ==> p.k == |p.chain|
        invariant (skip > 0 || p.k == 0 ==> chunk == 0)
        invariant skip == 0 ==> LastChunk(p.k, p.pos, clusterSize, alignment, written, chunk)
        decreases left + skip
      {
        ok, next, p := ReachNext(current, next, job, p);
        if !ok {
          StoppedAt(Place(p.pos, alignment, written, left, skip));
          return;
        }
        current := next;
        skip, left, written, chunk, next, p :=
          Visit(current, skip, left, written, chunk, alignment, buffer, job, p);
      }
    }

    /** If the chain ends here, extend it. */
    method ReachNext(current: nat, next: nat, ghost job: Job, ghost p: Progress)
      returns (ok: bool, next': nat, ghost p': Progress)
      requires Going(job, p) && p.current == current && p.next == next
      requires |p.chain| > |job.cs| ==> p.k == |p.chain|
      modifies this`fat1, this`fat2, this`nextFree, this`freeCount, fat
      ensures Going(job, p') && p' == p.(chain := p'.chain, next := next')
      ensures ok ==> p.k < |p'.chain| && next' == p'.chain[p.k] && (|p'.chain| > |job.cs| ==> p.k + 1 == |p'.chain|)
      ensures !ok ==> p' == p && p.k == |p.chain| && Full()
    {
      ghost var chain';
      ok, next', chain' := Reach(current, next, job.table, job.cs, p.chain, p.k, job.before, job.at,
        job.buffer[..p.written]);
      if !ok {
        next' := next;
      }
      p' := p.(chain := chain', next := next');
    }

    /** One round on the cluster the loop has just reached. */
    method Visit(current: nat, skip: nat, left: nat, written: nat, stale: nat, alignment: nat, buffer: seq<Byte>,
                 ghost job: Job, ghost p: Progress)
      returns (skip': nat, left': nat, written': nat, chunk: nat, next': nat, ghost p': Progress)
      requires alignment == job.at && buffer == job.buffer && Going(job, p)
      requires p == Progress(p.chain, p.k, p.pos, written, left, skip, p.current, current)
      requires p.k < |p.chain| && (left > 0 || skip > 0) && (skip > 0 ==> stale == 0)
      modifies this`data
      ensures Going(job, p')
      ensures p' == Progress(p.chain, p.k + 1, p'.pos, written', left', skip', current, next')
      ensures left' + skip' < left + skip && (skip' > 0 ==> chunk == 0)
      ensures skip' == 0 ==> LastChunk(p.k + 1, p'.pos, clusterSize, alignment, written', chunk)
    {
      skip', left', written', chunk, next', p' :=
        VisitData(current, skip, left, written, stale, alignment, buffer, job, p);
    }

    /** The same, without what does not depend on the data. */
    method VisitData(current: nat, skip: nat, left: nat, written: nat, stale: nat, alignment: nat, buffer: seq<Byte>,
                     ghost job: Job, ghost p: Progress)
      returns (skip': nat, left': nat, written': nat, chunk: nat, next': nat, ghost p': Progress)
      requires alignment == job.at && buffer == job.buffer
      requires Valid() && Underway(job, p, fat[..], data, clusterSize)
      requires p == Progress(p.chain, p.k, p.pos, written, left, skip, p.current, current)
      requires p.k < |p.chain| && (left > 0 || skip > 0) && (skip > 0 ==> stale == 0)
      modifies this`data
      ensures Valid() && Underway(job, p', fat[..], data, clusterSize)
      ensures p' == Progress(p.chain, p.k + 1, p'.pos, written', left', skip', current, next')
      ensures left' + skip' < left + skip && (skip' > 0 ==> chunk == 0)
      ensures skip' == 0 ==> LastChunk(p.k + 1, p'.pos, clusterSize, alignment, written', chunk)
    {
      ghost var table, before := fat[..], data;
      StepCursor(table, p.chain, p.k);
      skip', left', written', chunk :=
        WriteRound(current, skip, left, written, stale, alignment, buffer, job.before, p.chain, p.k, p.pos);
      next' := fat[current] % LINK;
      p' := Progress(p.chain, p.k + 1, p.pos + clusterSize, written', left', skip', current, next');
      UnderwayNext(job, p, p', table, before, data, clusterSize);
    }

    /** The volume is intact, with the reserved bits of `table`; its free count is `drift` off,
        and its copies are in step if they were. */
    ghost predicate Sound(table: Table, drift: int, mirrored: bool)
      reads this, fat
    {
      && Valid() && Reserved01() && Drift() == drift && (mirrored ==> Mirrored())
      && SameReserved(table, fat[..])
    }

    /** The write loop of `job` stands at `p`, on a volume that has stayed intact. */
    ghost predicate Going(job: Job, p: Progress)
      reads this, fat
    {
      Valid() && InStep(job) && Underway(job, p, fat[..], data, clusterSize)
    }

    /** Its part that is not about the chain or the data. */
    ghost predicate InStep(job: Job)
      reads this`fat1, this`fat2, this`freeCount, fat
    {
      match job
      case Job(table, drift, mirrored, _, _, _, _) =>
        && fat.Length >= 2 && Reserved01() && Drift() == drift && (mirrored ==> Mirrored())
        && SameReserved(table, fat[..])
    }

    /** The cluster the next round works on: the one `next` links to, or a fresh one. */
    method Reach(current: nat, next: nat, ghost table: Table, ghost cs: seq<nat>, ghost chain: seq<nat>, ghost k: nat,
                 ghost before: Data, ghost at: nat, ghost b: seq<Byte>)
      returns (ok: bool, c: nat, ghost chain': seq<nat>)
      requires Valid() && Reserved01() && cs <= chain && Edit(table, fat[..], cs, chain)
      requires Cursor(fat[..], chain, k, current, next) && Written(before, data, k, Span(chain, at, b))
      requires |chain| > |cs| ==> k == |chain|
      modifies this`fat1, this`fat2, this`nextFree, this`freeCount, fat
      ensures Valid() && Reserved01() && Drift() == old(Drift()) && (old(Mirrored()) ==> Mirrored())
      ensures SameReserved(old(fat[..]), fat[..])
      ensures cs <= chain <= chain' && Edit(table, fat[..], cs, chain') && Written(before, data, k, Span(chain', at, b))
      ensures ok ==> k < |chain'| && c == chain'[k] && (|chain'| > |cs| ==> k + 1 == |chain'|)
      ensures !ok ==> chain' == chain && k == |chain| && fat[..] == old(fat[..]) && Full()
    {
      ghost var short := fat[..];
      ok, c, chain' := true, next, chain;
      ChainEnds(short, chain, k, next);
      if next >= END || next == 0 {
        ok, c := Extend(current, chain);
        if !ok {
          return;
        }
        chain' := chain + [c];
        EditExtend(table, short, fat[..], cs, chain, c);
        WrittenExtend(before, data, chain, c, at, b);
      }
    }

    /** What it does to the data. */
    method WriteRound(current: nat, skip: nat, left: nat, written: nat, stale: nat, alignment: nat, buffer: seq<Byte>,
                      ghost before: Data, ghost chain: seq<nat>, ghost k: nat, ghost pos: nat)
      returns (skip': nat, left': nat, written': nat, chunk: nat)
      requires Valid() && Chain(fat[..], chain) && k < |chain| && current == chain[k] && Blocks(before, clusterSize)
      requires written + left == |buffer| && Written(before, data, k, Span(chain, alignment, buffer[..written]))
      requires pos == Extent(k, clusterSize) && Position(Place(pos, alignment, written, left, skip))
      requires (left > 0 || skip > 0) && (skip > 0 ==> stale == 0)
      modifies this`data
      ensures Valid() && written' + left' == |buffer|
      ensures Written(before, data, k + 1, Span(chain, alignment, buffer[..written']))
      ensures Position(Place(pos + clusterSize, alignment, written', left', skip')) && pos < alignment + |buffer|
      ensures left' + skip' < left + skip && (skip' > 0 ==> chunk == 0)
      ensures skip' == 0 ==> LastChunk(k + 1, pos + clusterSize, clusterSize, alignment, written', chunk)
    {
      skip', chunk := WriteOrSkip(current, skip, left, written, stale, alignment, buffer, before, chain, k, pos);
      RoundPosition(k, pos, clusterSize, alignment, written, left, skip, chunk, skip');
      left' := left - chunk;
      written' := written + chunk;
    }

    /** The two branches of that round. */
    method WriteOrSkip(current: nat, skip: nat, left: nat, written: nat, stale: nat, alignment: nat, buffer: seq<Byte>,
                       ghost before: Data, ghost chain: seq<nat>, ghost k: nat, ghost pos: nat)
      returns (skip': nat, chunk: nat)
      requires Valid() && Chain(fat[..], chain) && k < |chain| && current == chain[k] && Blocks(before, clusterSize)
      requires written + left == |buffer| && Written(before, data, k, Span(chain, alignment, buffer[..written]))
      requires pos == Extent(k, clusterSize) && Position(Place(pos, alignment, written, left, skip))
      requires skip > 0 ==> stale == 0
      modifies this`data
      ensures if skip < clusterSize then chunk == Min(left, clusterSize - skip) else chunk == 0
      ensures skip' == if skip < clusterSize then 0 else skip - clusterSize
      ensures Valid() && Written(before, data, k + 1, Span(chain, alignment, buffer[..written + chunk]))
    {
      if skip < clusterSize {
        chunk := left;
        if skip + chunk > clusterSize {
          chunk := clusterSize - skip;
        }
        PlaceShorter(pos, alignment, written, left, skip, chunk);
        WritePart(current, skip, written, chunk, alignment, buffer, before, chain, k);
        skip' := 0;
      } else {
        chunk := stale;
        SkipRound(fat[..], before, data, chain, k, alignment, buffer[..written]);
        skip' := skip - clusterSize;
      }
    }

    /** The store of that round. */
    method WritePart(current: nat, skip: nat, written: nat, chunk: nat, alignment: nat, buffer: seq<Byte>,
                     ghost before: Data, ghost chain: seq<nat>, ghost k: nat)
      requires Valid() && Chain(fat[..], chain) && k < |chain| && current == chain[k] && Blocks(before, clusterSize)
      requires written + chunk <= |buffer| && Written(before, data, k, Span(chain, alignment, buffer[..written]))
      requires Position(Place(Extent(k, clusterSize), alignment, written, chunk, skip)) && skip + chunk <= clusterSize
      modifies this`data
      ensures Valid() && Written(before, data, k + 1, Span(chain, alignment, buffer[..written + chunk]))
    {
      assert Linked(fat[..], chain, k);
      var bytes := buffer[written..written + chunk];
      if chunk > 0 {
        WriteCluster(current, skip, bytes);
      } else {
        OverwriteNone(data[current], skip);
      }
      SlicesJoin(buffer, written, chunk);
      WriteStep(fat[..], before, old(data), data, clusterSize, chain, k, alignment, buffer[..written], skip, bytes);
    }

    /** `fat_write_cluster_chain`. The chain goes from `cs` to `cs'`; its bytes change in the written
        range only, and, with the zero-fill flag, from `FillStart` to the end of that cluster. At
        offset zero with nothing to write, the end-of-chain flag frees the first cluster and takes
        it back without counting it. */
    method WriteChain(start: nat, alignment: nat, buffer: seq<Byte>, eoc: bool, zero: bool, ghost cs: seq<nat>)
      returns (ok: bool, written: nat, ghost cs': seq<nat>)
      requires Valid() && Reserved01() && Chain(fat[..], cs) && cs[0] == start
      modifies this`fat1, this`fat2, this`nextFree, this`freeCount, this`data, fat
      ensures var lost := if ok && eoc && alignment + |buffer| == 0 then 1 else 0;
        Sound(old(fat[..]), old(Drift()) + lost, old(Mirrored()))
      ensures Edit(old(fat[..]), fat[..], cs, cs') && cs' != [] && cs'[0] == start
      ensures written <= |buffer| && (ok ==> written == |buffer|)
      ensures Stored(old(data), data, Span(cs', alignment, buffer[..written]), clusterSize, zero && ok)
      ensures ok ==> alignment + |buffer| <= Extent(|cs'|, clusterSize)
      ensures ok && eoc && alignment + |buffer| > 0 ==> Extent(|cs'| - 1, clusterSize) < alignment + |buffer|
      ensures ok && eoc && alignment + |buffer| == 0 ==> cs' == [start]
      ensures ok && !eoc ==> cs <= cs' && (|cs'| > |cs| ==> Extent(|cs'| - 1, clusterSize) < alignment + |buffer|)
      ensures !ok ==>
        cs <= cs' && TooShort(Extent(|cs'|, clusterSize), alignment, |buffer|, written) && Full()
      ensures alignment + |buffer| == 0 ==> ok
      ensures cs <= cs' || cs' <= cs
    {
      var current, next;
      ghost var chain, k;
      ok, written, current, next, chain, k := WriteData(start, alignment, buffer, zero, cs);
      cs' := chain;
      if ok {
        ReachedIs(clusterSize, chain, k, alignment, |buffer|);
        if eoc && next < END && next != 0 {
          cs' := EndChain(current, next, cs, chain, k, old(fat[..]));
        }
      }
    }

    /** The end-of-chain flag, on a chain that goes on. */
    method EndChain(current: nat, next: nat, ghost cs: seq<nat>, ghost chain: seq<nat>, ghost k: nat,
                    ghost table: Table)
      returns (ghost cs': seq<nat>)
      requires Valid() && Reserved01() && Chain(fat[..], chain) && Cursor(fat[..], chain, k, current, next)
      requires cs <= chain && Edit(table, fat[..], cs, chain) && SameReserved(table, fat[..]) && !Stops(next)
      requires |chain| > |cs| ==> k == |chain|
      modifies this`fat1, this`fat2, this`freeCount, fat
      ensures Sound(table, old(Drift()) + (if k == 0 then 1 else 0), old(Mirrored()))
      ensures cs' == Kept(chain, k) && chain == cs && Edit(table, fat[..], cs, cs')
    {
      ghost var mid := fat[..];
      ChainEnds(mid, chain, k, next);
      cs' := Kept(chain, k);
      assert chain == cs;
      Truncate(current, next, chain, k);
      KeptOrTail(mid, chain, k);
      EditThen(table, mid, fat[..], cs, cs');
    }

    /** The part of it that writes data. */
    method WriteData(start: nat, alignment: nat, buffer: seq<Byte>, zero: bool, ghost cs: seq<nat>)
      returns (ok: bool, written: nat, current: nat, next: nat, ghost chain: seq<nat>, ghost k: nat)
      requires Valid() && Reserved01() && Chain(fat[..], cs) && cs[0] == start
      modifies this`fat1, this`fat2, this`nextFree, this`freeCount, this`data, fat
      ensures Sound(old(fat[..]), old(Drift()), old(Mirrored()))
      ensures cs <= chain && Edit(old(fat[..]), fat[..], cs, chain) && Cursor(fat[..], chain, k, current, next)
      ensures written <= |buffer| && (ok ==> written == |buffer|)
      ensures |chain| > |cs| ==> k == |chain|
      ensures Stored(old(data), data, Span(chain, alignment, buffer[..written]), clusterSize, zero && ok)
      ensures ok ==> Stored(old(data), data, Span(Kept(chain, k), alignment, buffer[..written]), clusterSize, zero)
      ensures ok ==> Reached(clusterSize, chain, k, alignment, |buffer|)
      ensures alignment + |buffer| == 0 ==> ok
      ensures !ok ==> TooShort(Extent(|chain|, clusterSize), alignment, |buffer|, written) && Full()
      ensures k == |chain| <==> Stops(next)
    {
      var chunk;
      ok, written, current, next, chunk, chain, k := WriteOut(start, alignment, buffer, cs);
      assert ok ==> buffer[..written] == buffer;
      if ok && zero {
        FillRest(current, chunk, old(data), chain, k, alignment, buffer);
      }
    }

    /** The part of `fat_write_cluster_chain` before its flags are looked at. */
    method WriteOut(start: nat, alignment: nat, buffer: seq<Byte>, ghost cs: seq<nat>)
      returns (ok: bool, written: nat, current: nat, next: nat, chunk: nat, ghost chain: seq<nat>, ghost k: nat)
      requires Valid() && Reserved01() && Chain(fat[..], cs) && cs[0] == start
      modifies this`fat1, this`fat2, this`nextFree, this`freeCount, this`data, fat
      ensures Sound(old(fat[..]), old(Drift()), old(Mirrored()))
      ensures cs <= chain && Edit(old(fat[..]), fat[..], cs, chain) && Cursor(fat[..], chain, k, current, next)
      ensures written <= |buffer| && (ok ==> written == |buffer|)
      ensures |chain| > |cs| ==> k == |chain|
      ensures Rewritten(old(data), data, Span(chain, alignment, buffer[..written]))
      ensures ok ==> Outcome(old(data), data, clusterSize, chain, k, alignment, buffer)
      ensures !ok ==> TooShort(Extent(|chain|, clusterSize), alignment, |buffer|, written) && Full()
      ensures alignment + |buffer| == 0 ==> ok
      ensures k == |chain| <==> Stops(next)
      ensures if k == 0 then chunk == 0
              else ok ==> LastChunk(k, Extent(k, clusterSize), clusterSize, alignment, |buffer|, chunk)
    {
      ghost var p;
      ghost var job := Job(fat[..], Drift(), Mirrored(), data, cs, alignment, buffer);
      EditRefl(fat[..], cs);
      WrittenNone(fat[..], data, cs, alignment, buffer);
      ok, written, current, next, chunk, p := WriteClusters(start, alignment, buffer, job);
      chain, k := p.chain, p.k;
      ChainEnds(fat[..], chain, k, next);
      LoopDone(fat[..], old(data), data, clusterSize, chain, k, alignment, buffer, written, ok);
    }

    /** The zero-fill flag: what follows `chunk` bytes in the last cluster visited is zeroed. */
    method FillRest(current: nat, chunk: nat, ghost before: Data, ghost chain: seq<nat>, ghost k: nat, ghost at: nat,
                    ghost buffer: seq<Byte>)
      requires Valid() && Chain(fat[..], chain) && k <= |chain|
      requires current == (if k == 0 then chain[0] else chain[k - 1])
      requires Rewritten(before, data, Span(chain, at, buffer))
      requires Outcome(before, data, clusterSize, chain, k, at, buffer)
      requires if k == 0 then chunk == 0 else LastChunk(k, Extent(k, clusterSize), clusterSize, at, |buffer|, chunk)
      modifies this`data
      ensures Valid() && Refilled(before, data, Span(chain, at, buffer), clusterSize)
      ensures Refilled(before, data, Span(Kept(chain, k), at, buffer), clusterSize)
    {
      ghost var q := if k == 0 then 0 else k - 1;
      assert Linked(fat[..], chain, q);
      ChunkIs(k, clusterSize, at, |buffer|, chunk);
      SingleInChain(fat[..], chain, q);
      KeptSingle(chain, k, q);
      ZeroStep(before, data, clusterSize, chain, q, current, at, buffer, chunk);
      ZeroStep(before, data, clusterSize, Kept(chain, k), q, current, at, buffer, chunk);
      WriteCluster(current, chunk, Zeros(clusterSize - chunk));
    }

    /** The end-of-chain part: free what follows and end the chain at `current`. */
    method Truncate(current: nat, next: nat, ghost chain: seq<nat>, ghost k: nat)
      requires Valid() && Reserved01() && Chain(fat[..], chain) && Cursor(fat[..], chain, k, current, next)
        && k < |chain|
      modifies this`fat1, this`fat2, this`freeCount, fat
      ensures Sound(old(fat[..]), old(Drift()) + (if k == 0 then 1 else 0), old(Mirrored()))
      ensures Edit(old(fat[..]), fat[..], chain, Kept(chain, k))
    {
      ChainEnds(fat[..], chain, k, next);
      CutChain(fat[..], chain, k);
      FreeAllFollowing(next);
      SetNext(current, END_OF_CLUSTERCHAIN);
    }

    /** On a well-formed chain exactly that chain is freed, and the free count stays exact. */
    method FreeFile(ghost cs: seq<nat>, cluster: nat)
      requires Valid() && Reserved01() && Chain(fat[..], cs) && cs[0] == cluster
      modifies this`fat1, this`fat2, this`freeCount, fat
      ensures Valid() && Reserved01() && Edit(old(fat[..]), fat[..], cs, [])
      ensures Drift() == old(Drift()) && (old(Mirrored()) ==> Mirrored())
      ensures SameReserved(old(fat[..]), fat[..])
    {
      assert Linked(fat[..], cs, 0);
      FreeChain(fat[..], cs);
      ChainAboveReserved(fat[..], cs);
      FreeAllFollowing(cluster);
    }
  }

  /** After `k` clusters of `chain` the loop stands on the last of them, and `next` is the
      link out of it (before the first round both are the start of the chain). */
  ghost predicate Cursor(fat: Table, chain: seq<nat>, k: nat, current: nat, next: nat) {
    && chain != [] && k <= |chain|
    && (if k == 0 then current == chain[0] else current == chain[k - 1])
    && (if k < |chain| then next == chain[k] else next >= END)
  }

  /** Chain, cursor and bytes written by the loop of `job` at `p`. */
  ghost predicate Underway(job: Job, p: Progress, table: Table, data: Data, size: nat) {
    match p
    case Progress(chain, k, pos, written, left, skip, current, next) =>
      && Blocks(job.before, size) && job.cs <= chain && Edit(job.table, table, job.cs, chain)
      && Cursor(table, chain, k, current, next)
      && written + left == |job.buffer| && Written(job.before, data, k, Span(chain, job.at, job.buffer[..written]))
      && pos == Extent(k, size) && Position(Place(pos, job.at, written, left, skip))
      && (pos < job.at + |job.buffer| + size || k == 0)
  }

  /** One round further. */
  lemma UnderwayNext(job: Job, p: Progress, p': Progress, table: Table, data: Data, data': Data, size: nat)
    requires Underway(job, p, table, data, size) && LinksInRange(table) && p.k < |p.chain|
    requires p' == Progress(p.chain, p.k + 1, p.pos + size, p'.written, p'.left, p'.skip, p.next, p'.next)
    requires p.next == p.chain[p.k]
    requires p.next < |table| && p'.next == Next(table, p.next) && p'.written + p'.left == |job.buffer|
    requires Written(job.before, data', p'.k, Span(p'.chain, job.at, job.buffer[..p'.written]))
    requires Position(Place(p'.pos, job.at, p'.written, p'.left, p'.skip)) && p.pos < job.at + |job.buffer|
    ensures Underway(job, p', table, data', size)
  {
    StepCursor(table, p.chain, p.k);
  }

  ghost predicate Visited(chain: seq<nat>, k: nat, c: nat) {
    exists i | 0 <= i < k && i < |chain| :: chain[i] == c
  }

  /** The bytes `b` have been written at offset `at` of the first `k` clusters of `chain`, and
      nothing else has changed. */
  ghost predicate Written(before: Data, data: Data, k: nat, w: Span) {
    match w
    case Span(chain, at, b) =>
      && |data| == |before| && Within(before, chain) && k <= |chain|
      && Prefix(data, chain, k) == Overwrite(Prefix(before, chain, k), at, b)
      && (forall c | 0 <= c < |data| && !Visited(chain, k, c) :: data[c] == before[c])
  }

  /** Where the loop stands: `pos` bytes of the chain are behind it, `w` bytes are written. */
  datatype Place = Place(pos: nat, at: nat, w: nat, left: nat, skip: nat)

  ghost predicate Position(p: Place) {
    match p
    case Place(pos, at, w, left, skip) =>
      && (skip > 0 ==> w == 0 && at == pos + skip)
      && (skip == 0 ==> at + w <= pos && (left > 0 ==> at + w == pos))
  }

  /** A chain of `room` bytes cannot take `n` bytes at `at`, and `w` of them, all that fit, are written. */
  ghost predicate TooShort(room: nat, at: nat, n: nat, w: nat) {
    room < at + n && w == if at < room then room - at else 0
  }

  lemma StoppedAt(p: Place)
    requires Position(p) && (p.left > 0 || p.skip > 0)
    ensures TooShort(p.pos, p.at, p.w + p.left, p.w)
  {
  }

  /** The last of `k` clusters visited has got `chunk` bytes, up to the end of what is written. */
  ghost predicate LastChunk(k: nat, pos: nat, size: nat, at: nat, w: nat, chunk: nat) {
    k > 0 ==> at + w == chunk + if at > pos - size then at else pos - size
  }

  lemma StepCursor(fat: Table, chain: seq<nat>, k: nat)
    requires LinksInRange(fat) && Chain(fat, chain) && k < |chain|
    ensures chain[k] < |fat| && Cursor(fat, chain, k + 1, chain[k], Next(fat, chain[k]))
  {
    ChainEnds(fat, chain, k, chain[k]);
    assert Linked(fat, chain, k);
  }

  lemma PlaceShorter(pos: nat, at: nat, w: nat, left: nat, skip: nat, chunk: nat)
    requires Position(Place(pos, at, w, left, skip)) && chunk <= left
    ensures Position(Place(pos, at, w, chunk, skip))
  {
  }

  /** Where a round of the loop leads to. */
  lemma RoundPosition(k: nat, pos: nat, size: nat, at: nat, w: nat, left: nat, skip: nat, chunk: nat, skip': nat)
    requires Position(Place(pos, at, w, left, skip)) && (left > 0 || skip > 0) && size > 0
    requires if skip < size then chunk == Min(left, size - skip) else chunk == 0
    requires skip' == if skip < size then 0 else skip - size
    ensures chunk <= left && Position(Place(pos + size, at, w + chunk, left - chunk, skip'))
    ensures pos < at + (w + left)
    ensures skip' == 0 ==> LastChunk(k + 1, pos + size, size, at, w + chunk, chunk)
    ensures left - chunk + skip' < left + skip && (skip' > 0 ==> chunk == 0)
  {
  }

  /** A round that only skips. */
  lemma SkipRound(fat: Table, before: Data, data: Data, chain: seq<nat>, k: nat, at: nat, b: seq<Byte>)
    requires Chain(fat, chain) && |data| == |fat| && k < |chain|
    requires Written(before, data, k, Span(chain, at, b)) && b == []
    ensures Written(before, data, k + 1, Span(chain, at, b))
  {
    assert Linked(fat, chain, k);
    forall i | 0 <= i < k ensures chain[i] != chain[k] {
      ChainDistinct(fat, chain, i, k);
    }
    SkipStep(before, data, chain, k, at);
  }

  lemma SlicesJoin(buffer: seq<Byte>, n: nat, m: nat)
    requires n + m <= |buffer|
    ensures buffer[..n] + buffer[n..n + m] == buffer[..n + m]
  {
  }

  lemma WriteStep(fat: Table, before: Data, data: Data, data': Data, size: nat, chain: seq<nat>, k: nat, at: nat,
                  b: seq<Byte>, off: nat, b2: seq<Byte>)
    requires Chain(fat, chain) && |data| == |fat| && Blocks(before, size) && k < |chain| && chain[k] < |data|
    requires Written(before, data, k, Span(chain, at, b)) && off + |b2| <= size
    requires OnlyIn(data, data', chain[k]) && data'[chain[k]] == Overwrite(data[chain[k]], off, b2)
    requires Position(Place(Extent(k, size), at, |b|, |b2|, off))
    ensures Written(before, data', k + 1, Span(chain, at, b + b2))
  {
    var c := chain[k];
    forall i | 0 <= i < k ensures chain[i] != c {
      ChainDistinct(fat, chain, i, k);
    }
    assert !Visited(chain, k, c);
    PrefixLength(before, chain, k, size);
    WritePrefix(before, data, data', chain, k, at, b, off, b2);
    forall d | 0 <= d < |data| && !Visited(chain, k + 1, d) ensures data'[d] == before[d] {
      assert !Visited(chain, k, d) && d != c;
    }
  }

  lemma WritePrefix(before: Data, data: Data, data': Data, chain: seq<nat>, k: nat, at: nat, b: seq<Byte>, off: nat,
                    b2: seq<Byte>)
    requires |data| == |before| && Within(before, chain) && k < |chain| && off + |b2| <= |before[chain[k]]|
    requires Prefix(data, chain, k) == Overwrite(Prefix(before, chain, k), at, b)
    requires OnlyIn(data, data', chain[k]) && (forall i | 0 <= i < k :: chain[i] != chain[k])
    requires data'[chain[k]] == Overwrite(before[chain[k]], off, b2)
    requires var n := |Prefix(before, chain, k)|;
      (b == [] && at == n + off) || (off == 0 && at + |b| <= n && (b2 != [] ==> at + |b| == n))
    ensures Within(data', chain) && Prefix(data', chain, k + 1) == Overwrite(Prefix(before, chain, k + 1), at, b + b2)
  {
    FrontKept(data, data', chain, k);
    OverwriteStep(Prefix(before, chain, k), before[chain[k]], at, b, b2, off);
  }

  lemma FrontKept(data: Data, data': Data, chain: seq<nat>, k: nat)
    requires Within(data, chain) && k < |chain| && OnlyIn(data, data', chain[k])
    requires forall i | 0 <= i < k :: chain[i] != chain[k]
    ensures Within(data', chain) && Prefix(data', chain, k) == Prefix(data, chain, k)
  {
    PrefixFrame(data, data', chain, chain, k);
  }

  /** The bytes `b` have been written at offset `at` of the chain, and no other byte of the
      data area has changed. When they do not fit the chain, nothing has been written. */
  ghost predicate Rewritten(before: Data, data: Data, w: Span) {
    match w
    case Span(cs, at, b) =>
      && |data| == |before| && Within(before, cs)
      && Content(data, cs) == Overwrite(Content(before, cs), at, b)
      && (forall c | 0 <= c < |data| && c !in cs :: data[c] == before[c])
  }

  function Zeros(n: nat): seq<Byte> { seq(n, _ => 0) }

  /** The number of the cluster in which a write that ends at `end` ends. */
  ghost function LastCluster(end: nat, size: nat): nat
    requires size > 0
  {
    if end <= size then 0 else 1 + LastCluster(end - size, size)
  }

  lemma {:induction false} LastClusterIs(q: nat, end: nat, size: nat)
    requires size > 0 && end <= Extent(q, size) + size && (Extent(q, size) < end || q == 0)
    ensures LastCluster(end, size) == q
    decreases q
  {
    if q > 0 {
      ExtentIsProduct(q, size);
      ExtentIsProduct(q - 1, size);
      LastClusterIs(q - 1, end - size, size);
    }
  }

  /** Where the zero-fill flag starts to fill: behind as many bytes as the write put into its last
      cluster, counted from the start of that cluster. */
  ghost function FillStart(at: nat, n: nat, size: nat): nat
    requires size > 0
  {
    var base := Extent(LastCluster(at + n, size), size);
    if at > base then base + n else at + n
  }

  /** Like `Rewritten`, and then zeros from there to the end of the cluster. */
  ghost predicate Refilled(before: Data, data: Data, w: Span, size: nat)
    requires size > 0
  {
    match w
    case Span(cs, at, b) =>
      var from, to := FillStart(at, |b|, size), Extent(LastCluster(at + |b|, size), size) + size;
      && |data| == |before| && Within(before, cs) && from <= to
      && Content(data, cs) == Overwrite(Overwrite(Content(before, cs), at, b), from, Zeros(to - from))
      && (forall c | 0 <= c < |data| && c !in cs :: data[c] == before[c])
  }

  /** Zeros start where the write ends exactly if it starts no later than the cluster it ends in; then
      everything before that point is kept. Otherwise the bytes from `FillStart` to the end of the
      write are lost, those just written among them. */
  lemma FillExactly(s: seq<Byte>, at: nat, b: seq<Byte>, size: nat)
    requires size > 0 && Extent(LastCluster(at + |b|, size), size) + size <= |s|
    ensures var base, from, end := Extent(LastCluster(at + |b|, size), size), FillStart(at, |b|, size), at + |b|;
      && end <= base + size && (from == end <==> at <= base)
      && var w := Overwrite(s, at, b);
      var r := Overwrite(w, from, Zeros(base + size - from));
      && (at <= base ==> r[..end] == w[..end])
      && (at > base ==> from < end && forall i | from <= i < end :: r[i] == 0)
  {
    EndsInside(at + |b|, size);
  }

  lemma {:induction false} EndsInside(end: nat, size: nat)
    requires size > 0
    ensures Extent(LastCluster(end, size), size) < end <= Extent(LastCluster(end, size), size) + size || end == 0
  {
    if end > size {
      EndsInside(end - size, size);
      assert Extent(LastCluster(end, size), size) == Extent(LastCluster(end - size, size), size) + size;
    }
  }

  /** An empty write at offset 64: all of its cluster of 512 bytes is zeroed. */
  lemma FillWipes(s: seq<Byte>)
    requires |s| == 512
    ensures FillStart(64, 0, 512) == 0 && Overwrite(Overwrite(s, 64, []), 0, Zeros(512)) == Zeros(512)
  {
    assert LastCluster(64, 512) == 0;
  }

  /** A write of nothing at offset zero with the end-of-chain flag makes the free count one too
      high. */
  method CountsOneTooMany(ctx: Context, start: nat, ghost cs: seq<nat>) returns (ghost cs': seq<nat>)
    requires ctx.Valid() && ctx.Reserved01() && Chain(ctx.fat[..], cs) && cs[0] == start && ctx.Drift() == 0
    modifies ctx`fat1, ctx`fat2, ctx`nextFree, ctx`freeCount, ctx`data, ctx.fat
    ensures ctx.Valid() && ctx.Drift() == 1 && cs' == [start]
  {
    var ok, written;
    ok, written, cs' := ctx.WriteChain(start, 0, [], true, false, cs);
  }

  /** The last cluster the loop visits, and what it puts there. */
  lemma ChunkIs(k: nat, size: nat, at: nat, n: nat, chunk: nat)
    requires size > 0 && if k == 0 then chunk == 0 else LastChunk(k, Extent(k, size), size, at, n, chunk)
    requires k == 0 <==> at + n == 0
    requires k > 0 ==> Extent(k - 1, size) < at + n <= Extent(k, size)
    ensures var q := if k == 0 then 0 else k - 1;
      LastCluster(at + n, size) == q && FillStart(at, n, size) == Extent(q, size) + chunk && chunk <= size
  {
    var q := if k == 0 then 0 else k - 1;
    LastClusterIs(q, at + n, size);
  }

  /** The cluster with number `q` is in the chain only once. */
  ghost predicate Single(cs: seq<nat>, q: nat) {
    q < |cs| && forall i | 0 <= i < |cs| && i != q :: cs[i] != cs[q]
  }

  /** Zeroing the end of cluster `q` of a chain. */
  lemma ZeroStep(before: Data, data: Data, size: nat, cs: seq<nat>, q: nat, c: nat, at: nat, b: seq<Byte>, chunk: nat)
    requires size > 0 && Rewritten(before, data, Span(cs, at, b)) && Blocks(data, size) && chunk <= size
    requires Single(cs, q) && c == cs[q] && c < |data|
    requires LastCluster(at + |b|, size) == q && FillStart(at, |b|, size) == Extent(q, size) + chunk
    ensures Refilled(before, data[c := Overwrite(data[c], chunk, Zeros(size - chunk))], Span(cs, at, b), size)
  {
    var zeros := Zeros(size - chunk);
    ContentStep(data, data[c := Overwrite(data[c], chunk, zeros)], size, cs, q, chunk, zeros);
  }

  lemma KeptSingle(chain: seq<nat>, k: nat, q: nat)
    requires k <= |chain| && q == (if k == 0 then 0 else k - 1) && Single(chain, q)
    ensures Single(Kept(chain, k), q) && Kept(chain, k)[q] == chain[q]
  {
  }

  lemma SingleInChain(fat: Table, chain: seq<nat>, q: nat)
    requires Chain(fat, chain) && q < |chain|
    ensures Single(chain, q)
  {
    forall i | 0 <= i < |chain| && i != q ensures chain[i] != chain[q] {
      ChainDistinct(fat, chain, Min(i, q), if i < q then q else i);
    }
  }

  /** Only cluster `c` has changed. */
  ghost predicate OnlyIn(data: Data, data': Data, c: nat) {
    |data'| == |data| && forall d | 0 <= d < |data| && d != c :: data'[d] == data[d]
  }

  /** A store into one cluster as a store into the chain. */
  lemma ContentStep(data: Data, data': Data, size: nat, cs: seq<nat>, q: nat, off: nat, b: seq<Byte>)
    requires Within(data, cs) && Blocks(data, size) && Single(cs, q) && off + |b| <= size
    requires OnlyIn(data, data', cs[q]) && data'[cs[q]] == Overwrite(data[cs[q]], off, b)
    ensures Within(data', cs) && Content(data', cs) == Overwrite(Content(data, cs), Extent(q, size) + off, b)
  {
    PrefixStep(data, data', size, cs, q, off, b);
    RestSpreads(data, data', cs, q, Extent(q, size) + off, b);
  }

  lemma RestSpreads(data: Data, data': Data, cs: seq<nat>, q: nat, at: nat, b: seq<Byte>)
    requires Within(data, cs) && Within(data', cs) && Single(cs, q) && OnlyIn(data, data', cs[q])
    requires Prefix(data', cs, q + 1) == Overwrite(Prefix(data, cs, q + 1), at, b)
    requires at + |b| <= |Prefix(data, cs, q + 1)|
    ensures Content(data', cs) == Overwrite(Content(data, cs), at, b)
  {
    RestSame(data, data', cs, q);
    StoreSpreads(data, data', cs, q + 1, |cs|, at, b);
  }

  lemma RestSame(data: Data, data': Data, cs: seq<nat>, q: nat)
    requires Within(data, cs) && Single(cs, q) && OnlyIn(data, data', cs[q])
    ensures forall i | q + 1 <= i < |cs| :: data'[cs[i]] == data[cs[i]]
  {
  }

  lemma PrefixStep(data: Data, data': Data, size: nat, cs: seq<nat>, q: nat, off: nat, b: seq<Byte>)
    requires Within(data, cs) && Blocks(data, size) && Single(cs, q) && off + |b| <= size
    requires OnlyIn(data, data', cs[q]) && data'[cs[q]] == Overwrite(data[cs[q]], off, b)
    ensures var at := Extent(q, size) + off;
      && Within(data', cs) && Prefix(data', cs, q + 1) == Overwrite(Prefix(data, cs, q + 1), at, b)
      && at + |b| <= |Prefix(data, cs, q + 1)|
  {
    var a, c, at := Prefix(data, cs, q), data[cs[q]], Extent(q, size) + off;
    PrefixLength(data, cs, q, size);
    OverwriteNext(a, c, at, off, b);
    calc {
      Prefix(data', cs, q + 1);
      Prefix(data', cs, q) + data'[cs[q]];
      { PrefixBefore(data, data', cs, q); }
      a + Overwrite(c, off, b);
      Overwrite(a + c, at, b);
      Overwrite(Prefix(data, cs, q + 1), at, b);
    }
  }

  lemma PrefixBefore(data: Data, data': Data, cs: seq<nat>, q: nat)
    requires Within(data, cs) && Single(cs, q) && OnlyIn(data, data', cs[q])
    ensures Within(data', cs) && Prefix(data', cs, q) == Prefix(data, cs, q)
  {
    PrefixFrame(data, data', cs, cs, q);
  }

  lemma OverwriteNext(a: seq<Byte>, c: seq<Byte>, at: nat, off: nat, b: seq<Byte>)
    requires at == |a| + off && off + |b| <= |c|
    ensures a + Overwrite(c, off, b) == Overwrite(a + c, at, b) && at + |b| <= |a + c|
  {
    OverwriteStep(a, c, at, [], b, off);
    OverwriteNone(a, at);
    assert [] + b == b;
  }

  /** A store into the first clusters of a chain as a store into all of it. */
  lemma {:induction false} StoreSpreads(data: Data, data': Data, cs: seq<nat>, k: nat, m: nat, at: nat, b: seq<Byte>)
    requires Within(data, cs) && Within(data', cs) && k <= m <= |cs|
    requires Prefix(data', cs, k) == Overwrite(Prefix(data, cs, k), at, b) && at + |b| <= |Prefix(data, cs, k)|
    requires forall i | k <= i < |cs| :: data'[cs[i]] == data[cs[i]]
    ensures Prefix(data', cs, m) == Overwrite(Prefix(data, cs, m), at, b) && at + |b| <= |Prefix(data, cs, m)|
    decreases m - k
  {
    if k < m {
      StoreSpreads(data, data', cs, k, m - 1, at, b);
      var c := data[cs[m - 1]];
      OverwriteStep(Prefix(data, cs, m - 1), c, at, b, [], 0);
      OverwriteNone(c, 0);
      assert b + [] == b;
    }
  }

  lemma RewrittenAll(before: Data, data: Data, size: nat, chain: seq<nat>, k: nat, at: nat, b: seq<Byte>)
    requires Written(before, data, k, Span(chain, at, b)) && Blocks(before, size)
    requires k == |chain| || at + |b| <= Extent(k, size)
    requires forall i, j | 0 <= i < j < |chain| :: chain[i] != chain[j]
    ensures Rewritten(before, data, Span(chain, at, b))
  {
    if k < |chain| {
      PrefixLength(before, chain, k, size);
      forall i | k <= i < |chain| ensures data[chain[i]] == before[chain[i]] {
        assert !Visited(chain, k, chain[i]);
      }
      StoreSpreads(before, data, chain, k, |chain|, at, b);
    }
    forall c | 0 <= c < |data| && c !in chain ensures data[c] == before[c] {
      assert !Visited(chain, k, c);
    }
  }

  /** What an end-of-chain write keeps when the loop has visited `k` clusters. */
  ghost function Kept(chain: seq<nat>, k: nat): seq<nat>
    requires chain != [] && k <= |chain|
  {
    if k == 0 then chain[..1] else chain[..k]
  }

  lemma RewrittenCut(before: Data, data: Data, chain: seq<nat>, k: nat, at: nat, b: seq<Byte>)
    requires Written(before, data, k, Span(chain, at, b)) && chain != [] && (k == 0 ==> b == [])
    ensures Rewritten(before, data, Span(Kept(chain, k), at, b))
  {
    var keep := Kept(chain, k);
    PrefixFrame(before, before, chain, keep, k);
    PrefixFrame(data, data, chain, keep, k);
    if k == 0 {
      assert !Visited(chain, 0, chain[0]);
      PrefixFrame(before, data, keep, keep, 1);
      OverwriteNone(Content(before, keep), at);
    }
    forall c | 0 <= c < |data| && c !in keep ensures data[c] == before[c] {
      forall i | 0 <= i < k ensures chain[i] != c {
        assert keep[i] == chain[i];
      }
      assert !Visited(chain, k, c);
    }
  }

  /** A finished write reached just far enough, and lies within the clusters it visited. */
  ghost predicate Outcome(before: Data, data: Data, size: nat, chain: seq<nat>, k: nat, at: nat, buffer: seq<Byte>)
    requires chain != [] && k <= |chain|
  {
    Rewritten(before, data, Span(Kept(chain, k), at, buffer)) && Reached(size, chain, k, at, |buffer|)
  }

  ghost predicate Reached(size: nat, chain: seq<nat>, k: nat, at: nat, n: nat)
    requires chain != [] && k <= |chain|
  {
    && (k == 0 <==> at + n == 0)
    && at + n <= Extent(|Kept(chain, k)|, size) && at + n <= Extent(|chain|, size)
    && (k > 0 ==> Extent(k - 1, size) < at + n)
  }

  lemma ReachedIs(size: nat, chain: seq<nat>, k: nat, at: nat, n: nat)
    requires chain != [] && k <= |chain| && Reached(size, chain, k, at, n)
    ensures var keep := Kept(chain, k);
      && keep <= chain && at + n <= Extent(|keep|, size) && (k == |chain| ==> keep == chain)
      && (if at + n > 0 then Extent(|keep| - 1, size) < at + n else keep == [chain[0]])
  {
  }

  /** What a write, with or without the zero-fill flag, has done to the data. */
  ghost predicate Stored(before: Data, data: Data, w: Span, size: nat, zero: bool)
    requires size > 0
  {
    match w
    case Span(cs, at, b) =>
      if zero then Refilled(before, data, Span(cs, at, b), size) else Rewritten(before, data, Span(cs, at, b))
  }

  /** What the write loop has achieved when it stops. */
  lemma LoopDone(fat: Table, before: Data, data: Data, size: nat, chain: seq<nat>, k: nat, at: nat, buffer: seq<Byte>,
                 written: nat, ok: bool)
    requires Chain(fat, chain) && Blocks(before, size) && written <= |buffer|
    requires Written(before, data, k, Span(chain, at, buffer[..written]))
    requires if ok then written == |buffer| && at + written <= Extent(k, size)
      && (Extent(k, size) < at + written + size || k == 0)
             else k == |chain|
    ensures Rewritten(before, data, Span(chain, at, buffer[..written]))
    ensures ok ==> Outcome(before, data, size, chain, k, at, buffer)
  {
    assert buffer[..|buffer|] == buffer;
    forall i, j | 0 <= i < j < |chain| ensures chain[i] != chain[j] {
      ChainDistinct(fat, chain, i, j);
    }
    assert |buffer[..written]| == written;
    RewrittenAll(before, data, size, chain, k, at, buffer[..written]);
    if ok {
      LoopReached(k, |chain|, size, at + written);
      RewrittenCut(before, data, chain, k, at, buffer[..written]);
    }
  }

  /** Freeing the clusters from index `k` on and ending the chain before them. */
  lemma CutChain(fat: Table, chain: seq<nat>, k: nat)
    requires LinksInRange(fat) && |fat| >= 2 && Chain(fat, chain) && k < |chain| && chain[k] < |fat|
    ensures var last := if k == 0 then chain[0] else chain[k - 1];
            && last < |fat| && |FreeWalk(fat, chain[k])| == |fat|
            && var cut := SetLink(FreeWalk(fat, chain[k]), last, END_OF_CLUSTERCHAIN);
            && Edit(fat, cut, chain, Kept(chain, k))
            && CountFree(cut) == CountFree(fat) + FreeSteps(fat, chain[k]) - (if k == 0 then 1 else 0)
            && Next(cut, 0) == Next(fat, 0) && Next(cut, 1) == Next(fat, 1)
  {
    var last := if k == 0 then chain[0] else chain[k - 1];
    assert Linked(fat, chain, if k == 0 then 0 else k - 1);
    var tail := chain[k..];
    ChainSuffix(fat, chain, k);
    FreeChain(fat, tail);
    var freed := FreeWalk(fat, chain[k]);
    SetLinkEffect(freed, last, END_OF_CLUSTERCHAIN);
    CountSetLink(freed, last, END_OF_CLUSTERCHAIN);
    KeptOrTail(fat, chain, k);
    ChainInUse(fat, chain, if k == 0 then 0 else k - 1);
    ChainAboveReserved(fat, chain);
    CutKeepsChain(fat, SetLink(freed, last, END_OF_CLUSTERCHAIN), chain, k);
  }

  /** Every cluster of the chain is kept or freed, and only the first can be both. */
  lemma KeptOrTail(fat: Table, chain: seq<nat>, k: nat)
    requires Chain(fat, chain) && k < |chain|
    ensures forall c | c in Kept(chain, k) :: c in chain
    ensures forall c | c in chain[k..] :: c in chain
    ensures forall c | c in chain && c !in Kept(chain, k) :: c in chain[k..]
    ensures k > 0 ==> forall c | c in Kept(chain, k) :: c !in chain[k..]
    ensures k == 0 ==> chain[0] in chain[k..]
  {
    var keep, tail := Kept(chain, k), chain[k..];
    assert k > 0 ==> chain == keep + tail;
    assert k == 0 ==> tail == chain;
    if k > 0 {
      forall c | c in keep ensures c !in tail {
        var i :| 0 <= i < |keep| && keep[i] == c;
        forall j | 0 <= j < |tail| ensures tail[j] != c {
          ChainDistinct(fat, chain, i, k + j);
        }
      }
    }
  }

  lemma CutKeepsChain(fat: Table, cut: Table, chain: seq<nat>, k: nat)
    requires Chain(fat, chain) && k < |chain| && |cut| == |fat|
    requires var last := if k == 0 then chain[0] else chain[k - 1];
             && last < |fat| && Next(cut, last) == END_OF_CLUSTERCHAIN
             && (k > 0 ==> forall c | c in Kept(chain, k) && c != last && c < |fat| :: cut[c] == fat[c])
    ensures Chain(cut, Kept(chain, k))
  {
    var keep := Kept(chain, k);
    var n := |keep| - 1;
    forall i | 0 <= i < |keep| ensures Linked(cut, keep, i) {
      assert Linked(fat, chain, i);
      if i < n {
        ChainDistinct(fat, chain, i, n);
        assert keep[i] in keep;
      }
    }
  }

  lemma LoopReached(k: nat, n: nat, size: nat, at: nat)
    requires k <= n && at <= Extent(k, size) && (Extent(k, size) < at + size || k == 0)
    ensures at <= Extent(n, size)
    ensures k > 0 ==> Extent(k - 1, size) < at && at > 0
  {
    ExtentGrows(k, n, size);
  }

  lemma {:induction false} ExtentGrows(k: nat, n: nat, size: nat)
    requires k <= n
    ensures Extent(k, size) <= Extent(n, size)
    decreases n
  {
    if k < n { ExtentGrows(k, n - 1, size); }
  }

  lemma ChainSuffix(fat: Table, chain: seq<nat>, k: nat)
    requires Chain(fat, chain) && k < |chain|
    ensures Chain(fat, chain[k..])
  {
    var tail := chain[k..];
    forall i | 0 <= i < |tail| ensures Linked(fat, tail, i) {
      assert Linked(fat, chain, k + i);
    }
  }

  lemma EditThen(t0: Table, t1: Table, t2: Table, cs: seq<nat>, cs': seq<nat>)
    requires Edit(t0, t1, cs, cs) && Edit(t1, t2, cs, cs') && forall c | c in cs' :: c in cs
    ensures Edit(t0, t2, cs, cs')
  {
  }

  lemma WrittenNone(fat: Table, data: Data, cs: seq<nat>, at: nat, buffer: seq<Byte>)
    requires Chain(fat, cs) && |data| == |fat|
    ensures Written(data, data, 0, Span(cs, at, buffer[..0]))
  {
    ChainWithin(fat, data, cs);
    OverwriteNone([], at);
    assert buffer[..0] == [];
  }

  lemma WrittenExtend(before: Data, data: Data, chain: seq<nat>, c: nat, at: nat, b: seq<Byte>)
    requires Written(before, data, |chain|, Span(chain, at, b)) && c < |data|
    ensures Written(before, data, |chain|, Span(chain + [c], at, b))
  {
    var k, ext := |chain|, chain + [c];
    PrefixFrame(data, data, chain, ext, k);
    PrefixFrame(before, before, chain, ext, k);
    forall d | 0 <= d < |data| && !Visited(ext, k, d) ensures data[d] == before[d] {
      forall i | 0 <= i < k ensures chain[i] != d {
        assert ext[i] == chain[i];
      }
      assert !Visited(chain, k, d);
    }
  }

  lemma SkipStep(before: Data, data: Data, chain: seq<nat>, k: nat, at: nat)
    requires Written(before, data, k, Span(chain, at, [])) && k < |chain| && chain[k] < |data|
    requires !Visited(chain, k, chain[k])
    ensures Written(before, data, k + 1, Span(chain, at, []))
  {
    OverwriteNone(Prefix(before, chain, k), at);
    OverwriteNone(Prefix(before, chain, k + 1), at);
    forall d | 0 <= d < |data| && !Visited(chain, k + 1, d) ensures data[d] == before[d] {
      assert !Visited(chain, k, d);
    }
  }

  /** What linking the free cluster `c` behind the last cluster of a chain does. */
  lemma ExtendChain(fat: Table, chain: seq<nat>, c: nat)
    requires LinksInRange(fat) && Chain(fat, chain) && 2 <= c < |fat| && Next(fat, c) == 0
    requires chain[|chain| - 1] < |fat|
    ensures var last := chain[|chain| - 1];
            var fat' := SetLink(SetLink(fat, c, END_OF_CLUSTERCHAIN), last, c);
            && c !in chain && Chain(fat', chain + [c])
            && (forall d | 0 <= d < |fat| && d != last && d != c :: fat'[d] == fat[d])
            && CountFree(fat') == CountFree(SetLink(fat, c, END_OF_CLUSTERCHAIN))
  {
    var n := |chain| - 1;
    var last := chain[n];
    var mid := SetLink(fat, c, END_OF_CLUSTERCHAIN);
    var fat', ext := SetLink(mid, last, c), chain + [c];
    assert Linked(fat, chain, n);
    SetLinkEffect(fat, c, END_OF_CLUSTERCHAIN);
    SetLinkEffect(mid, last, c);
    CountSetLink(mid, last, c);
    forall i | 0 <= i < |chain| ensures chain[i] != c {
      ChainInUse(fat, chain, i);
    }
    forall i | 0 <= i < |ext| ensures Linked(fat', ext, i) {
      if i < n {
        assert Linked(fat, chain, i);
        ChainDistinct(fat, chain, i, n);
      }
    }
  }

  lemma ChainAboveReserved(fat: Table, cs: seq<nat>)
    requires Chain(fat, cs)
    ensures 0 !in cs && 1 !in cs && forall c | c in cs :: c < |fat|
  {
    forall i | 0 <= i < |cs| ensures 2 <= cs[i] < |fat| {
      assert Linked(fat, cs, i);
    }
  }

  lemma EditRefl(fat: Table, cs: seq<nat>)
    requires Chain(fat, cs)
    ensures Edit(fat, fat, cs, cs)
  {
  }

  lemma EditExtend(fat0: Table, fat: Table, fat': Table, cs: seq<nat>, chain: seq<nat>, c: nat)
    requires Edit(fat0, fat, cs, chain) && cs <= chain && chain != [] && chain[|chain| - 1] < |fat|
    requires |fat'| == |fat| && c < |fat| && Next(fat, c) == 0 && c !in chain
    requires Chain(fat', chain + [c])
    requires forall d | 0 <= d < |fat| && d != chain[|chain| - 1] && d != c :: fat'[d] == fat[d]
    ensures Edit(fat0, fat', cs, chain + [c])
  {
    assert forall d | d in cs :: d in chain;
    assert fat[c] == fat0[c];
  }

  lemma ChainWithin(fat: Table, data: Data, cs: seq<nat>)
    requires Chain(fat, cs) && |data| == |fat|
    ensures Within(data, cs)
  {
    forall i | 0 <= i < |cs| ensures cs[i] < |data| {
      assert Linked(fat, cs, i);
    }
  }

  /** The cluster number the loops hold after `k` clusters tells whether the chain is over. */
  lemma ChainEnds(fat: Table, cs: seq<nat>, k: nat, current: nat)
    requires Chain(fat, cs) && k <= |cs|
    requires if k < |cs| then current == cs[k] else current >= END
    ensures Stops(current) <==> k == |cs|
    ensures k < |cs| ==> current < |fat| && current < END && (k + 1 < |cs| ==> Next(fat, current) == cs[k + 1]) &&
                         (k + 1 == |cs| ==> Next(fat, current) >= END)
  {
    if k < |cs| { assert Linked(fat, cs, k); }
  }
}
