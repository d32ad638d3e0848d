/** Files on the volume: `fat_file_read`, `fat_file_write` and the freeing of a file's data,
    with the chains of all files of the volume at once. */
module FatFiles {

  import opened FatTable
  import opened FatContent
  import opened FatVolume
  import opened Machine

  /** The fields of a directory entry that the data path uses. Cluster 0 means no data. */
  class Entry {
    var cluster: nat
    var size: nat

    constructor (cluster: nat, size: nat)
      ensures this.cluster == cluster && this.size == size
    {
      this.cluster := cluster;
      this.size := size;
    }
  }

  /** `files` maps the first cluster of every file to its chain. */
  class Volume {
    const ctx: Context
    ghost var files: map<nat, seq<nat>>

    ghost predicate Valid()
      reads this, ctx, ctx.fat
    {
      ctx.Valid() && ctx.Reserved01() && FatTable.Volume(ctx.fat[..], files) && 0 !in files
    }

    constructor (context: Context, ghost chains: map<nat, seq<nat>>)
      ensures ctx == context && files == chains
    {
      ctx := context;
      files := chains;
    }

    /** The clusters of a file. */
    ghost function Clusters(cluster: nat): seq<nat>
      reads this
    {
      if cluster in files then files[cluster] else []
    }

    /** `fat_clear_entry_data`: free the whole chain of a file. */
    method Clear(entry: Entry)
      requires Valid() && (entry.cluster == 0 || entry.cluster in files)
      modifies this, ctx, ctx.fat
      ensures Valid() && files == old(files) - {entry.cluster}
      ensures ctx.Drift() == old(ctx.Drift()) && ctx.data == old(ctx.data)
      ensures old(ctx.Mirrored()) ==> ctx.Mirrored()
    {
      ghost var table := ctx.fat[..];
      if entry.cluster == 0 {
        ctx.FreeAllFollowing(0);
      } else {
        ghost var cs := files[entry.cluster];
        ctx.FreeFile(cs, entry.cluster);
        EditKeepsVolume(table, ctx.fat[..], files, entry.cluster, cs, []);
        files := files - {entry.cluster};
      }
    }

    /** The first cluster of a file that has no data yet. */
    method FirstCluster(entry: Entry) returns (ok: bool)
      requires Valid() && entry.cluster == 0
      modifies this, ctx`fat1, ctx`fat2, ctx`nextFree, ctx`freeCount, ctx.fat, entry`cluster
      ensures Valid() && ctx.Drift() == old(ctx.Drift()) && (old(ctx.Mirrored()) ==> ctx.Mirrored())
      ensures SameReserved(old(ctx.fat[..]), ctx.fat[..])
      ensures ok ==>
        entry.cluster != 0 && entry.cluster !in old(files) && files == old(files)[entry.cluster := [entry.cluster]]
      ensures !ok ==> entry.cluster == 0 && files == old(files) && ctx.Full()
    {
      var c;
      ghost var table := ctx.fat[..];
      ok, c := ctx.AllocateCluster();
      if ok {
        CreateIsEdit(table, files, c);
        EditKeepsVolume(table, ctx.fat[..], files, c, [], [c]);
        files := files[c := [c]];
        entry.cluster := c;
      }
    }

    /** `fat_file_write`. The offset is narrowed to 32 bits on its way to the chain, the size
        on its way to the entry. */
    method Write(entry: Entry, start: nat, buffer: seq<Byte>, endOfFile: bool) returns (ok: bool, written: nat)
      requires Valid() && (entry.cluster == 0 || entry.cluster in files) && start < U64
      modifies this, ctx, ctx.fat, entry
      ensures Valid() && ctx.Drift() == old(ctx.Drift()) && (old(ctx.Mirrored()) ==> ctx.Mirrored())
      ensures SameReserved(old(ctx.fat[..]), ctx.fat[..])
      ensures entry.cluster == old(entry.cluster) || old(entry.cluster) == 0
      ensures files.Keys == old(files).Keys + (if entry.cluster == 0 then {} else {entry.cluster})
      ensures forall h | h in old(files) && h != entry.cluster :: files[h] == old(files)[h]
      ensures written <= |buffer| && (ok ==> written == |buffer|)
      ensures Rewritten(old(ctx.data), ctx.data, Span(Clusters(entry.cluster), start % U32, buffer[..written]))
      ensures ok && buffer != [] ==>
        && entry.cluster in files && start % U32 + |buffer| <= |files[entry.cluster]| * ctx.clusterSize
        && (endOfFile ==> (|files[entry.cluster]| - 1) * ctx.clusterSize < start % U32 + |buffer|)
      ensures !ok ==> buffer != [] && ctx.Full() && (entry.cluster == 0 ==> written == 0)
      ensures !ok && entry.cluster != 0 ==>
        TooShort(Extent(|files[entry.cluster]|, ctx.clusterSize), start % U32, |buffer|, written)
      ensures buffer != [] ==>
        Stretched(old(Clusters(entry.cluster)), Clusters(entry.cluster), start % U32 + |buffer|, ctx.clusterSize,
                  ok && endOfFile)
      ensures var end := (start + written) % U64;
        entry.size == if buffer != [] && entry.cluster != 0 && (endOfFile || end > old(entry.size))
                      then (start + written) % U32 else old(entry.size)
      ensures buffer == [] ==> files == old(files)
    {
      ok, written := true, 0;
      if |buffer| == 0 {
        Untouched(ctx.fat[..], files, ctx.data, entry.cluster, start % U32);
        return;
      }
      ok, written := WriteBytes(entry, start % U32, buffer, endOfFile);
      if entry.cluster != 0 && (endOfFile || (start + written) % U64 > entry.size) {
        entry.size := (start + written) % U32;
      }
    }

    /** The clusters and bytes of that write. */
    method WriteBytes(entry: Entry, at: nat, buffer: seq<Byte>, endOfFile: bool) returns (ok: bool, written: nat)
      requires Valid() && (entry.cluster == 0 || entry.cluster in files) && buffer != []
      modifies this, ctx, ctx.fat, entry`cluster
      ensures Valid() && ctx.Drift() == old(ctx.Drift()) && (old(ctx.Mirrored()) ==> ctx.Mirrored())
      ensures SameReserved(old(ctx.fat[..]), ctx.fat[..])
      ensures entry.cluster == old(entry.cluster) || old(entry.cluster) == 0
      ensures files.Keys == old(files).Keys + (if entry.cluster == 0 then {} else {entry.cluster})
      ensures forall h | h in old(files) && h != entry.cluster :: files[h] == old(files)[h]
      ensures written <= |buffer| && (ok ==> written == |buffer|)
      ensures Rewritten(old(ctx.data), ctx.data, Span(Clusters(entry.cluster), at, buffer[..written]))
      ensures ok ==>
        && entry.cluster in files && at + |buffer| <= |files[entry.cluster]| * ctx.clusterSize
        && (endOfFile ==> (|files[entry.cluster]| - 1) * ctx.clusterSize < at + |buffer|)
      ensures !ok ==> ctx.Full() && (entry.cluster == 0 ==> written == 0)
      ensures !ok && entry.cluster != 0 ==>
        TooShort(Extent(|files[entry.cluster]|, ctx.clusterSize), at, |buffer|, written)
      ensures Stretched(old(Clusters(entry.cluster)), Clusters(entry.cluster), at + |buffer|, ctx.clusterSize,
                        ok && endOfFile)
    {
      ok, written := true, 0;
      if entry.cluster == 0 {
        ok := FirstCluster(entry);
        if !ok {
          Untouched(ctx.fat[..], files, ctx.data, entry.cluster, at);
          return;
        }
      }
      ok, written := WriteAt(entry.cluster, at, buffer, endOfFile);
    }

    /** `fat_write_cluster_chain` on the chain of one file: every other chain of the volume
        stays as it is, cluster for cluster. */
    method WriteAt(cluster: nat, at: nat, buffer: seq<Byte>, endOfFile: bool) returns (ok: bool, written: nat)
      requires Valid() && cluster in files && buffer != []
      modifies this, ctx, ctx.fat
      ensures Valid() && ctx.Drift() == old(ctx.Drift()) && (old(ctx.Mirrored()) ==> ctx.Mirrored())
      ensures SameReserved(old(ctx.fat[..]), ctx.fat[..])
      ensures files.Keys == old(files).Keys && (forall h | h in files && h != cluster :: files[h] == old(files)[h])
      ensures written <= |buffer| && (ok ==> written == |buffer|)
      ensures Rewritten(old(ctx.data), ctx.data, Span(files[cluster], at, buffer[..written]))
      ensures ok ==> at + |buffer| <= |files[cluster]| * ctx.clusterSize
      ensures ok && endOfFile ==> (|files[cluster]| - 1) * ctx.clusterSize < at + |buffer|
      ensures !ok ==> ctx.Full() && TooShort(Extent(|files[cluster]|, ctx.clusterSize), at, |buffer|, written)
      ensures Stretched(old(files)[cluster], files[cluster], at + |buffer|, ctx.clusterSize, ok && endOfFile)
    {
      ghost var cs, cs', table := files[cluster], [], ctx.fat[..];
      ok, written, cs' := ctx.WriteChain(cluster, at, buffer, endOfFile, false, cs);
      ExtentIsProduct(|cs'|, ctx.clusterSize);
      ExtentIsProduct(|cs'| - 1, ctx.clusterSize);
      EditKeepsVolume(table, ctx.fat[..], files, cluster, cs, cs');
      files := files[cluster := cs'];
    }

    /** `fat_file_read`. The offset is narrowed to 32 bits on its way to the chain; the number of
        bytes reported is cut to the end of the file by 64-bit arithmetic. */
    method Read(entry: Entry, start: nat, size: nat) returns (buffer: seq<Byte>, count: nat)
      requires Valid() && (entry.cluster == 0 || entry.cluster in files) && entry.size < U32 && start < U64
      ensures Within(ctx.data, Clusters(entry.cluster))
      ensures buffer == Slice(Content(ctx.data, Clusters(entry.cluster)), start % U32, size)
      ensures count == Reported(|buffer|, start, entry.size)
    {
      buffer := [];
      if entry.cluster != 0 {
        buffer := ctx.ReadChain(entry.cluster, start % U32, size, files[entry.cluster]);
      } else {
        assert Clusters(0) == [];
      }
      count := |buffer|;
      if (count + start) % U64 > entry.size {
        count := (entry.size - start) % U64;
      }
    }
  }

  /** The chain has kept its clusters and grown only as far as `need` bytes ask for; or, if it may be
      cut, it has kept the first ones. */
  ghost predicate Stretched(cs: seq<nat>, cs': seq<nat>, need: nat, size: nat, cut: bool) {
    if cut then cs <= cs' || cs' <= cs else cs <= cs' && (|cs'| > |cs| ==> (|cs'| - 1) * size < need)
  }

  /** The byte count `fat_file_read` reports for `n` bytes read at `start`. */
  function Reported(n: nat, start: nat, size: nat): nat {
    if (n + start) % U64 > size then (size - start) % U64 else n
  }

  /** The count is the number of those bytes that lie inside the file exactly when the read
      does not start behind the end of the file (and 64 bits hold its end). */
  lemma ReportedIsExact(n: nat, start: nat, size: nat)
    requires size < U32 && start < U64 && n < U64
    ensures Reported(n, start, size) == (if start >= size then 0 else Min(n, size - start)) <==>
            start <= size && !(U64 <= n + start <= U64 + size)
  {
    Wrapped(n + start);
    if start > size {
      assert size - start == -1 * U64 + (size - start + U64);
      assert (size - start) % U64 == size - start + U64;
    }
  }

  lemma Wrapped(x: nat)
    requires x < 2 * U64
    ensures x % U64 == if x < U64 then x else x - U64
  {
  }

  /** What is read are the bytes at `start` exactly if `start` fits 32 bits, nothing is asked for,
      or its low 32 bits lie behind the end as well; a file has at most two to the 32 bytes. */
  lemma NarrowedExactly(content: seq<Byte>, start: nat, size: nat)
    requires |content| <= U32
    ensures Slice(content, start % U32, size) == Slice(content, start, size) <==>
            start < U32 || size == 0 || start % U32 >= |content|
  {
    if start >= U32 {
      var low := start % U32;
      assert Slice(content, start, size) == [];
      assert |Slice(content, low, size)| == if low <= |content| then Min(low + size, |content|) - low else 0;
    }
  }

  /** A read at two to the 32 returns the first byte. */
  lemma ReadsFirstByte(b: Byte)
    ensures Slice([b], U32 % U32, 1) == [b] != Slice([b], U32, 1)
  {
    NarrowedExactly([b], U32, 1);
  }

  /** Reading behind the end of a one-byte file reports almost 2^64 bytes. */
  lemma ReadBehindEnd()
    ensures Reported(0, 2, 1) == U64 - 1
  {
    ReportedIsExact(0, 2, 1);
    assert (1 - 2) % U64 == U64 - 1;
  }

  /** After a write, the range just written reads back, and the bytes before it are as they were. */
  lemma RoundTrip(before: Data, data: Data, size: nat, cs: seq<nat>, at: nat, b: seq<Byte>)
    requires Rewritten(before, data, Span(cs, at, b)) && Blocks(before, size) && at + |b| <= |cs| * size
    ensures Slice(Content(data, cs), at, |b|) == b
    ensures at <= |Content(before, cs)| == |Content(data, cs)| && Content(data, cs)[..at] == Content(before, cs)[..at]
  {
    PrefixLength(before, cs, |cs|, size);
    ExtentIsProduct(|cs|, size);
    WriteThenRead(Content(before, cs), at, b);
  }

  /** A write to one file leaves the bytes of every other file as they were. */
  lemma OtherFilesKeepContent(fat: Table, files: map<nat, seq<nat>>, before: Data, data: Data, h: nat, g: nat,
    at: nat, b: seq<Byte>)
    requires FatTable.Volume(fat, files) && h in files && g in files && h != g
    requires Rewritten(before, data, Span(files[h], at, b)) && |before| == |fat|
    ensures Within(before, files[g]) && Content(data, files[g]) == Content(before, files[g])
  {
    ChainWithin(fat, before, files[g]);
    forall i | 0 <= i < |files[g]| ensures data[files[g][i]] == before[files[g][i]] {
      assert files[g][i] in files[g];
    }
    PrefixFrame(before, data, files[g], files[g], |files[g]|);
  }

  lemma CreateIsEdit(fat: Table, files: map<nat, seq<nat>>, c: nat)
    requires FatTable.Volume(fat, files) && 2 <= c < |fat| && c < END && Next(fat, c) == 0
    ensures c !in files && Edit(fat, SetLink(fat, c, END_OF_CLUSTERCHAIN), [], [c])
  {
    if c in files { ChainInUse(fat, files[c], 0); }
    SetLinkEffect(fat, c, END_OF_CLUSTERCHAIN);
    assert Linked(SetLink(fat, c, END_OF_CLUSTERCHAIN), [c], 0);
  }

  lemma Untouched(fat: Table, files: map<nat, seq<nat>>, data: Data, cluster: nat, at: nat)
    requires FatTable.Volume(fat, files) && |data| == |fat|
    ensures Rewritten(data, data, Span(if cluster in files then files[cluster] else [], at, []))
  {
    var cs := if cluster in files then files[cluster] else [];
    if cs != [] { ChainWithin(fat, data, cs); }
    OverwriteNone(Content(data, cs), at);
  }
}
