/** The file allocation table as a sequence of 32-bit entries: bits 0-27 of an entry are
    the link to the next cluster, bits 28-31 are reserved and must survive every update
    ("FAT Data Structure", Microsoft FAT32 File System Specification 1.03). A link of zero
    marks a free cluster, a link of 0x0FFFFFF8 or more the end of a chain. */
module FatTable {

  const LINK := 0x1000_0000
  const END := 0x0FFF_FFF8
  const END_OF_CLUSTERCHAIN := 0x0FFF_FFFF

  type Table = seq<nat>

  /** `fat_get_next_cluster` */
  function Next(fat: Table, c: nat): (n: nat)
    requires c < |fat|
    ensures n < LINK
  {
    fat[c] % LINK
  }

  function Reserved(fat: Table, c: nat): nat
    requires c < |fat|
  {
    fat[c] / LINK
  }

  /** The table after `fat_set_next_cluster(c, next)`. */
  function SetLink(fat: Table, c: nat, next: nat): Table
    requires c < |fat|
  {
    fat[c := next % LINK + fat[c] / LINK * LINK]
  }

  /** The loops over a chain stop at an end mark and at zero. */
  predicate Stops(link: nat) {
    link >= END || link == 0
  }

  lemma SetLinkEffect(fat: Table, c: nat, next: nat)
    requires c < |fat| && next < LINK
    ensures Next(SetLink(fat, c, next), c) == next
    ensures Reserved(SetLink(fat, c, next), c) == Reserved(fat, c)
    ensures forall d | 0 <= d < |fat| && d != c :: SetLink(fat, c, next)[d] == fat[d]
  {
    Recombine(next, fat[c] / LINK);
  }

  lemma Recombine(low: nat, top: nat)
    requires low < LINK
    ensures (low + top * LINK) % LINK == low && (low + top * LINK) / LINK == top
  {
  }

  // ---------------------------------------------------------------- chains

  ghost predicate Linked(fat: Table, cs: seq<nat>, i: nat)
    requires i < |cs|
  {
    && 2 <= cs[i] < |fat| && cs[i] < END
    && (if i + 1 < |cs| then Next(fat, cs[i]) == cs[i + 1] else Next(fat, cs[i]) >= END)
  }

  /** The clusters `cs`, in order, are a whole chain of the table. */
  ghost predicate Chain(fat: Table, cs: seq<nat>) {
    cs != [] && forall i | 0 <= i < |cs| :: Linked(fat, cs, i)
  }

  /** A chain never returns to a cluster, so it is acyclic. */
  lemma ChainDistinct(fat: Table, cs: seq<nat>, i: nat, j: nat)
    requires Chain(fat, cs) && i < j < |cs|
    ensures cs[i] != cs[j]
    decreases |cs| - j
  {
    assert Linked(fat, cs, i) && Linked(fat, cs, i + 1) && Linked(fat, cs, j);
    if cs[i] == cs[j] && j + 1 < |cs| {
      ChainDistinct(fat, cs, i + 1, j + 1);
    }
  }

  /** The table determines a chain from its first cluster. */
  lemma ChainUnique(fat: Table, cs: seq<nat>, ds: seq<nat>, i: nat)
    requires Chain(fat, cs) && Chain(fat, ds) && cs[0] == ds[0]
    requires i < |cs| || i < |ds|
    ensures i < |cs| && i < |ds| && cs[i] == ds[i]
  {
    if i > 0 {
      ChainUnique(fat, cs, ds, i - 1);
      assert Linked(fat, cs, i - 1) && Linked(fat, ds, i - 1);
      assert i < |cs| ==> Linked(fat, cs, i);
      assert i < |ds| ==> Linked(fat, ds, i);
    }
  }

  /** No link of a chain leads to a free cluster. */
  lemma ChainInUse(fat: Table, cs: seq<nat>, i: nat)
    requires Chain(fat, cs) && i < |cs|
    ensures cs[i] < |fat| && Next(fat, cs[i]) != 0
  {
    assert Linked(fat, cs, i);
    if i + 1 < |cs| { assert Linked(fat, cs, i + 1); }
  }

  // ---------------------------------------------------------------- counting

  function CountFree(fat: Table): (n: nat)
    ensures n <= |fat|
  {
    if fat == [] then 0 else CountFree(fat[1..]) + (if fat[0] % LINK == 0 then 1 else 0)
  }

  lemma {:induction false} CountUpdate(fat: Table, c: nat, e: nat)
    requires c < |fat|
    ensures CountFree(fat[c := e]) ==
            CountFree(fat) - (if fat[c] % LINK == 0 then 1 else 0) + (if e % LINK == 0 then 1 else 0)
  {
    if c == 0 {
      assert fat[c := e][1..] == fat[1..];
    } else {
      assert fat[c := e][1..] == fat[1..][c - 1 := e];
      CountUpdate(fat[1..], c - 1, e);
    }
  }

  lemma CountSetLink(fat: Table, c: nat, next: nat)
    requires c < |fat| && next < LINK
    ensures CountFree(SetLink(fat, c, next)) ==
            CountFree(fat) - (if Next(fat, c) == 0 then 1 else 0) + (if next == 0 then 1 else 0)
  {
    SetLinkEffect(fat, c, next);
    var e := SetLink(fat, c, next)[c];
    CountUpdate(fat, c, e);
    assert SetLink(fat, c, next) == fat[c := e];
    assert e % LINK == next;
  }

  // ---------------------------------------------------------------- freeing

  ghost predicate LinksInRange(fat: Table) {
    |fat| < END && forall c | 0 <= c < |fat| :: Stops(Next(fat, c)) || Next(fat, c) < |fat|
  }

  lemma SetLinkInRange(fat: Table, c: nat, next: nat)
    requires LinksInRange(fat) && c < |fat| && next < LINK && (Stops(next) || next < |fat|)
    ensures LinksInRange(SetLink(fat, c, next))
  {
    SetLinkEffect(fat, c, next);
    var t := SetLink(fat, c, next);
    forall d | 0 <= d < |t| ensures Stops(Next(t, d)) || Next(t, d) < |t| {
      if d != c { assert Next(t, d) == Next(fat, d); }
    }
  }

  /** What `fat_free_all_following_clusters(c)` leaves. The measure is the number of entries
      in use, so it is defined on a cyclic table as well. */
  ghost function FreeWalk(fat: Table, c: nat): Table
    requires LinksInRange(fat) && (Stops(c) || c < |fat|)
    decreases |fat| - CountFree(fat), if Stops(c) then 0 else 1
  {
    if Stops(c) then fat
    else
      SetLinkInRange(fat, c, 0);
      CountSetLink(fat, c, 0);
      FreeWalk(SetLink(fat, c, 0), Next(fat, c))
  }

  /** The number of clusters that walk hands to `fat_free_cluster`. */
  ghost function FreeSteps(fat: Table, c: nat): nat
    requires LinksInRange(fat) && (Stops(c) || c < |fat|)
    decreases |fat| - CountFree(fat), if Stops(c) then 0 else 1
  {
    if Stops(c) then 0
    else
      SetLinkInRange(fat, c, 0);
      CountSetLink(fat, c, 0);
      1 + FreeSteps(SetLink(fat, c, 0), Next(fat, c))
  }

  /** Two tables with the same reserved bits. */
  ghost predicate SameReserved(fat: Table, fat': Table) {
    |fat| == |fat'| && forall c | 0 <= c < |fat| :: Reserved(fat, c) == Reserved(fat', c)
  }

  lemma SetLinkReserved(fat: Table, c: nat, next: nat)
    requires c < |fat| && next < LINK
    ensures SameReserved(fat, SetLink(fat, c, next))
  {
    SetLinkEffect(fat, c, next);
  }

  /** Freeing the first cluster of a chain leaves the rest a chain. */
  lemma ChainTail(fat: Table, cs: seq<nat>)
    requires Chain(fat, cs) && |cs| > 1
    ensures cs[0] < |fat| && Next(fat, cs[0]) == cs[1]
    ensures Chain(SetLink(fat, cs[0], 0), cs[1..])
    ensures cs[0] !in cs[1..]
  {
    assert Linked(fat, cs, 0);
    SetLinkEffect(fat, cs[0], 0);
    var fat', ds := SetLink(fat, cs[0], 0), cs[1..];
    forall i | 0 <= i < |ds| ensures Linked(fat', ds, i) && ds[i] != cs[0] {
      assert Linked(fat, cs, i + 1);
      ChainDistinct(fat, cs, 0, i + 1);
      assert fat'[ds[i]] == fat[ds[i]];
    }
  }

  /** On a chain the walk frees exactly the clusters of the chain, each once. */
  lemma {:induction false} FreeChain(fat: Table, cs: seq<nat>)
    requires LinksInRange(fat) && Chain(fat, cs) && cs[0] < |fat|
    ensures |FreeWalk(fat, cs[0])| == |fat| && LinksInRange(FreeWalk(fat, cs[0]))
    ensures FreeSteps(fat, cs[0]) == |cs|
    ensures CountFree(FreeWalk(fat, cs[0])) == CountFree(fat) + |cs|
    ensures forall c | 0 <= c < |fat| :: if c in cs then Next(FreeWalk(fat, cs[0]), c) ==
      0 else FreeWalk(fat, cs[0])[c] == fat[c]
    ensures SameReserved(fat, FreeWalk(fat, cs[0]))
    decreases |cs|
  {
    assert Linked(fat, cs, 0);
    var fat' := SetLink(fat, cs[0], 0);
    SetLinkEffect(fat, cs[0], 0);
    SetLinkInRange(fat, cs[0], 0);
    SetLinkReserved(fat, cs[0], 0);
    CountSetLink(fat, cs[0], 0);
    ChainInUse(fat, cs, 0);
    if |cs| > 1 {
      assert Linked(fat, cs, 1);
      ChainTail(fat, cs);
      FreeChain(fat', cs[1..]);
      assert FreeWalk(fat, cs[0]) == FreeWalk(fat', cs[1]);
      assert FreeSteps(fat, cs[0]) == 1 + FreeSteps(fat', cs[1]);
    } else {
      assert FreeWalk(fat, cs[0]) == FreeWalk(fat', Next(fat, cs[0])) == fat';
      assert cs == [cs[0]];
    }
  }

  // ---------------------------------------------------------------- edits and the whole volume

  /** One file's chain goes from `cs` to `cs'` (either may be empty: creation, removal):
      clusters it gains were free, clusters it loses become free, and no entry outside the
      two lists changes. */
  ghost predicate Edit(fat: Table, fat': Table, cs: seq<nat>, cs': seq<nat>) {
    && |fat'| == |fat|
    && (cs' != [] ==> Chain(fat', cs'))
    && (forall c | 0 <= c < |fat| && c !in cs && c !in cs' :: fat'[c] == fat[c])
    && (forall c | c in cs' && c !in cs :: c < |fat| && Next(fat, c) == 0)
    && (forall c | c in cs && c !in cs' :: c < |fat| && Next(fat', c) == 0)
  }

  /** `files` lists every chain of the volume under its first cluster: chains share no
      cluster, and every cluster in use belongs to one. */
  ghost predicate Volume(fat: Table, files: map<nat, seq<nat>>) {
    && (forall h | h in files :: Chain(fat, files[h]) && files[h][0] == h)
    && (forall h, g, c | h in files && g in files && c in files[h] && c in files[g] :: h == g)
    && (forall c | 2 <= c < |fat| && Next(fat, c) != 0 :: exists h :: h in files && c in files[h])
  }

  lemma ChainFrame(fat: Table, fat': Table, cs: seq<nat>)
    requires Chain(fat, cs) && |fat| == |fat'| && forall c | c in cs && c < |fat| :: fat'[c] == fat[c]
    ensures Chain(fat', cs)
  {
    forall i | 0 <= i < |cs| ensures Linked(fat', cs, i) {
      assert Linked(fat, cs, i);
    }
  }

  /** An edit of one chain leaves every other chain, cluster for cluster, as it was. */
  lemma EditKeepsVolume(fat: Table, fat': Table, files: map<nat, seq<nat>>, h: nat, cs: seq<nat>, cs': seq<nat>)
    requires Volume(fat, files) && Edit(fat, fat', cs, cs')
    requires if cs == [] then h !in files else h in files && files[h] == cs
    requires cs' != [] ==> cs'[0] == h
    ensures Volume(fat', if cs' == [] then files - {h} else files[h := cs'])
  {
    var files' := if cs' == [] then files - {h} else files[h := cs'];
    forall g, c | g in files && g != h && c in files[g] ensures c !in cs && c !in cs' {
      EditDisjoint(fat, fat', files, h, cs, cs', g, c);
    }
    forall g | g in files' ensures Chain(fat', files'[g]) && files'[g][0] == g {
      if g != h { ChainFrame(fat, fat', files[g]); }
    }
    forall c | 2 <= c < |fat'| && Next(fat', c) != 0 ensures exists g :: g in files' && c in files'[g] {
      if c in cs' {
        assert h in files';
      } else {
        assert c !in cs && fat'[c] == fat[c];
        assert Next(fat, c) != 0;
        var g :| g in files && c in files[g];
        assert g in files';
      }
    }
  }

  lemma EditDisjoint(fat: Table, fat': Table, files: map<nat, seq<nat>>, h: nat, cs: seq<nat>, cs': seq<nat>,
    g: nat, c: nat)
    requires Volume(fat, files) && Edit(fat, fat', cs, cs')
    requires if cs == [] then h !in files else h in files && files[h] == cs
    requires g in files && g != h && c in files[g]
    ensures c !in cs && c !in cs'
  {
    assert c !in cs;
    var i :| 0 <= i < |files[g]| && files[g][i] == c;
    ChainInUse(fat, files[g], i);
  }

  /** In a volume no cluster has two predecessors and no chain reaches a free cluster. */
  lemma VolumeIsForest(fat: Table, files: map<nat, seq<nat>>, a: nat, b: nat)
    requires Volume(fat, files) && 2 <= a < |fat| && 2 <= b < |fat|
    requires Next(fat, a) != 0 && Next(fat, a) < END && Next(fat, a) == Next(fat, b)
    ensures a == b && 2 <= Next(fat, a) < |fat| && Next(fat, Next(fat, a)) != 0
  {
    var h :| h in files && a in files[h];
    var g :| g in files && b in files[g];
    var i :| 0 <= i < |files[h]| && files[h][i] == a;
    var j :| 0 <= j < |files[g]| && files[g][j] == b;
    assert Linked(fat, files[h], i) && Linked(fat, files[g], j);
    assert files[h][i + 1] == files[g][j + 1] == Next(fat, a);
    ChainInUse(fat, files[h], i + 1);
    assert Linked(fat, files[h], i + 1);
    assert h == g;
    if i < j {
      ChainDistinct(fat, files[h], i + 1, j + 1);
    } else if j < i {
      ChainDistinct(fat, files[h], j + 1, i + 1);
    }
  }

  // ---------------------------------------------------------------- runs

  datatype State = State(fat: Table, files: map<nat, seq<nat>>) {
    ghost function Clusters(h: nat): seq<nat> {
      if h in files then files[h] else []
    }
  }

  /** One operation on the file that starts at cluster `h`: create, extend, truncate or free. */
  ghost predicate Step(s: State, t: State, h: nat) {
    && Edit(s.fat, t.fat, s.Clusters(h), t.Clusters(h))
    && s.files - {h} == t.files - {h}
    && (h in t.files ==> t.files[h] != [] && t.files[h][0] == h)
  }

  lemma StepKeepsVolume(s: State, t: State, h: nat)
    requires Volume(s.fat, s.files) && Step(s, t, h)
    ensures Volume(t.fat, t.files)
    ensures forall g | g in s.files && g != h :: g in t.files && t.files[g] == s.files[g]
  {
    EditKeepsVolume(s.fat, t.fat, s.files, h, s.Clusters(h), t.Clusters(h));
    var out := if t.Clusters(h) == [] then s.files - {h} else s.files[h := t.Clusters(h)];
    forall g | g in out ensures g in t.files && t.files[g] == out[g] {
      if g != h { assert g in s.files - {h} && (s.files - {h})[g] == (t.files - {h})[g]; }
    }
    forall g | g in t.files ensures g in out {
      if g != h { assert g in t.files - {h}; }
    }
    assert t.files == out;
    forall g | g in s.files && g != h ensures g in t.files && t.files[g] == s.files[g] {
      assert g in s.files - {h} && (s.files - {h})[g] == (t.files - {h})[g];
    }
  }

  /** In every state a run of operations reaches, the clusters in use form disjoint chains,
      and a file no operation of the run concerns has the clusters it started with. */
  lemma {:induction false} RunKeepsVolume(run: seq<State>, hs: seq<nat>)
    requires |run| == |hs| + 1 && Volume(run[0].fat, run[0].files)
    requires forall i | 0 <= i < |hs| :: Step(run[i], run[i + 1], hs[i])
    ensures Volume(run[|hs|].fat, run[|hs|].files)
    ensures forall g | g in run[0].files && g !in hs :: g in run[|hs|].files && run[|hs|].files[g] == run[0].files[g]
    decreases |hs|
  {
    if hs != [] {
      var n := |hs| - 1;
      RunKeepsVolume(run[..n + 1], hs[..n]);
      assert Step(run[n], run[n + 1], hs[n]);
      StepKeepsVolume(run[n], run[n + 1], hs[n]);
    }
  }
}
