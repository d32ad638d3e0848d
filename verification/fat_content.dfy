/** The bytes a chain of clusters holds, and what reading and writing a range of them means. */
module FatContent {

  import opened Machine

  /** The data area: one block of `size` bytes per cluster number. */
  type Data = seq<seq<Byte>>

  ghost predicate Blocks(data: Data, size: nat) {
    forall c | 0 <= c < |data| :: |data[c]| == size
  }

  ghost predicate Within(data: Data, cs: seq<nat>) {
    forall i | 0 <= i < |cs| :: cs[i] < |data|
  }

  /** The bytes of the first `k` clusters of `cs`, end to end. */
  ghost function Prefix(data: Data, cs: seq<nat>, k: nat): seq<Byte>
    requires Within(data, cs) && k <= |cs|
  {
    if k == 0 then [] else Prefix(data, cs, k - 1) + data[cs[k - 1]]
  }

  /** The bytes of a whole chain. */
  ghost function Content(data: Data, cs: seq<nat>): seq<Byte>
    requires Within(data, cs)
  {
    Prefix(data, cs, |cs|)
  }

  /** `s` with the bytes from `at` on replaced by `b`, when they fit. */
  function Overwrite(s: seq<Byte>, at: nat, b: seq<Byte>): (r: seq<Byte>)
    ensures |r| == |s|
  {
    if at + |b| <= |s| then
      seq(|s|, i requires 0 <= i < |s| => if at <= i < at + |b| then b[i - at] else s[i])
    else s
  }

  /** The part of `s` from `at` on, at most `n` bytes. */
  function Slice(s: seq<Byte>, at: nat, n: nat): seq<Byte> {
    if at <= |s| then s[at..Min(at + n, |s|)] else []
  }

  // ---------------------------------------------------------------- chains of blocks

  /** The size of `k` clusters, `k * size`, by repeated addition. */
  ghost function Extent(k: nat, size: nat): nat {
    if k == 0 then 0 else Extent(k - 1, size) + size
  }

  lemma {:induction false} ExtentIsProduct(k: nat, size: nat)
    ensures Extent(k, size) == k * size
  {
    if k > 0 {
      ExtentIsProduct(k - 1, size);
      assert (k - 1) * size + size == k * size;
    }
  }

  lemma {:induction false} PrefixLength(data: Data, cs: seq<nat>, k: nat, size: nat)
    requires Blocks(data, size) && Within(data, cs) && k <= |cs|
    ensures |Prefix(data, cs, k)| == Extent(k, size)
  {
    if k > 0 {
      PrefixLength(data, cs, k - 1, size);
    }
  }

  /** Only the first `k` clusters and their bytes matter. */
  lemma {:induction false} PrefixFrame(data: Data, data': Data, cs: seq<nat>, cs': seq<nat>, k: nat)
    requires Within(data, cs) && Within(data', cs') && k <= |cs| && k <= |cs'|
    requires forall i | 0 <= i < k :: cs'[i] == cs[i] && data'[cs[i]] == data[cs[i]]
    ensures Prefix(data', cs', k) == Prefix(data, cs, k)
  {
    if k > 0 { PrefixFrame(data, data', cs, cs', k - 1); }
  }

  lemma {:induction false} PrefixOfContent(data: Data, cs: seq<nat>, j: nat, k: nat)
    requires Within(data, cs) && j <= k <= |cs|
    ensures Prefix(data, cs, j) <= Prefix(data, cs, k)
    decreases k - j
  {
    if j < k {
      PrefixOfContent(data, cs, j, k - 1);
    }
  }

  // ---------------------------------------------------------------- reading

  /** Reading on from `a` into the block `c` that follows it. */
  lemma SliceGrow(a: seq<Byte>, c: seq<Byte>, at: nat, n: nat)
    ensures var skip := if at >= |a| then at - |a| else 0;
            var left := n - |Slice(a, at, n)|;
            Slice(a + c, at, n) ==
            Slice(a, at, n) + (if skip < |c| then c[skip..skip + Min(left, |c| - skip)] else [])
  {
  }

  /** A full slice does not change when more bytes follow. */
  lemma SliceFull(a: seq<Byte>, s: seq<Byte>, at: nat, n: nat)
    requires a <= s && |Slice(a, at, n)| == n
    ensures Slice(s, at, n) == Slice(a, at, n)
  {
    if n > 0 {
      assert at + n <= |a|;
    }
  }

  // ---------------------------------------------------------------- writing

  /** Writing `b2` into the next cluster `c` continues a write of `b` that has reached the
      end of `a`, or starts one inside `c`. */
  lemma OverwriteStep(a: seq<Byte>, c: seq<Byte>, at: nat, b: seq<Byte>, b2: seq<Byte>, off: nat)
    requires off + |b2| <= |c|
    requires (b == [] && at == |a| + off) || (off == 0 && at + |b| <= |a| && (b2 != [] ==> at + |b| == |a|))
    ensures Overwrite(a, at, b) + Overwrite(c, off, b2) == Overwrite(a + c, at, b + b2)
  {
    var r, w := Overwrite(a, at, b) + Overwrite(c, off, b2), Overwrite(a + c, at, b + b2);
    assert at + |b + b2| <= |a + c|;
    forall i | 0 <= i < |r| ensures r[i] == w[i] {
      if i < |a| {
        assert r[i] == Overwrite(a, at, b)[i];
      } else {
        assert r[i] == Overwrite(c, off, b2)[i - |a|];
      }
    }
  }

  lemma OverwriteNone(s: seq<Byte>, at: nat)
    ensures Overwrite(s, at, []) == s
  {
  }

  /** Write then read: a range just written reads back, and what lies before and after it
      is as it was. */
  lemma WriteThenRead(s: seq<Byte>, at: nat, b: seq<Byte>)
    requires at + |b| <= |s|
    ensures Slice(Overwrite(s, at, b), at, |b|) == b
    ensures Overwrite(s, at, b)[..at] == s[..at]
    ensures Overwrite(s, at, b)[at + |b|..] == s[at + |b|..]
  {
    assert |Slice(Overwrite(s, at, b), at, |b|)| == |b|;
  }
}
