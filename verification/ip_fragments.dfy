/** Reassembly of IP datagrams (section 3.2 of RFC 791): one record collects the fragments of a
    datagram, knows when all have come, and puts the payload together. */
module IpFragments {

  import opened Machine

  /** A fragment: its place in the datagram, its bytes, and whether it is the last one. */
  datatype Piece = Piece(offset: nat, buffer: seq<Byte>, isLast: bool)

  // ---------------------------------------------------------------- what fragments cover

  ghost predicate Between(a: int, n: nat, x: int) {
    a <= x < a + n
  }

  ghost function Range(a: int, n: nat): set<int> {
    set x | a <= x < a + n && Between(a, n, x)
  }

  /** The byte positions of a piece. */
  ghost function Span(p: Piece): set<int> {
    Range(p.offset, |p.buffer|)
  }

  /** The byte positions that the first `k` pieces bring. */
  ghost function Covered(ps: seq<Piece>, k: nat): set<int>
    requires k <= |ps|
  {
    if k == 0 then {} else Covered(ps, k - 1) + Span(ps[k - 1])
  }

  function SizeTo(ps: seq<Piece>, k: nat): nat
    requires k <= |ps|
  {
    if k == 0 then 0 else SizeTo(ps, k - 1) + |ps[k - 1].buffer|
  }

  /** The piece is a part of `payload` that is not empty, and is marked as last exactly when it
      reaches the end. */
  ghost predicate PartOf(p: Piece, payload: seq<Byte>) {
    && 0 < |p.buffer| && p.offset + |p.buffer| <= |payload|
    && p.buffer == payload[p.offset..p.offset + |p.buffer|]
    && (p.isLast <==> p.offset + |p.buffer| == |payload|)
  }

  /** The pieces, in whatever order, are parts of `payload`. */
  ghost predicate Parts(ps: seq<Piece>, payload: seq<Byte>) {
    forall i | 0 <= i < |ps| :: PartOf(ps[i], payload)
  }

  /** No byte comes twice with the first `k` pieces. */
  ghost predicate Apart(ps: seq<Piece>, k: nat)
    requires k <= |ps|
  {
    forall i: nat, j: nat | i < j < k :: !Meet(ps, i, j)
  }

  ghost predicate Meet(ps: seq<Piece>, i: nat, j: nat)
    requires i < |ps| && j < |ps|
  {
    !(Span(ps[i]) !! Span(ps[j]))
  }

  lemma {:induction false} RangeSize(a: int, n: nat)
    ensures |Range(a, n)| == n
  {
    if n > 0 {
      RangeSize(a, n - 1);
      RangeGrows(a, n - 1);
    }
  }

  lemma RangeGrows(a: int, n: nat)
    ensures Range(a, 0) == {} && Range(a, n + 1) == Range(a, n) + {a + n}
  {
    forall x ensures x in Range(a, n + 1) <==> x in Range(a, n) || x == a + n {
      assert Between(a, n + 1, x) || !Between(a, n + 1, x);
      assert Between(a, n, x) || !Between(a, n, x);
    }
  }

  lemma {:induction false} CoveredBy(ps: seq<Piece>, k: nat, x: int)
    requires k <= |ps|
    ensures x in Covered(ps, k) <==> exists i :: 0 <= i < k && x in Span(ps[i])
  {
    if k > 0 { CoveredBy(ps, k - 1, x); }
  }

  /** Pieces bring at most as many bytes as they have, and as many exactly if none comes twice. */
  lemma {:induction false} CoveredSize(ps: seq<Piece>, k: nat)
    requires k <= |ps|
    ensures |Covered(ps, k)| <= SizeTo(ps, k) && (|Covered(ps, k)| == SizeTo(ps, k) <==> Apart(ps, k))
  {
    if k > 0 {
      CoveredSize(ps, k - 1);
      var p := ps[k - 1];
      RangeSize(p.offset, |p.buffer|);
      ApartStep(ps, k);
      UnionSize(Covered(ps, k - 1), Span(p));
    }
  }

  /** They stay inside the payload. */
  lemma {:induction false} CoveredInside(ps: seq<Piece>, payload: seq<Byte>, k: nat)
    requires Parts(ps, payload) && k <= |ps|
    ensures Covered(ps, k) <= Range(0, |payload|)
  {
    if k > 0 {
      CoveredInside(ps, payload, k - 1);
      assert PartOf(ps[k - 1], payload);
    }
  }

  lemma UnionSize<T>(a: set<T>, b: set<T>)
    ensures |a + b| <= |a| + |b| && (|a + b| == |a| + |b| <==> a !! b)
  {
    assert a + b == a + (b - a) && b == (b - a) + (b * a);
  }

  lemma ApartStep(ps: seq<Piece>, k: nat)
    requires 0 < k <= |ps|
    ensures Apart(ps, k) <==> Apart(ps, k - 1) && Covered(ps, k - 1) !! Span(ps[k - 1])
  {
    var b := Span(ps[k - 1]);
    if Apart(ps, k) {
      forall x | x in Covered(ps, k - 1) ensures x !in b {
        CoveredBy(ps, k - 1, x);
        var i :| 0 <= i < k - 1 && x in Span(ps[i]);
        assert !Meet(ps, i, k - 1);
      }
    }
    if Apart(ps, k - 1) && Covered(ps, k - 1) !! b {
      forall i {:trigger Span(ps[i])} | 0 <= i < k - 1 ensures !Meet(ps, i, k - 1) {
        forall x | x in Span(ps[i]) ensures x !in b { CoveredBy(ps, k - 1, x); }
      }
    }
  }

  lemma SubsetSize<T>(a: set<T>, b: set<T>)
    requires a <= b
    ensures |a| <= |b| && (|a| == |b| ==> a == b)
  {
    assert b == a + (b - a);
  }

  /** If no byte comes twice, all have come exactly when the sizes add up to the size of the payload.
      If all have come, the sizes add up exactly if none came twice. */
  lemma CompleteBySize(ps: seq<Piece>, payload: seq<Byte>)
    requires Parts(ps, payload)
    ensures var complete := Covered(ps, |ps|) == Range(0, |payload|);
      && (Apart(ps, |ps|) ==> SizeTo(ps, |ps|) <= |payload| && (SizeTo(ps, |ps|) == |payload| <==> complete))
      && (complete ==> (SizeTo(ps, |ps|) == |payload| <==> Apart(ps, |ps|)))
  {
    CoveredSize(ps, |ps|);
    CoveredInside(ps, payload, |ps|);
    RangeSize(0, |payload|);
    SubsetSize(Covered(ps, |ps|), Range(0, |payload|));
  }

  /** The two ways to go wrong, with a payload of two bytes: the first byte twice and the second once
      are never enough, and the second byte twice is. */
  lemma CountedTwice(a: Byte, b: Byte)
    ensures var first, last := Piece(0, [a], false), Piece(1, [b], true);
      && Parts([first, first, last], [a, b]) && Covered([first, first, last], 3) == Range(0, 2)
      && SizeTo([first, first, last], 3) != 2
      && Parts([last, last], [a, b]) && Covered([last, last], 2) != Range(0, 2) && SizeTo([last, last], 2) == 2
  {
    var first, last := Piece(0, [a], false), Piece(1, [b], true);
    var ps, qs := [first, first, last], [last, last];
    assert PartOf(first, [a, b]) && PartOf(last, [a, b]);
    RangeGrows(0, 0);
    RangeGrows(0, 1);
    RangeGrows(1, 0);
    assert Span(first) == {0} && Span(last) == {1} && Range(0, 2) == {0, 1};
    OneMore(ps, 1);
    OneMore(ps, 2);
    OneMore(ps, 3);
    OneMore(qs, 1);
    OneMore(qs, 2);
  }

  lemma OneMore(ps: seq<Piece>, k: nat)
    requires 0 < k <= |ps|
    ensures Covered(ps, k) == Covered(ps, k - 1) + Span(ps[k - 1])
    ensures SizeTo(ps, k) == SizeTo(ps, k - 1) + |ps[k - 1].buffer|
    ensures Covered(ps, 0) == {} && SizeTo(ps, 0) == 0
  {
  }

  /** The last byte comes with the piece that is marked as last. */
  lemma LastHasCome(ps: seq<Piece>, payload: seq<Byte>) returns (i: nat)
    requires Parts(ps, payload) && payload != [] && Covered(ps, |ps|) == Range(0, |payload|)
    ensures i < |ps| && ps[i].isLast
  {
    var x := |payload| - 1;
    assert x in Range(0, |payload|);
    CoveredBy(ps, |ps|, x);
    i :| 0 <= i < |ps| && x in Span(ps[i]);
    assert PartOf(ps[i], payload);
  }

  // ---------------------------------------------------------------- the record

  /** `ip_fragment_t`; a total size of -1 means that the last fragment has not come. */
  class Record {
    var data: seq<Piece>
    var sizeReceived: nat
    var totalSize: int

    /** `create_ip_fragment` */
    constructor ()
      ensures data == [] && Valid()
    {
      data, sizeReceived, totalSize := [], 0, -1;
    }

    /** The counters follow from the fragments received. */
    ghost predicate Valid()
      reads this
    {
      && sizeReceived == SizeTo(data, |data|)
      && totalSize == LastEnd(data, |data|)
    }

    /** `add_ip_fragment` */
    method Add(p: Piece)
      requires Valid()
      modifies this
      ensures Valid() && data == old(data) + [p]
    {
      SizePush(data, p, |data|);
      EndPush(data, p, |data|);
      if p.isLast {
        totalSize := p.offset + |p.buffer|;
      }
      sizeReceived := sizeReceived + |p.buffer|;
      data := data + [p];
    }

    /** `is_ip_fragment_entirely_received`: in whatever order the fragments of a datagram came, if no
        byte came twice it says yes exactly when every byte has come, and once every byte has come
        it says yes exactly if none came twice. The total size is compared as an unsigned number. */
    method EntirelyReceived(ghost payload: seq<Byte>) returns (r: bool)
      requires Valid() && Parts(data, payload) && 0 < |payload| < U64 - 1
      ensures var complete := Covered(data, |data|) == Range(0, |payload|);
        (Apart(data, |data|) ==> (r <==> complete)) && (complete ==> (r <==> Apart(data, |data|)))
    {
      r := totalSize % U64 == sizeReceived;
      CompleteBySize(data, payload);
      EndIs(data, payload, |data|);
      if Covered(data, |data|) == Range(0, |payload|) {
        ghost var i := LastHasCome(data, payload);
        EndKnown(data, payload, i, |data|);
      }
    }

    /** `generate_buffer_ip_fragment`: once all bytes have come the buffer is the payload. Its
        memory starts out with whatever was there. */
    method Generate(memory: array<Byte>, ghost payload: seq<Byte>)
      requires Valid() && Parts(data, payload) && Covered(data, |data|) == Range(0, |payload|)
        && memory.Length == |payload|
      modifies memory
      ensures memory[..] == payload
    {
      for i := 0 to |data|
        invariant forall x | 0 <= x < |payload| && x in Covered(data, i) :: memory[x] == payload[x]
      {
        assert PartOf(data[i], payload);
        CopyPiece(memory, data[i], payload, Covered(data, i));
      }
      forall x | 0 <= x < |payload| ensures memory[x] == payload[x] {
        assert x in Range(0, |payload|);
      }
    }
  }

  method CopyPiece(memory: array<Byte>, p: Piece, ghost payload: seq<Byte>, ghost done: set<int>)
    requires PartOf(p, payload) && memory.Length == |payload|
    requires forall x | 0 <= x < |payload| && x in done :: memory[x] == payload[x]
    modifies memory
    ensures forall x | 0 <= x < |payload| && x in done + Span(p) :: memory[x] == payload[x]
  {
    for j := 0 to |p.buffer|
      invariant forall x | 0 <= x < |payload| && (x in done || p.offset <= x < p.offset + j) :: memory[x] == payload[x]
    {
      assert p.buffer[j] == payload[p.offset + j];
      memory[p.offset + j] := p.buffer[j];
    }
  }

  /** Where the last piece marked as last ends; -1 if there is none. */
  function LastEnd(ps: seq<Piece>, k: nat): int
    requires k <= |ps|
  {
    if k == 0 then -1
    else if ps[k - 1].isLast then ps[k - 1].offset + |ps[k - 1].buffer|
    else LastEnd(ps, k - 1)
  }

  lemma {:induction false} SizePush(ps: seq<Piece>, p: Piece, k: nat)
    requires k <= |ps|
    ensures SizeTo(ps + [p], k) == SizeTo(ps, k)
  {
    if k > 0 { SizePush(ps, p, k - 1); }
  }

  lemma {:induction false} EndPush(ps: seq<Piece>, p: Piece, k: nat)
    requires k <= |ps|
    ensures LastEnd(ps + [p], k) == LastEnd(ps, k)
  {
    if k > 0 { EndPush(ps, p, k - 1); }
  }

  lemma {:induction false} EndIs(ps: seq<Piece>, payload: seq<Byte>, k: nat)
    requires Parts(ps, payload) && k <= |ps|
    ensures LastEnd(ps, k) == -1 || LastEnd(ps, k) == |payload|
  {
    if k > 0 {
      EndIs(ps, payload, k - 1);
      assert PartOf(ps[k - 1], payload);
    }
  }

  lemma {:induction false} EndKnown(ps: seq<Piece>, payload: seq<Byte>, i: nat, k: nat)
    requires Parts(ps, payload) && i < k <= |ps| && ps[i].isLast
    ensures LastEnd(ps, k) == |payload|
  {
    assert PartOf(ps[k - 1], payload);
    if !ps[k - 1].isLast {
      EndKnown(ps, payload, i, k - 1);
    }
  }
}
