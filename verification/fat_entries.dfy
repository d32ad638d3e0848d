/** Single directory entries: the loops that write and read the parts of a long name, and the
    one that reads a short name. */
module FatEntries {

  import opened FatContent
  import opened FatDirectory
  import opened FatNames
  import opened Machine

  /** The 16-bit unit of character `i`. */
  ghost function UnitAt(e: seq<Byte>, i: nat): nat
    requires |e| == ENTRY_SIZE && i < LFN_NAME_SIZE
  {
    var low: int, high: int := e[CharAt(i)], e[CharAt(i) + 1];
    low + 256 * high
  }

  method StoreUnit(e: array<Byte>, i: nat, u: nat)
    requires e.Length == ENTRY_SIZE && i < LFN_NAME_SIZE && u < 0x1_0000
    modifies e
    ensures UnitAt(e[..], i) == u
    ensures forall p | 0 <= p < ENTRY_SIZE && p != CharAt(i) && p != CharAt(i) + 1 :: e[p] == old(e[p])
  {
    e[CharAt(i)] := u % 256;
    e[CharAt(i) + 1] := u / 256;
  }

  /** The units of different characters do not share bytes. */
  lemma UnitsApart(i: nat, k: nat)
    requires i < LFN_NAME_SIZE && k < LFN_NAME_SIZE && i != k
    ensures CharAt(i) != CharAt(k) && CharAt(i) + 1 != CharAt(k) && CharAt(i) != CharAt(k) + 1
  {
  }

  /** The first `n` units hold the characters of the rest of a name. */
  ghost predicate Written(e: seq<Byte>, rest: seq<Byte>, n: nat) {
    |e| == ENTRY_SIZE && n <= LFN_NAME_SIZE && forall i | 0 <= i < n :: UnitAt(e, i) == Unit(rest, i)
  }

  lemma UnitBytes(e: seq<Byte>, i: nat, u: nat)
    requires |e| == ENTRY_SIZE && i < LFN_NAME_SIZE && UnitAt(e, i) == u
    ensures e[CharAt(i)] == u % 256 && e[CharAt(i) + 1] == u / 256
  {
  }

  /** `fat_set_name_to_lfn` and what its caller stores around it. A rest of fewer than 13
      characters is copied to the stack first, where other bytes may follow it. */
  method MakeLong(e: array<Byte>, rest: seq<Byte>, order: Byte, checksum: Byte, stack: seq<Byte>)
    requires e.Length == ENTRY_SIZE && |stack| == LFN_NAME_SIZE
    modifies e
    ensures e[..] == LongEntry(rest, order, checksum)
  {
    e[11] := LFN_ATTRIBUTES;
    WriteName(e, rest, stack);
    e[0], e[12], e[13], e[26], e[27] := order, 0, checksum, 0, 0;
    EntryIs(e[..], rest, order, checksum);
  }

  /** The units and the bytes between them make up the entry. */
  lemma EntryIs(e: seq<Byte>, rest: seq<Byte>, order: Byte, checksum: Byte)
    requires Written(e, rest, LFN_NAME_SIZE)
    requires e[0] == order && e[11] == LFN_ATTRIBUTES && e[12] == 0 && e[13] == checksum && e[26] == 0 && e[27] == 0
    ensures e == LongEntry(rest, order, checksum)
  {
    var r := LongEntry(rest, order, checksum);
    forall p | 0 <= p < ENTRY_SIZE ensures e[p] == r[p] {
      var i := CharOf(p);
      if i < LFN_NAME_SIZE {
        UnitBytes(e, i, Unit(rest, i));
        assert p == CharAt(i) || p == CharAt(i) + 1;
      }
    }
  }

  method WriteName(e: array<Byte>, rest: seq<Byte>, stack: seq<Byte>)
    requires e.Length == ENTRY_SIZE && |stack| == LFN_NAME_SIZE
    modifies e
    ensures Written(e[..], rest, LFN_NAME_SIZE) && e[11] == old(e[11])
  {
    var n := Min(|rest|, LFN_NAME_SIZE);
    var copy := if n < LFN_NAME_SIZE then rest + [0] + stack[n + 1..] else rest[..LFN_NAME_SIZE];
    for i := 0 to LFN_NAME_SIZE
      invariant e[11] == old(e[11]) && forall k | 0 <= k < i :: UnitAt(e[..], k) == Extended(copy[k])
    {
      ghost var before := e[..];
      StoreUnit(e, i, Extended(copy[i]));
      UnitsKept(before, e[..], i);
    }
    assert Written(e[..], rest, if n < LFN_NAME_SIZE then n + 1 else n);
    if n + 1 < LFN_NAME_SIZE {
      for i := n + 1 to LFN_NAME_SIZE
        invariant e[11] == old(e[11]) && Written(e[..], rest, i)
      {
        ghost var before := e[..];
        StoreUnit(e, i, 0xFFFF);
        UnitsKept(before, e[..], i);
      }
    }
  }

  lemma UnitsKept(e: seq<Byte>, e': seq<Byte>, i: nat)
    requires |e| == |e'| == ENTRY_SIZE && i < LFN_NAME_SIZE
    requires forall p | 0 <= p < ENTRY_SIZE && p != CharAt(i) && p != CharAt(i) + 1 :: e'[p] == e[p]
    ensures forall k | 0 <= k < LFN_NAME_SIZE && k != i :: UnitAt(e', k) == UnitAt(e, k)
  {
    forall k | 0 <= k < LFN_NAME_SIZE && k != i ensures UnitAt(e', k) == UnitAt(e, k) { UnitsApart(i, k); }
  }

  /** `fat_parse_lfn` */
  method ReadLong(e: Entry) returns (s: seq<Byte>)
    requires |e| == ENTRY_SIZE
    ensures s == ParseLong(e)
  {
    s := [];
    for i := 0 to LFN_NAME_SIZE
      invariant s == ParseLong(e)[..i]
    {
      s := s + [e[CharAt(i)]];
    }
  }

  /** `fat_parse_sfn`, into the name buffer. */
  method ReadShort(buffer: seq<Byte>, e: Entry) returns (name: seq<Byte>)
    requires |e| == ENTRY_SIZE && |buffer| == BUFFER_SIZE
    ensures name == Put(buffer, ShortText(e))
  {
    var last: nat := 0;
    while last < 8 && e[last] != 0x20
      invariant last <= 8 && Blank(e[..8]) == last + Blank(e[last..8])
    {
      assert e[last..8][1..] == e[last + 1..8];
      last := last + 1;
    }
    var text := e[..last];
    if e[11] % 0x20 < 0x10 {
      text := text + [0x2E] + e[8..11];
    }
    name := text + [0] + buffer[|text| + 1..];
  }
}
