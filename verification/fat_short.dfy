/** Short names: the entry `fat_set_name_to_sfn` makes for a name, and which names are found again
    when that entry is all that is stored. */
module FatShort {

  import opened FatContent
  import opened FatDirectory
  import opened FatNames
  import opened Machine

  const BLANK: Byte := 0x20
  const DOT: Byte := 0x2E
  const TILDE: Byte := 0x7E
  const ONE: Byte := 0x31

  predicate Lower(b: Byte) { 0x61 <= b <= 0x7A }

  /** `to_upper` */
  function Upper(b: Byte): Byte {
    var x: int := b;
    if Lower(b) then x - 32 else x
  }

  /** Where the first dot of a name is, or its length. */
  function DotAt(name: seq<Byte>): (n: nat)
    ensures n <= |name| && (n < |name| ==> name[n] == DOT) && forall i | 0 <= i < n :: name[i] != DOT
  {
    if name == [] || name[0] == DOT then 0
    else
      assert forall i | 0 < i < |name| :: name[i] == name[1..][i - 1];
      1 + DotAt(name[1..])
  }

  /** The memory that holds a name: the name, a zero, and whatever follows. */
  function MemoryAt(name: seq<Byte>, after: seq<Byte>, i: nat): Byte {
    if i < |name| then name[i] else if 0 < i - |name| <= |after| then after[i - |name| - 1] else 0
  }

  predicate IsDirectory(e: Entry)
    requires |e| == ENTRY_SIZE
  {
    e[11] % 0x20 >= 0x10
  }

  /** Byte `i` of the short name, before letters are raised. For a file, the extension is what
      follows the first dot or, if there is none, the end of the name. */
  function RawAt(name: seq<Byte>, after: seq<Byte>, directory: bool, i: nat): Byte {
    var room, len := if directory then 11 else 8, if directory then |name| else DotAt(name);
    if i >= room then MemoryAt(name, after, len + 1 + (i - room)) else StemAt(name, len, room, i)
  }

  /** The first `len` characters of a name, cut with a tilde or filled with blanks. */
  function StemAt(name: seq<Byte>, len: nat, room: nat, i: nat): Byte
    requires len <= |name|
  {
    if len > room && i == room - 2 then TILDE
    else if len > room && i == room - 1 then ONE
    else if i < len then name[i]
    else BLANK
  }

  /** `fat_link_entry_to_lfn` */
  function Archived(b: Byte): (r: Byte)
    ensures r != LFN_ATTRIBUTES && (r % 0x20 >= 0x10 <==> b % 0x20 >= 0x10)
  {
    var x: int := b;
    if x / 0x20 % 2 == 1 then x else x + 0x20
  }

  function ShortAt(entry: Entry, name: seq<Byte>, after: seq<Byte>, i: nat): Byte
    requires |entry| == ENTRY_SIZE && i < ENTRY_SIZE
  {
    if i < 11 then Upper(RawAt(name, after, IsDirectory(entry), i))
    else if i == 11 then Archived(entry[11])
    else entry[i]
  }

  /** The entry of `fat_add_entry_with_path` with its short name. */
  function ShortEntry(entry: Entry, name: seq<Byte>, after: seq<Byte>): (e: Entry)
    requires |entry| == ENTRY_SIZE
    ensures |e| == ENTRY_SIZE && !IsLong(e) && (IsDirectory(e) <==> IsDirectory(entry))
  {
    seq(ENTRY_SIZE, i requires 0 <= i < ENTRY_SIZE => ShortAt(entry, name, after, i))
  }

  // ---------------------------------------------------------------- making a short name

  /** Copies the front of a name into its place, cut with a tilde or filled with blanks. */
  method CopyStem(e: array<Byte>, name: seq<Byte>, len: nat, room: nat)
    requires e.Length == ENTRY_SIZE && 2 <= room <= 11 && len <= |name|
    modifies e
    ensures forall i | 0 <= i < room :: e[i] == StemAt(name, len, room, i)
    ensures forall i | room <= i < ENTRY_SIZE :: e[i] == old(e[i])
  {
    var n := if len > room then room else len;
    for i := 0 to n
      invariant forall k | 0 <= k < i :: e[k] == name[k]
      invariant forall k | room <= k < ENTRY_SIZE :: e[k] == old(e[k])
    {
      e[i] := name[i];
    }
    if len > room {
      e[room - 2] := TILDE;
      e[room - 1] := ONE;
    } else {
      for i := n to room
        invariant forall k | 0 <= k < i :: e[k] == if k < n then name[k] else BLANK
        invariant forall k | room <= k < ENTRY_SIZE :: e[k] == old(e[k])
      {
        e[i] := BLANK;
      }
    }
  }

  /** The loop that looks for the dot. */
  method FindDot(name: seq<Byte>) returns (n: nat)
    ensures n == DotAt(name)
  {
    n := 0;
    while n < |name| && name[n] != DOT
      invariant n <= |name| && DotAt(name) == n + DotAt(name[n..])
    {
      assert name[n..][1..] == name[n + 1..];
      n := n + 1;
    }
  }

  /** The first part of `fat_set_name_to_sfn`. */
  method SetRaw(e: array<Byte>, name: seq<Byte>, after: seq<Byte>, directory: bool)
    requires e.Length == ENTRY_SIZE
    modifies e
    ensures forall i | 0 <= i < 11 :: e[i] == RawAt(name, after, directory, i)
    ensures forall i | 11 <= i < ENTRY_SIZE :: e[i] == old(e[i])
  {
    if directory {
      CopyStem(e, name, |name|, 11);
    } else {
      var n := FindDot(name);
      e[8] := MemoryAt(name, after, n + 1);
      e[9] := MemoryAt(name, after, n + 2);
      e[10] := MemoryAt(name, after, n + 3);
      CopyStem(e, name, n, 8);
    }
  }

  /** `fat_link_entry_to_lfn` and `fat_set_name_to_sfn`. */
  method MakeShort(e: array<Byte>, name: seq<Byte>, after: seq<Byte>)
    requires e.Length == ENTRY_SIZE
    modifies e
    ensures e[..] == ShortEntry(old(e[..]), name, after)
  {
    ghost var entry := e[..];
    e[11] := Archived(e[11]);
    var directory := e[11] % 0x20 >= 0x10;
    SetRaw(e, name, after, directory);
    for i := 0 to 11
      invariant forall k | 0 <= k < i :: e[k] == Upper(RawAt(name, after, directory, k))
      invariant forall k | i <= k < 11 :: e[k] == RawAt(name, after, directory, k)
      invariant e[11] == Archived(entry[11]) && forall k | 12 <= k < ENTRY_SIZE :: e[k] == entry[k]
    {
      e[i] := Upper(e[i]);
    }
  }

  // ---------------------------------------------------------------- reading it back

  lemma {:induction false} BlankIs(s: seq<Byte>, n: nat)
    requires n <= |s| && (n < |s| ==> s[n] == BLANK) && forall i | 0 <= i < n :: s[i] != BLANK
    ensures Blank(s) == n
  {
    if n > 0 { BlankIs(s[1..], n - 1); }
  }

  lemma {:induction false} BlankStops(s: seq<Byte>)
    ensures var n := Blank(s); (n < |s| ==> s[n] == BLANK) && forall i | 0 <= i < n :: s[i] != BLANK
  {
    if s != [] && s[0] != BLANK {
      BlankStops(s[1..]);
      assert forall i | 0 < i < |s| :: s[i] == s[1..][i - 1];
    }
  }

  lemma {:induction false} CStringHas(buffer: seq<Byte>)
    ensures var s := CString(buffer);
      |s| <= |buffer| && (|s| < |buffer| ==> buffer[|s|] == 0) && forall i | 0 <= i < |s| :: s[i] == buffer[i] != 0
  {
    if buffer != [] && buffer[0] != 0 {
      CStringHas(buffer[1..]);
      assert forall i | 0 < i < |buffer| :: buffer[i] == buffer[1..][i - 1];
    }
  }

  ghost predicate NoLower(name: seq<Byte>) {
    forall i | 0 <= i < |name| :: !Lower(name[i])
  }

  /** A name without small letters that fits a short entry: for a directory, up to eight characters;
      for a file, a dot, up to eight characters before it and up to three behind it; and no
      blank among the first ones. */
  ghost predicate FitsShort(name: seq<Byte>, directory: bool) {
    var len := if directory then |name| else DotAt(name);
    && NoLower(name) && len <= 8 && (forall i | 0 <= i < len :: name[i] != BLANK)
    && (!directory ==> len < |name| <= len + 4)
  }

  /** What is read of the short entry is the name exactly if it fits. */
  lemma ShortReads(entry: Entry, name: seq<Byte>, after: seq<Byte>)
    requires |entry| == ENTRY_SIZE && Name(name)
    ensures CString(ShortText(ShortEntry(entry, name, after)) + [0]) == name <==> FitsShort(name, IsDirectory(entry))
  {
    if FitsShort(name, IsDirectory(entry)) { FittingReads(entry, name, after); }
    if CString(ShortText(ShortEntry(entry, name, after)) + [0]) == name { ReadFits(entry, name, after); }
  }

  /** The first eight bytes of a name that fits. */
  lemma StemFits(entry: Entry, name: seq<Byte>, after: seq<Byte>, len: nat)
    requires |entry| == ENTRY_SIZE && NoLower(name) && len == if IsDirectory(entry) then |name| else DotAt(name)
    requires len <= 8 && forall i | 0 <= i < len :: name[i] != BLANK
    ensures var e := ShortEntry(entry, name, after); Blank(e[..8]) == len && e[..len] == name[..len]
  {
    var e := ShortEntry(entry, name, after);
    forall i | 0 <= i < 8 ensures e[i] == if i < len then name[i] else BLANK {
      assert e[i] == ShortAt(entry, name, after, i);
    }
    BlankIs(e[..8], len);
  }

  lemma FittingReads(entry: Entry, name: seq<Byte>, after: seq<Byte>)
    requires |entry| == ENTRY_SIZE && Name(name) && FitsShort(name, IsDirectory(entry))
    ensures CString(ShortText(ShortEntry(entry, name, after)) + [0]) == name
  {
    var e := ShortEntry(entry, name, after);
    var buffer := ShortText(e) + [0];
    if IsDirectory(entry) {
      StemFits(entry, name, after, |name|);
      assert buffer == name + [0];
    } else {
      var len := DotAt(name);
      StemFits(entry, name, after, len);
      assert buffer == name[..len] + [DOT] + e[8..11] + [0];
      forall i | len <= i <= |name| ensures buffer[i] == if i < |name| then name[i] else 0 {
        if len < i < len + 4 { ExtensionAt(entry, name, after, i - len - 1); }
      }
    }
    CStringIs(buffer, name);
  }

  lemma ExtensionAt(entry: Entry, name: seq<Byte>, after: seq<Byte>, i: nat)
    requires |entry| == ENTRY_SIZE && NoLower(name) && !IsDirectory(entry) && i < 3
    ensures var e, p := ShortEntry(entry, name, after), DotAt(name) + 1 + i;
      (p < |name| ==> e[8..11][i] == name[p]) && (p == |name| ==> e[8..11][i] == 0)
  {
    var e := ShortEntry(entry, name, after);
    ExtensionRaw(entry, name, after, i);
    ThirdPart(e, i);
    assert e[8 + i] == ShortAt(entry, name, after, 8 + i);
  }

  lemma ExtensionRaw(entry: Entry, name: seq<Byte>, after: seq<Byte>, i: nat)
    requires |entry| == ENTRY_SIZE && !IsDirectory(entry) && i < 3
    ensures ShortAt(entry, name, after, 8 + i) == Upper(MemoryAt(name, after, DotAt(name) + 1 + i))
  {
  }

  lemma ThirdPart(e: Entry, i: nat)
    requires |e| == ENTRY_SIZE && i < 3
    ensures e[8..11][i] == e[8 + i]
  {
  }

  /** No letter that is read is lower-case. */
  lemma ReadRaised(entry: Entry, name: seq<Byte>, after: seq<Byte>)
    requires |entry| == ENTRY_SIZE
    ensures NoLower(CString(ShortText(ShortEntry(entry, name, after)) + [0]))
  {
    var e := ShortEntry(entry, name, after);
    forall i | 0 <= i < 11 ensures !Lower(e[i]) { assert e[i] == ShortAt(entry, name, after, i); }
    CStringHas(ShortText(e) + [0]);
  }

  lemma ReadFits(entry: Entry, name: seq<Byte>, after: seq<Byte>)
    requires |entry| == ENTRY_SIZE && Name(name)
    requires CString(ShortText(ShortEntry(entry, name, after)) + [0]) == name
    ensures FitsShort(name, IsDirectory(entry))
  {
    ReadRaised(entry, name, after);
    if IsDirectory(entry) { DirectoryFits(entry, name, after); } else { FileFits(entry, name, after); }
  }

  /** No byte of the stem is zero, and blanks fill it behind the name. */
  lemma StemHas(entry: Entry, name: seq<Byte>, after: seq<Byte>)
    requires |entry| == ENTRY_SIZE && Name(name) && NoLower(name)
    ensures var e, len := ShortEntry(entry, name, after), if IsDirectory(entry) then |name| else DotAt(name);
      forall i | 0 <= i < 8 :: e[i] != 0 && (len <= i ==> e[i] == BLANK)
  {
  }

  /** The stem ends at the first blank. */
  lemma StemEnds(e: Entry, n: nat)
    requires |e| == ENTRY_SIZE && n == Blank(e[..8])
    ensures n <= 8 && forall i | 0 <= i < n :: e[i] != BLANK
  {
    BlankStops(e[..8]);
    assert forall i | 0 <= i < 8 :: e[i] == e[..8][i];
  }

  lemma DirectoryFits(entry: Entry, name: seq<Byte>, after: seq<Byte>)
    requires |entry| == ENTRY_SIZE && Name(name) && NoLower(name) && IsDirectory(entry)
    requires CString(ShortText(ShortEntry(entry, name, after)) + [0]) == name
    ensures FitsShort(name, true)
  {
    var e := ShortEntry(entry, name, after);
    var n, buffer := Blank(e[..8]), ShortText(e) + [0];
    StemHas(entry, name, after);
    StemEnds(e, n);
    CStringHas(buffer);
    assert buffer == e[..n] + [0];
    assert forall i | 0 <= i < n :: buffer[i] == e[i];
    assert buffer[n] == 0;
  }

  lemma FileFits(entry: Entry, name: seq<Byte>, after: seq<Byte>)
    requires |entry| == ENTRY_SIZE && Name(name) && NoLower(name) && !IsDirectory(entry)
    requires CString(ShortText(ShortEntry(entry, name, after)) + [0]) == name
    ensures FitsShort(name, false)
  {
    var e, len := ShortEntry(entry, name, after), DotAt(name);
    var n, buffer := Blank(e[..8]), ShortText(e) + [0];
    StemHas(entry, name, after);
    StemEnds(e, n);
    CStringHas(buffer);
    assert buffer == e[..n] + [DOT] + e[8..11] + [0];
    assert forall i | 0 <= i < n :: buffer[i] == e[i];
    assert buffer[n] == DOT;
    assert |name| > n && name[n] == DOT;
    assert len < 8 ==> e[len] == BLANK;
    assert buffer[n + 4] == 0;
  }

  /** `name` with capital letters for small ones. */
  ghost function Raised(name: seq<Byte>): (r: seq<Byte>)
    ensures |r| == |name|
  {
    seq(|name|, i requires 0 <= i < |name| =>
      if 0x61 <= name[i] <= 0x7A then name[i] - 0x61 + 0x41 else name[i] as int)
  }

  lemma DotIs(name: seq<Byte>, n: nat)
    requires n <= |name| && (n < |name| ==> name[n] == DOT) && forall i | 0 <= i < n :: name[i] != DOT
    ensures DotAt(name) == n
  {
  }

  lemma SameEntry(entry: Entry, name: seq<Byte>, after: seq<Byte>)
    requires |entry| == ENTRY_SIZE
    ensures ShortEntry(entry, Raised(name), after) == ShortEntry(entry, name, after)
  {
    DotIs(Raised(name), DotAt(name));
    forall i | 0 <= i < ENTRY_SIZE ensures ShortAt(entry, Raised(name), after, i) == ShortAt(entry, name, after, i) {
    }
  }

  /** A name that fits but for small letters is read with capital ones. */
  lemma RaisedReads(entry: Entry, name: seq<Byte>, after: seq<Byte>)
    requires |entry| == ENTRY_SIZE && Name(name) && FitsShort(Raised(name), IsDirectory(entry))
    ensures CString(ShortText(ShortEntry(entry, name, after)) + [0]) == Raised(name)
  {
    SameEntry(entry, name, after);
    FittingReads(entry, Raised(name), after);
  }

  /** A file name with more than eight characters in front of its dot is read as the first six of them,
      a tilde, a one, and the rest from the dot on. */
  lemma CutReads(entry: Entry, name: seq<Byte>, after: seq<Byte>)
    requires |entry| == ENTRY_SIZE && !IsDirectory(entry) && Name(name) && NoLower(name)
    requires var len := DotAt(name); 8 < len < |name| <= len + 4 && forall i | 0 <= i < 6 :: name[i] != 0x20
    ensures CString(ShortText(ShortEntry(entry, name, after)) + [0]) == name[..6] + [0x7E, 0x31] + name[DotAt(name)..]
  {
    var stem, ext, rest := CutParts(entry, name, after);
    StemAndRest(stem, ext, rest);
  }

  lemma CutParts(entry: Entry, name: seq<Byte>, after: seq<Byte>)
    returns (stem: seq<Byte>, ext: seq<Byte>, rest: seq<Byte>)
    requires |entry| == ENTRY_SIZE && !IsDirectory(entry) && Name(name) && NoLower(name)
    requires var len := DotAt(name); 8 < len < |name| <= len + 4 && forall i | 0 <= i < 6 :: name[i] != BLANK
    ensures ShortText(ShortEntry(entry, name, after)) + [0] == stem + [DOT] + ext + [0]
    ensures stem == name[..6] + [TILDE, ONE] && rest == name[DotAt(name)..] && |ext| == 3 && rest[0] == DOT
    ensures (forall i | 0 <= i < |stem| :: stem[i] != 0) && forall i | 0 <= i < |rest| :: rest[i] != 0
    ensures forall j | 0 <= j < 3 :: RestAt(ext, rest, j)
  {
    var e := ShortEntry(entry, name, after);
    stem, ext, rest := e[..8], e[8..11], name[DotAt(name)..];
    CutStem(entry, name, after);
    TextIs(e);
    forall j | 0 <= j < 3 ensures RestAt(ext, rest, j) { CutRest(entry, name, after, j); }
  }

  lemma CutRest(entry: Entry, name: seq<Byte>, after: seq<Byte>, j: nat)
    requires |entry| == ENTRY_SIZE && !IsDirectory(entry) && NoLower(name) && DotAt(name) < |name| && j < 3
    ensures RestAt(ShortEntry(entry, name, after)[8..11], name[DotAt(name)..], j)
  {
    ExtensionAt(entry, name, after, j);
  }

  lemma TextIs(e: Entry)
    requires |e| == ENTRY_SIZE && !IsDirectory(e) && Blank(e[..8]) == 8
    ensures ShortText(e) + [0] == e[..8] + [DOT] + e[8..11] + [0]
  {
  }

  /** Character `j` of an extension, and the zero behind a shorter one. */
  ghost predicate RestAt(ext: seq<Byte>, rest: seq<Byte>, j: nat) {
    j < |ext| && (j + 1 < |rest| ==> ext[j] == rest[j + 1]) && (j + 1 == |rest| ==> ext[j] == 0)
  }

  lemma StemAndRest(stem: seq<Byte>, ext: seq<Byte>, rest: seq<Byte>)
    requires |ext| == 3 && 0 < |rest| <= 4 && rest[0] == DOT && (forall j | 0 <= j < 3 :: RestAt(ext, rest, j))
    requires (forall i | 0 <= i < |stem| :: stem[i] != 0) && forall i | 0 <= i < |rest| :: rest[i] != 0
    ensures CString(stem + [DOT] + ext + [0]) == stem + rest
  {
    var tail := [DOT, ext[0], ext[1], ext[2], 0];
    RestReads(ext, rest, tail);
    CStringSum(stem, tail);
    assert ext == [ext[0], ext[1], ext[2]];
    assert stem + [DOT] + ext + [0] == stem + tail;
  }

  lemma RestReads(ext: seq<Byte>, rest: seq<Byte>, tail: seq<Byte>)
    requires |ext| == 3 && 0 < |rest| <= 4 && rest[0] == DOT && (forall j | 0 <= j < 3 :: RestAt(ext, rest, j))
    requires tail == [DOT, ext[0], ext[1], ext[2], 0] && forall i | 0 <= i < |rest| :: rest[i] != 0
    ensures CString(tail) == rest
  {
    assert RestAt(ext, rest, 0) && RestAt(ext, rest, 1) && RestAt(ext, rest, 2);
    CStringIs(tail, rest);
  }

  lemma {:induction false} CStringSum(stem: seq<Byte>, tail: seq<Byte>)
    requires forall i | 0 <= i < |stem| :: stem[i] != 0
    ensures CString(stem + tail) == stem + CString(tail)
  {
    if stem == [] {
      assert stem + tail == tail && stem + CString(tail) == CString(tail);
    } else {
      CStringSum(stem[1..], tail);
      assert (stem + tail)[1..] == stem[1..] + tail;
      assert stem + CString(tail) == [stem[0]] + (stem[1..] + CString(tail));
    }
  }

  lemma CutStem(entry: Entry, name: seq<Byte>, after: seq<Byte>)
    requires |entry| == ENTRY_SIZE && !IsDirectory(entry) && NoLower(name)
    requires 8 < DotAt(name) && forall i | 0 <= i < 6 :: name[i] != BLANK
    ensures var e := ShortEntry(entry, name, after); Blank(e[..8]) == 8 && e[..8] == name[..6] + [TILDE, ONE]
  {
    var e := ShortEntry(entry, name, after);
    forall i | 0 <= i < 8 ensures e[i] == (if i == 6 then TILDE else if i == 7 then ONE else name[i]) != BLANK {
      assert e[i] == ShortAt(entry, name, after, i);
    }
    BlankIs(e[..8], 8);
  }

  /** The archive attribute is set; all other attributes, and everything behind them, are kept. */
  lemma ShortKeeps(entry: Entry, name: seq<Byte>, after: seq<Byte>)
    requires |entry| == ENTRY_SIZE
    ensures var e := ShortEntry(entry, name, after);
      && e[12..] == entry[12..] && e[11] / 0x20 % 2 == 1
      && e[11] % 0x20 == entry[11] % 0x20 && e[11] / 0x40 == entry[11] / 0x40
  {
    var e := ShortEntry(entry, name, after);
    assert e[11] == Archived(entry[11]);
    forall i | 12 <= i < ENTRY_SIZE ensures e[i] == entry[i] { assert e[i] == ShortAt(entry, name, after, i); }
  }

  /** The name of a directory takes all eleven bytes, whatever dots it has. */
  lemma DirectoryStored(entry: Entry, name: seq<Byte>, after: seq<Byte>)
    requires |entry| == ENTRY_SIZE && IsDirectory(entry)
    ensures var stored := ShortEntry(entry, name, after)[..11];
      if |name| <= 11 then stored == Raised(name) + seq(11 - |name|, _ => 0x20)
      else stored == Raised(name[..9]) + [0x7E, 0x31]
  {
    var e := ShortEntry(entry, name, after);
    forall i | 0 <= i < 11 ensures e[i] == Upper(StemAt(name, |name|, 11, i)) {
      assert e[i] == ShortAt(entry, name, after, i);
    }
  }

  ghost predicate SameBehind(entry: Entry, name: seq<Byte>, a: seq<Byte>, b: seq<Byte>)
    requires |entry| == ENTRY_SIZE
  {
    ShortEntry(entry, name, a) == ShortEntry(entry, name, b)
  }

  /** The entry depends on nothing but the name exactly if it is that of a directory, or there is a
      dot and at least two characters behind it; otherwise memory behind the name is copied into it. */
  lemma FromNameExactly(entry: Entry, name: seq<Byte>)
    requires |entry| == ENTRY_SIZE
    ensures (forall a, b :: SameBehind(entry, name, a, b)) <==> IsDirectory(entry) || DotAt(name) + 3 <= |name|
  {
    if IsDirectory(entry) || DotAt(name) + 3 <= |name| {
      forall a, b ensures SameBehind(entry, name, a, b) {
        SameAnyway(entry, name, a, b);
      }
    } else {
      NotTheSame(entry, name, [], [1, 1, 1]);
    }
  }

  lemma SameAnyway(entry: Entry, name: seq<Byte>, a: seq<Byte>, b: seq<Byte>)
    requires |entry| == ENTRY_SIZE && (IsDirectory(entry) || DotAt(name) + 3 <= |name|)
    ensures SameBehind(entry, name, a, b)
  {
    var directory := IsDirectory(entry);
    forall i | 0 <= i < ENTRY_SIZE ensures ShortAt(entry, name, a, i) == ShortAt(entry, name, b, i) {
      if i < 11 { RawAnyway(name, a, b, directory, i); }
    }
  }

  lemma RawAnyway(name: seq<Byte>, a: seq<Byte>, b: seq<Byte>, directory: bool, i: nat)
    requires i < 11 && (directory || DotAt(name) + 3 <= |name|)
    ensures RawAt(name, a, directory, i) == RawAt(name, b, directory, i)
  {
  }

  lemma NotTheSame(entry: Entry, name: seq<Byte>, a: seq<Byte>, b: seq<Byte>)
    requires |entry| == ENTRY_SIZE && !IsDirectory(entry) && DotAt(name) + 3 > |name| && a == [] && b == [1, 1, 1]
    ensures !SameBehind(entry, name, a, b)
  {
    var p := DotAt(name) + 3;
    LastByte(entry, name, a, p);
    LastByte(entry, name, b, p);
    Behind(name, a, b, p);
  }

  lemma LastByte(entry: Entry, name: seq<Byte>, after: seq<Byte>, p: nat)
    requires |entry| == ENTRY_SIZE && !IsDirectory(entry) && p == DotAt(name) + 3
    ensures ShortEntry(entry, name, after)[10] == Upper(MemoryAt(name, after, p))
  {
    ExtensionRaw(entry, name, after, 2);
    assert ShortEntry(entry, name, after)[10] == ShortAt(entry, name, after, 10);
  }

  lemma Behind(name: seq<Byte>, a: seq<Byte>, b: seq<Byte>, p: nat)
    requires |name| < p <= |name| + 3 && a == [] && b == [1, 1, 1]
    ensures Upper(MemoryAt(name, a, p)) == 0 && Upper(MemoryAt(name, b, p)) == 1
  {
  }

  // ---------------------------------------------------------------- the checksum of the short name

  function Rotated(c: Byte): Byte {
    var x: int := c;
    x % 2 * 0x80 + x / 2
  }

  function Summed(c: Byte, b: Byte): Byte {
    var x: int := Rotated(c);
    (x + b as int) % 0x100
  }

  function ChecksumOf(s: seq<Byte>): Byte {
    if s == [] then 0 else Summed(ChecksumOf(s[..|s| - 1]), s[|s| - 1])
  }

  /** `fat_get_lfn_check_sum` */
  method LongChecksum(s: seq<Byte>) returns (c: Byte)
    ensures c == ChecksumOf(s)
  {
    c := 0;
    for i := 0 to |s|
      invariant c == ChecksumOf(s[..i])
    {
      ChecksumStep(s, i);
      c := AddToSum(c, s[i]);
    }
    assert s[..|s|] == s;
  }

  method AddToSum(c: Byte, b: Byte) returns (r: Byte)
    ensures r == Summed(c, b)
  {
    var x: int, y: int := c, b;
    r := ((if x % 2 == 1 then 0x80 else 0) + x / 2 + y) % 0x100;
  }

  lemma ChecksumStep(s: seq<Byte>, i: nat)
    requires i < |s|
    ensures ChecksumOf(s[..i + 1]) == Summed(ChecksumOf(s[..i]), s[i])
  {
    assert s[..i + 1][..i] == s[..i];
  }

  lemma SummedApart(c: Byte, b: Byte, c': Byte, b': Byte)
    requires (c == c') != (b == b')
    ensures Summed(c, b) != Summed(c', b')
  {
    if c != c' { RotatedApart(c, c'); }
    SumsApart(Rotated(c), b, Rotated(c'), b');
  }

  lemma RotatedApart(c: int, c': int)
    requires 0 <= c < 256 && 0 <= c' < 256 && c != c'
    ensures Rotated(c) != Rotated(c')
  {
    assert c == c / 2 * 2 + c % 2 && c' == c' / 2 * 2 + c' % 2;
  }

  lemma SumsApart(x: int, b: int, x': int, b': int)
    requires 0 <= x < 256 && 0 <= b < 256 && 0 <= x' < 256 && 0 <= b' < 256 && (x == x') != (b == b')
    ensures (x + b) % 256 != (x' + b') % 256
  {
  }

  /** Names that differ in one byte have different checksums. */
  lemma {:induction false} ChecksumDetects(s: seq<Byte>, i: nat, b: Byte)
    requires i < |s| && b != s[i]
    ensures ChecksumOf(s[i := b]) != ChecksumOf(s)
    decreases |s|
  {
    var n := |s| - 1;
    var t := s[i := b];
    if i == n {
      assert t[..n] == s[..n];
    } else {
      ChecksumDetects(s[..n], i, b);
      assert t[..n] == s[..n][i := b];
    }
    SummedApart(ChecksumOf(s[..n]), s[n], ChecksumOf(t[..n]), t[n]);
  }

  // ---------------------------------------------------------------- names the driver loses

  /** The entries written for a name, with or without long-name entries. */
  function NewEntries(name: seq<Byte>, checksum: Byte, sfn: Entry, long: bool): (es: seq<Entry>)
    requires Name(name) && |sfn| == ENTRY_SIZE
    ensures Sized(es)
  {
    if long then LongEntries(name, checksum) + [sfn] else [sfn]
  }

  /** The entries written for a name in place of `entry`. */
  function CreatedEntries(name: seq<Byte>, after: seq<Byte>, entry: Entry, long: bool): (es: seq<Entry>)
    requires Name(name) && |entry| == ENTRY_SIZE
    ensures Sized(es)
  {
    var sfn := ShortEntry(entry, name, after);
    NewEntries(name, ChecksumOf(sfn[..11]), sfn, long)
  }

  /** The first byte marks an unused entry. */
  predicate Marked(name: seq<Byte>)
    requires name != []
  {
    name[0] == 0x05 || name[0] == 0xE5
  }

  lemma MarkedExactly(entry: Entry, name: seq<Byte>, after: seq<Byte>)
    requires |entry| == ENTRY_SIZE && Name(name)
    ensures InUse(ShortEntry(entry, name, after)) <==> !Marked(name)
  {
    assert ShortEntry(entry, name, after)[0] == ShortAt(entry, name, after, 0);
  }

  /** A name written at the end of a directory is found again exactly if its first byte does not mark
      an unused entry and it has long-name entries or fits a short one. */
  lemma CreatedIsFound(items: seq<Item>, name: seq<Byte>, checksum: Byte, entry: Entry, after: seq<Byte>, long: bool,
                       buffer: seq<Byte>)
    requires AllProper(items) && Name(name) && |buffer| == BUFFER_SIZE && |entry| == ENTRY_SIZE
    requires forall i | 0 <= i < |items| :: Shown(items[i]) != Some(name)
    ensures var es := Directory(items) + NewEntries(name, checksum, ShortEntry(entry, name, after), long);
      && Sized(es)
      && (Find(es, name, 0, buffer, false).At? <==> !Marked(name) && (long || FitsShort(name, IsDirectory(entry))))
  {
    var sfn := ShortEntry(entry, name, after);
    MarkedExactly(entry, name, after);
    if long {
      LongIsFound(items, name, checksum, sfn, buffer);
    } else {
      ShortReads(entry, name, after);
      ShortIsFound(items, name, sfn, buffer);
    }
  }

  /** `fat_is_need_lfn` */
  method NeedsLong(name: seq<Byte>, isFile: bool) returns (long: bool)
    ensures long <==> Needed(name, isFile)
  {
    if |name| > (if isFile then 9 else 11) {
      return true;
    }
    for i := 0 to |name|
      invariant forall k | 0 <= k < i :: !Lower(name[k])
    {
      if name[i] != Upper(name[i]) {
        return true;
      }
    }
    return false;
  }

  ghost predicate Needed(name: seq<Byte>, isFile: bool) {
    |name| > (if isFile then 9 else 11) || exists i | 0 <= i < |name| :: Lower(name[i])
  }

  /** What `fat_create_file` and `fat_dir_create` ask that about: the end of the path, from its last slash on. */
  function Asked(name: seq<Byte>, slash: bool): seq<Byte> {
    if slash then [0x2F] + name else name
  }

  lemma NeededExactly(name: seq<Byte>, slash: bool)
    ensures Needed(Asked(name, slash), true) <==> |name| > (if slash then 8 else 9) || !NoLower(name)
  {
    if slash {
      assert forall i | 0 <= i < |name| :: name[i] == Asked(name, true)[i + 1];
    }
  }

  /** A name without a blank, as far as it is read. */
  ghost predicate Unbroken(name: seq<Byte>, n: nat) {
    n <= |name| && forall i | 0 <= i < n :: name[i] != 0x20
  }

  /** A file that is created is found again exactly if its first byte does not mark an unused entry and
      its name has more than nine characters (or eight, behind a slash) or a small letter, or has a dot with
      no more than three characters behind it, and no more than eight and no blank before it. */
  lemma FileIsFound(items: seq<Item>, name: seq<Byte>, slash: bool, entry: Entry, after: seq<Byte>, buffer: seq<Byte>)
    requires AllProper(items) && Name(name) && |buffer| == BUFFER_SIZE && |entry| == ENTRY_SIZE && !IsDirectory(entry)
    requires forall i | 0 <= i < |items| :: Shown(items[i]) != Some(name)
    ensures var es := Directory(items) + CreatedEntries(name, after, entry, Needed(Asked(name, slash), true));
      var most, dot := if slash then 8 else 9, DotAt(name);
      && Sized(es)
      && (Find(es, name, 0, buffer, false).At? <==>
            && !Marked(name)
            && (|name| > most || !NoLower(name) || (dot < |name| <= dot + 4 && dot <= 8 && Unbroken(name, dot))))
  {
    var sum := ChecksumOf(ShortEntry(entry, name, after)[..11]);
    NeededExactly(name, slash);
    CreatedIsFound(items, name, sum, entry, after, Needed(Asked(name, slash), true), buffer);
  }

  /** A directory, for which the name is taken for that of a file as well: exactly if its first byte does
      not mark an unused entry and its name has more than nine characters (or eight, behind a slash) or a
      small letter, or at most eight characters and no blank. */
  lemma DirectoryIsFound(items: seq<Item>, name: seq<Byte>, slash: bool, entry: Entry, after: seq<Byte>,
                         buffer: seq<Byte>)
    requires AllProper(items) && Name(name) && |buffer| == BUFFER_SIZE && |entry| == ENTRY_SIZE && IsDirectory(entry)
    requires forall i | 0 <= i < |items| :: Shown(items[i]) != Some(name)
    ensures var es := Directory(items) + CreatedEntries(name, after, entry, Needed(Asked(name, slash), true));
      var most := if slash then 8 else 9;
      && Sized(es)
      && (Find(es, name, 0, buffer, false).At? <==>
            !Marked(name) && (|name| > most || !NoLower(name) || (|name| <= 8 && Unbroken(name, |name|))))
  {
    var sum := ChecksumOf(ShortEntry(entry, name, after)[..11]);
    NeededExactly(name, slash);
    CreatedIsFound(items, name, sum, entry, after, Needed(Asked(name, slash), true), buffer);
  }

  lemma LongIsFound(items: seq<Item>, name: seq<Byte>, checksum: Byte, sfn: Entry, buffer: seq<Byte>)
    requires AllProper(items) && Name(name) && |buffer| == BUFFER_SIZE && |sfn| == ENTRY_SIZE && !IsLong(sfn)
    requires forall i | 0 <= i < |items| :: Shown(items[i]) != Some(name)
    ensures var es := Directory(items) + (LongEntries(name, checksum) + [sfn]);
      Sized(es) && (Find(es, name, 0, buffer, false).At? <==> InUse(sfn))
  {
    var es := Directory(items) + (LongEntries(name, checksum) + [sfn]);
    if InUse(sfn) {
      assert es == Directory(items) + Entries(Long(name, checksum, sfn));
      AddedIsFound(es, items, Long(name, checksum, sfn), buffer);
    } else {
      var next, after := FindReaches(es, name, items, |items|, buffer);
      LostAtEnd(Directory(items), name, checksum, sfn, after);
    }
  }

  lemma ShortIsFound(items: seq<Item>, name: seq<Byte>, sfn: Entry, buffer: seq<Byte>)
    requires AllProper(items) && |buffer| == BUFFER_SIZE && |sfn| == ENTRY_SIZE && !IsLong(sfn)
    requires forall i | 0 <= i < |items| :: Shown(items[i]) != Some(name)
    ensures var es := Directory(items) + [sfn];
      && Sized(es)
      && (Find(es, name, 0, buffer, false).At? <==> InUse(sfn) && CString(ShortText(sfn) + [0]) == name)
  {
    var es, added := Directory(items) + [sfn], if InUse(sfn) then Short(sfn) else Hole(sfn);
    DirectoryGrows(items, added);
    MissingIffNotShown(es, items + [added], name, buffer);
    assert (items + [added])[|items|] == added;
    assert forall i | 0 <= i < |items| :: (items + [added])[i] == items[i];
  }

  /** In an empty directory: the name that is the byte 0xE5 is lost, with long-name entries, and so is
      the file "A", without; the directory "A" and the file "A.B" fit. */
  lemma LostNames(entry: Entry, after: seq<Byte>, buffer: seq<Byte>)
    requires |entry| == ENTRY_SIZE && !IsDirectory(entry) && |buffer| == BUFFER_SIZE
    ensures var marked: seq<Byte> := [0xE5];
      !Find(Directory([]) + NewEntries(marked, 0, ShortEntry(entry, marked, after), true), marked, 0, buffer, false).At?
    ensures var short: seq<Byte> := [0x41];
      !Find(Directory([]) + NewEntries(short, 0, ShortEntry(entry, short, after), false), short, 0, buffer, false).At?
    ensures FitsShort([0x41], true) && FitsShort([0x41, DOT, 0x42], false)
  {
    CreatedIsFound([], [0xE5], 0, entry, after, true, buffer);
    CreatedIsFound([], [0x41], 0, entry, after, false, buffer);
    assert DotAt([0x41]) == 1 && DotAt([0x41, DOT, 0x42]) == 1;
  }

  /** In an empty directory: the driver creates a file "A" that it does not find, and a directory with
      the name "AAAAAAAAA". */
  lemma LostCreations(entry: Entry, after: seq<Byte>, buffer: seq<Byte>)
    requires |entry| == ENTRY_SIZE && |buffer| == BUFFER_SIZE
    ensures var name: seq<Byte> := if IsDirectory(entry) then seq(9, _ => 0x41) else [0x41];
      var es := Directory([]) + CreatedEntries(name, after, entry, Needed(Asked(name, false), true));
      !Find(es, name, 0, buffer, false).At?
  {
    var name: seq<Byte> := if IsDirectory(entry) then seq(9, _ => 0x41) else [0x41];
    if IsDirectory(entry) {
      DirectoryIsFound([], name, false, entry, after, buffer);
    } else {
      DotIs(name, 1);
      FileIsFound([], name, false, entry, after, buffer);
    }
  }
}
