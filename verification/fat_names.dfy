/** Long file names ("FAT Long Directory Entries", Microsoft FAT32 File System
    Specification 1.03): the entries `fat_add_entry_with_path` lays out for a name, and the
    search of `fat_find_entry`, which puts names back together. */
module FatNames {

  import opened FatContent
  import opened FatDirectory
  import opened Machine

  const LFN_NAME_SIZE := 13
  const LAST_LONG_ENTRY := 0x40
  const LFN_ATTRIBUTES := 0x0F
  const BUFFER_SIZE := 257

  // ---------------------------------------------------------------- one long-name entry

  /** Where character `i` of a long-name entry is stored: five, six and two 16-bit units. */
  function CharAt(i: nat): (p: nat)
    requires i < LFN_NAME_SIZE
    ensures p + 1 < ENTRY_SIZE
  {
    if i < 5 then 1 + 2 * i else if i < 11 then 14 + 2 * (i - 5) else 28 + 2 * (i - 11)
  }

  /** The character whose 16-bit unit covers byte `p`, if any. */
  function CharOf(p: nat): (i: nat)
    requires p < ENTRY_SIZE
  {
    if 1 <= p < 11 then (p - 1) / 2
    else if 14 <= p < 26 then 5 + (p - 14) / 2
    else if 28 <= p < 32 then 11 + (p - 28) / 2
    else LFN_NAME_SIZE
  }

  /** A `char` as a 16-bit unit: it is signed. */
  function Extended(c: Byte): (u: nat)
    ensures u < 0x1_0000
  {
    var x: int := c;
    if x < 0x80 then x else 0xFF00 + x
  }

  /** The 16-bit unit stored for character `i` of the rest of a name: the end is marked by a zero and
      padded with 0xFFFF. */
  function Unit(rest: seq<Byte>, i: nat): (u: nat)
    ensures u < 0x1_0000
  {
    if i < |rest| then Extended(rest[i]) else if i == |rest| then 0 else 0xFFFF
  }

  /** The entry `fat_set_name_to_lfn` and its caller build. */
  function LongEntry(rest: seq<Byte>, order: Byte, checksum: Byte): (e: Entry)
    ensures |e| == ENTRY_SIZE
  {
    seq(ENTRY_SIZE, p requires 0 <= p < ENTRY_SIZE =>
      if p == 0 then order
      else if p == 11 then LFN_ATTRIBUTES
      else if p == 13 then checksum
      else
        var i := CharOf(p);
        if i == LFN_NAME_SIZE then 0
        else if p == CharAt(i) then Unit(rest, i) % 0x100
        else Unit(rest, i) / 0x100)
  }

  /** The thirteen characters `fat_parse_lfn` takes out of an entry. */
  function ParseLong(e: Entry): (s: seq<Byte>)
    requires |e| == ENTRY_SIZE
    ensures |s| == LFN_NAME_SIZE
  {
    seq(LFN_NAME_SIZE, i requires 0 <= i < LFN_NAME_SIZE => e[CharAt(i)])
  }

  /** A stored character is read back; so is the zero that ends a short rest. */
  lemma ParsedChar(rest: seq<Byte>, order: Byte, checksum: Byte, i: nat)
    requires i < LFN_NAME_SIZE
    ensures i < |rest| ==> ParseLong(LongEntry(rest, order, checksum))[i] == rest[i]
    ensures i == |rest| ==> ParseLong(LongEntry(rest, order, checksum))[i] == 0
  {
    assert CharOf(CharAt(i)) == i;
  }

  // ---------------------------------------------------------------- all entries of a name

  /** `DIV_ROUNDUP(strlen(name), LFN_NAME_SIZE)` */
  function LongCount(name: seq<Byte>): nat {
    (|name| + (LFN_NAME_SIZE - 1)) / LFN_NAME_SIZE
  }

  /** A name the reader's buffer holds, without the terminator. */
  ghost predicate Name(name: seq<Byte>) {
    0 < |name| <= 247 && forall i | 0 <= i < |name| :: name[i] != 0
  }

  ghost predicate Sized(es: seq<Entry>) {
    forall i | 0 <= i < |es| :: |es[i]| == ENTRY_SIZE
  }

  /** The long-name entries laid out for `name`, last part of the name first. */
  function LongEntries(name: seq<Byte>, checksum: Byte): (es: seq<Entry>)
    requires Name(name)
    ensures |es| == LongCount(name) && Sized(es)
  {
    var n := LongCount(name);
    seq(n, i requires 0 <= i < n =>
      LongEntry(name[LFN_NAME_SIZE * (n - 1 - i)..], (n - i) + (if i == 0 then LAST_LONG_ENTRY else 0), checksum))
  }

  // ---------------------------------------------------------------- reading a name back

  predicate IsLong(e: Entry)
    requires |e| == ENTRY_SIZE
  {
    e[11] == LFN_ATTRIBUTES
  }

  /** `lfn->order & ~0x40` */
  function Order(e: Entry): (n: nat)
    requires |e| == ENTRY_SIZE
    ensures n < 0x100
  {
    var b: int := e[0];
    if 0x40 <= b < 0x80 || 0xC0 <= b then b - LAST_LONG_ENTRY else b
  }

  /** The name buffer after the parts in entries `i`, `i + 1`, ... `i + order - 1` have been
      copied into it, the last part first. */
  function Assemble(es: seq<Entry>, i: nat, order: nat, buffer: seq<Byte>): (r: seq<Byte>)
    requires Sized(es) && i + order <= |es| && LFN_NAME_SIZE * order < |buffer|
    ensures |r| == |buffer|
  {
    seq(|buffer|, p requires 0 <= p < |buffer| =>
      if p < LFN_NAME_SIZE * order then ParseLong(es[i + (order - 1 - p / LFN_NAME_SIZE)])[p % LFN_NAME_SIZE]
      else if p == LFN_NAME_SIZE * order then 0
      else buffer[p])
  }

  /** The string in a buffer: what comes before the first zero. */
  function CString(buffer: seq<Byte>): seq<Byte> {
    if buffer == [] || buffer[0] == 0 then [] else [buffer[0]] + CString(buffer[1..])
  }

  lemma {:induction false} CStringIs(buffer: seq<Byte>, name: seq<Byte>)
    requires |name| < |buffer| && buffer[|name|] == 0
    requires forall i | 0 <= i < |name| :: name[i] != 0 && buffer[i] == name[i]
    ensures CString(buffer) == name
  {
    if name != [] {
      CStringIs(buffer[1..], name[1..]);
    }
  }

  /** The first entry announces how many follow, and is never taken for a deleted one. */
  lemma FirstEntry(name: seq<Byte>, checksum: Byte)
    requires Name(name)
    ensures 1 <= LongCount(name) <= 19
    ensures var e := LongEntries(name, checksum)[0]; Order(e) == LongCount(name) && IsLong(e) && InUse(e)
  {
    var n := LongCount(name);
    var e := LongEntries(name, checksum)[0];
    assert e == LongEntry(name[LFN_NAME_SIZE * (n - 1)..], n + LAST_LONG_ENTRY, checksum);
    assert e[0] == n + LAST_LONG_ENTRY && e[11] == LFN_ATTRIBUTES;
  }

  /** Every long-name entry is marked as one, carries the checksum and counts down to the short entry; only
      the first has the mark of the last part. */
  lemma EntriesLinked(name: seq<Byte>, checksum: Byte, i: nat)
    requires Name(name) && i < LongCount(name)
    ensures var e := LongEntries(name, checksum)[i];
      && e[11] == 0x0F && e[12] == 0 && e[13] == checksum && e[26] == 0 && e[27] == 0
      && e[0] == LongCount(name) - i + if i == 0 then 0x40 else 0
  {
    var n := LongCount(name);
    var order: Byte := (n - i) + (if i == 0 then LAST_LONG_ENTRY else 0);
    var e := LongEntry(name[LFN_NAME_SIZE * (n - 1 - i)..], order, checksum);
    assert LongEntries(name, checksum)[i] == e;
    assert e[0] == order && e[11] == LFN_ATTRIBUTES && e[13] == checksum;
    assert CharOf(12) == LFN_NAME_SIZE && CharOf(26) == LFN_NAME_SIZE && CharOf(27) == LFN_NAME_SIZE;
  }

  /** Where the thirteen characters of a long-name entry are. */
  const PLACES: seq<nat> := [1, 3, 5, 7, 9, 14, 16, 18, 20, 22, 24, 28, 30]

  lemma PlacesAre(c: nat)
    requires c < 13
    ensures PLACES[c] == CharAt(c) && CharOf(CharAt(c)) == CharOf(CharAt(c) + 1) == c
  {
  }

  /** What the entries hold at these places: the characters of the name from the last entry to the first,
      each as itself exactly if it is an ASCII one, then a zero, then 0xFFFF. */
  lemma CharactersStored(name: seq<Byte>, checksum: Byte, i: nat, c: nat)
    requires Name(name) && i < LongCount(name) && c < 13
    ensures var e, j := LongEntries(name, checksum)[i], 13 * (LongCount(name) - 1 - i) + c;
      var unit := e[PLACES[c]] as int + 256 * (e[PLACES[c] + 1] as int);
      if j < |name| then unit == (if name[j] < 128 then 0 else 0xFF00) + name[j] as int
      else unit == if j == |name| then 0 else 0xFFFF
  {
    var n := LongCount(name);
    var rest, order: Byte := name[13 * (n - 1 - i)..], (n - i) + (if i == 0 then LAST_LONG_ENTRY else 0);
    assert LongEntries(name, checksum)[i] == LongEntry(rest, order, checksum);
    PlacesAre(c);
    UnitStored(rest, order, checksum, c);
  }

  lemma UnitStored(rest: seq<Byte>, order: Byte, checksum: Byte, c: nat)
    requires c < LFN_NAME_SIZE && CharOf(CharAt(c)) == CharOf(CharAt(c) + 1) == c
    ensures var e, p := LongEntry(rest, order, checksum), CharAt(c);
      e[p] == Unit(rest, c) % 0x100 && e[p + 1] == Unit(rest, c) / 0x100
  {
  }

  /** Long-name round trip: the entries of a name, read back in place, give the name. */
  lemma NameRoundTrip(es: seq<Entry>, i: nat, name: seq<Byte>, checksum: Byte, buffer: seq<Byte>)
    requires Name(name) && |buffer| == BUFFER_SIZE && Sized(es)
    requires i + LongCount(name) <= |es|
    requires forall k | 0 <= k < LongCount(name) :: es[i + k] == LongEntries(name, checksum)[k]
    ensures Order(es[i]) == LongCount(name) <= 19 && IsLong(es[i]) && InUse(es[i])
    ensures CString(Assemble(es, i, LongCount(name), buffer)) == name
  {
    var n := LongCount(name);
    assert es[i + 0] == LongEntries(name, checksum)[0];
    FirstEntry(name, checksum);
    var r := Assemble(es, i, n, buffer);
    forall p | 0 <= p <= |name| ensures r[p] == if p < |name| then name[p] else 0 {
      if p < LFN_NAME_SIZE * n {
        PartRoundTrip(es, i, name, checksum, p);
      }
    }
    CStringIs(r, name);
  }

  lemma PartRoundTrip(es: seq<Entry>, i: nat, name: seq<Byte>, checksum: Byte, p: nat)
    requires Name(name) && Sized(es) && i + LongCount(name) <= |es| && p <= |name|
      && p < LFN_NAME_SIZE * LongCount(name)
    requires forall k | 0 <= k < LongCount(name) :: es[i + k] == LongEntries(name, checksum)[k]
    ensures ParseLong(es[i + (LongCount(name) - 1 - p / LFN_NAME_SIZE)])[p % LFN_NAME_SIZE] ==
            if p < |name| then name[p] else 0
  {
    var n := LongCount(name);
    var k, j := n - 1 - p / LFN_NAME_SIZE, p % LFN_NAME_SIZE;
    assert LFN_NAME_SIZE * (n - 1 - k) + j == p;
    var rest := name[LFN_NAME_SIZE * (n - 1 - k)..];
    assert es[i + k] == LongEntries(name, checksum)[k];
    var order: Byte := (n - k) + (if k == 0 then LAST_LONG_ENTRY else 0);
    assert es[i + k] == LongEntry(rest, order, checksum);
    ParsedChar(rest, order, checksum, j);
  }

  // ---------------------------------------------------------------- the search

  /** `Fault`: the driver would run out of the directory or of its name buffer, or loop. */
  datatype Found = At(index: nat) | Missing | Fault

  /** The text `fat_parse_sfn` writes for a short entry. */
  function ShortText(e: Entry): (s: seq<Byte>)
    requires |e| == ENTRY_SIZE
    ensures |s| <= 12
  {
    var n := Blank(e[..8]);
    if e[11] % 0x20 >= 0x10 then e[..n] else e[..n] + [0x2E] + e[8..11]
  }

  /** Where the padding of a short name starts. */
  function Blank(s: seq<Byte>): (n: nat)
    ensures n <= |s|
  {
    if s == [] || s[0] == 0x20 then 0 else 1 + Blank(s[1..])
  }

  /** `text` and a zero at the start of the buffer. */
  function Put(buffer: seq<Byte>, text: seq<Byte>): (r: seq<Byte>)
    requires |text| < |buffer|
    ensures |r| == |buffer|
  {
    text + [0] + buffer[|text| + 1..]
  }

  /** `fat_find_entry` from entry `i` on, with the name buffer and the flag as the earlier
      rounds left them. */
  function Find(es: seq<Entry>, name: seq<Byte>, i: nat, buffer: seq<Byte>, long: bool): Found
    requires Sized(es) && |buffer| == BUFFER_SIZE
    decreases |es| - i
  {
    if i >= |es| then Missing
    else if !InUse(es[i]) then Find(es, name, i + 1, buffer, long)
    else if IsLong(es[i]) then
      var n := Order(es[i]);
      if n == 0 || LFN_NAME_SIZE * n >= BUFFER_SIZE || i + n > |es| then Fault
      else Find(es, name, i + n, Assemble(es, i, n, buffer), true)
    else
      var text := if long then buffer else Put(buffer, ShortText(es[i]));
      if CString(text) == name then At(i) else Find(es, name, i + 1, text, false)
  }

  // ---------------------------------------------------------------- directories built by adding names

  /** A file with a long name, a file with a short name only, or an unused entry. */
  datatype Item = Long(name: seq<Byte>, checksum: Byte, sfn: Entry) | Short(sfn: Entry) | Hole(e: Entry)

  ghost predicate Proper(item: Item) {
    match item
    case Long(name, _, sfn) => Name(name) && |sfn| == ENTRY_SIZE && InUse(sfn) && !IsLong(sfn)
    case Short(sfn) => |sfn| == ENTRY_SIZE && InUse(sfn) && !IsLong(sfn)
    case Hole(e) => |e| == ENTRY_SIZE && !InUse(e)
  }

  ghost function Entries(item: Item): (es: seq<Entry>)
    requires Proper(item)
    ensures Sized(es)
  {
    match item
    case Long(name, checksum, sfn) => LongEntries(name, checksum) + [sfn]
    case Short(sfn) => [sfn]
    case Hole(e) => [e]
  }

  /** The name under which an item is found. */
  ghost function Shown(item: Item): Option<seq<Byte>>
    requires Proper(item)
  {
    match item
    case Long(name, _, _) => Some(name)
    case Short(sfn) => Some(CString(ShortText(sfn) + [0]))
    case Hole(_) => None
  }

  ghost predicate AllProper(items: seq<Item>) {
    forall i | 0 <= i < |items| :: Proper(items[i])
  }

  /** The first `k` groups of entries, one after the other. */
  ghost function Flat(groups: seq<seq<Entry>>, k: nat): (es: seq<Entry>)
    requires k <= |groups|
  {
    if k == 0 then [] else Flat(groups, k - 1) + groups[k - 1]
  }

  lemma {:induction false} FlatPrefix(groups: seq<seq<Entry>>, k: nat, n: nat)
    requires k <= n <= |groups|
    ensures Flat(groups, k) <= Flat(groups, n)
    decreases n
  {
    if k < n {
      FlatPrefix(groups, k, n - 1);
    }
  }

  lemma {:induction false} FlatSized(groups: seq<seq<Entry>>, k: nat)
    requires k <= |groups| && forall i | 0 <= i < |groups| :: Sized(groups[i])
    ensures Sized(Flat(groups, k))
  {
    if k > 0 { FlatSized(groups, k - 1); }
  }

  ghost function Groups(items: seq<Item>): (gs: seq<seq<Entry>>)
    requires AllProper(items)
    ensures |gs| == |items| && forall i | 0 <= i < |gs| :: Sized(gs[i])
  {
    seq(|items|, i requires 0 <= i < |items| => Entries(items[i]))
  }

  /** The directory that holds the items in order. */
  ghost function Directory(items: seq<Item>): (es: seq<Entry>)
    requires AllProper(items)
    ensures Sized(es)
  {
    FlatSized(Groups(items), |items|);
    Flat(Groups(items), |items|)
  }

  /** Index `i` holds the entries of `item`. */
  ghost predicate Holds(es: seq<Entry>, i: nat, item: Item)
    requires Proper(item)
  {
    i + |Entries(item)| <= |es| && forall k | 0 <= k < |Entries(item)| :: es[i + k] == Entries(item)[k]
  }

  lemma CStringCut(s: seq<Byte>, t: seq<Byte>)
    ensures CString(s + [0] + t) == CString(s + [0])
  {
    if s == [] {
      assert (s + [0] + t)[0] == 0;
    } else {
      assert (s + [0] + t)[1..] == s[1..] + [0] + t;
      assert (s + [0])[1..] == s[1..] + [0];
      CStringCut(s[1..], t);
    }
  }

  /** The search takes in the long-name entries of a name. */
  lemma FindLong(es: seq<Entry>, name: seq<Byte>, i: nat, n: seq<Byte>, checksum: Byte, buffer: seq<Byte>)
    requires Sized(es) && |buffer| == BUFFER_SIZE && Name(n) && i + LongCount(n) <= |es|
    requires forall k | 0 <= k < LongCount(n) :: es[i + k] == LongEntries(n, checksum)[k]
    ensures LFN_NAME_SIZE * LongCount(n) < BUFFER_SIZE
    ensures Find(es, name, i, buffer, false) ==
      Find(es, name, i + LongCount(n), Assemble(es, i, LongCount(n), buffer), true)
  {
    assert es[i + 0] == LongEntries(n, checksum)[0];
    FirstEntry(n, checksum);
  }

  /** An item that shows the name ends the search with its short entry. */
  lemma FindStops(es: seq<Entry>, name: seq<Byte>, i: nat, item: Item, buffer: seq<Byte>)
    requires Sized(es) && |buffer| == BUFFER_SIZE && Proper(item) && Holds(es, i, item) && Shown(item) == Some(name)
    ensures Find(es, name, i, buffer, false) == At(i + |Entries(item)| - 1)
  {
    var after := ReadItem(es, name, i, item, buffer);
  }

  /** Any other item is passed over. */
  lemma FindPasses(es: seq<Entry>, name: seq<Byte>, i: nat, item: Item, buffer: seq<Byte>)
    returns (next: nat, after: seq<Byte>)
    requires Sized(es) && |buffer| == BUFFER_SIZE && Proper(item) && Holds(es, i, item) && Shown(item) != Some(name)
    ensures next == i + |Entries(item)| && |after| == BUFFER_SIZE
    ensures Find(es, name, i, buffer, false) == Find(es, name, next, after, false)
  {
    after := ReadItem(es, name, i, item, buffer);
    next := i + |Entries(item)|;
  }

  /** What the search does on the entries of one item. */
  lemma ReadItem(es: seq<Entry>, name: seq<Byte>, i: nat, item: Item, buffer: seq<Byte>) returns (after: seq<Byte>)
    requires Sized(es) && |buffer| == BUFFER_SIZE && Proper(item) && Holds(es, i, item)
    ensures |after| == BUFFER_SIZE
    ensures Find(es, name, i, buffer, false) ==
            if Shown(item) == Some(name) then At(i + |Entries(item)| - 1)
            else Find(es, name, i + |Entries(item)|, after, false)
  {
    match item
    case Long(n, checksum, sfn) =>
      var k := LongCount(n);
      assert forall j | 0 <= j < k :: Entries(item)[j] == LongEntries(n, checksum)[j];
      forall j | 0 <= j < k ensures es[i + j] == LongEntries(n, checksum)[j] {
        assert es[i + j] == Entries(item)[j];
      }
      NameRoundTrip(es, i, n, checksum, buffer);
      FindLong(es, name, i, n, checksum, buffer);
      after := Assemble(es, i, k, buffer);
      assert es[i + k] == Entries(item)[k] == sfn;
    case Short(sfn) =>
      assert es[i + 0] == Entries(item)[0] == sfn;
      after := Put(buffer, ShortText(sfn));
      CStringCut(ShortText(sfn), buffer[|ShortText(sfn)| + 1..]);
    case Hole(e) =>
      assert es[i + 0] == Entries(item)[0] == e;
      after := buffer;
  }

  /** Searching past items of other names. */
  lemma {:induction false} FindReaches(es: seq<Entry>, name: seq<Byte>, items: seq<Item>, k: nat, buffer: seq<Byte>)
    returns (next: nat, after: seq<Byte>)
    requires Sized(es) && |buffer| == BUFFER_SIZE && AllProper(items) && k <= |items| && Flat(Groups(items), k) <= es
    requires forall i | 0 <= i < k :: Shown(items[i]) != Some(name)
    ensures next == |Flat(Groups(items), k)| && |after| == BUFFER_SIZE
    ensures Find(es, name, 0, buffer, false) == Find(es, name, next, after, false)
    decreases k
  {
    next, after := 0, buffer;
    if k > 0 {
      LastHolds(es, Flat(Groups(items), k - 1), items[k - 1]);
      next, after := FindReaches(es, name, items, k - 1, buffer);
      next, after := FindPasses(es, name, next, items[k - 1], after);
    }
  }

  lemma LastHolds(es: seq<Entry>, front: seq<Entry>, item: Item)
    requires Proper(item) && front + Entries(item) <= es
    ensures front <= es && Holds(es, |front|, item)
  {
    forall k | 0 <= k < |Entries(item)| ensures es[|front| + k] == Entries(item)[k] {
      assert es[|front| + k] == (front + Entries(item))[|front| + k];
    }
  }

  /** Adding a name that no earlier item shows makes the search for it return its entry. */
  lemma AddedIsFound(es: seq<Entry>, items: seq<Item>, added: Item, buffer: seq<Byte>)
    requires Sized(es) && |buffer| == BUFFER_SIZE && AllProper(items) && Proper(added) && added.Long?
    requires forall i | 0 <= i < |items| :: Shown(items[i]) != Some(added.name)
    requires Directory(items) + Entries(added) <= es
    ensures Find(es, added.name, 0, buffer, false) == At(|Directory(items)| + LongCount(added.name))
  {
    NextIsFound(es, items, |items|, added, added.name, buffer);
  }

  /** An item behind `k` items of other names ends the search. */
  lemma NextIsFound(es: seq<Entry>, items: seq<Item>, k: nat, item: Item, name: seq<Byte>, buffer: seq<Byte>)
    requires Sized(es) && |buffer| == BUFFER_SIZE && AllProper(items) && k <= |items| && Proper(item)
    requires Shown(item) == Some(name) && forall i | 0 <= i < k :: Shown(items[i]) != Some(name)
    requires Flat(Groups(items), k) + Entries(item) <= es
    ensures Find(es, name, 0, buffer, false) == At(|Flat(Groups(items), k)| + |Entries(item)| - 1)
  {
    LastHolds(es, Flat(Groups(items), k), item);
    var next, after := FindReaches(es, name, items, k, buffer);
    FindStops(es, name, next, item, after);
  }

  /** `es` starts with the entries of the items and has no entry in use behind them. */
  ghost predicate Lists(es: seq<Entry>, items: seq<Item>) {
    && Sized(es) && AllProper(items) && Directory(items) <= es
    && forall i | |Directory(items)| <= i < |es| :: !InUse(es[i])
  }

  lemma ItemInDirectory(items: seq<Item>, k: nat)
    requires AllProper(items) && k < |items|
    ensures Flat(Groups(items), k) + Entries(items[k]) <= Directory(items)
  {
    FlatPrefix(Groups(items), k + 1, |items|);
  }

  /** The search returns the entry of the first item that shows the name, whatever follows
      the items. */
  lemma FirstIsFound(es: seq<Entry>, items: seq<Item>, name: seq<Byte>, k: nat, buffer: seq<Byte>)
    requires AllProper(items) && Sized(es) && Directory(items) <= es && |buffer| == BUFFER_SIZE
    requires k < |items| && Shown(items[k]) == Some(name)
    requires forall j | 0 <= j < k :: Shown(items[j]) != Some(name)
    ensures Find(es, name, 0, buffer, false) == At(|Flat(Groups(items), k)| + |Entries(items[k])| - 1)
  {
    ItemInDirectory(items, k);
    NextIsFound(es, items, k, items[k], name, buffer);
  }

  /** Entries that are not in use are passed over. */
  lemma {:induction false} FindNothing(es: seq<Entry>, name: seq<Byte>, i: nat, buffer: seq<Byte>, long: bool)
    requires Sized(es) && |buffer| == BUFFER_SIZE && forall j | i <= j < |es| :: !InUse(es[j])
    ensures Find(es, name, i, buffer, long) == Missing
    decreases |es| - i
  {
    if i < |es| { FindNothing(es, name, i + 1, buffer, long); }
  }

  /** In a directory that lists proper items the search fails exactly when no item shows the
      name, and never breaks off. */
  lemma MissingIffNotShown(es: seq<Entry>, items: seq<Item>, name: seq<Byte>, buffer: seq<Byte>)
    requires Lists(es, items) && |buffer| == BUFFER_SIZE
    ensures Find(es, name, 0, buffer, false).Missing? <==>
            forall i | 0 <= i < |items| :: Shown(items[i]) != Some(name)
    ensures !Find(es, name, 0, buffer, false).Fault?
  {
    if j :| 0 <= j < |items| && Shown(items[j]) == Some(name) {
      FirstIsFound(es, items, name, First(items, name, 0), buffer);
    } else {
      var next, after := FindReaches(es, name, items, |items|, buffer);
      FindNothing(es, name, next, after, false);
    }
  }

  /** The last entry of an item other than a hole is in use. */
  lemma LastEntryInUse(items: seq<Item>)
    requires AllProper(items) && items != [] && !items[|items| - 1].Hole?
    ensures Directory(items) != [] && InUse(Directory(items)[|Directory(items)| - 1])
  {
    var last := Entries(items[|items| - 1]);
    assert Directory(items) == Flat(Groups(items), |items| - 1) + last;
  }

  /** Listing one item more. */
  lemma DirectoryGrows(items: seq<Item>, item: Item)
    requires AllProper(items) && Proper(item)
    ensures AllProper(items + [item]) && Directory(items + [item]) == Directory(items) + Entries(item)
  {
    var more := items + [item];
    FlatSame(Groups(items), Groups(more), |items|);
    assert Groups(more)[|items|] == Entries(item);
  }

  lemma {:induction false} FlatSame(a: seq<seq<Entry>>, b: seq<seq<Entry>>, k: nat)
    requires k <= |a| && k <= |b| && forall i | 0 <= i < k :: a[i] == b[i]
    ensures Flat(a, k) == Flat(b, k)
  {
    if k > 0 { FlatSame(a, b, k - 1); }
  }

  /** The first item that shows the name. */
  ghost function First(items: seq<Item>, name: seq<Byte>, i: nat): (k: nat)
    requires AllProper(items) && i <= |items|
    requires exists j | i <= j < |items| :: Shown(items[j]) == Some(name)
    ensures i <= k < |items| && Shown(items[k]) == Some(name)
    ensures forall j | i <= j < k :: Shown(items[j]) != Some(name)
    decreases |items| - i
  {
    if Shown(items[i]) == Some(name) then i else First(items, name, i + 1)
  }

  /** A long name whose short entry looks unused is not found. */
  lemma LostAtEnd(d: seq<Entry>, name: seq<Byte>, checksum: Byte, sfn: Entry, buffer: seq<Byte>)
    requires Sized(d) && Name(name) && |buffer| == BUFFER_SIZE && |sfn| == ENTRY_SIZE && !InUse(sfn)
    ensures var es := d + (LongEntries(name, checksum) + [sfn]);
            Sized(es) && Find(es, name, |d|, buffer, false) == Missing
  {
    var n, long := LongCount(name), LongEntries(name, checksum);
    var es := d + (long + [sfn]);
    forall k | 0 <= k < n ensures es[|d| + k] == long[k] {
      assert (long + [sfn])[k] == long[k];
    }
    assert es[|d| + n] == (long + [sfn])[n] == sfn;
    FindLong(es, name, |d|, name, checksum, buffer);
    assert Find(es, name, |d| + n + 1, Assemble(es, |d|, n, buffer), true) == Missing;
  }
}
