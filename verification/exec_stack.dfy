/** The entry stack of a new process (section 3.4.1 of the System V Application Binary
    Interface, AMD64 Architecture Processor Supplement): the image `load_elf_exec_load_stack`
    writes through the kernel's alias of the stack, and a reader of that layout. */
module ExecStack {

  import opened Machine

  type Word = x: int | 0 <= x < U64

  const AT_NULL := 0
  const AT_PHDR := 3
  const AT_PHENT := 4
  const AT_PHNUM := 5
  const AT_ENTRY := 9

  // ---------------------------------------------------------------- words as bytes

  /** The `n` low bytes of `v`, lowest first. */
  function Little(v: nat, n: nat): (b: seq<Byte>)
    ensures |b| == n
  {
    if n == 0 then [] else [v % 256] + Little(v / 256, n - 1)
  }

  function Value(b: seq<Byte>): nat {
    if b == [] then 0 else b[0] + 256 * Value(b[1..])
  }

  function Power(n: nat): (p: nat)
    ensures p > 0
  {
    if n == 0 then 1 else 256 * Power(n - 1)
  }

  /** What is stored is what is loaded. */
  lemma {:induction false} LittleRoundTrip(v: nat, n: nat)
    requires v < Power(n)
    ensures Value(Little(v, n)) == v
  {
    if n > 0 {
      LittleRoundTrip(v / 256, n - 1);
      assert Little(v, n)[1..] == Little(v / 256, n - 1);
    }
  }

  // ---------------------------------------------------------------- what lies where

  /** `m` and `m'` agree from `k` on. */
  ghost predicate Same(m: seq<Byte>, m': seq<Byte>, k: nat) {
    |m'| == |m| && forall j | k <= j < |m| :: m'[j] == m[j]
  }

  ghost predicate WordAt(m: seq<Byte>, i: nat, v: Word) {
    i + 8 <= |m| && m[i..i + 8] == Little(v, 8)
  }

  /** The string `s` and a zero byte. */
  ghost predicate StringAt(m: seq<Byte>, i: nat, s: seq<Byte>) {
    i + |s| < |m| && m[i..i + |s|] == s && m[i + |s|] == 0
  }

  ghost predicate Text(s: seq<Byte>) {
    forall i | 0 <= i < |s| :: s[i] != 0
  }

  /** The words `t`, one after the other. */
  ghost predicate TableAt(m: seq<Byte>, i: nat, t: seq<Word>) {
    forall k {:trigger Slot(m, i, t, k)} | 0 <= k < |t| :: Slot(m, i, t, k)
  }

  ghost predicate Slot(m: seq<Byte>, i: nat, t: seq<Word>, k: nat) {
    k < |t| && WordAt(m, i + 8 * k, t[k])
  }

  lemma WordKept(m: seq<Byte>, m': seq<Byte>, k: nat, i: nat, v: Word)
    requires Same(m, m', k) && k <= i && WordAt(m, i, v)
    ensures WordAt(m', i, v)
  {
    assert m'[i..i + 8] == m[i..i + 8];
  }

  lemma StringKept(m: seq<Byte>, m': seq<Byte>, k: nat, i: nat, s: seq<Byte>)
    requires Same(m, m', k) && k <= i && StringAt(m, i, s)
    ensures StringAt(m', i, s)
  {
    assert m'[i..i + |s|] == m[i..i + |s|];
  }

  lemma TableGrows(m: seq<Byte>, m': seq<Byte>, i: nat, t: seq<Word>, v: Word)
    requires i >= 8 && Same(m, m', i) && TableAt(m, i, t) && WordAt(m', i - 8, v)
    ensures TableAt(m', i - 8, [v] + t)
  {
    var t', low := [v] + t, i - 8;
    forall k | 0 <= k < |t'| ensures Slot(m', low, t', k) {
      if k > 0 {
        assert Slot(m, i, t, k - 1);
        WordKept(m, m', i, i + 8 * (k - 1), t[k - 1]);
      }
    }
  }

  /** The pointers lead to the first strings of the list. */
  ghost predicate PointersTo(m: seq<Byte>, base: nat, ptrs: seq<Word>, strings: seq<seq<Byte>>) {
    && |ptrs| <= |strings|
    && forall i {:trigger ptrs[i]} | 0 <= i < |ptrs| :: base <= ptrs[i] && StringAt(m, ptrs[i] - base, strings[i])
  }

  lemma PointersKept(m: seq<Byte>, m': seq<Byte>, k: nat, base: nat, ptrs: seq<Word>, strings: seq<seq<Byte>>)
    requires Same(m, m', k) && PointersTo(m, base, ptrs, strings) && forall i | 0 <= i < |ptrs| :: base + k <= ptrs[i]
    ensures PointersTo(m', base, ptrs, strings)
  {
    forall i | 0 <= i < |ptrs| ensures base <= ptrs[i] && StringAt(m', ptrs[i] - base, strings[i]) {
      StringKept(m, m', k, ptrs[i] - base, strings[i]);
    }
  }

  /** One more string, below the others. */
  lemma PointersGrow(m: seq<Byte>, m': seq<Byte>, k: nat, base: nat, ptrs: seq<Word>, strings: seq<seq<Byte>>, p: Word)
    requires Same(m, m', k) && PointersTo(m, base, ptrs, strings) && forall i | 0 <= i < |ptrs| :: base + k <= ptrs[i]
    requires |ptrs| < |strings| && base <= p && StringAt(m', p - base, strings[|ptrs|])
    ensures PointersTo(m', base, ptrs + [p], strings)
  {
    PointersKept(m, m', k, base, ptrs, strings);
  }

  lemma SameThen(m: seq<Byte>, m': seq<Byte>, m'': seq<Byte>, k: nat, low: nat)
    requires Same(m, m', k) && Same(m', m'', low) && low <= k
    ensures Same(m, m'', k)
  {
  }

  // ---------------------------------------------------------------- the writer

  /** The room the first `k` strings take, with their zero bytes. */
  function SizeTo(strings: seq<seq<Byte>>, k: nat): nat
    requires k <= |strings|
  {
    if k == 0 then 0 else SizeTo(strings, k - 1) + |strings[k - 1]| + 1
  }

  function Size(strings: seq<seq<Byte>>): nat {
    SizeTo(strings, |strings|)
  }

  lemma {:induction false} SizeGrows(strings: seq<seq<Byte>>, i: nat, k: nat)
    requires i <= k <= |strings|
    ensures SizeTo(strings, i) <= SizeTo(strings, k)
    decreases k - i
  {
    if i < k { SizeGrows(strings, i, k - 1); }
  }

  /** Where the image ends, at the bottom. */
  function Bottom(stack: nat, args: seq<seq<Byte>>, envs: seq<seq<Byte>>): int {
    Aligned(stack - Size(args) - Size(envs), |args| + |envs|) - 80 - 8 * (|args| + |envs| + 3)
  }

  /** The next address at or below `a` that makes `n` pointers end on a multiple of 16. */
  function Aligned(a: int, n: nat): int {
    a - a % 16 - (if n % 2 == 0 then 8 else 0)
  }

  /** The auxiliary vector, as words from low to high addresses. */
  function Aux(entry: Word, phdr: Word, phent: Word, phnum: Word): seq<Word> {
    [AT_PHNUM, phnum, AT_PHENT, phent, AT_PHDR, phdr, AT_ENTRY, entry, AT_NULL, 0]
  }

  /** The first `k` elements, last one first. */
  function Backwards<T>(s: seq<T>, k: nat): (r: seq<T>)
    requires k <= |s|
    ensures |r| == k
  {
    seq(k, i requires 0 <= i < k => s[k - 1 - i])
  }

  /** The words from the stack pointer up. */
  function Table(argPtrs: seq<Word>, envPtrs: seq<Word>, aux: seq<Word>): seq<Word>
    requires |argPtrs| < U64
  {
    [|argPtrs|] + (argPtrs + ([0] + (Backwards(envPtrs, |envPtrs|) + ([0] + aux))))
  }

  /** `get_kernel_mapped` */
  function KernelMapped(address: Word, userBase: Word, kernelBase: Word): (r: Word) {
    (address - userBase + kernelBase) % U64
  }

  /** The stack of the new process: user addresses from `userBase` on, which the kernel sees
      from `kernelBase` on. */
  class Image {
    const userBase: Word
    const kernelBase: Word
    const mem: array<Byte>
    var sp: nat

    constructor (user: Word, kernel: Word, memory: array<Byte>)
      requires 0 < user && user + memory.Length < U64 && kernel + memory.Length < U64
      ensures userBase == user && kernelBase == kernel && mem == memory && sp == user + memory.Length && Valid()
    {
      userBase, kernelBase, mem, sp := user, kernel, memory, user + memory.Length;
    }

    ghost predicate Valid()
      reads this
    {
      && 0 < userBase && userBase + mem.Length < U64 && kernelBase + mem.Length < U64
      && userBase <= sp <= userBase + mem.Length
    }

    /** The cell of a user address, by way of its kernel address. */
    function Cell(address: Word): (i: nat)
      requires userBase <= address <= userBase + mem.Length && kernelBase + mem.Length < U64
      ensures i == address - userBase
    {
      KernelMapped(address, userBase, kernelBase) - kernelBase
    }

    /** One string: room for it and its terminator, then `strncpy`. */
    method PushString(s: seq<Byte>)
      requires Valid() && Text(s) && userBase + |s| + 1 <= sp
      modifies this`sp, mem
      ensures Valid() && sp == old(sp) - (|s| + 1) && StringAt(mem[..], sp - userBase, s)
      ensures Same(old(mem[..]), mem[..], old(sp) - userBase)
    {
      sp := sp - (|s| + 1);
      var at := Cell(sp);
      for j := 0 to |s|
        modifies mem
        invariant mem[at..at + j] == s[..j]
        invariant forall i | at + |s| + 1 <= i < mem.Length :: mem[i] == old(mem[i])
      {
        mem[at + j] := s[j];
        assert mem[at..at + j + 1] == mem[at..at + j] + [s[j]];
        assert s[..j + 1] == s[..j] + [s[j]];
      }
      mem[at + |s|] := 0;
      assert mem[..][at..at + |s|] == mem[at..at + |s|];
    }

    /** The strings in order, each below the one before. */
    method PushStrings(strings: seq<seq<Byte>>) returns (ptrs: seq<Word>)
      requires Valid() && (forall i | 0 <= i < |strings| :: Text(strings[i])) && userBase + Size(strings) <= sp
      modifies this`sp, mem
      ensures Valid() && sp == old(sp) - Size(strings) && PointersTo(mem[..], userBase, ptrs, strings)
      ensures |ptrs| == |strings| && forall i | 0 <= i < |ptrs| :: sp <= ptrs[i]
      ensures Same(old(mem[..]), mem[..], old(sp) - userBase)
    {
      ptrs := [];
      for i := 0 to |strings|
        invariant Valid() && sp == old(sp) - SizeTo(strings, i) && |ptrs| == i
          && PointersTo(mem[..], userBase, ptrs, strings)
        invariant forall j | 0 <= j < |ptrs| :: sp <= ptrs[j]
        invariant Same(old(mem[..]), mem[..], old(sp) - userBase)
      {
        SizeGrows(strings, i + 1, |strings|);
        ghost var m, top := mem[..], sp - userBase;
        PushString(strings[i]);
        PointersGrow(m, mem[..], top, userBase, ptrs, strings, sp);
        SameThen(old(mem[..]), m, mem[..], old(sp) - userBase, top);
        ptrs := ptrs + [sp];
      }
    }

    /** One word on top of the words `t`. */
    method PushWord(v: Word, ghost t: seq<Word>)
      requires Valid() && userBase + 8 <= sp && TableAt(mem[..], sp - userBase, t)
      modifies this`sp, mem
      ensures Valid() && sp == old(sp) - 8 && TableAt(mem[..], sp - userBase, [v] + t)
      ensures Same(old(mem[..]), mem[..], old(sp) - userBase)
    {
      sp := sp - 8;
      var at, bytes := Cell(sp), Little(v, 8);
      forall j | 0 <= j < 8 {
        mem[at + j] := bytes[j];
      }
      assert mem[..][at..at + 8] == bytes;
      TableGrows(old(mem[..]), mem[..], at + 8, t, v);
    }

    /** One entry of the auxiliary vector. */
    method PushAux(kind: Word, value: Word, ghost t: seq<Word>)
      requires Valid() && userBase + 16 <= sp && TableAt(mem[..], sp - userBase, t)
      modifies this`sp, mem
      ensures Valid() && sp == old(sp) - 16 && TableAt(mem[..], sp - userBase, [kind, value] + t)
      ensures Same(old(mem[..]), mem[..], old(sp) - userBase)
    {
      PushWord(value, t);
      PushWord(kind, [value] + t);
      assert [kind] + ([value] + t) == [kind, value] + t;
    }

    /** The whole auxiliary vector. */
    method PushVector(entry: Word, phdr: Word, phent: Word, phnum: Word)
      requires Valid() && userBase + 80 <= sp
      modifies this`sp, mem
      ensures Valid() && sp == old(sp) - 80 && TableAt(mem[..], sp - userBase, Aux(entry, phdr, phent, phnum))
      ensures Same(old(mem[..]), mem[..], old(sp) - userBase)
    {
      ghost var t := Aux(entry, phdr, phent, phnum);
      assert t[10..] == [] && t[8..] == [AT_NULL, 0] + t[10..];
      PushAux(AT_NULL, 0, t[10..]);
      assert t[6..] == [AT_ENTRY, entry] + t[8..];
      PushAux(AT_ENTRY, entry, t[8..]);
      assert t[4..] == [AT_PHDR, phdr] + t[6..];
      PushAux(AT_PHDR, phdr, t[6..]);
      assert t[2..] == [AT_PHENT, phent] + t[4..];
      PushAux(AT_PHENT, phent, t[4..]);
      assert t == [AT_PHNUM, phnum] + t[2..];
      PushAux(AT_PHNUM, phnum, t[2..]);
    }

    /** The environment pointers, first to last, so that the last one ends up lowest. */
    method PushForward(ptrs: seq<Word>, ghost t: seq<Word>)
      requires Valid() && userBase + 8 * |ptrs| <= sp && TableAt(mem[..], sp - userBase, t)
      modifies this`sp, mem
      ensures Valid() && sp == old(sp) - 8 * |ptrs| && TableAt(mem[..], sp - userBase, Backwards(ptrs, |ptrs|) + t)
      ensures Same(old(mem[..]), mem[..], old(sp) - userBase)
    {
      assert Backwards(ptrs, 0) + t == t;
      for i := 0 to |ptrs|
        invariant Valid() && sp == old(sp) - 8 * i && TableAt(mem[..], sp - userBase, Backwards(ptrs, i) + t)
        invariant Same(old(mem[..]), mem[..], old(sp) - userBase)
      {
        PushWord(ptrs[i], Backwards(ptrs, i) + t);
        assert [ptrs[i]] + (Backwards(ptrs, i) + t) == Backwards(ptrs, i + 1) + t;
      }
    }

    /** The argument pointers, last to first. */
    method PushBackward(ptrs: seq<Word>, ghost t: seq<Word>)
      requires Valid() && userBase + 8 * |ptrs| <= sp && TableAt(mem[..], sp - userBase, t)
      modifies this`sp, mem
      ensures Valid() && sp == old(sp) - 8 * |ptrs| && TableAt(mem[..], sp - userBase, ptrs + t)
      ensures Same(old(mem[..]), mem[..], old(sp) - userBase)
    {
      assert ptrs[|ptrs|..] + t == t;
      for i := |ptrs| downto 0
        invariant Valid() && sp == old(sp) - 8 * (|ptrs| - i) && TableAt(mem[..], sp - userBase, ptrs[i..] + t)
        invariant Same(old(mem[..]), mem[..], old(sp) - userBase)
      {
        PushWord(ptrs[i], ptrs[i + 1..] + t);
        assert [ptrs[i]] + (ptrs[i + 1..] + t) == ptrs[i..] + t;
      }
      assert ptrs[0..] == ptrs;
    }

    /** Everything below the strings. */
    method PushTable(entry: Word, phdr: Word, phent: Word, phnum: Word, argPtrs: seq<Word>, envPtrs: seq<Word>)
      requires Valid() && userBase + 80 + 8 * (|argPtrs| + |envPtrs| + 3) <= sp
      modifies this`sp, mem
      ensures Valid() && sp == old(sp) - 80 - 8 * (|argPtrs| + |envPtrs| + 3)
      ensures TableAt(mem[..], sp - userBase, Table(argPtrs, envPtrs, Aux(entry, phdr, phent, phnum)))
      ensures Same(old(mem[..]), mem[..], old(sp) - userBase)
    {
      PushVector(entry, phdr, phent, phnum);
      ghost var t := Aux(entry, phdr, phent, phnum);
      PushWord(0, t);
      PushForward(envPtrs, [0] + t);
      t := Backwards(envPtrs, |envPtrs|) + ([0] + t);
      PushWord(0, t);
      PushBackward(argPtrs, [0] + t);
      PushWord(|argPtrs|, argPtrs + ([0] + t));
    }

    /** All strings, then the alignment. */
    method PushAll(args: seq<seq<Byte>>, envs: seq<seq<Byte>>) returns (a: seq<Word>, e: seq<Word>)
      requires Valid() && userBase + Size(args) + Size(envs) <= sp
      requires userBase + 80 + 8 * (|args| + |envs| + 3) <= Aligned(sp - Size(args) - Size(envs), |args| + |envs|)
      requires (forall i | 0 <= i < |args| :: Text(args[i])) && forall i | 0 <= i < |envs| :: Text(envs[i])
      modifies this`sp, mem
      ensures Valid() && sp == Aligned(old(sp) - Size(args) - Size(envs), |args| + |envs|)
      ensures |a| == |args| && PointersTo(mem[..], userBase, a, args) && forall i | 0 <= i < |a| :: sp <= a[i]
      ensures |e| == |envs| && PointersTo(mem[..], userBase, e, envs) && forall i | 0 <= i < |e| :: sp <= e[i]
      ensures Same(old(mem[..]), mem[..], old(sp) - userBase)
    {
      a := PushStrings(args);
      ghost var m, top := mem[..], sp - userBase;
      e := PushStrings(envs);
      PointersKept(m, mem[..], top, userBase, a, args);
      SameThen(old(mem[..]), m, mem[..], old(sp) - userBase, top);
      sp := sp - sp % 16;
      if (|args| + |envs| + 1) % 2 == 1 {
        sp := sp - 8;
      }
    }

    /** `load_elf_exec_load_stack`: a program that reads its entry stack finds its arguments in
        order, its environment in reverse order and the auxiliary vector. */
    method Load(entry: Word, phdr: Word, phent: Word, phnum: Word, args: seq<seq<Byte>>, envs: seq<seq<Byte>>)
      requires Valid() && userBase <= Bottom(sp, args, envs)
      requires (forall i | 0 <= i < |args| :: Text(args[i])) && forall i | 0 <= i < |envs| :: Text(envs[i])
      modifies this`sp, mem
      ensures Valid() && sp == Bottom(old(sp), args, envs) && sp % 16 == 0
      ensures Same(old(mem[..]), mem[..], old(sp) - userBase)
      ensures Read(mem[..], userBase, sp) ==
              Start(|args|, args, Backwards(envs, |envs|),
                    [(AT_PHNUM, phnum), (AT_PHENT, phent), (AT_PHDR, phdr), (AT_ENTRY, entry), (AT_NULL, 0)])
    {
      BottomAligned(sp, args, envs);
      var a, e := PushAll(args, envs);
      ghost var m, top := mem[..], sp - userBase;
      PushTable(entry, phdr, phent, phnum, a, e);
      SameThen(old(mem[..]), m, mem[..], old(sp) - userBase, top);
      PointersKept(m, mem[..], top, userBase, a, args);
      PointersKept(m, mem[..], top, userBase, e, envs);
      ImageReads(mem[..], userBase, sp, entry, phdr, phent, phnum, a, e, args, envs);
    }
  }

  // ---------------------------------------------------------------- the reader

  /** What a program finds on its stack when it starts. */
  datatype Start = Start(argc: nat, args: seq<seq<Byte>>, envs: seq<seq<Byte>>, aux: seq<(nat, nat)>)

  function ReadWord(m: seq<Byte>, i: nat): nat
    requires i + 8 <= |m|
  {
    Value(m[i..i + 8])
  }

  /** The bytes up to the next zero byte. */
  function ReadString(m: seq<Byte>, i: nat): seq<Byte>
    decreases |m| - i
  {
    if i >= |m| || m[i] == 0 then [] else [m[i]] + ReadString(m, i + 1)
  }

  /** The words up to the next zero word. */
  function ReadVector(m: seq<Byte>, i: nat): seq<nat>
    decreases |m| - i
  {
    if i + 8 > |m| || ReadWord(m, i) == 0 then [] else [ReadWord(m, i)] + ReadVector(m, i + 8)
  }

  /** The pairs of words up to one of type `AT_NULL`. */
  function ReadAux(m: seq<Byte>, i: nat): seq<(nat, nat)>
    decreases |m| - i
  {
    if i + 16 > |m| then []
    else
      var pair := (ReadWord(m, i), ReadWord(m, i + 8));
      if pair.0 == AT_NULL then [pair] else [pair] + ReadAux(m, i + 16)
  }

  /** The strings at the user addresses `ptrs`. */
  function Strings(m: seq<Byte>, base: nat, ptrs: seq<nat>): (r: seq<seq<Byte>>)
    ensures |r| == |ptrs|
  {
    seq(|ptrs|, i requires 0 <= i < |ptrs| => if base <= ptrs[i] then ReadString(m, ptrs[i] - base) else [])
  }

  /** The entry stack as the ABI lays it out. */
  function Read(m: seq<Byte>, base: nat, sp: nat): Start
    requires base <= sp
  {
    var i := sp - base;
    var argv := ReadVector(m, i + 8);
    var envv := ReadVector(m, i + 8 * (|argv| + 2));
    Start(if i + 8 <= |m| then ReadWord(m, i) else 0, Strings(m, base, argv), Strings(m, base, envv),
          ReadAux(m, i + 8 * (|argv| + |envv| + 3)))
  }

  lemma WordReads(m: seq<Byte>, i: nat, t: seq<Word>, k: nat)
    requires TableAt(m, i, t) && k < |t|
    ensures i + 8 * k + 8 <= |m| && ReadWord(m, i + 8 * k) == t[k]
  {
    assert Slot(m, i, t, k);
    assert Power(8) == U64;
    LittleRoundTrip(t[k], 8);
  }

  lemma TableSplit(m: seq<Byte>, i: nat, a: seq<Word>, b: seq<Word>)
    requires TableAt(m, i, a + b)
    ensures TableAt(m, i, a) && TableAt(m, i + 8 * |a|, b)
  {
    var t, j := a + b, i + 8 * |a|;
    forall k | 0 <= k < |a| ensures Slot(m, i, a, k) { assert Slot(m, i, t, k); }
    forall k | 0 <= k < |b| ensures Slot(m, j, b, k) { assert Slot(m, i, t, |a| + k); }
  }

  lemma TableTail(m: seq<Byte>, i: nat, w: seq<Word>)
    requires TableAt(m, i, w) && w != []
    ensures TableAt(m, i + 8, w[1..])
  {
    assert [w[0]] + w[1..] == w;
    TableSplit(m, i, [w[0]], w[1..]);
  }

  lemma {:induction false} VectorReads(m: seq<Byte>, i: nat, w: seq<Word>)
    requires TableAt(m, i, w) && TableAt(m, i + 8 * |w|, [0]) && forall k | 0 <= k < |w| :: w[k] != 0
    ensures ReadVector(m, i) == w
    decreases |w|
  {
    if w == [] {
      WordReads(m, i, [0], 0);
    } else {
      WordReads(m, i, w, 0);
      TableTail(m, i, w);
      VectorReads(m, i + 8, w[1..]);
    }
  }

  lemma AuxReads(m: seq<Byte>, i: nat, t: seq<Word>, j: nat)
    requires TableAt(m, i, t) && j + 1 < |t|
    ensures ReadAux(m, i + 8 * j) ==
            [(t[j] as nat, t[j + 1] as nat)] + if t[j] == AT_NULL then [] else ReadAux(m, i + 8 * (j + 2))
  {
    WordReads(m, i, t, j);
    WordReads(m, i, t, j + 1);
    assert i + 8 * (j + 2) == i + 8 * j + 16;
  }

  lemma {:induction false} StringReads(m: seq<Byte>, i: nat, s: seq<Byte>)
    requires StringAt(m, i, s) && Text(s)
    ensures ReadString(m, i) == s
    decreases |s|
  {
    if s != [] {
      assert m[i] == m[i..i + |s|][0];
      assert m[i + 1..i + 1 + |s[1..]|] == m[i..i + |s|][1..];
      StringReads(m, i + 1, s[1..]);
    }
  }

  lemma StringsRead(m: seq<Byte>, base: nat, ptrs: seq<Word>, strings: seq<seq<Byte>>, k: nat)
    requires PointersTo(m, base, ptrs, strings) && k < |ptrs| && Text(strings[k])
    ensures base <= ptrs[k] && ReadString(m, ptrs[k] - base) == strings[k]
  {
    StringReads(m, ptrs[k] - base, strings[k]);
  }

  lemma StringsForward(m: seq<Byte>, base: nat, ptrs: seq<Word>, strings: seq<seq<Byte>>)
    requires PointersTo(m, base, ptrs, strings) && |ptrs| == |strings|
      && forall i | 0 <= i < |strings| :: Text(strings[i])
    ensures Strings(m, base, ptrs) == strings
  {
    var r := Strings(m, base, ptrs);
    forall k | 0 <= k < |r| ensures r[k] == strings[k] {
      StringsRead(m, base, ptrs, strings, k);
    }
  }

  lemma StringsBackward(m: seq<Byte>, base: nat, ptrs: seq<Word>, strings: seq<seq<Byte>>)
    requires PointersTo(m, base, ptrs, strings) && |ptrs| == |strings|
      && forall i | 0 <= i < |strings| :: Text(strings[i])
    ensures Strings(m, base, Backwards(ptrs, |ptrs|)) == Backwards(strings, |strings|)
  {
    var r := Strings(m, base, Backwards(ptrs, |ptrs|));
    forall k | 0 <= k < |r| ensures r[k] == Backwards(strings, |strings|)[k] {
      StringsRead(m, base, ptrs, strings, |ptrs| - 1 - k);
    }
  }

  /** The parts of the table, from the stack pointer up. */
  lemma TableParts(m: seq<Byte>, i: nat, argPtrs: seq<Word>, envPtrs: seq<Word>, aux: seq<Word>)
    requires |argPtrs| < U64 && TableAt(m, i, Table(argPtrs, envPtrs, aux))
    ensures TableAt(m, i, [|argPtrs|]) && TableAt(m, i + 8, argPtrs) && TableAt(m, i + 8 * (|argPtrs| + 1), [0])
    ensures TableAt(m, i + 8 * (|argPtrs| + 2), Backwards(envPtrs, |envPtrs|))
    ensures TableAt(m, i + 8 * (|argPtrs| + |envPtrs| + 2), [0]) && TableAt(m, i + 8 * (|argPtrs| + |envPtrs| + 3), aux)
  {
    var n, back := |argPtrs|, Backwards(envPtrs, |envPtrs|);
    var t1 := [0] + aux;
    var t2 := back + t1;
    var t3 := [0] + t2;
    var t4 := argPtrs + t3;
    TableSplit(m, i, [n], t4);
    TableSplit(m, i + 8, argPtrs, t3);
    TableSplit(m, i + 8 + 8 * n, [0], t2);
    TableSplit(m, i + 8 + 8 * n + 8, back, t1);
    TableSplit(m, i + 8 + 8 * n + 8 + 8 * |back|, [0], aux);
  }

  /** The words a reader meets, in the order in which it reads them. */
  lemma TableReads(m: seq<Byte>, i: nat, argPtrs: seq<Word>, envPtrs: seq<Word>, aux: seq<Word>)
    requires |argPtrs| < U64 && TableAt(m, i, Table(argPtrs, envPtrs, aux))
    requires (forall k | 0 <= k < |argPtrs| :: argPtrs[k] != 0) && forall k | 0 <= k < |envPtrs| :: envPtrs[k] != 0
    ensures i + 8 <= |m| && ReadWord(m, i) == |argPtrs| && ReadVector(m, i + 8) == argPtrs
    ensures ReadVector(m, i + 8 * (|argPtrs| + 2)) == Backwards(envPtrs, |envPtrs|)
    ensures TableAt(m, i + 8 * (|argPtrs| + |envPtrs| + 3), aux)
  {
    TableParts(m, i, argPtrs, envPtrs, aux);
    WordReads(m, i, [|argPtrs|], 0);
    VectorReads(m, i + 8, argPtrs);
    VectorReads(m, i + 8 * (|argPtrs| + 2), Backwards(envPtrs, |envPtrs|));
  }

  /** The pairs of words from index `j` on, down to the one that ends the vector. */
  function Pairs(t: seq<Word>, j: nat): seq<(nat, nat)>
    requires j <= |t|
    decreases |t| - j
  {
    if j + 1 >= |t| then []
    else [(t[j] as nat, t[j + 1] as nat)] + if t[j] == AT_NULL then [] else Pairs(t, j + 2)
  }

  lemma {:induction false} PairsRead(m: seq<Byte>, i: nat, t: seq<Word>, j: nat, n: nat)
    requires TableAt(m, i, t) && 0 < n && |t| == j + 2 * n && t[|t| - 2] == AT_NULL
    ensures ReadAux(m, i + 8 * j) == Pairs(t, j)
    decreases n
  {
    var rest := if t[j] == AT_NULL then [] else ReadAux(m, i + 8 * (j + 2));
    calc {
      ReadAux(m, i + 8 * j);
      { AuxReads(m, i, t, j); }
      [(t[j] as nat, t[j + 1] as nat)] + rest;
      { if t[j] != AT_NULL { PairsRead(m, i, t, j + 2, n - 1); } }
      Pairs(t, j);
    }
  }

  lemma PairsOfAux(entry: Word, phdr: Word, phent: Word, phnum: Word)
    ensures Pairs(Aux(entry, phdr, phent, phnum), 0) ==
            [(AT_PHNUM, phnum as nat), (AT_PHENT, phent), (AT_PHDR, phdr), (AT_ENTRY, entry), (AT_NULL, 0)]
  {
    var t := Aux(entry, phdr, phent, phnum);
    assert Pairs(t, 8) == [(AT_NULL, 0)];
    assert Pairs(t, 6) == [(AT_ENTRY, entry as nat), (AT_NULL, 0)];
    assert Pairs(t, 4) == [(AT_PHDR, phdr as nat), (AT_ENTRY, entry), (AT_NULL, 0)];
    assert Pairs(t, 2) == [(AT_PHENT, phent as nat), (AT_PHDR, phdr), (AT_ENTRY, entry), (AT_NULL, 0)];
  }

  lemma AuxVectorReads(m: seq<Byte>, i: nat, entry: Word, phdr: Word, phent: Word, phnum: Word)
    requires TableAt(m, i, Aux(entry, phdr, phent, phnum))
    ensures ReadAux(m, i) ==
            [(AT_PHNUM, phnum as nat), (AT_PHENT, phent), (AT_PHDR, phdr), (AT_ENTRY, entry), (AT_NULL, 0)]
  {
    PairsRead(m, i, Aux(entry, phdr, phent, phnum), 0, 5);
    PairsOfAux(entry, phdr, phent, phnum);
  }

  lemma BottomAligned(stack: nat, args: seq<seq<Byte>>, envs: seq<seq<Byte>>)
    ensures Bottom(stack, args, envs) % 16 == 0
    ensures Bottom(stack, args, envs) <= stack - Size(args) - Size(envs) - 80 - 8 * (|args| + |envs| + 3)
  {
  }

  /** Writer and reader agree. */
  lemma ImageReads(m: seq<Byte>, base: nat, sp: nat, entry: Word, phdr: Word, phent: Word, phnum: Word,
                   argPtrs: seq<Word>, envPtrs: seq<Word>, args: seq<seq<Byte>>, envs: seq<seq<Byte>>)
    requires 0 < base <= sp && |argPtrs| == |args| < U64 && |envPtrs| == |envs|
    requires TableAt(m, sp - base, Table(argPtrs, envPtrs, Aux(entry, phdr, phent, phnum)))
    requires PointersTo(m, base, argPtrs, args) && PointersTo(m, base, envPtrs, envs)
    requires (forall i | 0 <= i < |args| :: Text(args[i])) && forall i | 0 <= i < |envs| :: Text(envs[i])
    ensures Read(m, base, sp) ==
            Start(|args|, args, Backwards(envs, |envs|),
                  [(AT_PHNUM, phnum), (AT_PHENT, phent), (AT_PHDR, phdr), (AT_ENTRY, entry), (AT_NULL, 0)])
  {
    var i, n, e, aux := sp - base, |args|, |envs|, Aux(entry, phdr, phent, phnum);
    TableReads(m, i, argPtrs, envPtrs, aux);
    AuxVectorReads(m, i + 8 * (n + e + 3), entry, phdr, phent, phnum);
    StringsForward(m, base, argPtrs, args);
    StringsBackward(m, base, envPtrs, envs);
  }
}
