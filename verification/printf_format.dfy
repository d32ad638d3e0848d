/** Formats: how `format_string_loop` takes a format apart, and the output it stands for. */
module PrintfFormat {

  import opened PrintfText
  import opened Machine

  const NUL := '\0'

  /** A character of the format. A format is the memory from its start on; behind what is given
      there are zeros. */
  function At(fmt: string, i: nat): char {
    if i < |fmt| then fmt[i] else NUL
  }

  /** A width or precision: not given, given as a number, or as an argument. */
  datatype Amount = Nothing | Literal(n: nat) | Star

  datatype Directive = Directive(flags: Flags, width: Amount, precision: Amount, conv: char)

  /** `Stop`: the format ends inside the directive and the output ends with it. */
  datatype Parsed = Stop | Parsed(d: Directive, next: nat)

  /** The result of one part of a directive and where the next part starts. */
  datatype Part<T> = Halt | Go(value: T, at: nat)

  // ---------------------------------------------------------------- parts of a directive

  predicate IsFlag(c: char) { c == '0' || c == '-' || c == '+' || c == ' ' || c == '#' }

  function WithFlag(f: Flags, c: char): Flags {
    if c == '0' then f + {Zero}
    else if c == '-' then f + {Left}
    else if c == '+' then f + {Plus}
    else if c == ' ' then f + {Space}
    else if c == '#' then f + {Hash}
    else f
  }

  /** `parse_flags` from `i` on, with the flags found so far. */
  function FlagsAt(fmt: string, i: nat, f: Flags): (Flags, nat)
    decreases |fmt| - i
  {
    if i < |fmt| && IsFlag(fmt[i]) then FlagsAt(fmt, i + 1, WithFlag(f, fmt[i])) else (f, i)
  }

  predicate IsDigit(c: char) { '0' <= c <= '9' }

  /** `atou_` from `i` on, in 32 bits. */
  function AmountAt(fmt: string, i: nat, n: nat): (nat, nat)
    decreases |fmt| - i
  {
    if i < |fmt| && IsDigit(fmt[i]) then AmountAt(fmt, i + 1, (n * 10 + (fmt[i] as nat - 48)) % U32) else (n, i)
  }

  function WidthAt(fmt: string, i: nat): Part<Amount> {
    if IsDigit(At(fmt, i)) then var (n, j) := AmountAt(fmt, i, 0); Go(Literal(n), j)
    else if At(fmt, i) == '*' then (if At(fmt, i + 1) == NUL then Halt else Go(Star, i + 1))
    else Go(Nothing, i)
  }

  /** The precision, and whether there is a dot. */
  function PrecisionAt(fmt: string, i: nat): Part<(bool, Amount)> {
    if At(fmt, i) != '.' then Go((false, Nothing), i)
    else if At(fmt, i + 1) == NUL then Halt
    else match WidthAt(fmt, i + 1)
      case Halt => Halt
      case Go(amount, j) => Go((true, amount), j)
  }

  function WithDot(f: Flags, dot: bool): Flags { if dot then f + {Dot} else f }

  function LengthAt(fmt: string, i: nat, f: Flags): Part<Flags> {
    var c := At(fmt, i);
    if c == 'l' || c == 'h' then
      var g := if c == 'l' then f + {Long} else f + {Short};
      if At(fmt, i + 1) == NUL then Halt
      else if At(fmt, i + 1) != c then Go(g, i + 1)
      else if At(fmt, i + 2) == NUL then Halt
      else Go(if c == 'l' then g + {LongLong} else g + {Tiny}, i + 2)
    else if c == 't' || c == 'j' || c == 'z' then
      (if At(fmt, i + 1) == NUL then Halt else Go(f + {Long}, i + 1))
    else Go(f, i)
  }

  /** The directive whose percent sign is at `i`. The end of the format is taken for a conversion
      if it follows flags or a number. */
  function ParseAt(fmt: string, i: nat): Parsed {
    if At(fmt, i + 1) == NUL then Stop
    else
      var (f, j) := FlagsAt(fmt, i + 1, NO_FLAGS);
      match WidthAt(fmt, j)
      case Halt => Stop
      case Go(width, k) =>
        (match PrecisionAt(fmt, k)
         case Halt => Stop
         case Go(dotted, l) =>
           (match LengthAt(fmt, l, WithDot(f, dotted.0))
            case Halt => Stop
            case Go(g, m) => Parsed(Directive(g, width, dotted.1, At(fmt, m)), m + 1)))
  }

  lemma {:induction false} FlagsAdvance(fmt: string, i: nat, f: Flags)
    ensures i <= FlagsAt(fmt, i, f).1 && (i <= |fmt| ==> FlagsAt(fmt, i, f).1 <= |fmt|)
    decreases |fmt| - i
  {
    if i < |fmt| && IsFlag(fmt[i]) { FlagsAdvance(fmt, i + 1, WithFlag(f, fmt[i])); }
  }

  lemma {:induction false} AmountAdvance(fmt: string, i: nat, n: nat)
    ensures i <= AmountAt(fmt, i, n).1 && (i <= |fmt| ==> AmountAt(fmt, i, n).1 <= |fmt|)
    decreases |fmt| - i
  {
    if i < |fmt| && IsDigit(fmt[i]) { AmountAdvance(fmt, i + 1, (n * 10 + (fmt[i] as nat - 48)) % U32); }
  }

  lemma WidthAdvance(fmt: string, i: nat)
    ensures WidthAt(fmt, i).Go? ==> i <= WidthAt(fmt, i).at && (i <= |fmt| ==> WidthAt(fmt, i).at <= |fmt|)
  {
    AmountAdvance(fmt, i, 0);
  }

  /** A directive has a positive length and ends at the latest with the end of the format. */
  lemma ParseAdvances(fmt: string, i: nat)
    ensures ParseAt(fmt, i).Parsed? ==>
      i + 1 < ParseAt(fmt, i).next && (i < |fmt| ==> ParseAt(fmt, i).next <= |fmt| + 1)
  {
    var (f, j) := FlagsAt(fmt, i + 1, NO_FLAGS);
    FlagsAdvance(fmt, i + 1, NO_FLAGS);
    WidthAdvance(fmt, j);
    match WidthAt(fmt, j)
    case Halt =>
    case Go(width, k) => WidthAdvance(fmt, k + 1);
  }

  ghost predicate Small(a: Amount) { a.Literal? ==> a.n < U32 }

  lemma {:induction false} AmountSmall(fmt: string, i: nat, n: nat)
    requires n < U32
    ensures AmountAt(fmt, i, n).0 < U32
    decreases |fmt| - i
  {
    if i < |fmt| && IsDigit(fmt[i]) { AmountSmall(fmt, i + 1, (n * 10 + (fmt[i] as nat - 48)) % U32); }
  }

  /** Widths and precisions fit 32 bits. */
  lemma ParseSmall(fmt: string, i: nat)
    ensures ParseAt(fmt, i).Parsed? ==> Small(ParseAt(fmt, i).d.width) && Small(ParseAt(fmt, i).d.precision)
  {
    var (f, j) := FlagsAt(fmt, i + 1, NO_FLAGS);
    AmountSmall(fmt, j, 0);
    match WidthAt(fmt, j)
    case Halt =>
    case Go(width, k) => AmountSmall(fmt, k + 1, 0);
  }

  // ---------------------------------------------------------------- the text of a directive

  /** The two's complement number in the low bits of a word; `bits` is the number of values. */
  function SignedOf(word: nat, bits: nat): int
    requires bits in {0x100, U16, U32, U64}
  {
    var x := word % bits;
    if x < bits / 2 then x else x - bits
  }

  /** It lies in the signed range and agrees with the word in its low bits, */
  lemma SignedIs(word: nat, bits: nat) returns (q: int)
    requires bits in {0x100, U16, U32, U64}
    ensures word == SignedOf(word, bits) + q * bits && 0 <= SignedOf(word, bits) + bits / 2 < bits
  {
    q := word / bits;
    assert word == word % bits + q * bits;
    if word % bits >= bits / 2 {
      assert (q + 1) * bits == q * bits + bits;
      q := q + 1;
    }
  }

  /** and is the only number that does. */
  lemma SignedUnique(word: nat, bits: nat, v: int, q: int)
    requires bits in {0x100, U16, U32, U64} && word == v + q * bits
    ensures v == SignedOf(word, bits) <==> 0 <= v + bits / 2 < bits
  {
    var p := SignedIs(word, bits);
    var w := SignedOf(word, bits);
    assert (p - q) * bits == v - w;
    if 0 <= v + bits / 2 < bits { OnlyMultiple(p - q, bits, v - w); }
  }

  lemma OnlyMultiple(k: int, m: nat, x: int)
    requires k * m == x && x < m && 0 < m + x
    ensures k == 0
  {
    Times(if k > 0 then k else 1, m);
    Times(if k < 0 then -k else 1, m);
  }

  lemma Times(k: nat, m: nat)
    requires k > 0
    ensures k * m >= m
  {
    assert (k - 1) * m >= 0;
  }

  /** A width argument; a negative one asks for left alignment. */
  function WidthOf(d: Directive, args: Args, k: nat): (nat, Flags, nat) {
    match d.width
    case Nothing => (0, d.flags, k)
    case Literal(n) => (n, d.flags, k)
    case Star =>
      var w := SignedOf(args(k).word, U32);
      if w < 0 then (-w, d.flags + {Left}, k + 1) else (w, d.flags, k + 1)
  }

  function PrecisionOf(d: Directive, args: Args, k: nat): (nat, nat) {
    match d.precision
    case Nothing => (0, k)
    case Literal(n) => (n, k)
    case Star => var p := SignedOf(args(k).word, U32); (if p > 0 then p else 0, k + 1)
  }

  predicate IsInteger(c: char) {
    c == 'd' || c == 'i' || c == 'u' || c == 'x' || c == 'X' || c == 'o' || c == 'b'
  }

  function BaseOf(c: char): nat {
    if c == 'x' || c == 'X' then 16 else if c == 'o' then 8 else if c == 'b' then 2 else 10
  }

  /** The flags of an integer conversion. */
  function IntegerFlags(c: char, f: Flags): Flags {
    f - (if BaseOf(c) == 10 then {Hash} else {}) + (if c == 'X' then {Upper} else {})
      - (if Dot in f then {Zero} else {}) - (if c == 'd' || c == 'i' then {} else {Plus, Space})
  }

  /** The number of values of an integer argument. */
  function RangeOf(f: Flags): (bits: nat)
    ensures bits in {0x100, U16, U32, U64}
  {
    if LongLong in f || Long in f then U64 else if Tiny in f then 0x100 else if Short in f then U16 else U32
  }

  /** The value of an integer argument. */
  function IntegerOf(c: char, word: nat, f: Flags): int {
    if c == 'd' || c == 'i' then SignedOf(word, RangeOf(f)) else word % RangeOf(f)
  }

  /** It agrees with the argument in its low bits and lies in the signed range for `d` and `i`, in the
      unsigned one otherwise. */
  lemma IntegerOfIs(c: char, word: nat, f: Flags) returns (q: int)
    ensures word == IntegerOf(c, word, f) + q * RangeOf(f)
    ensures var v, range := IntegerOf(c, word, f), RangeOf(f);
      if c == 'd' || c == 'i' then 0 <= v + range / 2 < range else 0 <= v < range
  {
    if c == 'd' || c == 'i' {
      q := SignedIs(word, RangeOf(f));
    } else {
      q := word / RangeOf(f);
    }
  }

  function Magnitude(v: int): nat { if v > 0 then v else -v }

  function IntegerText(c: char, word: nat, precision: nat, width: nat, f: Flags): string {
    var v := IntegerOf(c, word, f);
    Number(Magnitude(v), v < 0, BaseOf(c), precision, width, IntegerFlags(c, f))
  }

  lemma TextIs(c: char, word: nat, precision: nat, width: nat, f: Flags, value: nat, negative: bool, base: nat,
               g: Flags)
    requires var v := IntegerOf(c, word, f); value == Magnitude(v) && negative == (v < 0)
    requires base == BaseOf(c) && g == IntegerFlags(c, f)
    ensures IntegerText(c, word, precision, width, f) == Number(value, negative, base, precision, width, g)
  {
  }

  /** Sign, zeros and digits of an integer conversion fit the buffer if the precision is below its
      size and a field to be filled with zeros is not longer. */
  predicate FitsBuffer(precision: nat, width: nat, f: Flags) {
    precision < INTEGER_BUFFER_SIZE && (Zero in f && Left !in f && Dot !in f ==> width <= INTEGER_BUFFER_SIZE)
  }

  /** Sign, zeros and digits fit the buffer. */
  predicate Fits(value: nat, negative: bool, base: nat, precision: nat, width: nat, f: Flags)
    requires 2 <= base <= 16
  {
    var len := |NumberDigits(value, base, f)|;
    |SignText(negative, f)| + Zeros(len, negative, precision, width, f) + len <= INTEGER_BUFFER_SIZE
  }

  lemma DigitsFit(value: nat, negative: bool, base: nat, precision: nat, width: nat, f: Flags)
    requires value < U64 && base in {2, 8, 10, 16} && precision < INTEGER_BUFFER_SIZE
    requires Zero in f && Left !in f ==> width <= INTEGER_BUFFER_SIZE
    requires base == 2 ==> SignText(negative, f) == ""
    ensures Fits(value, negative, base, precision, width, f)
  {
    if base != 2 { FewDigits(value, base, Upper in f); }
  }

  /** The number an integer conversion prints: what the low 8, 16, 32 or 64 bits of the argument
      stand for, signed for `d` and `i`. */
  function ArgumentValue(c: char, word: nat, f: Flags): int {
    var bits :=
      if Long in f || LongLong in f then U64 else if Tiny in f then 0x100 else if Short in f then U16 else U32;
    if c == 'd' || c == 'i' then SignedOf(word, bits) else word % bits
  }

  lemma ValueIs(c: char, word: nat, f: Flags)
    ensures var v := ArgumentValue(c, word, f);
      IntegerOf(c, word, f) == v && Magnitude(v) < U64 && (v < 0 ==> c == 'd' || c == 'i')
  {
  }

  /** The flags that count: a precision turns zero filling off, unsigned numbers have no sign. */
  function ShownFlags(c: char, f: Flags): Flags {
    f - (if Dot in f then {Zero} else {}) - (if c == 'd' || c == 'i' then {} else {Plus, Space})
  }

  /** The flags that say how a number is placed in its field. */
  const PLACING: Flags := {Zero, Left, Plus, Space}

  lemma FlagsAre(c: char, f: Flags)
    requires IsInteger(c) && (Hash in f ==> c in {'d', 'i', 'u'})
    ensures var g := IntegerFlags(c, f);
      Hash !in g && (Pointer in g ==> Pointer in f) && g * PLACING == ShownFlags(c, f) * PLACING
  {
  }

  lemma BaseIs(c: char)
    requires IsInteger(c)
    ensures BaseOf(c) == (if c == 'o' then 8 else if c == 'b' then 2 else if c == 'x' || c == 'X' then 16 else 10)
    ensures BaseOf(c) in {2, 8, 10, 16}
  {
  }

  /** What an integer conversion without the alternative form prints, whatever its other flags,
      width and precision: spaces, sign, zeros, digits and spaces, where the digits read back as
      the number in the base of the conversion. In base 2 they do exactly below two to the 32. */
  lemma IntegerMeaning(c: char, word: nat, precision: nat, width: nat, f: Flags) returns (digits: string)
    requires IsInteger(c) && FitsBuffer(precision, width, f) && Pointer !in f && (Hash in f ==> c in {'d', 'i', 'u'})
    ensures var v := ArgumentValue(c, word, f);
      var base := if c == 'o' then 8 else if c == 'b' then 2 else if c == 'x' || c == 'X' then 16 else 10;
      && IntegerText(c, word, precision, width, f) ==
         InField(Reversed(digits), v < 0, precision, width, ShownFlags(c, f))
      && (Read(digits, base) == (if v < 0 then -v else v) <==> base != 2 || v < U32)
  {
    ValueIs(c, word, f);
    FlagsAre(c, f);
    BaseIs(c);
    digits := ValueShown(ArgumentValue(c, word, f), BaseOf(c), precision, width, IntegerFlags(c, f), ShownFlags(c, f));
  }

  lemma ValueShown(v: int, base: nat, precision: nat, width: nat, f: Flags, h: Flags) returns (digits: string)
    requires Magnitude(v) < U64 && base in {2, 8, 10, 16} && precision < INTEGER_BUFFER_SIZE
    requires Hash !in f && Pointer !in f
    requires Zero in f && Left !in f ==> width <= INTEGER_BUFFER_SIZE
    requires base == 2 ==> SignText(v < 0, f) == ""
    requires f * PLACING == h * PLACING
    ensures Number(Magnitude(v), v < 0, base, precision, width, f) ==
            InField(Reversed(digits), v < 0, precision, width, h)
    ensures Read(digits, base) == Magnitude(v) <==> base != 2 || Magnitude(v) < U32
  {
    var value := Magnitude(v);
    digits := NumberDigits(value, base, f);
    DigitsFit(value, v < 0, base, precision, width, f);
    NumberReads(value, base, f);
    NumberInField(value, v < 0, base, precision, width, f);
    SameField(Reversed(digits), v < 0, precision, width, f, h);
  }

  /** Only the flags for signs, zeros and alignment matter. */
  lemma SameField(digits: string, negative: bool, precision: nat, width: nat, f: Flags, g: Flags)
    requires f * PLACING == g * PLACING
    ensures InField(digits, negative, precision, width, f) == InField(digits, negative, precision, width, g)
  {
    assert forall x | x in PLACING :: x in f <==> x in f * PLACING;
    assert forall x | x in PLACING :: x in g <==> x in g * PLACING;
  }

  /** Text in a field, with spaces before or behind it. */
  function Field(text: string, len: nat, width: nat, left: bool): string {
    var spaces := Repeat(' ', Missing(len, width));
    if left then text + spaces else spaces + text
  }

  function StringText(text: Option<string>, precision: nat, width: nat, f: Flags): string {
    match text
    case None => OutRev(")llun(", width, f)
    case Some(s) =>
      var l := Min(|s|, if precision > 0 then precision else INT_MAX);
      var shown := if Dot in f then Min(l, precision) else l;
      Field(if Dot in f then s[..Min(|s|, precision)] else s, shown, width, Left in f)
  }

  const POINTER_WIDTH := 18

  function PointerText(word: nat, precision: nat, f: Flags): string {
    var g := f + {Zero, Pointer};
    if word % U64 == 0 then OutRev(")lin(", POINTER_WIDTH, g)
    else Number(word % U64, false, 16, precision, POINTER_WIDTH, g)
  }

  /** What a conversion prints, given its width, precision and flags. */
  function ConversionText(c: char, arg: Arg, precision: nat, width: nat, f: Flags): string {
    if IsInteger(c) then IntegerText(c, arg.word, precision, width, f)
    else if c == 'c' then Field([(arg.word % 0x100) as char], 1, width, Left in f)
    else if c == 's' then StringText(arg.text, precision, width, f)
    else if c == 'p' then PointerText(arg.word, precision, f)
    else if c == 'n' then []
    else [c]
  }

  predicate TakesArgument(c: char) {
    IsInteger(c) || c == 'c' || c == 's' || c == 'p' || c == 'n'
  }

  /** The text of a directive and the number of the next argument. */
  function DirectiveText(d: Directive, args: Args, k: nat): (string, nat) {
    var (width, f, k1) := WidthOf(d, args, k);
    var (precision, k2) := PrecisionOf(d, args, k1);
    (ConversionText(d.conv, args(k2), precision, width, f), if TakesArgument(d.conv) then k2 + 1 else k2)
  }

  // ---------------------------------------------------------------- the output of a format

  /** Everything printed from position `i` of the format and argument `k` on. */
  function Output(fmt: string, i: nat, args: Args, k: nat): string
    decreases |fmt| - i
  {
    if At(fmt, i) == NUL then []
    else if fmt[i] != '%' then [fmt[i]] + Output(fmt, i + 1, args, k)
    else
      ParseAdvances(fmt, i);
      match ParseAt(fmt, i)
      case Stop => []
      case Parsed(d, next) =>
        var (text, k') := DirectiveText(d, args, k);
        text + Output(fmt, next, args, k')
  }

  /** What is still to be printed. */
  ghost function Rest(fmt: string, i: nat, args: Args, k: nat, more: bool): string {
    if more then Output(fmt, i, args, k) else []
  }
}
