/** What a format prints in the terms of section 7.21.6.1 of ISO/IEC 9899:2011: the text of each
    conversion, exactly when the kernel prints it so, and the text of a whole format. */
module PrintfMeaning {

  import opened PrintfText
  import opened PrintfFormat
  import opened PrintfNumbers
  import opened PrintfDirectives
  import opened Machine

  // ---------------------------------------------------------------- the text of a conversion

  predicate Whole(c: char) { c in {'d', 'i', 'u', 'o', 'x', 'X', 'b'} }

  function BaseFor(c: char): nat {
    if c == 'o' then 8 else if c == 'b' then 2 else if c == 'x' || c == 'X' then 16 else 10
  }

  /** The sign of a signed conversion. */
  function SignFor(c: char, v: int, f: Flags): string {
    if c == 'd' || c == 'i' then SignText(v < 0, f) else ""
  }

  /** An integer without the spaces around it. Zeros fill the field if there is no precision; the
      alternative form is for bases other than ten. */
  function IntegerBody(c: char, v: int, f: Flags, precision: nat, width: nat): string
    requires Whole(c)
  {
    var base, n := BaseFor(c), if v < 0 then -v else v;
    var alternative := Hash in f && base != 10 && (v != 0 || (Dot in f && base != 16));
    Body(DigitsOf(n, base, c == 'X', Dot in f), SignFor(c, v, f), MarkText(alternative, base, c == 'X'),
         base == 8 && alternative, precision, if Zero in f && Left !in f && Dot !in f then width else 0)
  }

  /** The value of the argument of an integer conversion. */
  function ValueFor(c: char, word: nat, bits: nat): int
    requires bits in {0x100, U16, U32, U64}
  {
    if c == 'd' || c == 'i' then SignedOf(word, bits) else word % bits
  }

  /** A string, cut at the precision. The text for NULL is cut by nothing and not moved to the right
      in a field to be filled with zeros. */
  function StringShown(text: Option<string>, f: Flags, precision: nat, width: nat): string {
    match text
    case None => Placed("(null)", if Zero in f && Left !in f then 0 else width, Left in f)
    case Some(s) => Placed(if Dot in f then s[..Min(|s|, precision)] else s, width, Left in f)
  }

  /** An address: a prefix and sixteen hexadecimal digits, eighteen if there is a precision. */
  function PointerBody(address: nat, f: Flags, precision: nat): string {
    Body(Numeral(address, 16, false), SignText(false, f), "0x", false, precision,
         if Left in f then 0 else if Dot in f then 20 else 18)
  }

  function PointerShown(address: nat, f: Flags, precision: nat): string {
    if address == 0 then Placed("(nil)", if Left in f then 18 else 0, Left in f)
    else Placed(PointerBody(address, f, precision), 18, Left in f)
  }

  /** What a conversion prints. One that is not known prints its own character, the percent sign among
      them. */
  function Shown(c: char, arg: Arg, bits: nat, f: Flags, precision: nat, width: nat): string
    requires bits in {0x100, U16, U32, U64}
  {
    if Whole(c) then Placed(IntegerBody(c, ValueFor(c, arg.word, bits), f, precision, width), width, Left in f)
    else if c == 'c' then Placed([(arg.word % 0x100) as char], width, Left in f)
    else if c == 's' then StringShown(arg.text, f, precision, width)
    else if c == 'p' then PointerShown(arg.word % U64, f, precision)
    else if c == 'n' then ""
    else [c]
  }

  /** The buffer is long enough, or a space for the sign is all that does not fit, and the field has
      another one. */
  predicate Enough(body: string, sign: string, width: nat, spaced: bool) {
    |body| <= 32 || (|body| == 33 && sign == " " && spaced && width > 32)
  }

  /** Where the kernel's implementation meets its limits. */
  predicate Printable(c: char, arg: Arg, bits: nat, f: Flags, precision: nat, width: nat)
    requires bits in {0x100, U16, U32, U64}
  {
    if Whole(c) then
      var v := ValueFor(c, arg.word, bits);
      Enough(IntegerBody(c, v, f, precision, width), SignFor(c, v, f), width, Left !in f && (Zero !in f || Dot in f))
    else if c == 's' && arg.text.Some? then Dot in f || |arg.text.value| <= INT_MAX || width <= INT_MAX
    else if c == 'p' then arg.word % U64 == 0 || |PointerBody(arg.word % U64, f, precision)| <= 32
    else true
  }

  // ---------------------------------------------------------------- when it is printed

  /** What is true of the flags and the precision of every directive. */
  ghost predicate Parsable(f: Flags, precision: nat) {
    Upper !in f && Pointer !in f && (Dot !in f ==> precision == 0)
  }

  lemma IntegerBodyIs(c: char, v: int, f: Flags, precision: nat, width: nat)
    requires Whole(c) && Parsable(f, precision) && (v < 0 ==> c == 'd' || c == 'i')
    ensures var g := IntegerFlags(c, f);
      && Sensible(BaseOf(c), precision, g) && SignText(v < 0, g) == SignFor(c, v, f)
      && (Left in g <==> Left in f) && (Zero in g <==> Zero in f && Dot !in f)
      && NumberBody(Magnitude(v), v < 0, BaseOf(c), precision, width, g) == IntegerBody(c, v, f, precision, width)
  {
    IntegerFlagsAre(c, f);
    BaseIs(c);
    var g := IntegerFlags(c, f);
    assert SignText(v < 0, g) == SignFor(c, v, f);
    assert Alternative(Magnitude(v), BaseOf(c), g) ==
           (Hash in f && BaseFor(c) != 10 && (v != 0 || (Dot in f && BaseFor(c) != 16)));
  }

  lemma IntegerFlagsAre(c: char, f: Flags)
    requires Whole(c) && Upper !in f && Pointer !in f
    ensures var g := IntegerFlags(c, f);
      && (Hash in g <==> Hash in f && BaseFor(c) != 10) && (Upper in g <==> c == 'X') && Pointer !in g
      && (Left in g <==> Left in f) && (Dot in g <==> Dot in f) && (Zero in g <==> Zero in f && Dot !in f)
      && (Plus in g <==> Plus in f && (c == 'd' || c == 'i')) && (Space in g <==> Space in f && (c == 'd' || c == 'i'))
  {
  }

  /** An integer is printed as defined exactly if the buffer is long enough. */
  lemma IntegerExact(c: char, word: nat, f: Flags, precision: nat, width: nat)
    requires Whole(c) && Parsable(f, precision)
    ensures var arg, bits := Arg(word, None), RangeOf(f);
      IntegerText(c, word, precision, width, f) == Shown(c, arg, bits, f, precision, width) <==>
      Printable(c, arg, bits, f, precision, width)
  {
    var v, g := IntegerOf(c, word, f), IntegerFlags(c, f);
    IntegerBodyIs(c, v, f, precision, width);
    NumberExact(Magnitude(v), v < 0, BaseOf(c), precision, width, g);
  }

  lemma PointerBodyIs(address: nat, f: Flags, precision: nat)
    requires address > 0 && Parsable(f, precision)
    ensures var g := f + {Zero, Pointer};
      && Sensible(16, precision, g)
      && NumberBody(address, false, 16, precision, 18, g) == PointerBody(address, f, precision)
  {
  }

  lemma PointerExact(word: nat, f: Flags, precision: nat)
    requires Parsable(f, precision)
    ensures PointerText(word, precision, f) == PointerShown(word % U64, f, precision) <==>
            word % U64 == 0 || |PointerBody(word % U64, f, precision)| <= 32
  {
    var address, g := word % U64, f + {Zero, Pointer};
    if address == 0 {
      assert Reversed(")lin(") == "(nil)";
    } else {
      PointerBodyIs(address, f, precision);
      NumberExact(address, false, 16, precision, 18, g);
    }
  }

  lemma StringExact(text: Option<string>, f: Flags, precision: nat, width: nat)
    requires Dot !in f ==> precision == 0
    ensures StringText(text, precision, width, f) == StringShown(text, f, precision, width) <==>
            (text.Some? ==> Dot in f || |text.value| <= INT_MAX || width <= INT_MAX)
  {
    match text
    case None => assert Reversed(")llun(") == "(null)";
    case Some(s) =>
  }

  /** Every conversion is printed as defined exactly if it is printable. */
  lemma ShownExact(c: char, arg: Arg, f: Flags, precision: nat, width: nat)
    requires Parsable(f, precision)
    ensures ConversionText(c, arg, precision, width, f) == Shown(c, arg, RangeOf(f), f, precision, width) <==>
            Printable(c, arg, RangeOf(f), f, precision, width)
  {
    if Whole(c) {
      IntegerExact(c, arg.word, f, precision, width);
    } else if c == 's' {
      StringExact(arg.text, f, precision, width);
    } else if c == 'p' {
      PointerExact(arg.word, f, precision);
    }
  }

  // ---------------------------------------------------------------- the text of a directive

  function BitsFor(l: Length): (bits: nat)
    ensures bits in {0x100, U16, U32, U64}
  {
    match l
    case Usual => U32
    case HH => 0x100
    case H => U16
    case _ => U64
  }

  /** A width and whether it asks for left alignment, a precision, and how many arguments they take. */
  function WidthFor(g: Given, args: Args, k: nat): (nat, bool)
    requires g.Written? ==> Digital(g.digits)
  {
    match g
    case Absent => (0, false)
    case Written(digits) => (Decimal(digits) % U32, false)
    case Argument => var w := SignedOf(args(k).word, U32); (if w < 0 then -w else w, w < 0)
  }

  function PrecisionFor(g: Given, args: Args, k: nat): nat
    requires g.Written? ==> Digital(g.digits)
  {
    match g
    case Absent => 0
    case Written(digits) => Decimal(digits) % U32
    case Argument => var p := SignedOf(args(k).word, U32); if p < 0 then 0 else p
  }

  function Taken(g: Given): nat { if g.Argument? then 1 else 0 }

  predicate NeedsArgument(c: char) { Whole(c) || c == 'c' || c == 's' || c == 'p' || c == 'n' }

  /** The flags in effect. */
  function FlagsFor(d: Spec, args: Args, k: nat): Flags
    requires WellFormed(d)
  {
    FlagSet(d.flags) + (if d.dot then {Dot} else {}) + (if WidthFor(d.width, args, k).1 then {Left} else {})
  }

  /** The text of a directive whose first argument is number `k`, */
  function Meaning(d: Spec, args: Args, k: nat): string
    requires WellFormed(d)
  {
    var m := k + Taken(d.width);
    Shown(d.conv, args(m + Taken(d.precision)), BitsFor(d.length), FlagsFor(d, args, k),
          PrecisionFor(d.precision, args, m), WidthFor(d.width, args, k).0)
  }

  /** whether the kernel can print it, */
  predicate Possible(d: Spec, args: Args, k: nat)
    requires WellFormed(d)
  {
    var m := k + Taken(d.width);
    Printable(d.conv, args(m + Taken(d.precision)), BitsFor(d.length), FlagsFor(d, args, k),
              PrecisionFor(d.precision, args, m), WidthFor(d.width, args, k).0)
  }

  /** and the number of the argument after it. */
  function NextArgument(d: Spec, k: nat): nat {
    k + Taken(d.width) + Taken(d.precision) + if NeedsArgument(d.conv) then 1 else 0
  }

  lemma FlagSetIs(s: string)
    ensures Upper !in FlagSet(s) && Pointer !in FlagSet(s) && Dot !in FlagSet(s)
    ensures Tiny !in FlagSet(s) && Short !in FlagSet(s) && Long !in FlagSet(s) && LongLong !in FlagSet(s)
  {
  }

  /** The length modifier says how long the argument is, and nothing else. */
  lemma LengthIs(f: Flags, length: Length)
    requires Tiny !in f && Short !in f && Long !in f && LongLong !in f
    ensures var g := f + LengthFlags(length); RangeOf(g) == BitsFor(length) && Alike(f, g)
  {
  }

  /** The flags that count for the text are the same. */
  ghost predicate Alike(f: Flags, g: Flags) {
    forall x | x in {Zero, Left, Plus, Space, Hash, Dot, Upper, Pointer} :: x in f <==> x in g
  }

  lemma AlikeShown(c: char, arg: Arg, bits: nat, f: Flags, g: Flags, precision: nat, width: nat)
    requires bits in {0x100, U16, U32, U64} && Alike(f, g)
    ensures Shown(c, arg, bits, f, precision, width) == Shown(c, arg, bits, g, precision, width)
    ensures Printable(c, arg, bits, f, precision, width) <==> Printable(c, arg, bits, g, precision, width)
  {
    var v, address := ValueFor(c, arg.word, bits), arg.word % U64;
    if Whole(c) { AlikeInteger(c, v, f, g, precision, width); }
    if c == 'p' { AlikePointer(address, f, g, precision); }
  }

  lemma AlikeInteger(c: char, v: int, f: Flags, g: Flags, precision: nat, width: nat)
    requires Whole(c) && Alike(f, g)
    ensures IntegerBody(c, v, f, precision, width) == IntegerBody(c, v, g, precision, width)
    ensures SignFor(c, v, f) == SignFor(c, v, g)
  {
    assert SignText(v < 0, f) == SignText(v < 0, g);
  }

  lemma AlikePointer(address: nat, f: Flags, g: Flags, precision: nat)
    requires Alike(f, g)
    ensures PointerBody(address, f, precision) == PointerBody(address, g, precision)
  {
    assert SignText(false, f) == SignText(false, g);
  }

  /** The width, the flags and the precision that the directive leads to. */
  lemma SizesAre(d: Spec, args: Args, k: nat)
    requires WellFormed(d)
    ensures var e, m := DirectiveOf(d), k + Taken(d.width);
      && WidthOf(e, args, k) ==
         (WidthFor(d.width, args, k).0, FlagsFor(d, args, k) + LengthFlags(d.length), m)
      && PrecisionOf(e, args, m) == (PrecisionFor(d.precision, args, m), m + Taken(d.precision))
  {
    var f, l := WithDot(FlagSet(d.flags), d.dot), LengthFlags(d.length);
    assert f == FlagSet(d.flags) + if d.dot then {Dot} else {};
    assert f + l + {Left} == f + {Left} + l;
    assert f + {} == f;
  }

  lemma TextFrom(e: Directive, args: Args, k: nat, width: nat, f: Flags, k1: nat, precision: nat, k2: nat)
    requires WidthOf(e, args, k) == (width, f, k1) && PrecisionOf(e, args, k1) == (precision, k2)
    ensures DirectiveText(e, args, k) ==
            (ConversionText(e.conv, args(k2), precision, width, f), if NeedsArgument(e.conv) then k2 + 1 else k2)
  {
  }

  lemma ConversionExact(c: char, arg: Arg, f: Flags, length: Length, precision: nat, width: nat)
    requires Parsable(f, precision)
    requires Tiny !in f && Short !in f && Long !in f && LongLong !in f
    ensures ConversionText(c, arg, precision, width, f + LengthFlags(length)) ==
            Shown(c, arg, BitsFor(length), f, precision, width) <==>
            Printable(c, arg, BitsFor(length), f, precision, width)
  {
    var g := f + LengthFlags(length);
    LengthIs(f, length);
    ShownExact(c, arg, g, precision, width);
    AlikeShown(c, arg, BitsFor(length), f, g, precision, width);
  }

  lemma FlagsFit(d: Spec, args: Args, k: nat, m: nat)
    requires WellFormed(d)
    ensures var f := FlagsFor(d, args, k);
      && Parsable(f, PrecisionFor(d.precision, args, m))
      && Tiny !in f && Short !in f && Long !in f && LongLong !in f
  {
    FlagSetIs(d.flags);
  }

  lemma DirectiveWith(e: Directive, args: Args, k: nat, f: Flags, length: Length, width: nat, precision: nat, m: nat,
                      n: nat)
    requires Parsable(f, precision)
    requires Tiny !in f && Short !in f && Long !in f && LongLong !in f
    requires WidthOf(e, args, k) == (width, f + LengthFlags(length), m) && PrecisionOf(e, args, m) == (precision, n)
    ensures DirectiveText(e, args, k).1 == n + if NeedsArgument(e.conv) then 1 else 0
    ensures DirectiveText(e, args, k).0 == Shown(e.conv, args(n), BitsFor(length), f, precision, width) <==>
            Printable(e.conv, args(n), BitsFor(length), f, precision, width)
  {
    TextFrom(e, args, k, width, f + LengthFlags(length), m, precision, n);
    ConversionExact(e.conv, args(n), f, length, precision, width);
  }

  /** The settings a directive leads to. */
  lemma Settings(d: Spec, args: Args, k: nat) returns (f: Flags, width: nat, precision: nat, m: nat, n: nat)
    requires WellFormed(d)
    ensures Parsable(f, precision) && Tiny !in f && Short !in f && Long !in f && LongLong !in f
    ensures WidthOf(DirectiveOf(d), args, k) == (width, f + LengthFlags(d.length), m)
    ensures PrecisionOf(DirectiveOf(d), args, m) == (precision, n)
    ensures Meaning(d, args, k) == Shown(d.conv, args(n), BitsFor(d.length), f, precision, width)
    ensures Possible(d, args, k) == Printable(d.conv, args(n), BitsFor(d.length), f, precision, width)
    ensures NextArgument(d, k) == n + if NeedsArgument(d.conv) then 1 else 0
  {
    f, width, m := FlagsFor(d, args, k), WidthFor(d.width, args, k).0, k + Taken(d.width);
    precision, n := PrecisionFor(d.precision, args, m), m + Taken(d.precision);
    SizesAre(d, args, k);
    FlagsFit(d, args, k, m);
  }

  /** A directive prints what it means exactly if the kernel can print it. */
  lemma DirectiveExact(d: Spec, args: Args, k: nat)
    requires WellFormed(d)
    ensures DirectiveText(DirectiveOf(d), args, k).1 == NextArgument(d, k)
    ensures DirectiveText(DirectiveOf(d), args, k).0 == Meaning(d, args, k) <==> Possible(d, args, k)
  {
    var f, width, precision, m, n := Settings(d, args, k);
    DirectiveWith(DirectiveOf(d), args, k, f, d.length, width, precision, m, n);
  }

  // ---------------------------------------------------------------- the text of a format

  /** Ordinary characters, or a directive. */
  datatype Piece = Plain(text: string) | Conversion(d: Spec)

  predicate Proper(p: Piece) {
    match p
    case Plain(text) => forall i | 0 <= i < |text| :: text[i] != '%' && text[i] != NUL
    case Conversion(d) => WellFormed(d)
  }

  predicate AllProper(ps: seq<Piece>) { forall i | 0 <= i < |ps| :: Proper(ps[i]) }

  function PieceText(p: Piece): string {
    match p case Plain(text) => text case Conversion(d) => Spell(d)
  }

  /** The text of a piece whose first argument is number `k`, whether the kernel can print it, and the
      number of the argument after it. */
  function PieceMeaning(p: Piece, args: Args, k: nat): string
    requires Proper(p)
  {
    match p case Plain(text) => text case Conversion(d) => Meaning(d, args, k)
  }

  predicate PiecePossible(p: Piece, args: Args, k: nat)
    requires Proper(p)
  {
    match p case Plain(_) => true case Conversion(d) => Possible(d, args, k)
  }

  function PieceNext(p: Piece, k: nat): nat {
    match p case Plain(_) => k case Conversion(d) => NextArgument(d, k)
  }

  /** The first `q` texts, one after the other. */
  function Concat(ts: seq<string>, q: nat): string
    requires q <= |ts|
  {
    if q == 0 then "" else Concat(ts, q - 1) + ts[q - 1]
  }

  function Spellings(ps: seq<Piece>): (ts: seq<string>)
    ensures |ts| == |ps|
  {
    seq(|ps|, q requires 0 <= q < |ps| => PieceText(ps[q]))
  }

  /** The format that is written with the pieces. */
  function Format(ps: seq<Piece>): string { Concat(Spellings(ps), |ps|) }

  /** The number of the argument after the first `q` pieces. */
  function ArgumentAt(ps: seq<Piece>, q: nat): nat
    requires q <= |ps|
  {
    if q == 0 then 0 else PieceNext(ps[q - 1], ArgumentAt(ps, q - 1))
  }

  function Texts(ps: seq<Piece>, args: Args): (ts: seq<string>)
    requires AllProper(ps)
    ensures |ts| == |ps|
  {
    seq(|ps|, q requires 0 <= q < |ps| => PieceMeaning(ps[q], args, ArgumentAt(ps, q)))
  }

  /** What the pieces mean, one after the other. */
  function FormatMeaning(ps: seq<Piece>, args: Args): string
    requires AllProper(ps)
  {
    Concat(Texts(ps, args), |ps|)
  }

  predicate AllPossible(ps: seq<Piece>, args: Args)
    requires AllProper(ps)
  {
    forall q | 0 <= q < |ps| :: PiecePossible(ps[q], args, ArgumentAt(ps, q))
  }

  /** What is printed from a place in the format and an argument on. */
  type Out = (nat, nat) -> string

  /** An ordinary character at `i` is printed, */
  ghost predicate PrintsChar(out: Out, fmt: string, i: nat, k: nat) {
    i < |fmt| && fmt[i] != '%' && fmt[i] != NUL ==> out(i, k) == [fmt[i]] + out(i + 1, k)
  }

  /** and a directive at `i` prints its meaning. */
  ghost predicate PrintsDirective(out: Out, fmt: string, i: nat, args: Args, k: nat, d: Spec) {
    WellFormed(d) && Has(fmt, i, Spell(d)) && Possible(d, args, k) ==>
      out(i, k) == Meaning(d, args, k) + out(i + |Spell(d)|, NextArgument(d, k))
  }

  ghost predicate Prints(out: Out, fmt: string, args: Args) {
    && (forall i: nat, k: nat :: PrintsChar(out, fmt, i, k))
    && (forall i: nat, k: nat, d: Spec :: PrintsDirective(out, fmt, i, args, k, d))
  }

  /** Ordinary characters print themselves. */
  lemma {:induction false} PlainPrinted(out: Out, fmt: string, i: nat, text: string, args: Args, k: nat)
    requires Prints(out, fmt, args) && Has(fmt, i, text) && Proper(Plain(text))
    ensures out(i, k) == text + out(i + |text|, k)
    decreases |text|
  {
    if text == [] {
      assert text + out(i, k) == out(i, k);
    } else {
      HasFirst(fmt, i, text);
      assert PrintsChar(out, fmt, i, k);
      PlainPrinted(out, fmt, i + 1, text[1..], args, k);
      Rejoined(text[0], text, out(i + |text|, k));
    }
  }

  lemma Rejoined(c: char, text: string, last: string)
    requires text != [] && text[0] == c
    ensures [c] + (text[1..] + last) == text + last
  {
  }

  lemma DirectiveGives(d: Spec, args: Args, k: nat) returns (text: string)
    requires WellFormed(d) && Possible(d, args, k)
    ensures DirectiveText(DirectiveOf(d), args, k) == (text, NextArgument(d, k)) && text == Meaning(d, args, k)
  {
    DirectiveExact(d, args, k);
    text := DirectiveText(DirectiveOf(d), args, k).0;
  }

  /** A directive as it is taken apart is printed. */
  ghost predicate PrintsParsed(out: Out, fmt: string, i: nat, args: Args, k: nat, e: Directive, next: nat) {
    At(fmt, i) == '%' && ParseAt(fmt, i) == Parsed(e, next) ==>
      out(i, k) == DirectiveText(e, args, k).0 + out(next, DirectiveText(e, args, k).1)
  }

  lemma ParsedPrinted(out: Out, fmt: string, i: nat, args: Args, k: nat, d: Spec, text: string, k': nat)
    requires Has(fmt, i, Spell(d)) && WellFormed(d) && DirectiveText(DirectiveOf(d), args, k) == (text, k')
    requires PrintsParsed(out, fmt, i, args, k, DirectiveOf(d), i + |Spell(d)|)
    ensures out(i, k) == text + out(i + |Spell(d)|, k')
  {
    ParsedBack(fmt, i, d);
    SpellParts(fmt, i, d);
  }

  /** So its meaning is. */
  lemma ConversionPrinted(out: Out, fmt: string, i: nat, d: Spec, args: Args, k: nat)
    requires WellFormed(d) ==> PrintsParsed(out, fmt, i, args, k, DirectiveOf(d), i + |Spell(d)|)
    ensures PrintsDirective(out, fmt, i, args, k, d)
  {
    if WellFormed(d) && Has(fmt, i, Spell(d)) && Possible(d, args, k) {
      var text := DirectiveGives(d, args, k);
      ParsedPrinted(out, fmt, i, args, k, d, text, NextArgument(d, k));
    }
  }

  lemma DirectivePrinted(out: Out, fmt: string, i: nat, d: Spec, args: Args, k: nat, text: string)
    requires WellFormed(d) && Possible(d, args, k) && Has(fmt, i, Spell(d))
    requires PrintsDirective(out, fmt, i, args, k, d) && text == Meaning(d, args, k)
    ensures out(i, k) == text + out(i + |Spell(d)|, NextArgument(d, k))
  {
  }

  /** One piece. */
  lemma PiecePrinted(out: Out, fmt: string, i: nat, p: Piece, args: Args, k: nat)
    requires Prints(out, fmt, args) && Proper(p) && PiecePossible(p, args, k) && Has(fmt, i, PieceText(p))
    ensures out(i, k) == PieceMeaning(p, args, k) + out(i + |PieceText(p)|, PieceNext(p, k))
  {
    match p
    case Plain(text) => PlainPrinted(out, fmt, i, text, args, k);
    case Conversion(d) => DirectivePrinted(out, fmt, i, d, args, k, Meaning(d, args, k));
  }

  /** Every text is at its place. */
  lemma {:induction false} ConcatHas(ts: seq<string>, q: nat, n: nat)
    requires q < n <= |ts|
    ensures Has(Concat(ts, n), |Concat(ts, q)|, ts[q]) && |Concat(ts, q + 1)| == |Concat(ts, q)| + |ts[q]|
    decreases n
  {
    var front := Concat(ts, n - 1);
    if q + 1 < n {
      ConcatHas(ts, q, n - 1);
      HasLonger(front, |Concat(ts, q)|, ts[q], ts[n - 1]);
    } else {
      HasEnd(front, ts[q]);
    }
  }

  lemma HasLonger(fmt: string, i: nat, s: string, more: string)
    requires Has(fmt, i, s)
    ensures Has(fmt + more, i, s)
  {
    assert (fmt + more)[i..i + |s|] == fmt[i..i + |s|];
  }

  lemma HasEnd(front: string, s: string)
    ensures Has(front + s, |front|, s)
  {
  }

  /** From place `i` and argument `k` on, `t` is printed and `s` is passed. */
  ghost predicate Step(out: Out, i: nat, k: nat, s: string, t: string, k': nat) {
    out(i, k) == t + out(i + |s|, k')
  }

  /** That is so for the `p`-th of these texts. */
  ghost predicate StepOf(out: Out, ss: seq<string>, ts: seq<string>, ks: seq<nat>, p: nat)
    requires |ss| == |ts| == |ks| - 1 && p < |ts|
  {
    Step(out, |Concat(ss, p)|, ks[p], ss[p], ts[p], ks[p + 1])
  }

  /** If every step prints one text and goes on, the texts are printed one after the other. */
  lemma {:induction false} StepsJoin(out: Out, ss: seq<string>, ts: seq<string>, ks: seq<nat>, q: nat)
    requires |ss| == |ts| == |ks| - 1 && q <= |ts|
    requires forall p | 0 <= p < |ts| :: StepOf(out, ss, ts, ks, p)
    ensures out(0, ks[0]) == Concat(ts, q) + out(|Concat(ss, q)|, ks[q])
  {
    if q == 0 {
      assert "" + out(0, ks[0]) == out(0, ks[0]);
    } else {
      var i, last := |Concat(ss, q - 1)|, out(|Concat(ss, q)|, ks[q]);
      calc {
        out(0, ks[0]);
        { StepsJoin(out, ss, ts, ks, q - 1); }
        Concat(ts, q - 1) + out(i, ks[q - 1]);
        { assert StepOf(out, ss, ts, ks, q - 1); }
        Concat(ts, q - 1) + (ts[q - 1] + last);
        { Regrouped(Concat(ts, q - 1), ts[q - 1], last); }
        Concat(ts, q - 1) + ts[q - 1] + last;
      }
    }
  }

  lemma Regrouped(a: string, b: string, c: string)
    ensures a + (b + c) == a + b + c
  {
  }

  /** The step of one piece. */
  lemma PieceStep(out: Out, args: Args, p: Piece, ss: seq<string>, t: string, k: nat, k': nat, q: nat)
    requires Prints(out, Concat(ss, |ss|), args) && Proper(p) && PiecePossible(p, args, k) && q < |ss|
    requires ss[q] == PieceText(p) && t == PieceMeaning(p, args, k) && k' == PieceNext(p, k)
    ensures Step(out, |Concat(ss, q)|, k, ss[q], t, k')
  {
    ConcatHas(ss, q, |ss|);
    PiecePrinted(out, Concat(ss, |ss|), |Concat(ss, q)|, p, args, k);
  }

  /** The numbers of the arguments before and after each piece. */
  ghost function Arguments(ps: seq<Piece>): (ks: seq<nat>)
    ensures |ks| == |ps| + 1 && ks[0] == 0 && forall q | 0 <= q < |ps| :: ks[q + 1] == PieceNext(ps[q], ks[q])
    ensures forall q | 0 <= q <= |ps| :: ks[q] == ArgumentAt(ps, q)
  {
    seq(|ps| + 1, q requires 0 <= q <= |ps| => ArgumentAt(ps, q))
  }

  lemma StepAt(out: Out, ps: seq<Piece>, args: Args, q: nat)
    requires AllProper(ps) && AllPossible(ps, args) && Prints(out, Format(ps), args) && q < |ps|
    ensures StepOf(out, Spellings(ps), Texts(ps, args), Arguments(ps), q)
  {
    var ss, ts, ks := Spellings(ps), Texts(ps, args), Arguments(ps);
    PieceStep(out, args, ps[q], ss, ts[q], ks[q], ks[q + 1], q);
  }

  /** A format prints what its pieces mean, one after the other. */
  lemma PiecesPrinted(out: Out, ps: seq<Piece>, args: Args)
    requires AllProper(ps) && AllPossible(ps, args) && Prints(out, Format(ps), args)
    requires forall k :: out(|Format(ps)|, k) == ""
    ensures out(0, 0) == FormatMeaning(ps, args)
  {
    var n, ss, ts, ks := |ps|, Spellings(ps), Texts(ps, args), Arguments(ps);
    forall q | 0 <= q < n ensures StepOf(out, ss, ts, ks, q) {
      StepAt(out, ps, args, q);
    }
    StepsJoin(out, ss, ts, ks, n);
    assert Concat(ts, n) + "" == Concat(ts, n);
  }

  lemma CharOutput(fmt: string, args: Args, out: Out, i: nat, k: nat)
    requires forall j: nat, m: nat :: out(j, m) == Output(fmt, j, args, m)
    ensures PrintsChar(out, fmt, i, k)
  {
  }

  lemma ParsedOutput(fmt: string, args: Args, out: Out, i: nat, k: nat, e: Directive, next: nat)
    requires forall j: nat, m: nat :: out(j, m) == Output(fmt, j, args, m)
    ensures PrintsParsed(out, fmt, i, args, k, e, next)
  {
  }

  /** What holds of every character and every directive that is taken apart, */
  ghost predicate Follows(out: Out, fmt: string, args: Args) {
    && (forall i: nat, k: nat :: PrintsChar(out, fmt, i, k))
    && (forall i: nat, k: nat, e: Directive, next: nat :: PrintsParsed(out, fmt, i, args, k, e, next))
  }

  lemma OutputFollows(fmt: string, args: Args, out: Out)
    requires forall j: nat, m: nat :: out(j, m) == Output(fmt, j, args, m)
    ensures Follows(out, fmt, args)
  {
    forall i: nat, k: nat ensures PrintsChar(out, fmt, i, k) { CharOutput(fmt, args, out, i, k); }
    forall i: nat, k: nat, e: Directive, next: nat ensures PrintsParsed(out, fmt, i, args, k, e, next) {
      ParsedOutput(fmt, args, out, i, k, e, next);
    }
  }

  /** gives every directive that is written its meaning. */
  lemma FollowsPrints(out: Out, fmt: string, args: Args)
    requires Follows(out, fmt, args)
    ensures Prints(out, fmt, args)
  {
    forall i: nat, k: nat, d: Spec ensures PrintsDirective(out, fmt, i, args, k, d) {
      if WellFormed(d) { assert PrintsParsed(out, fmt, i, args, k, DirectiveOf(d), i + |Spell(d)|); }
      ConversionPrinted(out, fmt, i, d, args, k);
    }
  }

  lemma OutputEnds(fmt: string, args: Args, k: nat)
    ensures Output(fmt, |fmt|, args, k) == ""
  {
  }

  /** A format of ordinary characters and well-formed directives that the kernel can print prints what
      they mean, one after the other. */
  lemma FormatPrinted(ps: seq<Piece>, args: Args)
    requires AllProper(ps) && AllPossible(ps, args)
    ensures Output(Format(ps), 0, args, 0) == FormatMeaning(ps, args)
  {
    var fmt := Format(ps);
    var out := OutputOf(fmt, args);
    FollowsPrints(out, fmt, args);
    PiecesPrinted(out, ps, args);
  }

  lemma OutputOf(fmt: string, args: Args) returns (out: Out)
    ensures Follows(out, fmt, args) && out(0, 0) == Output(fmt, 0, args, 0) && forall k :: out(|fmt|, k) == ""
  {
    out := (i: nat, k: nat) => Output(fmt, i, args, k);
    OutputFollows(fmt, args, out);
    forall k: nat ensures out(|fmt|, k) == "" { OutputEnds(fmt, args, k); }
  }

  lemma OnePiece(p: Piece, args: Args)
    requires Proper(p) && PiecePossible(p, args, 0)
    ensures Output(PieceText(p), 0, args, 0) == PieceMeaning(p, args, 0)
  {
    var ps := [p];
    FormatPrinted(ps, args);
    OneText(Spellings(ps));
    OneText(Texts(ps, args));
  }

  lemma OneText(ts: seq<string>)
    requires |ts| == 1
    ensures Concat(ts, 1) == ts[0]
  {
    assert Concat(ts, 0) + ts[0] == ts[0];
  }

  /** A format without a percent sign prints itself. */
  lemma PlainFormat(s: string, args: Args)
    requires forall i | 0 <= i < |s| :: s[i] != '%' && s[i] != NUL
    ensures Output(s, 0, args, 0) == s
  {
    OnePiece(Plain(s), args);
  }

  /** The format "%s" prints its string. */
  lemma StringFormat(s: string, args: Args)
    requires args(0).text == Some(s) && |s| <= INT_MAX
    ensures Output("%s", 0, args, 0) == s
  {
    var d := Spec("", Absent, false, Absent, Usual, 's');
    assert Spell(d) == "%s";
    BareString(d, s, args);
    OnePiece(Conversion(d), args);
  }

  lemma BareString(d: Spec, s: string, args: Args)
    requires d == Spec("", Absent, false, Absent, Usual, 's') && args(0).text == Some(s) && |s| <= INT_MAX
    ensures WellFormed(d) && Possible(d, args, 0) && Meaning(d, args, 0) == s
  {
    FlagSetIs("");
    assert Placed(s, 0, false) == "" + s == s;
  }
}
