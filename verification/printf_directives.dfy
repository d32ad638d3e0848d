/** Directives as section 7.21.6.1 of ISO/IEC 9899:2011 has them written, and that each of them is taken
    apart into what it was put together from. */
module PrintfDirectives {

  import opened PrintfText
  import opened PrintfFormat
  import opened Machine

  // ---------------------------------------------------------------- directives as they are written

  /** A width or precision: left out, written in digits, or an asterisk. */
  datatype Given = Absent | Written(digits: string) | Argument

  /** A length modifier. */
  datatype Length = Usual | HH | H | L | LL | T | J | Z

  datatype Spec = Spec(flags: string, width: Given, dot: bool, precision: Given, length: Length, conv: char)

  function SizeText(g: Given): string {
    match g case Absent => "" case Written(digits) => digits case Argument => "*"
  }

  function LengthText(l: Length): string {
    match l
    case Usual => ""
    case HH => "hh"
    case H => "h"
    case L => "l"
    case LL => "ll"
    case T => "t"
    case J => "j"
    case Z => "z"
  }

  function DotText(d: Spec): string { if d.dot then "." + SizeText(d.precision) else "" }

  function Spell(d: Spec): string {
    "%" + (d.flags + (SizeText(d.width) + (DotText(d) + (LengthText(d.length) + [d.conv]))))
  }

  predicate Digital(s: string) { forall i | 0 <= i < |s| :: '0' <= s[i] <= '9' }

  predicate FlagChar(c: char) { c == '0' || c == '-' || c == '+' || c == ' ' || c == '#' }

  predicate LengthChar(c: char) { c == 'h' || c == 'l' || c == 't' || c == 'j' || c == 'z' }

  /** What can start the length and the conversion. */
  predicate Late(c: char) { !('0' <= c <= '9') && !FlagChar(c) && c != '*' && c != '.' && c != NUL }

  predicate WellFormed(d: Spec) {
    && (forall i | 0 <= i < |d.flags| :: FlagChar(d.flags[i]))
    && (d.width.Written? ==> d.width.digits != [] && Digital(d.width.digits) && d.width.digits[0] != '0')
    && (d.precision.Written? ==> d.precision.digits != [] && Digital(d.precision.digits))
    && (!d.dot ==> d.precision.Absent?)
    && Late(d.conv) && !LengthChar(d.conv)
  }

  // ---------------------------------------------------------------- what they stand for

  function FlagSet(s: string): Flags {
    (if '0' in s then {Zero} else {}) + (if '-' in s then {Left} else {}) + (if '+' in s then {Plus} else {})
    + (if ' ' in s then {Space} else {}) + (if '#' in s then {Hash} else {})
  }

  /** The value of decimal digits. */
  function Decimal(s: string): nat
    requires Digital(s)
  {
    if s == [] then 0 else Decimal(s[..|s| - 1]) * 10 + (s[|s| - 1] as nat - '0' as nat)
  }

  /** Literal sizes are kept in 32 bits. */
  function AmountOf(g: Given): Amount
    requires g.Written? ==> Digital(g.digits)
  {
    match g case Absent => Nothing case Written(digits) => Literal(Decimal(digits) % U32) case Argument => Star
  }

  function LengthFlags(l: Length): Flags {
    match l
    case Usual => {}
    case HH => {Short, Tiny}
    case H => {Short}
    case LL => {Long, LongLong}
    case L => {Long}
    case T => {Long}
    case J => {Long}
    case Z => {Long}
  }

  // ---------------------------------------------------------------- taking a directive apart

  /** The format has `s` at `i`. */
  ghost predicate Has(fmt: string, i: nat, s: string) {
    i + |s| <= |fmt| && fmt[i..i + |s|] == s
  }

  lemma HasSplit(fmt: string, i: nat, a: string, b: string)
    requires Has(fmt, i, a + b)
    ensures Has(fmt, i, a) && Has(fmt, i + |a|, b)
  {
    var s := fmt[i..i + |a + b|];
    assert s[..|a|] == a && s[|a|..] == b;
    assert fmt[i..i + |a|] == s[..|a|] && fmt[i + |a|..i + |a| + |b|] == s[|a|..];
  }

  lemma HasFirst(fmt: string, i: nat, s: string)
    requires Has(fmt, i, s) && s != []
    ensures i < |fmt| && At(fmt, i) == fmt[i] == s[0] && Has(fmt, i + 1, s[1..])
  {
    assert s == [s[0]] + s[1..];
    HasSplit(fmt, i, [s[0]], s[1..]);
  }

  lemma FlagSetStep(f: Flags, s: string)
    requires s != [] && FlagChar(s[0])
    ensures WithFlag(f, s[0]) + FlagSet(s[1..]) == f + FlagSet(s) && IsFlag(s[0])
  {
    assert forall c: char :: c in s <==> c == s[0] || c in s[1..];
  }

  /** Flags in any order, and again. */
  lemma {:induction false} FlagsParsed(fmt: string, i: nat, s: string, f: Flags)
    requires Has(fmt, i, s) && (forall j | 0 <= j < |s| :: FlagChar(s[j])) && !FlagChar(At(fmt, i + |s|))
    ensures FlagsAt(fmt, i, f) == (f + FlagSet(s), i + |s|)
    decreases |s|
  {
    if s == [] {
      assert f + FlagSet(s) == f;
    } else {
      HasFirst(fmt, i, s);
      FlagSetStep(f, s);
      FlagsParsed(fmt, i + 1, s[1..], WithFlag(f, s[0]));
    }
  }

  /** The loop of `atou_` after `m` digits. */
  lemma {:induction false} DigitsParsed(fmt: string, i: nat, s: string, m: nat)
    requires Has(fmt, i, s) && Digital(s) && m <= |s|
    ensures AmountAt(fmt, i, 0) == AmountAt(fmt, i + m, Decimal(s[..m]) % U32)
  {
    if m > 0 {
      DigitsParsed(fmt, i, s, m - 1);
      var x, c := Decimal(s[..m - 1]), s[m - 1] as nat - '0' as nat;
      assert s[..m][..m - 1] == s[..m - 1];
      assert fmt[i + m - 1] == s[m - 1];
      TimesTen(x, c);
    }
  }

  lemma TimesTen(x: nat, c: nat)
    ensures (x % U32 * 10 + c) % U32 == (x * 10 + c) % U32
  {
    var q := x / U32;
    assert x * 10 + c == (q * 10) * U32 + (x % U32 * 10 + c);
  }

  lemma AmountParsed(fmt: string, i: nat, s: string)
    requires Has(fmt, i, s) && Digital(s) && !('0' <= At(fmt, i + |s|) <= '9')
    ensures AmountAt(fmt, i, 0) == (Decimal(s) % U32, i + |s|)
  {
    DigitsParsed(fmt, i, s, |s|);
    assert s[..|s|] == s;
  }

  /** What may follow a size. */
  ghost predicate EndsSize(c: char) { !('0' <= c <= '9') && c != '*' && c != NUL }

  lemma SizeParsed(fmt: string, i: nat, g: Given)
    requires g.Written? ==> g.digits != [] && Digital(g.digits)
    requires Has(fmt, i, SizeText(g)) && EndsSize(At(fmt, i + |SizeText(g)|))
    ensures WidthAt(fmt, i) == Go(AmountOf(g), i + |SizeText(g)|)
  {
    match g
    case Absent =>
    case Written(digits) =>
      HasFirst(fmt, i, digits);
      AmountParsed(fmt, i, digits);
    case Argument => HasFirst(fmt, i, "*");
  }

  lemma DotParsed(fmt: string, i: nat, d: Spec)
    requires WellFormed(d) && Has(fmt, i, DotText(d))
    requires var c := At(fmt, i + |DotText(d)|); EndsSize(c) && c != '.'
    ensures PrecisionAt(fmt, i) == Go((d.dot, AmountOf(d.precision)), i + |DotText(d)|)
  {
    if d.dot {
      HasSplit(fmt, i, ".", SizeText(d.precision));
      HasFirst(fmt, i, ".");
      SizeParsed(fmt, i + 1, d.precision);
      if d.precision.Written? { HasFirst(fmt, i + 1, d.precision.digits); }
      if d.precision.Argument? { HasFirst(fmt, i + 1, "*"); }
    }
  }

  lemma LengthParsed(fmt: string, i: nat, l: Length, f: Flags)
    requires Has(fmt, i, LengthText(l))
    requires var c := At(fmt, i + |LengthText(l)|); !LengthChar(c) && c != NUL
    ensures LengthAt(fmt, i, f) == Go(f + LengthFlags(l), i + |LengthText(l)|)
  {
    if l == Usual {
      assert f + LengthFlags(l) == f;
    } else {
      HasFirst(fmt, i, LengthText(l));
      if l == HH || l == LL {
        HasFirst(fmt, i + 1, LengthText(l)[1..]);
        LongerFlags(f, l);
      }
    }
  }

  lemma LongerFlags(f: Flags, l: Length)
    requires l == HH || l == LL
    ensures f + LengthFlags(l) == if l == HH then f + {Short} + {Tiny} else f + {Long} + {LongLong}
  {
  }

  /** The places of the parts of a directive. */
  datatype Places = Places(flags: nat, width: nat, dot: nat, length: nat, conv: nat)

  ghost function PlacesOf(i: nat, d: Spec): Places {
    PlacesFor(i, d.flags, SizeText(d.width), DotText(d), LengthText(d.length))
  }

  ghost function PlacesFor(i: nat, a: string, b: string, c: string, e: string): Places {
    Places(i + 1, i + 1 + |a|, i + 1 + |a| + |b|, i + 1 + |a| + |b| + |c|, i + 1 + |a| + |b| + |c| + |e|)
  }

  /** The parts are at their places. */
  ghost predicate Laid(fmt: string, d: Spec, p: Places) {
    LaidOut(fmt, d.flags, SizeText(d.width), DotText(d), LengthText(d.length), d.conv, p)
  }

  ghost predicate LaidOut(fmt: string, a: string, b: string, c: string, e: string, x: char, p: Places) {
    match p
    case Places(i, j, k, l, m) =>
      Has(fmt, i, a) && Has(fmt, j, b) && Has(fmt, k, c) && Has(fmt, l, e) && At(fmt, m) == x && m < |fmt|
  }

  lemma Apart(fmt: string, i: nat, a: string, b: string, c: string, e: string, x: char)
    requires Has(fmt, i, "%" + (a + (b + (c + (e + [x])))))
    ensures LaidOut(fmt, a, b, c, e, x, PlacesFor(i, a, b, c, e)) && At(fmt, i) == '%'
  {
    var rest := c + (e + [x]);
    HasFirst(fmt, i, "%" + (a + (b + rest)));
    assert ("%" + (a + (b + rest)))[1..] == a + (b + rest);
    Halves(fmt, i + 1, a, b, rest);
    LastParts(fmt, i + 1 + |a| + |b|, c, e, x);
  }

  lemma Halves(fmt: string, i: nat, a: string, b: string, rest: string)
    requires Has(fmt, i, a + (b + rest))
    ensures Has(fmt, i, a) && Has(fmt, i + |a|, b) && Has(fmt, i + |a| + |b|, rest)
  {
    HasSplit(fmt, i, a, b + rest);
    HasSplit(fmt, i + |a|, b, rest);
  }

  lemma LastParts(fmt: string, i: nat, c: string, e: string, x: char)
    requires Has(fmt, i, c + (e + [x]))
    ensures Has(fmt, i, c) && Has(fmt, i + |c|, e) && At(fmt, i + |c| + |e|) == x && i + |c| + |e| < |fmt|
  {
    Halves(fmt, i, c, e, [x]);
    HasFirst(fmt, i + |c| + |e|, [x]);
  }

  lemma SpellParts(fmt: string, i: nat, d: Spec)
    requires Has(fmt, i, Spell(d))
    ensures Laid(fmt, d, PlacesOf(i, d)) && At(fmt, i) == '%' && i + |Spell(d)| == PlacesOf(i, d).conv + 1
  {
    Apart(fmt, i, d.flags, SizeText(d.width), DotText(d), LengthText(d.length), d.conv);
  }

  /** The first character of what follows a part that may be empty. */
  lemma StartOf(fmt: string, i: nat, s: string)
    requires Has(fmt, i, s)
    ensures At(fmt, i) == if s == [] then At(fmt, i + |s|) else s[0]
  {
    if s != [] { HasFirst(fmt, i, s); }
  }

  /** What starts the length and the conversion, ... */
  lemma LateStart(fmt: string, d: Spec, p: Places)
    requires WellFormed(d) && Laid(fmt, d, p) && p.conv == p.length + |LengthText(d.length)|
    ensures Late(At(fmt, p.length)) && !LengthChar(At(fmt, p.conv)) && At(fmt, p.conv) != NUL
  {
    StartOf(fmt, p.length, LengthText(d.length));
    LengthLetter(d.length);
  }

  lemma LengthLetter(l: Length)
    ensures LengthText(l) != "" ==> Late(LengthText(l)[0])
  {
  }

  /** ... the precision, the width, */
  lemma DotStart(fmt: string, d: Spec, p: Places)
    requires WellFormed(d) && Laid(fmt, d, p) && p.length == p.dot + |DotText(d)| && Late(At(fmt, p.length))
    ensures At(fmt, p.dot) == '.' || Late(At(fmt, p.dot))
  {
    StartOf(fmt, p.dot, DotText(d));
  }

  lemma WidthStart(fmt: string, d: Spec, p: Places)
    requires WellFormed(d) && Laid(fmt, d, p) && p.dot == p.width + |SizeText(d.width)|
    requires At(fmt, p.dot) == '.' || Late(At(fmt, p.dot))
    ensures !FlagChar(At(fmt, p.width)) && At(fmt, p.width) != NUL
  {
    StartOf(fmt, p.width, SizeText(d.width));
  }

  lemma FlagStart(fmt: string, d: Spec, p: Places)
    requires WellFormed(d) && Laid(fmt, d, p) && p.width == p.flags + |d.flags| && At(fmt, p.width) != NUL
    ensures At(fmt, p.flags) != NUL
  {
    StartOf(fmt, p.flags, d.flags);
  }

  ghost function DirectiveOf(d: Spec): Directive
    requires WellFormed(d)
  {
    Directive(WithDot(FlagSet(d.flags), d.dot) + LengthFlags(d.length),
              AmountOf(d.width), AmountOf(d.precision), d.conv)
  }

  /** The parser goes from part to part. */
  lemma ParseFrom(fmt: string, i: nat, f: Flags, width: Amount, dot: bool, precision: Amount, g: Flags, p: Places)
    requires p.flags == i + 1 && At(fmt, i + 1) != NUL && FlagsAt(fmt, i + 1, NO_FLAGS) == (f, p.width)
    requires WidthAt(fmt, p.width) == Go(width, p.dot) && PrecisionAt(fmt, p.dot) == Go((dot, precision), p.length)
    requires LengthAt(fmt, p.length, WithDot(f, dot)) == Go(g, p.conv)
    ensures ParseAt(fmt, i) == Parsed(Directive(g, width, precision, At(fmt, p.conv)), p.conv + 1)
  {
  }

  lemma Joined(fmt: string, d: Spec, p: Places, f: Flags, width: Amount)
    requires p.flags > 0 && At(fmt, p.flags) != NUL && At(fmt, p.conv) == d.conv
    requires FlagsAt(fmt, p.flags, NO_FLAGS) == (f, p.width) && WidthAt(fmt, p.width) == Go(width, p.dot)
    requires d.precision.Written? ==> Digital(d.precision.digits)
    requires PrecisionAt(fmt, p.dot) == Go((d.dot, AmountOf(d.precision)), p.length)
    requires LengthAt(fmt, p.length, WithDot(f, d.dot)) == Go(WithDot(f, d.dot) + LengthFlags(d.length), p.conv)
    ensures var g := WithDot(f, d.dot) + LengthFlags(d.length);
      ParseAt(fmt, p.flags - 1) == Parsed(Directive(g, width, AmountOf(d.precision), d.conv), p.conv + 1)
  {
    ParseFrom(fmt, p.flags - 1, f, width, d.dot, AmountOf(d.precision), WithDot(f, d.dot) + LengthFlags(d.length), p);
  }

  /** Where the parts start and what follows them. */
  lemma Starts(fmt: string, i: nat, d: Spec, p: Places)
    requires Has(fmt, i, Spell(d)) && WellFormed(d) && p == PlacesOf(i, d)
    ensures Laid(fmt, d, p) && At(fmt, p.flags) != NUL && !FlagChar(At(fmt, p.width)) && EndsSize(At(fmt, p.dot))
    ensures Late(At(fmt, p.length)) && !LengthChar(At(fmt, p.conv)) && At(fmt, p.conv) != NUL
  {
    SpellParts(fmt, i, d);
    LateStart(fmt, d, p);
    DotStart(fmt, d, p);
    WidthStart(fmt, d, p);
    FlagStart(fmt, d, p);
  }

  lemma FlagsGiven(fmt: string, i: nat, d: Spec, p: Places)
    requires Has(fmt, i, Spell(d)) && WellFormed(d) && p == PlacesOf(i, d)
    ensures Has(fmt, p.flags, d.flags) && !FlagChar(At(fmt, p.width)) && At(fmt, p.flags) != NUL
  {
    Starts(fmt, i, d, p);
  }

  lemma WidthGiven(fmt: string, i: nat, d: Spec, p: Places)
    requires Has(fmt, i, Spell(d)) && WellFormed(d) && p == PlacesOf(i, d)
    ensures Has(fmt, p.width, SizeText(d.width)) && EndsSize(At(fmt, p.dot))
  {
    Starts(fmt, i, d, p);
  }

  lemma RestGiven(fmt: string, i: nat, d: Spec, p: Places)
    requires Has(fmt, i, Spell(d)) && WellFormed(d) && p == PlacesOf(i, d)
    ensures Has(fmt, p.dot, DotText(d)) && Late(At(fmt, p.length)) && Has(fmt, p.length, LengthText(d.length))
    ensures !LengthChar(At(fmt, p.conv)) && At(fmt, p.conv) == d.conv != NUL
  {
    Starts(fmt, i, d, p);
  }

  /** Each part is read. */
  lemma FlagsRead(fmt: string, i: nat, d: Spec, p: Places)
    requires Has(fmt, i, Spell(d)) && WellFormed(d) && p == PlacesOf(i, d)
    ensures FlagsAt(fmt, p.flags, NO_FLAGS) == (FlagSet(d.flags), p.width) && At(fmt, p.flags) != NUL
  {
    FlagsGiven(fmt, i, d, p);
    FlagsParsed(fmt, p.flags, d.flags, NO_FLAGS);
    NoneMore(FlagSet(d.flags));
  }

  lemma NoneMore(f: Flags)
    ensures NO_FLAGS + f == f
  {
  }

  lemma WidthRead(fmt: string, i: nat, d: Spec, p: Places)
    requires Has(fmt, i, Spell(d)) && WellFormed(d) && p == PlacesOf(i, d)
    ensures WidthAt(fmt, p.width) == Go(AmountOf(d.width), p.dot)
  {
    WidthGiven(fmt, i, d, p);
    SizeParsed(fmt, p.width, d.width);
  }

  lemma RestRead(fmt: string, i: nat, d: Spec, p: Places, f: Flags)
    requires Has(fmt, i, Spell(d)) && WellFormed(d) && p == PlacesOf(i, d)
    ensures PrecisionAt(fmt, p.dot) == Go((d.dot, AmountOf(d.precision)), p.length)
    ensures LengthAt(fmt, p.length, f) == Go(f + LengthFlags(d.length), p.conv) && At(fmt, p.conv) == d.conv
  {
    RestGiven(fmt, i, d, p);
    DotParsed(fmt, p.dot, d);
    LengthParsed(fmt, p.length, d.length, f);
  }

  /** A directive is taken apart into what it was put together from. */
  lemma ParsedBack(fmt: string, i: nat, d: Spec)
    requires Has(fmt, i, Spell(d)) && WellFormed(d)
    ensures ParseAt(fmt, i) == Parsed(DirectiveOf(d), i + |Spell(d)|)
  {
    var p, f := PlacesOf(i, d), FlagSet(d.flags);
    FlagsRead(fmt, i, d, p);
    WidthRead(fmt, i, d, p);
    RestRead(fmt, i, d, p, WithDot(f, d.dot));
    Joined(fmt, d, p, f, AmountOf(d.width));
  }
}
