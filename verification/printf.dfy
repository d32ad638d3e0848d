/** The kernel's `vsnprintf`: characters go one by one through a gadget that counts all of them
    and keeps those that fit. */
module Printf {

  import opened PrintfText
  import opened PrintfFormat
  import opened Machine

  /** The last of `len` characters whose position has the low 32 bits `i`. */
  ghost function Last(i: nat, len: nat): (p: nat)
    requires i < len
    ensures i <= p < len <= p + U32
  {
    len - 1 - (len - 1 - i) % U32
  }

  lemma LastMoves(i: nat, len: nat)
    requires i < len && i < U32
    ensures Last(i, len + 1) == if i == len % U32 then len else Last(i, len)
  {
    var q, r := (len - i) / U32, (len - i) % U32;
    assert len - i == q * U32 + r;
    if r == 0 {
      assert len == q * U32 + i;
    } else {
      assert len - 1 - i == q * U32 + (r - 1);
    }
  }

  /** What a buffer of which `n` characters may be used holds once `out` has been written through
      it at 32-bit positions. */
  ghost function Kept(before: string, out: string, n: nat): (r: string)
    requires n <= |before|
    ensures |r| == |before| && r[n..] == before[n..]
  {
    seq(|before|, i requires 0 <= i < |before| => if i < n && i < |out| then out[Last(i, |out|)] else before[i])
  }

  /** One more character. */
  lemma KeptPut(before: string, out: string, c: char, n: nat)
    requires n <= |before| && n < U32
    ensures var p := |out| % U32;
      Kept(before, out + [c], n) == if p < n then Kept(before, out, n)[p := c] else Kept(before, out, n)
  {
    var p := |out| % U32;
    var s, t := Kept(before, out + [c], n), Kept(before, out, n);
    forall i | 0 <= i < |before| ensures s[i] == if i == p && p < n then c else t[i] {
      if i < |out| && i < n { LastMoves(i, |out|); }
    }
  }

  /** As long as the output is shorter than two to the 32, its first characters are kept. */
  lemma KeptShort(before: string, out: string, n: nat)
    requires n <= |before| && |out| < U32
    ensures Kept(before, out, n) == out[..Min(|out|, n)] + before[Min(|out|, n)..]
  {
  }

  /** Differences of 32-bit positions. */
  lemma Distance(a: nat, d: nat)
    requires d < U32
    ensures ((a + d) % U32 - a % U32) % U32 == d
  {
    var q, r := a / U32, a % U32;
    assert a + d == q * U32 + (r + d);
  }

  /** `output_gadget_t` for a buffer: `pos` counts characters in 32 bits; `out` is all that has
      been put so far and `before` what the buffer held at first. */
  class Gadget {
    const buffer: array<char>
    const maxChars: nat
    var pos: nat
    ghost const before: string
    ghost var out: string

    /** `buffer_gadget` */
    constructor (memory: array<char>, size: nat)
      requires size <= memory.Length
      ensures Valid() && buffer == memory && maxChars == Min(size, INT_MAX) && out == [] && before == memory[..]
    {
      buffer, maxChars, pos, out, before := memory, Min(size, INT_MAX), 0, [], memory[..];
      new;
      assert buffer[..] == Kept(before, out, maxChars);
    }

    ghost predicate Valid()
      reads this, buffer
    {
      && maxChars <= buffer.Length && maxChars <= INT_MAX && pos == |out| % U32 && |before| == buffer.Length
      && buffer[..] == Kept(before, out, maxChars)
    }

    /** `putchar_via_gadget` */
    method Put(c: char)
      requires Valid()
      modifies this, buffer
      ensures Valid() && out == old(out) + [c]
    {
      KeptPut(before, out, c, maxChars);
      var writePos := pos;
      pos := (pos + 1) % U32;
      out := out + [c];
      if writePos < maxChars {
        buffer[writePos] := c;
      }
    }

    /** A number of copies of one character. */
    method PutMany(c: char, n: nat)
      requires Valid()
      modifies this, buffer
      ensures Valid() && out == old(out) + Repeat(c, n)
    {
      for i := 0 to n
        invariant Valid() && out == old(out) + Repeat(c, i)
      {
        Put(c);
        assert Repeat(c, i + 1) == Repeat(c, i) + [c];
      }
    }

    /** `append_termination_with_gadget` and the number returned. */
    method Terminate() returns (count: nat)
      requires Valid()
      modifies buffer
      ensures count == |out| % U32 && buffer[..] == Limited(before, out, maxChars)
    {
      count := pos;
      if maxChars == 0 {
        return;
      }
      var nullPos := if pos < maxChars then pos else maxChars - 1;
      buffer[nullPos] := NUL;
    }

    /** `out_rev_` */
    method OutReversed(buf: string, width: nat, f: Flags)
      requires Valid() && |buf| < U32 && width < U32
      modifies this, buffer
      ensures Valid() && out == old(out) + OutRev(buf, width, f)
    {
      var startPos, len := pos, |buf|;
      if Left !in f && Zero !in f {
        PutMany(' ', Missing(len, width));
      }
      ghost var start := out;
      var n: nat := len;
      assert Reversed(buf)[..0] == [];
      while n != 0
        invariant Valid() && n <= len && out == start + Reversed(buf)[..len - n]
      {
        n := n - 1;
        Put(buf[n]);
        assert Reversed(buf)[..len - n] == Reversed(buf)[..len - n - 1] + [buf[n]];
      }
      assert Reversed(buf)[..len] == Reversed(buf);
      if Left in f {
        PadTo(startPos, width, len);
      }
    }

    /** Spaces until `width` characters have been put since `startPos`; `len` have been so far. */
    method PadTo(startPos: nat, width: nat, ghost len: nat)
      requires Valid() && width < U32 && len < U32 && len <= |out| && startPos == (|out| - len) % U32
      modifies this, buffer
      ensures Valid() && out == old(out) + Repeat(' ', Missing(len, width))
    {
      ghost var j: nat := 0;
      Distance(|out| - len, len);
      while (pos - startPos) % U32 < width
        invariant Valid() && out == old(out) + Repeat(' ', j) && j <= Missing(len, width)
        invariant (pos - startPos) % U32 == len + j < U32
        decreases Missing(len, width) - j
      {
        Put(' ');
        j := j + 1;
        assert Repeat(' ', j) == Repeat(' ', j - 1) + [' '];
        Distance(|old(out)| - len, len + j);
      }
    }

    /** `print_integer_finalization` */
    method FinishInteger(digits: string, negative: bool, base: nat, precision: nat, width: nat, f: Flags)
      requires Valid() && |digits| <= INTEGER_BUFFER_SIZE && width < U32
      modifies this, buffer
      ensures Valid() && out == old(out) + Finished(digits, negative, base, precision, width, f)
    {
      var w := width;
      if Left !in f && w > 0 && Zero in f && (negative || Plus in f || Space in f) {
        w := w - 1;
      }
      var buf := Compose(digits, negative, base, precision, w, f);
      OutReversed(buf, w, f);
    }

    /** `print_integer` */
    method PrintInteger(value: nat, negative: bool, base: nat, precision: nat, width: nat, f: Flags)
      requires Valid() && 2 <= base <= 16 && width < U32
      modifies this, buffer
      ensures Valid() && out == old(out) + Number(value, negative, base, precision, width, f)
    {
      var buf, g := "", f;
      if value == 0 {
        if Dot !in f {
          buf := "0";
          g := f - {Hash};
        } else if base == 16 {
          g := f - {Hash};
        }
      } else {
        buf := WriteDigits(value, base, Upper in f);
      }
      FinishInteger(buf, negative, base, precision, width, g);
    }

    method PutString(s: string)
      requires Valid()
      modifies this, buffer
      ensures Valid() && out == old(out) + s
    {
      for i := 0 to |s|
        invariant Valid() && out == old(out) + s[..i]
      {
        Put(s[i]);
        assert s[..i + 1] == s[..i] + [s[i]];
      }
      assert s[..|s|] == s;
    }

    /** Text in a field. */
    method PrintField(text: string, len: nat, width: nat, left: bool)
      requires Valid()
      modifies this, buffer
      ensures Valid() && out == old(out) + Field(text, len, width, left)
    {
      if !left {
        PutMany(' ', Missing(len, width));
      }
      PutString(text);
      if left {
        PutMany(' ', Missing(len, width));
      }
    }

    /** `%s` */
    method PrintString(text: Option<string>, precision: nat, width: nat, f: Flags)
      requires Valid() && width < U32
      modifies this, buffer
      ensures Valid() && out == old(out) + StringText(text, precision, width, f)
    {
      match text
      case None => OutReversed(")llun(", width, f);
      case Some(s) =>
        var l := Min(|s|, if precision > 0 then precision else INT_MAX);
        if Dot in f {
          l := if l < precision then l else precision;
        }
        PrintField(if Dot in f then s[..Min(|s|, precision)] else s, l, width, Left in f);
    }

    /** `%p` */
    method PrintPointer(word: nat, precision: nat, f: Flags)
      requires Valid()
      modifies this, buffer
      ensures Valid() && out == old(out) + PointerText(word, precision, f)
    {
      var g := f + {Zero, Pointer};
      if word % U64 == 0 {
        OutReversed(")lin(", POINTER_WIDTH, g);
      } else {
        PrintInteger(word % U64, false, 16, precision, POINTER_WIDTH, g);
      }
    }

    /** The integer conversions. */
    method PrintNumber(c: char, word: nat, precision: nat, width: nat, f: Flags)
      requires Valid() && IsInteger(c) && width < U32
      modifies this, buffer
      ensures Valid() && out == old(out) + IntegerText(c, word, precision, width, f)
    {
      var base, g := IntegerForm(c, f);
      var v := IntegerArgument(c, word, f);
      var value := if v > 0 then v else -v;
      TextIs(c, word, precision, width, f, value, v < 0, base, g);
      PrintInteger(value, v < 0, base, precision, width, g);
    }

    /** The switch over the conversion character. */
    method PrintConversion(c: char, arg: Arg, precision: nat, width: nat, f: Flags)
      requires Valid() && width < U32
      modifies this, buffer
      ensures Valid() && out == old(out) + ConversionText(c, arg, precision, width, f)
    {
      if IsInteger(c) {
        PrintNumber(c, arg.word, precision, width, f);
      } else if c == 'c' {
        PrintField([(arg.word % 0x100) as char], 1, width, Left in f);
      } else if c == 's' {
        PrintString(arg.text, precision, width, f);
      } else if c == 'p' {
        PrintPointer(arg.word, precision, f);
      } else if c != 'n' {
        Put(c);
      }
    }

    /** One directive, from its width argument on. */
    method PrintDirective(d: Directive, args: Args, k: nat) returns (k': nat)
      requires Valid() && Small(d.width)
      modifies this, buffer
      ensures Valid() && out == old(out) + DirectiveText(d, args, k).0 && k' == DirectiveText(d, args, k).1
    {
      var width, f, precision;
      width, f, k' := WidthArgument(d, args, k);
      precision, k' := PrecisionArgument(d, args, k');
      PrintConversion(d.conv, args(k'), precision, width, f);
      if TakesArgument(d.conv) {
        k' := k' + 1;
      }
    }

    /** One round of `format_string_loop`: what it prints is the front of the output to come. */
    method FormatOne(fmt: string, i: nat, args: Args, k: nat) returns (more: bool, i': nat, k': nat, ghost text: string)
      requires Valid() && At(fmt, i) != NUL
      modifies this, buffer
      ensures Valid() && out == old(out) + text
      ensures Output(fmt, i, args, k) == text + Rest(fmt, i', args, k', more)
      ensures more ==> i < i'
    {
      more, i', k' := true, i + 1, k;
      if fmt[i] != '%' {
        text := [fmt[i]];
        Put(fmt[i]);
      } else {
        var p := ParseDirective(fmt, i);
        ParseAdvances(fmt, i);
        if p == Stop {
          more, text := false, [];
          return;
        }
        ParseSmall(fmt, i);
        text := DirectiveText(p.d, args, k).0;
        k' := PrintDirective(p.d, args, k);
        i' := p.next;
      }
    }

    /** `format_string_loop` */
    method Format(fmt: string, args: Args)
      requires Valid()
      modifies this, buffer
      ensures Valid() && out == old(out) + Output(fmt, 0, args, 0)
    {
      var i: nat, k: nat, more := 0, 0, true;
      ghost var all, done := Output(fmt, 0, args, 0), [];
      ghost var rest := all;
      assert out == out + done;
      while more && At(fmt, i) != NUL
        invariant Valid() && out == old(out) + done && all == done + rest
        invariant rest == Rest(fmt, i, args, k, more)
        decreases more, |fmt| - i
      {
        ghost var text;
        more, i, k, text := FormatOne(fmt, i, args, k);
        rest := Rest(fmt, i, args, k, more);
        Moved(old(out), done, text, rest);
        done := done + text;
      }
      assert done + [] == done;
    }
  }

  /** The buffer of `print_integer_finalization`: leading zeros, prefix and sign behind the digits. */
  method Compose(digits: string, negative: bool, base: nat, precision: nat, width: nat, f: Flags) returns (buf: string)
    requires |digits| <= INTEGER_BUFFER_SIZE
    ensures buf == Backwards(digits, negative, base, precision, width, f)
  {
    buf := PadDigits(digits, precision, width, f);
    var g := f;
    if base == 8 && |buf| > |digits| {
      g := g - {Hash};
    }
    buf := PushPrefix(buf, |digits|, base, precision, width, g);
    buf := PushSign(buf, negative, g);
  }

  lemma Moved(before: string, done: string, text: string, rest: string)
    ensures done + (text + rest) == (done + text) + rest && before + done + text == before + (done + text)
  {
  }

  /** `parse_flags` */
  method ParseFlags(fmt: string, i: nat) returns (f: Flags, j: nat)
    ensures (f, j) == FlagsAt(fmt, i, NO_FLAGS)
  {
    f, j := NO_FLAGS, i;
    while IsFlag(At(fmt, j))
      invariant FlagsAt(fmt, j, f) == FlagsAt(fmt, i, NO_FLAGS)
      decreases |fmt| - j
    {
      f := WithFlag(f, At(fmt, j));
      j := j + 1;
    }
  }

  /** `atou_` */
  method ParseAmount(fmt: string, i: nat) returns (n: nat, j: nat)
    ensures (n, j) == AmountAt(fmt, i, 0)
  {
    n, j := 0, i;
    while IsDigit(At(fmt, j))
      invariant AmountAt(fmt, j, n) == AmountAt(fmt, i, 0)
      decreases |fmt| - j
    {
      n := (n * 10 + (At(fmt, j) as nat - 48)) % U32;
      j := j + 1;
    }
  }

  /** A width, or a precision behind its dot. */
  method ParseWidth(fmt: string, i: nat) returns (r: Part<Amount>)
    ensures r == WidthAt(fmt, i)
  {
    if IsDigit(At(fmt, i)) {
      var n, j := ParseAmount(fmt, i);
      return Go(Literal(n), j);
    }
    if At(fmt, i) == '*' {
      return if At(fmt, i + 1) == NUL then Halt else Go(Star, i + 1);
    }
    return Go(Nothing, i);
  }

  method ParsePrecision(fmt: string, i: nat) returns (r: Part<(bool, Amount)>)
    ensures r == PrecisionAt(fmt, i)
  {
    if At(fmt, i) != '.' {
      return Go((false, Nothing), i);
    }
    if At(fmt, i + 1) == NUL {
      return Halt;
    }
    var w := ParseWidth(fmt, i + 1);
    return match w case Halt => Halt case Go(amount, j) => Go((true, amount), j);
  }

  method ParseLength(fmt: string, i: nat, f: Flags) returns (r: Part<Flags>)
    ensures r == LengthAt(fmt, i, f)
  {
    var g, j := f, i;
    match At(fmt, i) {
      case 'l' =>
        g, j := g + {Long}, j + 1;
        if At(fmt, j) == 'l' {
          g, j := g + {LongLong}, j + 1;
        }
      case 'h' =>
        g, j := g + {Short}, j + 1;
        if At(fmt, j) == 'h' {
          g, j := g + {Tiny}, j + 1;
        }
      case 't' => g, j := g + {Long}, j + 1;
      case 'j' => g, j := g + {Long}, j + 1;
      case 'z' => g, j := g + {Long}, j + 1;
      case _ => return Go(f, i);
    }
    return if At(fmt, j) == NUL then Halt else Go(g, j);
  }

  /** The part of `format_string_loop` that takes a directive apart. */
  method ParseDirective(fmt: string, i: nat) returns (p: Parsed)
    ensures p == ParseAt(fmt, i)
  {
    if At(fmt, i + 1) == NUL {
      return Stop;
    }
    var f, j := ParseFlags(fmt, i + 1);
    var width := ParseWidth(fmt, j);
    if width.Halt? {
      return Stop;
    }
    var precision := ParsePrecision(fmt, width.at);
    if precision.Halt? {
      return Stop;
    }
    var length := ParseLength(fmt, precision.at, if precision.value.0 then f + {Dot} else f);
    if length.Halt? {
      return Stop;
    }
    return Parsed(Directive(length.value, width.value, precision.value.1, At(fmt, length.at)), length.at + 1);
  }

  /** The width of a directive. If it is an argument, a negative one stands for left alignment in a
      field of its absolute value. */
  method WidthArgument(d: Directive, args: Args, k: nat) returns (width: nat, f: Flags, k': nat)
    ensures (width, f, k') == WidthOf(d, args, k) && (Small(d.width) ==> width < U32)
    ensures d.width.Star? ==> var w := SignedOf(args(k).word, U32);
      k' == k + 1 && width == (if w < 0 then -w else w) && (Left in f <==> Left in d.flags || w < 0)
    ensures !d.width.Star? ==> k' == k && f == d.flags
    ensures f - {Left} == d.flags - {Left}
  {
    width, f, k' := 0, d.flags, k;
    if d.width.Literal? {
      width := d.width.n;
    } else if d.width.Star? {
      var w := SignedOf(args(k).word, U32);
      k' := k + 1;
      if w < 0 {
        f := f + {Left};
        w := -w;
      }
      width := w;
    }
  }

  /** The precision of a directive. If it is an argument, a negative one counts as zero. */
  method PrecisionArgument(d: Directive, args: Args, k: nat) returns (precision: nat, k': nat)
    ensures (precision, k') == PrecisionOf(d, args, k)
    ensures d.precision.Star? ==> var p := SignedOf(args(k).word, U32); k' == k + 1 && (p > 0 ==> precision == p)
    ensures precision > 0 ==>
      d.precision == Literal(precision) || (d.precision.Star? && SignedOf(args(k).word, U32) == precision)
  {
    precision, k' := 0, k;
    if d.precision.Literal? {
      precision := d.precision.n;
    } else if d.precision.Star? {
      var p := SignedOf(args(k).word, U32);
      k' := k + 1;
      if p > 0 {
        precision := p;
      }
    }
  }

  method IntegerRange(f: Flags) returns (bits: nat)
    ensures bits == RangeOf(f)
  {
    bits := U32;
    if LongLong in f || Long in f {
      bits := U64;
    } else if Tiny in f {
      bits := 0x100;
    } else if Short in f {
      bits := U16;
    }
  }

  /** The value of an integer conversion. */
  method IntegerArgument(c: char, word: nat, f: Flags) returns (v: int)
    ensures v == IntegerOf(c, word, f)
  {
    var bits := IntegerRange(f);
    if c == 'd' || c == 'i' {
      v := SignedOf(word, bits);
    } else {
      v := word % bits;
    }
  }

  /** The base and the flags of an integer conversion: decimal numbers have no alternative form, a
      precision turns zero filling off, and unsigned numbers have no sign. */
  method IntegerForm(c: char, f: Flags) returns (base: nat, g: Flags)
    requires IsInteger(c)
    ensures base == BaseOf(c) && g == IntegerFlags(c, f)
    ensures base == 10 <==> c == 'd' || c == 'i' || c == 'u'
    ensures base == 10 ==> Hash !in g
    ensures Dot in f ==> Zero !in g
    ensures c != 'd' && c != 'i' ==> Plus !in g && Space !in g
    ensures Upper in g <==> Upper in f || c == 'X'
    ensures f - {Hash, Zero, Plus, Space} <= g <= f + {Upper}
  {
    base, g := 10, f;
    if c == 'x' || c == 'X' {
      base := 16;
    } else if c == 'o' {
      base := 8;
    } else if c == 'b' {
      base := 2;
    } else {
      g := g - {Hash};
    }
    if c == 'X' {
      g := g + {Upper};
    }
    if Dot in g {
      g := g - {Zero};
    }
    if c != 'd' && c != 'i' {
      g := g - {Plus, Space};
    }
  }

  /** `vsnprintf_`: the first characters of the output that fit, a zero character, and nothing
      else; the number returned does not depend on the size of the buffer. */
  method Vsnprintf(memory: array<char>, n: nat, fmt: string, args: Args) returns (count: nat)
    requires n <= memory.Length
    modifies memory
    ensures var all := Output(fmt, 0, args, 0);
      count == |all| % U32 && memory[..] == Limited(old(memory[..]), all, Min(n, INT_MAX))
  {
    var gadget := new Gadget(memory, n);
    gadget.Format(fmt, args);
    assert gadget.out == Output(fmt, 0, args, 0);
    count := gadget.Terminate();
  }

  /** A buffer of which `n` characters may be used, after `all` and a zero character. */
  ghost function Limited(before: string, all: string, n: nat): (r: string)
    requires n <= |before|
    ensures |r| == |before| && r[n..] == before[n..]
  {
    if n == 0 then before else Kept(before, all, n)[Min(|all| % U32, n - 1) := NUL]
  }

  /** An output shorter than two to the 32 leaves its first `n - 1` characters at most, a zero
      character, and the rest of the buffer as it was. */
  lemma LimitedShort(before: string, all: string, n: nat)
    requires 0 < n <= |before| && |all| < U32
    ensures var end := Min(|all|, n - 1); Limited(before, all, n) == all[..end] + [NUL] + before[end + 1..]
  {
    KeptShort(before, all, n);
    var kept := Kept(before, all, n);
    assert Limited(before, all, n) == kept[Min(|all|, n - 1) := NUL] by { SmallIsItself(|all|); }
    CutOff(before, all, n, kept);
  }

  lemma SmallIsItself(x: nat)
    requires x < U32
    ensures x % U32 == x
  {
  }

  lemma CutOff(before: string, all: string, n: nat, kept: string)
    requires 0 < n <= |before|
    requires var m := Min(|all|, n); kept == all[..m] + before[m..]
    ensures var end := Min(|all|, n - 1);
      |kept| == |before| && kept[end := NUL] == all[..end] + [NUL] + before[end + 1..]
  {
  }

  /** The digit loop of `print_integer`. */
  method WriteDigits(value: nat, base: nat, upper: bool) returns (buf: string)
    requires value > 0 && 2 <= base <= 16
    ensures buf == Digits(value, base, upper, INTEGER_BUFFER_SIZE)
  {
    buf := [];
    var v: nat := value;
    ghost var all := Digits(value, base, upper, INTEGER_BUFFER_SIZE);
    ghost var rest := all;
    ghost var room: nat := INTEGER_BUFFER_SIZE;
    while v != 0 && |buf| < INTEGER_BUFFER_SIZE
      invariant |buf| + room == INTEGER_BUFFER_SIZE && rest == Digits(v, base, upper, room) && buf + rest == all
      decreases room
    {
      DigitsStep(v, base, upper, room);
      var digit, next := DigitChar(v % base, upper), Quotient(v, base);
      rest := Digits(next, base, upper, room - 1);
      assert buf + ([digit] + rest) == (buf + [digit]) + rest;
      buf := buf + [digit];
      v, room := next, room - 1;
    }
  }

  function Quotient(v: nat, base: nat): nat
    requires base > 0
  {
    v / base
  }

  lemma DigitsStep(v: nat, base: nat, upper: bool, room: nat)
    requires v > 0 && room > 0 && 2 <= base <= 16
    ensures Digits(v, base, upper, room) ==
      [DigitChar(v % base, upper)] + Digits(Quotient(v, base), base, upper, room - 1)
  {
  }

  /** Zeros up to `n` characters, inside the buffer. */
  method FillZeros(s: string, n: nat) returns (buf: string)
    requires |s| <= INTEGER_BUFFER_SIZE
    ensures buf == ZeroFill(s, n)
  {
    buf := s;
    assert s + Repeat('0', 0) == s;
    while |buf| < n && |buf| < INTEGER_BUFFER_SIZE
      invariant |s| <= |buf| <= INTEGER_BUFFER_SIZE && (|buf| == |s| || |buf| <= n)
        && buf == s + Repeat('0', |buf| - |s|)
    {
      buf := buf + ['0'];
      assert Repeat('0', |buf| - |s|) == Repeat('0', |buf| - |s| - 1) + ['0'];
    }
  }

  /** The padding part of `print_integer_finalization`. */
  method PadDigits(digits: string, precision: nat, width: nat, f: Flags) returns (buf: string)
    requires |digits| <= INTEGER_BUFFER_SIZE
    ensures buf == Padded(digits, precision, width, f)
  {
    buf := digits;
    if Left !in f && Zero in f {
      buf := FillZeros(buf, width);
    }
    buf := FillZeros(buf, precision);
  }

  /** The prefix part. */
  method PushPrefix(s: string, unpadded: nat, base: nat, precision: nat, width: nat, f: Flags) returns (buf: string)
    ensures buf == Prefixed(s, unpadded, base, precision, width, f)
  {
    buf := s;
    if Hash in f || Pointer in f {
      if Dot !in f && |buf| > 0 && (|buf| == precision || |buf| == width) {
        if unpadded < |buf| {
          buf := buf[..|buf| - 1];
        }
        if |buf| > 0 && (base == 16 || base == 2) && unpadded < |buf| {
          buf := buf[..|buf| - 1];
        }
      }
      if base == 16 && Upper !in f && |buf| < INTEGER_BUFFER_SIZE {
        buf := buf + ['x'];
      } else if base == 16 && Upper in f && |buf| < INTEGER_BUFFER_SIZE {
        buf := buf + ['X'];
      } else if base == 2 && |buf| < INTEGER_BUFFER_SIZE {
        buf := buf + ['b'];
      }
      if |buf| < INTEGER_BUFFER_SIZE {
        buf := buf + ['0'];
      }
    }
  }

  /** The sign. */
  method PushSign(s: string, negative: bool, f: Flags) returns (buf: string)
    ensures buf == Signed(s, negative, f)
  {
    buf := s;
    if |buf| < INTEGER_BUFFER_SIZE {
      if negative {
        buf := buf + ['-'];
      } else if Plus in f {
        buf := buf + ['+'];
      } else if Space in f {
        buf := buf + [' '];
      }
    }
  }
}
