/** Formatted output as text: what each directive of a format stands for (section 7.21.6.1 of
    ISO/IEC 9899:2011), with the limits of the kernel's implementation. */
module PrintfText {

  import opened Machine

  const INT_MAX := 0x7FFF_FFFF
  const INTEGER_BUFFER_SIZE := 32

  /** An argument: the word passed and, for a string pointer, the string (none for NULL). */
  datatype Arg = Arg(word: nat, text: Option<string>)

  /** The arguments by their number. */
  type Args = nat -> Arg

  datatype Flag = Zero | Left | Plus | Space | Hash | Upper | Tiny | Short | Long | LongLong | Dot | Pointer

  /** `printf_flags_t` */
  type Flags = set<Flag>

  const NO_FLAGS: Flags := {}

  // ---------------------------------------------------------------- padding

  /** `n` copies of a character. */
  function Repeat(c: char, n: nat): (s: string)
    ensures |s| == n
  {
    seq(n, _ => c)
  }

  /** What is missing from `len` to `width`. */
  function Missing(len: nat, width: nat): nat {
    if len < width then width - len else 0
  }

  function Reversed(s: string): (r: string)
    ensures |r| == |s|
  {
    seq(|s|, i requires 0 <= i < |s| => s[|s| - 1 - i])
  }

  /** `out_rev_` */
  function OutRev(buf: string, width: nat, f: Flags): string {
    (if Left !in f && Zero !in f then Repeat(' ', Missing(|buf|, width)) else [])
    + Reversed(buf)
    + (if Left in f then Repeat(' ', Missing(|buf|, width)) else [])
  }

  // ---------------------------------------------------------------- digits

  function DigitChar(d: nat, upper: bool): char
    requires d < 16
  {
    if d < 10 then (48 + d) as char else if upper then (65 + d - 10) as char else (97 + d - 10) as char
  }

  function DigitValue(c: char): nat {
    if '0' <= c <= '9' then c as nat - 48
    else if 'A' <= c <= 'F' then c as nat - 55
    else if 'a' <= c <= 'f' then c as nat - 87
    else 0
  }

  /** The digits of a positive value, lowest first, as many as there is room for. */
  function Digits(v: nat, base: nat, upper: bool, room: nat): (s: string)
    requires 2 <= base <= 16
    ensures |s| <= room
    decreases v
  {
    if room == 0 || v == 0 then []
    else [DigitChar(v % base, upper)] + Digits(v / base, base, upper, room - 1)
  }

  /** The value of digits, lowest first. */
  function Read(s: string, base: nat): nat {
    if s == [] then 0 else DigitValue(s[0]) + base * Read(s[1..], base)
  }

  function Power(base: nat, n: nat): (p: nat)
    ensures base > 0 ==> p > 0
  {
    if n == 0 then 1 else base * Power(base, n - 1)
  }

  /** Reading the digits back gives the value exactly when there was room for all of them. */
  lemma {:induction false} DigitsRead(v: nat, base: nat, upper: bool, room: nat)
    requires 2 <= base <= 16
    ensures v < Power(base, room) ==> Read(Digits(v, base, upper, room), base) == v
    ensures v >= Power(base, room) ==> Read(Digits(v, base, upper, room), base) < v
    decreases room
  {
    if room > 0 && v > 0 {
      var q, d, p := v / base, v % base, Power(base, room - 1);
      DigitsRead(q, base, upper, room - 1);
      var s, rest := Digits(v, base, upper, room), Digits(q, base, upper, room - 1);
      assert s[0] == DigitChar(d, upper) && s[1..] == rest;
      assert DigitValue(DigitChar(d, upper)) == d;
      OneDigit(v, base, q, d, Read(rest, base), p);
    }
  }

  lemma OneDigit(v: nat, base: nat, q: nat, d: nat, r: nat, p: nat)
    requires base > 0 && q == v / base && d == v % base
    requires (q < p ==> r == q) && (q >= p ==> r < q)
    ensures v < base * p ==> d + base * r == v
    ensures v >= base * p ==> d + base * r < v
  {
    assert v == base * q + d && d < base;
    if q < p {
      assert base * (q + 1) <= base * p;
    } else {
      assert base * q >= base * p;
      assert base * r < base * q;
    }
  }

  lemma {:induction false} PowerSum(base: nat, m: nat, n: nat)
    ensures Power(base, m + n) == Power(base, m) * Power(base, n)
  {
    if m > 0 {
      PowerSum(base, m - 1, n);
      assert Power(base, m + n) == base * (Power(base, m - 1) * Power(base, n));
    }
  }

  /** The 32nd power, by squaring. */
  lemma Squares(b: nat)
    ensures var s := b * b; var f := s * s; var e := f * f; var x := e * e; Power(b, 32) == x * x
  {
    PowerSum(b, 1, 1);
    PowerSum(b, 2, 2);
    PowerSum(b, 4, 4);
    PowerSum(b, 8, 8);
    PowerSum(b, 16, 16);
  }

  lemma LargePower(b: nat)
    requires b >= 8
    ensures Power(b, 32) >= U64
  {
    Squares(b);
    var s := b * b;
    AtLeast(b, 8);
    var f := s * s;
    AtLeast(s, 64);
    var e := f * f;
    AtLeast(f, 4096);
    var x := e * e;
    AtLeast(e, 0x100_0000);
    AtLeast(x, 0x1_0000_0000_0000);
  }

  lemma AtLeast(a: nat, c: nat)
    requires a >= c
    ensures a * a >= c * c
  {
  }

  lemma SmallPower(b: nat)
    requires b == 2
    ensures Power(b, 32) == U32
  {
    Squares(b);
  }

  /** The 32 digits of the buffer suffice for every 64-bit value in the bases 8, 10 and 16; in
      base 2 exactly for the values below 2 to the 32. */
  lemma DigitsExact(v: nat, base: nat, upper: bool)
    requires v < U64 && base in {2, 8, 10, 16}
    ensures Read(Digits(v, base, upper, INTEGER_BUFFER_SIZE), base) == v <==> base != 2 || v < U32
  {
    if base == 2 { SmallPower(base); } else { LargePower(base); }
    DigitsRead(v, base, upper, INTEGER_BUFFER_SIZE);
  }

  // ---------------------------------------------------------------- numbers

  /** `s` filled with zeros up to `n` characters or the end of the buffer. */
  function ZeroFill(s: string, n: nat): (r: string)
    ensures |s| <= INTEGER_BUFFER_SIZE ==> |r| <= INTEGER_BUFFER_SIZE
    ensures |r| == |s| + Missing(|s|, Min(n, INTEGER_BUFFER_SIZE))
  {
    s + Repeat('0', Missing(|s|, Min(n, INTEGER_BUFFER_SIZE)))
  }

  /** One more character, if there is room. */
  function Push(s: string, c: char): (r: string)
    ensures |s| <= INTEGER_BUFFER_SIZE ==> |r| <= INTEGER_BUFFER_SIZE
  {
    if |s| < INTEGER_BUFFER_SIZE then s + [c] else s
  }

  /** The width without the place of the sign, when zeros fill the field. */
  function FieldWidth(width: nat, negative: bool, f: Flags): nat {
    if Left !in f && width > 0 && Zero in f && (negative || Plus in f || Space in f) then width - 1 else width
  }

  /** Digits and leading zeros, lowest first. */
  function Padded(digits: string, precision: nat, width: nat, f: Flags): (r: string)
    ensures |digits| <= INTEGER_BUFFER_SIZE ==> |digits| <= |r| <= INTEGER_BUFFER_SIZE
  {
    ZeroFill(if Left !in f && Zero in f then ZeroFill(digits, width) else digits, precision)
  }

  /** Padding given back to make room for the prefix. */
  function Reclaimed(s: string, unpadded: nat, base: nat, precision: nat, width: nat, f: Flags): (r: string)
    ensures |r| <= |s|
  {
    if Dot !in f && |s| > 0 && (|s| == precision || |s| == width) then
      var s1 := if unpadded < |s| then s[..|s| - 1] else s;
      if |s1| > 0 && (base == 16 || base == 2) && unpadded < |s1| then s1[..|s1| - 1] else s1
    else s
  }

  /** The prefix of the alternative form, last character first. */
  function Prefixed(s: string, unpadded: nat, base: nat, precision: nat, width: nat, f: Flags): (r: string)
    ensures |s| <= INTEGER_BUFFER_SIZE ==> |r| <= INTEGER_BUFFER_SIZE
  {
    if Hash in f || Pointer in f then
      var s1 := Reclaimed(s, unpadded, base, precision, width, f);
      var s2 :=
        if base == 16 then Push(s1, if Upper in f then 'X' else 'x') else if base == 2 then Push(s1, 'b') else s1;
      Push(s2, '0')
    else s
  }

  /** The sign, if any and if there is room. */
  function Signed(s: string, negative: bool, f: Flags): (r: string)
    ensures |s| <= INTEGER_BUFFER_SIZE ==> |r| <= INTEGER_BUFFER_SIZE
  {
    if negative then Push(s, '-') else if Plus in f then Push(s, '+') else if Space in f then Push(s, ' ') else s
  }

  /** The buffer of `print_integer_finalization`, lowest character first. */
  function Backwards(digits: string, negative: bool, base: nat, precision: nat, width: nat, f: Flags): (r: string)
    ensures |digits| <= INTEGER_BUFFER_SIZE ==> |r| <= INTEGER_BUFFER_SIZE
  {
    var padded := Padded(digits, precision, width, f);
    var g := if base == 8 && |padded| > |digits| then f - {Hash} else f;
    Signed(Prefixed(padded, |digits|, base, precision, width, g), negative, g)
  }

  /** `print_integer_finalization` */
  function Finished(digits: string, negative: bool, base: nat, precision: nat, width: nat, f: Flags): string {
    var w := FieldWidth(width, negative, f);
    OutRev(Backwards(digits, negative, base, precision, w, f), w, f)
  }

  /** The flags and digits of `print_integer`. */
  function NumberFlags(value: nat, base: nat, f: Flags): Flags {
    if value == 0 && (Dot !in f || base == 16) then f - {Hash} else f
  }

  function NumberDigits(value: nat, base: nat, f: Flags): (r: string)
    requires 2 <= base <= 16
    ensures |r| <= INTEGER_BUFFER_SIZE
  {
    if value == 0 then (if Dot in f then [] else ['0']) else Digits(value, base, Upper in f, INTEGER_BUFFER_SIZE)
  }

  /** `print_integer` */
  function Number(value: nat, negative: bool, base: nat, precision: nat, width: nat, f: Flags): string
    requires 2 <= base <= 16
  {
    Finished(NumberDigits(value, base, f), negative, base, precision, width, NumberFlags(value, base, f))
  }

  /** The sign of a number. */
  function SignText(negative: bool, f: Flags): string {
    if negative then "-" else if Plus in f then "+" else if Space in f then " " else ""
  }

  /** The leading zeros of a number of `len` digits: up to the precision, or up to the width if
      zeros fill the field. */
  function Zeros(len: nat, negative: bool, precision: nat, width: nat, f: Flags): nat {
    var p, w := Missing(len, precision), Missing(len + |SignText(negative, f)|, width);
    if Zero in f && Left !in f && w > p then w else p
  }

  /** A number in its field: spaces, sign, zeros, digits, spaces. */
  function InField(digits: string, negative: bool, precision: nat, width: nat, f: Flags): string {
    var text := SignText(negative, f) + Repeat('0', Zeros(|digits|, negative, precision, width, f)) + digits;
    var spaces := Repeat(' ', Missing(|text|, width));
    if Left in f then text + spaces else if Zero in f then text else spaces + text
  }

  lemma ReversedSum(a: string, b: string)
    ensures Reversed(a + b) == Reversed(b) + Reversed(a)
  {
  }

  lemma ReversedRepeat(c: char, n: nat)
    ensures Reversed(Repeat(c, n)) == Repeat(c, n)
  {
  }

  /** Zeros, as long as zeros and digits fit the buffer. */
  lemma PaddedIs(digits: string, negative: bool, precision: nat, width: nat, f: Flags)
    requires Zeros(|digits|, negative, precision, width, f) + |digits| <= INTEGER_BUFFER_SIZE
    ensures Padded(digits, precision, FieldWidth(width, negative, f), f) ==
            digits + Repeat('0', Zeros(|digits|, negative, precision, width, f))
  {
  }

  lemma BackwardsIs(digits: string, negative: bool, base: nat, precision: nat, width: nat, f: Flags)
    requires Hash !in f && Pointer !in f
    requires |SignText(negative, f)| + Zeros(|digits|, negative, precision, width, f) + |digits| <= INTEGER_BUFFER_SIZE
    ensures Backwards(digits, negative, base, precision, FieldWidth(width, negative, f), f) ==
            digits + Repeat('0', Zeros(|digits|, negative, precision, width, f)) + SignText(negative, f)
  {
    PaddedIs(digits, negative, precision, width, f);
    var w := FieldWidth(width, negative, f);
    var padded := Padded(digits, precision, w, f);
    assert Backwards(digits, negative, base, precision, w, f) == Signed(padded, negative, f);
    assert padded + [] == padded;
  }

  /** A number without a prefix, as long as sign, zeros and digits fit the buffer, is spaces, its
      sign, zeros and its digits, highest first, and spaces. */
  lemma NumberInField(value: nat, negative: bool, base: nat, precision: nat, width: nat, f: Flags)
    requires 2 <= base <= 16 && Hash !in f && Pointer !in f
    requires var len := |NumberDigits(value, base, f)|;
      |SignText(negative, f)| + Zeros(len, negative, precision, width, f) + len <= INTEGER_BUFFER_SIZE
    ensures Number(value, negative, base, precision, width, f) ==
            InField(Reversed(NumberDigits(value, base, f)), negative, precision, width, f)
  {
    var digits, sign := NumberDigits(value, base, f), SignText(negative, f);
    var zeros := Repeat('0', Zeros(|digits|, negative, precision, width, f));
    assert NumberFlags(value, base, f) == f;
    BackwardsIs(digits, negative, base, precision, width, f);
    ReversedSum(digits + zeros, sign);
    ReversedSum(digits, zeros);
    ReversedRepeat('0', |zeros|);
    assert Reversed(sign) == sign;
    assert sign + (zeros + Reversed(digits)) == sign + zeros + Reversed(digits);
    Laid(digits + zeros + sign, sign + zeros + Reversed(digits), FieldWidth(width, negative, f), width, f);
  }

  lemma Laid(b: string, text: string, w: nat, width: nat, f: Flags)
    requires Reversed(b) == text && (Left in f || Zero !in f ==> w == width)
    ensures var spaces := Repeat(' ', Missing(|text|, width));
      OutRev(b, w, f) == if Left in f then text + spaces else if Zero in f then text else spaces + text
  {
  }

  /** The digits of a 64-bit number read back as it; in base 2 exactly below two to the 32. */
  lemma NumberReads(value: nat, base: nat, f: Flags)
    requires value < U64 && base in {2, 8, 10, 16}
    ensures Read(NumberDigits(value, base, f), base) == value <==> base != 2 || value < U32
  {
    if value > 0 {
      DigitsExact(value, base, Upper in f);
    } else {
      assert Read(['0'], base) == DigitValue('0') + base * Read([], base);
    }
  }

  /** A prefix takes at most the room of padding that has been given back. */
  lemma PrefixedLength(s: string, unpadded: nat, base: nat, precision: nat, width: nat, f: Flags)
    requires |s| <= INTEGER_BUFFER_SIZE
    ensures |s| <= |Prefixed(s, unpadded, base, precision, width, f)| <= INTEGER_BUFFER_SIZE
  {
  }

  /** A number fills its field exactly if the field is not to be filled with zeros or is at most
      as long as the buffer. */
  lemma FieldFilled(value: nat, negative: bool, base: nat, precision: nat, width: nat, f: Flags)
    requires 2 <= base <= 16
    ensures |Number(value, negative, base, precision, width, f)| >= width <==>
            Left in f || Zero !in f || width <= INTEGER_BUFFER_SIZE
  {
    SameAlignment(value, base, f);
    var g := NumberFlags(value, base, f);
    DigitsInField(NumberDigits(value, base, f), negative, base, precision, width, g);
  }

  lemma SameAlignment(value: nat, base: nat, f: Flags)
    ensures var g := NumberFlags(value, base, f); (Zero in g <==> Zero in f) && (Left in g <==> Left in f)
  {
  }

  lemma DigitsInField(digits: string, negative: bool, base: nat, precision: nat, width: nat, f: Flags)
    requires |digits| <= INTEGER_BUFFER_SIZE
    ensures |Finished(digits, negative, base, precision, width, f)| >= width <==>
            Left in f || Zero !in f || width <= INTEGER_BUFFER_SIZE
  {
    var w := FieldWidth(width, negative, f);
    BackwardsLength(digits, negative, base, precision, w, f);
    FieldLength(Backwards(digits, negative, base, precision, w, f), negative, width, f);
  }

  lemma FieldLength(b: string, negative: bool, width: nat, f: Flags)
    requires |b| <= INTEGER_BUFFER_SIZE
    requires Zero in f && Left !in f ==>
      |b| >= Min(INTEGER_BUFFER_SIZE, FieldWidth(width, negative, f) + |SignText(negative, f)|)
    ensures |OutRev(b, FieldWidth(width, negative, f), f)| >= width <==>
            Left in f || Zero !in f || width <= INTEGER_BUFFER_SIZE
  {
  }

  lemma SignedLength(s: string, negative: bool, f: Flags)
    requires |s| <= INTEGER_BUFFER_SIZE
    ensures |Signed(s, negative, f)| == Min(INTEGER_BUFFER_SIZE, |s| + |SignText(negative, f)|)
  {
  }

  lemma PaddedLength(digits: string, precision: nat, width: nat, f: Flags)
    requires |digits| <= INTEGER_BUFFER_SIZE && Zero in f && Left !in f
    ensures |Padded(digits, precision, width, f)| >= Min(INTEGER_BUFFER_SIZE, width)
  {
  }

  lemma BackwardsLength(digits: string, negative: bool, base: nat, precision: nat, width: nat, f: Flags)
    requires |digits| <= INTEGER_BUFFER_SIZE
    ensures Zero in f && Left !in f ==>
      |Backwards(digits, negative, base, precision, width, f)| >=
      Min(INTEGER_BUFFER_SIZE, width + |SignText(negative, f)|)
  {
    var padded := Padded(digits, precision, width, f);
    var g := if base == 8 && |padded| > |digits| then f - {Hash} else f;
    var prefixed := Prefixed(padded, |digits|, base, precision, width, g);
    PrefixedLength(padded, |digits|, base, precision, width, g);
    SignedLength(prefixed, negative, g);
    if Zero in f && Left !in f { PaddedLength(digits, precision, width, f); }
    assert Backwards(digits, negative, base, precision, width, f) == Signed(prefixed, negative, g);
    assert SignText(negative, g) == SignText(negative, f);
  }

  /** The minus sign of a negative decimal number is lost exactly when zeros fill the whole
      buffer: a precision of 32 or more, or a zero-filled field of 33 or more. */
  lemma SignKept(value: nat, precision: nat, width: nat, f: Flags)
    requires 0 < value < U64 && Hash !in f && Pointer !in f
    ensures '-' in Number(value, true, 10, precision, width, f) <==>
            precision < INTEGER_BUFFER_SIZE && !(Zero in f && Left !in f && width > INTEGER_BUFFER_SIZE)
  {
    var digits, w := NumberDigits(value, 10, f), FieldWidth(width, true, f);
    FewDigits(value, 10, Upper in f);
    NoSign(value, 10, Upper in f, INTEGER_BUFFER_SIZE);
    var padded := Padded(digits, precision, w, f);
    var b := Backwards(digits, true, 10, precision, w, f);
    assert b == Push(padded, '-');
    ReversedHas(b, '-');
    assert '-' in b <==> |padded| < INTEGER_BUFFER_SIZE by {
      if |padded| < INTEGER_BUFFER_SIZE { assert b[|padded|] == '-'; }
    }
  }

  lemma ReversedHas(s: string, c: char)
    ensures c in Reversed(s) <==> c in s
  {
    forall i | 0 <= i < |s| ensures Reversed(s)[|s| - 1 - i] == s[i] { }
    if c in s {
      var i :| 0 <= i < |s| && s[i] == c;
      assert Reversed(s)[|s| - 1 - i] == c;
    }
  }

  lemma {:induction false} NoSign(v: nat, base: nat, upper: bool, room: nat)
    requires 2 <= base <= 16
    ensures '-' !in Digits(v, base, upper, room)
    decreases room
  {
    if room > 0 && v > 0 {
      NoSign(v / base, base, upper, room - 1);
      assert DigitChar(v % base, upper) != '-';
    }
  }

  lemma {:induction false} PowerGrows(b: nat, c: nat, n: nat)
    requires b <= c
    ensures Power(b, n) <= Power(c, n)
  {
    if n > 0 {
      PowerGrows(b, c, n - 1);
      ProductGrows(b, c, Power(b, n - 1), Power(c, n - 1));
    }
  }

  lemma ProductGrows(b: nat, c: nat, p: nat, q: nat)
    requires b <= c && p <= q
    ensures b * p <= c * q
  {
    assert b * (q - p) >= 0 && (c - b) * q >= 0;
  }

  lemma EightToTwentyTwo(b: nat)
    requires b == 8
    ensures Power(b, 22) >= U64
  {
    PowerSum(b, 1, 1);
    PowerSum(b, 2, 2);
    PowerSum(b, 4, 4);
    PowerSum(b, 8, 8);
    PowerSum(b, 16, 4);
    PowerSum(b, 20, 2);
  }

  /** A 64-bit number has at most 22 digits in base 8 and above. */
  lemma FewDigits(v: nat, base: nat, upper: bool)
    requires v < U64 && 8 <= base <= 16
    ensures |Digits(v, base, upper, INTEGER_BUFFER_SIZE)| <= 22
  {
    EightToTwentyTwo(8);
    PowerGrows(8, base, 22);
    DigitCount(v, base, upper, INTEGER_BUFFER_SIZE, 22);
  }

  lemma {:induction false} DigitCount(v: nat, base: nat, upper: bool, room: nat, n: nat)
    requires 2 <= base <= 16 && v < Power(base, n)
    ensures |Digits(v, base, upper, room)| <= n
    decreases n
  {
    if n > 0 && room > 0 && v > 0 {
      OneDigit(v, base, v / base, v % base, if v / base < Power(base, n - 1) then v / base else 0, Power(base, n - 1));
      DigitCount(v / base, base, upper, room - 1, n - 1);
    }
  }

  /** Where the buffer is too short: minus one with a precision of 32, one in a zero-filled field
      of 33, and two to the 32 in base 2. */
  lemma BufferTooShort()
    ensures '-' !in Number(1, true, 10, 32, 0, {Dot})
    ensures |Number(1, false, 10, 0, 33, {Zero})| < 33
    ensures Read(Digits(U32, 2, false, INTEGER_BUFFER_SIZE), 2) != U32
  {
    SignKept(1, 32, 0, {Dot});
    FieldFilled(1, false, 10, 0, 33, {Zero});
    DigitsExact(U32, 2, false);
  }
}
