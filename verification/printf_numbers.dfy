/** Numbers as section 7.21.6.1 of ISO/IEC 9899:2011 wants them printed, and exactly when the kernel's
    32-character buffer prints them so. */
module PrintfNumbers {

  import opened PrintfText
  import opened Machine

  // ---------------------------------------------------------------- the definition

  /** The numeral of `v`, highest digit first. */
  function Numeral(v: nat, base: nat, upper: bool): (s: string)
    requires 2 <= base <= 16
    ensures s != []
  {
    var digit := (if upper then "0123456789ABCDEF" else "0123456789abcdef")[v % base];
    if v < base then [digit] else Numeral(v / base, base, upper) + [digit]
  }

  /** A precision asks for at least so many digits, and for none for the value zero if it is zero. */
  function DigitsOf(value: nat, base: nat, upper: bool, dot: bool): string
    requires 2 <= base <= 16
  {
    if value == 0 && dot then "" else Numeral(value, base, upper)
  }

  /** How many zeros are needed: up to the precision, or, if zeros fill the field, up to its end. */
  function ZerosFor(digits: nat, others: nat, precision: nat, fill: nat): nat {
    var p, w := Missing(digits, precision), Missing(others + digits, fill);
    if w > p then w else p
  }

  /** Sign, prefix, zeros and digits; an octal number of the alternative form starts with a zero. */
  function Body(digits: string, sign: string, mark: string, octal: bool, precision: nat, fill: nat): string {
    var z := ZerosFor(|digits|, |sign| + |mark|, precision, fill);
    sign + (mark + (if octal && z == 0 then "0" else "") + (Repeat('0', z) + digits))
  }

  /** Text in its field. */
  function Placed(text: string, width: nat, left: bool): string {
    var spaces := Repeat(' ', Missing(|text|, width));
    if left then text + spaces else spaces + text
  }

  /** The alternative form is asked for; it is the plain one for zero, but for the digits a precision of
      zero leaves out. */
  predicate Alternative(value: nat, base: nat, f: Flags) {
    Pointer in f || (Hash in f && (value != 0 || (Dot in f && base != 16)))
  }

  /** The prefix of a hexadecimal or binary number. */
  function MarkText(alternative: bool, base: nat, upper: bool): string {
    if !alternative then ""
    else if base == 16 then (if upper then "0X" else "0x")
    else if base == 2 then "0b"
    else ""
  }

  /** The width zeros fill, if they do. With a precision the prefix is put in front of the filled
      field. */
  function FillWidth(mark: string, width: nat, f: Flags): nat {
    if Zero !in f || Left in f then 0 else if Dot in f then width + |mark| else width
  }

  /** The number without the spaces around it. */
  function NumberBody(value: nat, negative: bool, base: nat, precision: nat, width: nat, f: Flags): string
    requires 2 <= base <= 16
  {
    var mark := MarkText(Alternative(value, base, f), base, Upper in f);
    Body(DigitsOf(value, base, Upper in f, Dot in f), SignText(negative, f), mark,
         base == 8 && Alternative(value, base, f), precision, FillWidth(mark, width, f))
  }

  /** What is asked of the flags: there is no precision without a dot, and no prefix for decimal numbers. */
  predicate Sensible(base: nat, precision: nat, f: Flags) {
    && base in {2, 8, 10, 16} && (Dot !in f ==> precision == 0)
    && (Hash in f ==> base != 10) && (Pointer in f ==> base == 16)
  }

  // ---------------------------------------------------------------- digits

  lemma DigitIs(d: nat, upper: bool)
    requires d < 16
    ensures (if upper then "0123456789ABCDEF" else "0123456789abcdef")[d] == DigitChar(d, upper)
  {
  }

  lemma NumeralStep(v: nat, base: nat, upper: bool)
    requires 2 <= base <= 16
    ensures Numeral(v, base, upper)
         == (if v < base then [] else Numeral(v / base, base, upper)) + [DigitChar(v % base, upper)]
  {
    DigitIs(v % base, upper);
  }

  lemma Shrinks(v: nat, base: nat)
    requires 2 <= base
    ensures (v / base == 0 <==> v < base) && (v > 0 ==> v / base < v)
  {
  }

  lemma DigitsStep(v: nat, base: nat, upper: bool, room: nat)
    requires 2 <= base <= 16 && v > 0 && room > 0
    ensures Digits(v, base, upper, room) == [DigitChar(v % base, upper)] + Digits(v / base, base, upper, room - 1)
  {
  }

  /** If the numeral fits, its digits are those the loop writes. */
  lemma {:induction false} NumeralIs(v: nat, base: nat, upper: bool, room: nat)
    requires 2 <= base <= 16 && v > 0 && |Numeral(v, base, upper)| <= room
    ensures Reversed(Digits(v, base, upper, room)) == Numeral(v, base, upper)
    decreases v
  {
    var q, c := v / base, DigitChar(v % base, upper);
    NumeralStep(v, base, upper);
    Shrinks(v, base);
    var rest := Digits(q, base, upper, room - 1);
    calc {
      Reversed(Digits(v, base, upper, room));
      { DigitsStep(v, base, upper, room); }
      Reversed([c] + rest);
      { LastReversed(c, rest); }
      Reversed(rest) + [c];
      { if v >= base { NumeralIs(q, base, upper, room - 1); } }
      (if v < base then [] else Numeral(q, base, upper)) + [c];
    }
  }

  lemma LastReversed(c: char, rest: string)
    ensures Reversed([c] + rest) == Reversed(rest) + [c]
  {
    ReversedSum([c], rest);
  }

  lemma DigitsAre(value: nat, base: nat, f: Flags)
    requires 2 <= base <= 16 && |DigitsOf(value, base, Upper in f, Dot in f)| <= INTEGER_BUFFER_SIZE
    ensures Reversed(NumberDigits(value, base, f)) == DigitsOf(value, base, Upper in f, Dot in f)
  {
    if value > 0 {
      NumeralIs(value, base, Upper in f, INTEGER_BUFFER_SIZE);
    } else {
      DigitIs(0, Upper in f);
    }
  }

  // ---------------------------------------------------------------- the buffer

  /** The digits, lowest first, and what stands for them in the definition. */
  ghost predicate Backward(digits: string, forward: string) {
    |digits| <= INTEGER_BUFFER_SIZE && Reversed(digits) == forward
  }

  /** Zeros of a number without prefix. */
  lemma ZerosAre(len: nat, negative: bool, precision: nat, width: nat, f: Flags)
    ensures Zeros(len, negative, precision, width, f) ==
            ZerosFor(len, |SignText(negative, f)|, precision, if Zero in f && Left !in f then width else 0)
  {
  }

  /** The zeros in front of the digits, with padding given back for a prefix of two characters. */
  lemma ReclaimedIs(digits: string, negative: bool, base: nat, precision: nat, width: nat, f: Flags)
    requires base == 2 || base == 16
    requires Dot !in f ==> precision == 0 && digits != []
    requires var z := ZerosFor(|digits|, |SignText(negative, f)| + 2, precision,
                               if Zero !in f || Left in f then 0 else if Dot in f then width + 2 else width);
      2 + z + |digits| <= INTEGER_BUFFER_SIZE
    ensures var z := ZerosFor(|digits|, |SignText(negative, f)| + 2, precision,
                              if Zero !in f || Left in f then 0 else if Dot in f then width + 2 else width);
      var w := FieldWidth(width, negative, f);
      Reclaimed(Padded(digits, precision, w, f), |digits|, base, precision, w, f) == digits + Repeat('0', z)
  {
    ZerosAre(|digits|, negative, precision, width, f);
    PaddedIs(digits, negative, precision, width, f);
    var z0, w := Zeros(|digits|, negative, precision, width, f), FieldWidth(width, negative, f);
    var s := digits + Repeat('0', z0);
    assert Padded(digits, precision, w, f) == s;
    if z0 > 0 { assert s[..|s| - 1] == digits + Repeat('0', z0 - 1); }
    if z0 > 1 { assert s[..|s| - 2] == digits + Repeat('0', z0 - 2); }
  }

  /** Prefix, zeros and digits of a number with the flags `g`, highest first. */
  ghost function Front(forward: string, negative: bool, base: nat, precision: nat, width: nat, g: Flags): string {
    var alt := Hash in g || Pointer in g;
    var mark := MarkText(alt, base, Upper in g);
    var z := ZerosFor(|forward|, |SignText(negative, g)| + |mark|, precision, FillWidth(mark, width, g));
    mark + (if base == 8 && alt && z == 0 then "0" else "") + (Repeat('0', z) + forward)
  }

  /** What the buffer holds before the sign. */
  ghost function Stored(digits: string, negative: bool, base: nat, precision: nat, width: nat, g: Flags): string {
    var w := FieldWidth(width, negative, g);
    var padded := Padded(digits, precision, w, g);
    Prefixed(padded, |digits|, base, precision, w, if base == 8 && |padded| > |digits| then g - {Hash} else g)
  }

  /** Reading the buffer backwards. */
  lemma StackReversed(digits: string, forward: string, z: nat, top: string, s: string)
    requires Reversed(digits) == forward && s == digits + Repeat('0', z) + Reversed(top)
    ensures Reversed(s) == top + (Repeat('0', z) + forward)
  {
    ReversedSum(digits + Repeat('0', z), Reversed(top));
    ReversedSum(digits, Repeat('0', z));
    ReversedRepeat('0', z);
    assert Reversed(Reversed(top)) == top;
  }

  lemma PlainStored(digits: string, negative: bool, base: nat, precision: nat, width: nat, g: Flags, z: nat)
    requires Hash !in g && Pointer !in g && z == Zeros(|digits|, negative, precision, width, g)
    requires z + |digits| <= INTEGER_BUFFER_SIZE
    ensures Stored(digits, negative, base, precision, width, g) == digits + Repeat('0', z) + Reversed("")
  {
    PaddedIs(digits, negative, precision, width, g);
    var s := digits + Repeat('0', z);
    assert s + Reversed("") == s;
  }

  lemma OctalStored(digits: string, negative: bool, precision: nat, width: nat, g: Flags, z: nat)
    requires Hash in g && Pointer !in g && z == Zeros(|digits|, negative, precision, width, g)
    requires (if z == 0 then 1 else z) + |digits| <= INTEGER_BUFFER_SIZE
    ensures Stored(digits, negative, 8, precision, width, g) ==
            digits + Repeat('0', z) + Reversed(if z == 0 then "0" else "")
  {
    PaddedIs(digits, negative, precision, width, g);
    var w := FieldWidth(width, negative, g);
    var s := digits + Repeat('0', z);
    assert s + Reversed("") == s && Reversed("0") == "0";
    if z == 0 {
      assert s == digits;
      UnpaddedOctal(digits, precision, w, g);
    }
  }

  lemma UnpaddedOctal(s: string, precision: nat, w: nat, g: Flags)
    requires Hash in g && |s| < INTEGER_BUFFER_SIZE
    ensures Prefixed(s, |s|, 8, precision, w, g) == s + "0"
  {
  }

  lemma MarkedStored(digits: string, negative: bool, base: nat, precision: nat, width: nat, g: Flags,
                     mark: string, z: nat)
    requires (base == 2 || base == 16) && (Hash in g || Pointer in g) && (Dot !in g ==> precision == 0 && digits != [])
    requires mark == if base == 2 then "0b" else if Upper in g then "0X" else "0x"
    requires z == ZerosFor(|digits|, |SignText(negative, g)| + 2, precision, FillWidth(mark, width, g))
    requires 2 + z + |digits| <= INTEGER_BUFFER_SIZE
    ensures Stored(digits, negative, base, precision, width, g) == digits + Repeat('0', z) + Reversed(mark)
  {
    ReclaimedIs(digits, negative, base, precision, width, g);
    var w := FieldWidth(width, negative, g);
    PrefixedFrom(Padded(digits, precision, w, g), |digits|, base, precision, w, g, digits + Repeat('0', z), mark);
  }

  lemma PrefixedFrom(padded: string, unpadded: nat, base: nat, precision: nat, w: nat, g: Flags,
                     s: string, mark: string)
    requires (base == 2 || base == 16) && (Hash in g || Pointer in g)
    requires mark == if base == 2 then "0b" else if Upper in g then "0X" else "0x"
    requires Reclaimed(padded, unpadded, base, precision, w, g) == s && |s| + 2 <= INTEGER_BUFFER_SIZE
    ensures Prefixed(padded, unpadded, base, precision, w, g) == s + Reversed(mark)
  {
    assert Prefixed(padded, unpadded, base, precision, w, g) == s + [mark[1]] + ['0'];
    assert [mark[1]] + ['0'] == Reversed(mark);
  }

  lemma FrontIs(digits: string, forward: string, negative: bool, base: nat, precision: nat, width: nat, g: Flags)
    requires Backward(digits, forward) && Sensible(base, precision, g) && (Dot !in g ==> digits != [])
    requires |Front(forward, negative, base, precision, width, g)| <= INTEGER_BUFFER_SIZE
    ensures Reversed(Stored(digits, negative, base, precision, width, g)) ==
            Front(forward, negative, base, precision, width, g)
  {
    var sign := |SignText(negative, g)|;
    if base in {2, 16} && (Hash in g || Pointer in g) {
      var mark := if base == 2 then "0b" else if Upper in g then "0X" else "0x";
      var z := ZerosFor(|digits|, sign + 2, precision, FillWidth(mark, width, g));
      MarkedStored(digits, negative, base, precision, width, g, mark, z);
      StackReversed(digits, forward, z, mark, Stored(digits, negative, base, precision, width, g));
      assert mark + "" == mark;
    } else {
      ZerosAre(|digits|, negative, precision, width, g);
      var z := ZerosFor(|digits|, sign, precision, FillWidth("", width, g));
      var top := if base == 8 && Hash in g && z == 0 then "0" else "";
      if Hash in g { OctalStored(digits, negative, precision, width, g, z); }
      else { PlainStored(digits, negative, base, precision, width, g, z); }
      StackReversed(digits, forward, z, top, Stored(digits, negative, base, precision, width, g));
      assert "" + top == top;
    }
  }

  // ---------------------------------------------------------------- when the buffer is long enough

  lemma BodyIs(value: nat, negative: bool, base: nat, precision: nat, width: nat, f: Flags)
    requires Sensible(base, precision, f)
    ensures var g := NumberFlags(value, base, f);
      && Sensible(base, precision, g) && SignText(negative, g) == SignText(negative, f)
      && NumberBody(value, negative, base, precision, width, f) ==
         SignText(negative, f) +
         Front(DigitsOf(value, base, Upper in f, Dot in f), negative, base, precision, width, g)
  {
    FlagsAre(value, negative, base, f);
    var g := NumberFlags(value, base, f);
    var mark := MarkText(Hash in g || Pointer in g, base, Upper in g);
    assert FillWidth(mark, width, g) == FillWidth(mark, width, f);
  }

  lemma FlagsAre(value: nat, negative: bool, base: nat, f: Flags)
    ensures var g := NumberFlags(value, base, f);
      && (Hash in g || Pointer in g <==> Alternative(value, base, f)) && g - {Hash} == f - {Hash} && g <= f
      && SignText(negative, g) == SignText(negative, f)
      && (Zero in g <==> Zero in f) && (Left in g <==> Left in f) && (Dot in g <==> Dot in f)
      && (Upper in g <==> Upper in f) && (Pointer in g <==> Pointer in f)
  {
  }

  /** The buffer of a number, lowest character first. */
  ghost function Buffer(value: nat, negative: bool, base: nat, precision: nat, width: nat, f: Flags): string
    requires 2 <= base <= 16
  {
    var g := NumberFlags(value, base, f);
    Backwards(NumberDigits(value, base, f), negative, base, precision, FieldWidth(width, negative, g), g)
  }

  lemma NumberIs(value: nat, negative: bool, base: nat, precision: nat, width: nat, f: Flags)
    requires 2 <= base <= 16
    ensures var b := Buffer(value, negative, base, precision, width, f);
      && |b| <= INTEGER_BUFFER_SIZE
      && Number(value, negative, base, precision, width, f) ==
         if Left in f then Placed(Reversed(b), width, true)
         else if Zero in f then Reversed(b) else Placed(Reversed(b), width, false)
  {
    SameAlignment(value, base, f);
    var g := NumberFlags(value, base, f);
    var b := Buffer(value, negative, base, precision, width, f);
    Laid(b, Reversed(b), FieldWidth(width, negative, g), width, g);
  }

  /** What the buffer holds if everything but the sign fits: the sign too, if there is room for it. */
  lemma BufferIs(value: nat, negative: bool, base: nat, precision: nat, width: nat, f: Flags)
    requires Sensible(base, precision, f)
    requires var body, sign := NumberBody(value, negative, base, precision, width, f), SignText(negative, f);
      |body| - |sign| <= INTEGER_BUFFER_SIZE
    ensures var body, sign := NumberBody(value, negative, base, precision, width, f), SignText(negative, f);
      Reversed(Buffer(value, negative, base, precision, width, f)) ==
      if |body| <= INTEGER_BUFFER_SIZE then body else body[|sign|..]
  {
    var g, sign := NumberFlags(value, base, f), SignText(negative, f);
    var digits, forward := NumberDigits(value, base, f), DigitsOf(value, base, Upper in f, Dot in f);
    BodyIs(value, negative, base, precision, width, f);
    var front := Front(forward, negative, base, precision, width, g);
    DigitsAre(value, base, f);
    FrontIs(digits, forward, negative, base, precision, width, g);
    SignedIs(Stored(digits, negative, base, precision, width, g), front, negative, g, sign);
    assert (sign + front)[|sign|..] == front;
  }

  lemma SignedIs(s: string, front: string, negative: bool, g: Flags, sign: string)
    requires Reversed(s) == front && |s| <= INTEGER_BUFFER_SIZE && sign == SignText(negative, g)
    ensures var h := if |s| + |sign| <= INTEGER_BUFFER_SIZE then sign + front else front;
      Reversed(Signed(s, negative, g)) == h && Reversed(Signed(s, negative, g - {Hash})) == h
  {
    assert SignText(negative, g - {Hash}) == sign;
    ReversedSum(s, sign);
    assert Reversed(sign) == sign;
    assert s + "" == s && "" + front == front;
  }

  /** If zeros fill the field there is no room for spaces. */
  lemma ZerosFill(value: nat, negative: bool, base: nat, precision: nat, width: nat, f: Flags)
    requires Sensible(base, precision, f) && Zero in f && Left !in f
    ensures |NumberBody(value, negative, base, precision, width, f)| >= width
  {
  }

  ghost predicate SpareSign(body: string, sign: string, width: nat, f: Flags) {
    |body| == INTEGER_BUFFER_SIZE + 1 && sign == " " && Left !in f && Zero !in f && width > INTEGER_BUFFER_SIZE
  }

  lemma SpareIsPlaced(body: string, width: nat)
    requires 0 < |body| <= width && body[0] == ' '
    ensures Placed(body[1..], width, false) == Placed(body, width, false)
  {
    var t, n := body[1..], width - |body|;
    assert Repeat(' ', n + 1) == Repeat(' ', n) + " ";
    assert Repeat(' ', n) + " " + t == Repeat(' ', n) + body;
  }

  ghost predicate Spaceless(s: string) { forall i | 0 <= i < |s| :: s[i] != ' ' }

  lemma {:induction false} NumeralSpaceless(v: nat, base: nat, upper: bool)
    requires 2 <= base <= 16
    ensures Spaceless(Numeral(v, base, upper))
  {
    var c := DigitChar(v % base, upper);
    NumeralStep(v, base, upper);
    Shrinks(v, base);
    assert c != ' ';
    if v < base {
      assert [] + [c] == [c];
    } else {
      NumeralSpaceless(v / base, base, upper);
      SpacelessSum(Numeral(v / base, base, upper), [c]);
    }
  }

  lemma SpacelessSum(a: string, b: string)
    requires Spaceless(a) && Spaceless(b)
    ensures Spaceless(a + b)
  {
  }

  lemma BodySpaceless(value: nat, negative: bool, base: nat, precision: nat, width: nat, f: Flags)
    requires Sensible(base, precision, f)
    ensures var body, sign := NumberBody(value, negative, base, precision, width, f), SignText(negative, f);
      sign <= body && Spaceless(body[|sign|..])
  {
    NumeralSpaceless(value, base, Upper in f);
    var body, sign := NumberBody(value, negative, base, precision, width, f), SignText(negative, f);
    BodyIs(value, negative, base, precision, width, f);
    var g, forward := NumberFlags(value, base, f), DigitsOf(value, base, Upper in f, Dot in f);
    var front := Front(forward, negative, base, precision, width, g);
    assert body[|sign|..] == front;
    FrontSpaceless(forward, negative, base, precision, width, g);
  }

  lemma FrontSpaceless(forward: string, negative: bool, base: nat, precision: nat, width: nat, g: Flags)
    requires Spaceless(forward)
    ensures Spaceless(Front(forward, negative, base, precision, width, g))
  {
  }

  /** A text that is shorter than the body cannot be placed like it. */
  lemma TooLong(t: string, body: string, sign: string, width: nat, f: Flags)
    requires |t| <= INTEGER_BUFFER_SIZE < |body| && |sign| <= 1 && sign <= body && Spaceless(body[|sign|..])
    requires sign != "" && sign != " " ==> body[0] != ' '
    requires !SpareSign(body, sign, width, f)
    ensures (if Left in f then Placed(t, width, true) else if Zero in f then t else Placed(t, width, false)) !=
            Placed(body, width, Left in f)
  {
    var n := |body|;
    assert body[n - 1] == body[|sign|..][n - 1 - |sign|] && body[|sign|] == body[|sign|..][0];
    if Left in f {
      assert Placed(body, width, true)[n - 1] == body[n - 1];
      assert |Placed(t, width, true)| >= n ==> Placed(t, width, true)[n - 1] == ' ';
    } else if Zero in f || width < n {
      assert |Placed(body, width, false)| >= n;
    } else {
      var p, q := Placed(t, width, false), Placed(body, width, false);
      assert q[width - n] == body[0] && p[width - n] == ' ';
      if sign == " " { assert q[width - n + 1] == body[1] && p[width - n + 1] == ' '; }
    }
  }

  /** A number is printed as defined exactly if sign, prefix, zeros and digits fit the buffer, or a
      space that stands for its sign is all that does not, and the field has another one for it. */
  lemma NumberExact(value: nat, negative: bool, base: nat, precision: nat, width: nat, f: Flags)
    requires Sensible(base, precision, f)
    ensures var body := NumberBody(value, negative, base, precision, width, f);
      Number(value, negative, base, precision, width, f) == Placed(body, width, Left in f) <==>
      |body| <= INTEGER_BUFFER_SIZE || SpareSign(body, SignText(negative, f), width, f)
  {
    var body, sign := NumberBody(value, negative, base, precision, width, f), SignText(negative, f);
    NumberIs(value, negative, base, precision, width, f);
    if Zero in f && Left !in f { ZerosFill(value, negative, base, precision, width, f); }
    if |body| <= INTEGER_BUFFER_SIZE {
      BufferIs(value, negative, base, precision, width, f);
      assert Placed(body, |body|, false) == body;
    } else if SpareSign(body, sign, width, f) {
      BufferIs(value, negative, base, precision, width, f);
      SpareIsPlaced(body, width);
    } else {
      BodySpaceless(value, negative, base, precision, width, f);
      TooLong(Reversed(Buffer(value, negative, base, precision, width, f)), body, sign, width, f);
    }
  }
}
