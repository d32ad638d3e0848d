/** Where a format ends. A string without zero characters is a format when a zero character and
    any other memory follow it; here is when that memory is read, too. */
module PrintfEnds {

  import opened PrintfText
  import opened PrintfFormat
  import opened Machine

  ghost predicate Text(s: string) {
    forall i | 0 <= i < |s| :: s[i] != NUL
  }

  /** The directive at `i` takes the end of the string for its conversion. */
  predicate RunsOver(s: string, i: nat) {
    ParseAt(s, i).Parsed? && ParseAt(s, i).next > |s|
  }

  /** No directive from `i` on does so. */
  predicate Terminated(s: string, i: nat)
    decreases |s| - i
  {
    if At(s, i) == NUL then true
    else if s[i] != '%' then Terminated(s, i + 1)
    else
      ParseAdvances(s, i);
      match ParseAt(s, i)
      case Stop => true
      case Parsed(_, next) => next <= |s| && Terminated(s, next)
  }

  // ---------------------------------------------------------------- what follows the string

  /** The string in memory. */
  ghost function Stored(s: string, tail: string): string { s + [NUL] + tail }

  lemma {:induction false} FlagsLocal(s: string, tail: string, i: nat, f: Flags)
    requires i <= |s|
    ensures FlagsAt(Stored(s, tail), i, f) == FlagsAt(s, i, f)
    decreases |s| - i
  {
    if i < |s| && IsFlag(s[i]) { FlagsLocal(s, tail, i + 1, WithFlag(f, s[i])); }
  }

  lemma {:induction false} AmountLocal(s: string, tail: string, i: nat, n: nat)
    requires i <= |s|
    ensures AmountAt(Stored(s, tail), i, n) == AmountAt(s, i, n)
    decreases |s| - i
  {
    if i < |s| && IsDigit(s[i]) { AmountLocal(s, tail, i + 1, (n * 10 + (s[i] as nat - 48)) % U32); }
  }

  lemma AtLocal(s: string, tail: string, i: nat)
    requires i <= |s|
    ensures At(Stored(s, tail), i) == At(s, i)
  {
  }

  lemma WidthLocal(s: string, tail: string, i: nat)
    requires i <= |s|
    ensures WidthAt(Stored(s, tail), i) == WidthAt(s, i)
  {
    AtLocal(s, tail, i);
    if i < |s| {
      AtLocal(s, tail, i + 1);
      AmountLocal(s, tail, i, 0);
    }
  }

  lemma PrecisionLocal(s: string, tail: string, i: nat)
    requires i <= |s|
    ensures PrecisionAt(Stored(s, tail), i) == PrecisionAt(s, i)
    ensures PrecisionAt(s, i).Go? ==> i <= PrecisionAt(s, i).at <= |s|
  {
    AtLocal(s, tail, i);
    if i < |s| {
      AtLocal(s, tail, i + 1);
      WidthLocal(s, tail, i + 1);
      WidthAdvance(s, i + 1);
    }
  }

  lemma LengthLocal(s: string, tail: string, i: nat, f: Flags)
    requires i <= |s|
    ensures LengthAt(Stored(s, tail), i, f) == LengthAt(s, i, f)
    ensures LengthAt(s, i, f).Go? ==> i <= LengthAt(s, i, f).at <= |s|
  {
    AtLocal(s, tail, i);
    if i < |s| {
      AtLocal(s, tail, i + 1);
      if i + 1 < |s| { AtLocal(s, tail, i + 2); }
    }
  }

  /** A directive is taken apart without a look at what follows the string. */
  lemma ParseLocal(s: string, tail: string, i: nat)
    requires i < |s|
    ensures ParseAt(Stored(s, tail), i) == ParseAt(s, i)
  {
    var mem := Stored(s, tail);
    AtLocal(s, tail, i + 1);
    FlagsLocal(s, tail, i + 1, NO_FLAGS);
    FlagsAdvance(s, i + 1, NO_FLAGS);
    var (f, j) := FlagsAt(s, i + 1, NO_FLAGS);
    WidthLocal(s, tail, j);
    WidthAdvance(s, j);
    match WidthAt(s, j)
    case Halt =>
    case Go(width, k) =>
      PrecisionLocal(s, tail, k);
      match PrecisionAt(s, k)
      case Halt =>
      case Go(dotted, l) =>
        LengthLocal(s, tail, l, WithDot(f, dotted.0));
        match LengthAt(s, l, WithDot(f, dotted.0))
        case Halt =>
        case Go(g, m) => AtLocal(s, tail, m);
  }

  /** What is printed of the memory behind the string: nothing, if all directives end in the
      string, and otherwise all of it as a format, from argument `k'` on. */
  ghost predicate Follows(s: string, tail: string, i: nat, args: Args, k: nat, k': nat) {
    Output(Stored(s, tail), i, args, k) ==
    Output(s, i, args, k) + if Terminated(s, i) then [] else Output(Stored(s, tail), |s| + 1, args, k')
  }

  lemma CharacterFollows(s: string, tail: string, i: nat, args: Args, k: nat, k': nat)
    requires i < |s| && s[i] != '%' && s[i] != NUL && Follows(s, tail, i + 1, args, k, k')
    ensures Follows(s, tail, i, args, k, k')
  {
    var mem := Stored(s, tail);
    assert mem[i] == s[i];
    Regroup([s[i]], Output(s, i + 1, args, k), if Terminated(s, i) then [] else Output(mem, |s| + 1, args, k'));
  }

  lemma DirectiveFollows(s: string, tail: string, i: nat, d: Directive, next: nat, args: Args, k: nat, k': nat)
    requires i < |s| && s[i] == '%' && ParseAt(s, i) == Parsed(d, next) && next <= |s|
    requires Follows(s, tail, next, args, DirectiveText(d, args, k).1, k')
    ensures Follows(s, tail, i, args, k, k')
  {
    var mem := Stored(s, tail);
    assert mem[i] == s[i];
    ParseLocal(s, tail, i);
    var (text, k1) := DirectiveText(d, args, k);
    Regroup(text, Output(s, next, args, k1), if Terminated(s, i) then [] else Output(mem, |s| + 1, args, k'));
  }

  lemma OpenFollows(s: string, tail: string, i: nat, d: Directive, args: Args, k: nat)
    requires i < |s| && s[i] == '%' && ParseAt(s, i) == Parsed(d, |s| + 1)
    ensures Follows(s, tail, i, args, k, DirectiveText(d, args, k).1)
  {
    var mem := Stored(s, tail);
    assert mem[i] == s[i];
    ParseLocal(s, tail, i);
    var (text, k1) := DirectiveText(d, args, k);
    assert Output(s, |s| + 1, args, k1) == [];
    assert text + [] == text;
  }

  lemma {:induction false} OutputStored(s: string, tail: string, i: nat, args: Args, k: nat) returns (k': nat)
    requires Text(s) && i <= |s|
    ensures Follows(s, tail, i, args, k, k')
    decreases |s| - i
  {
    k' := k;
    AtLocal(s, tail, i);
    if i < |s| && s[i] != '%' {
      k' := OutputStored(s, tail, i + 1, args, k);
      CharacterFollows(s, tail, i, args, k, k');
    } else if i < |s| {
      ParseLocal(s, tail, i);
      ParseAdvances(s, i);
      match ParseAt(s, i)
      case Stop =>
      case Parsed(d, next) =>
        k' := DirectiveText(d, args, k).1;
        if next <= |s| {
          k' := OutputStored(s, tail, next, args, k');
          DirectiveFollows(s, tail, i, d, next, args, k, k');
        } else {
          OpenFollows(s, tail, i, d, args, k);
        }
    }
  }

  lemma Regroup(a: string, b: string, c: string)
    ensures a + (b + c) == (a + b) + c
  {
  }

  /** The output depends on the string alone exactly if every directive ends in it. */
  lemma TerminatedExactly(s: string, args: Args)
    requires Text(s)
    ensures Terminated(s, 0) <==>
            forall tail: string :: Output(Stored(s, tail), 0, args, 0) == Output(s, 0, args, 0)
  {
    forall tail: string | Terminated(s, 0) ensures Output(Stored(s, tail), 0, args, 0) == Output(s, 0, args, 0) {
      var _ := OutputStored(s, tail, 0, args, 0);
    }
    if !Terminated(s, 0) {
      var tail := "x";
      var k' := OutputStored(s, tail, 0, args, 0);
      var mem := Stored(s, tail);
      assert mem[|s| + 1] == 'x';
      assert |Output(mem, |s| + 1, args, k')| > 0;
    }
  }

  // ---------------------------------------------------------------- directives that run over

  ghost predicate AllDigits(s: string, i: nat, j: nat) {
    forall p | i <= p < j && p < |s| :: IsDigit(s[p])
  }

  /** From `j` on there is a number up to the end, or a dot and a number up to the end, with a
      number, an asterisk or nothing before the dot. */
  ghost predicate Open(s: string, j: nat) {
    || AllDigits(s, j, |s|)
    || exists d :: OpenAt(s, j, d)
  }

  /** The dot is at `d`. */
  ghost predicate OpenAt(s: string, j: nat, d: nat) {
    && j <= d < |s| - 1 && s[d] == '.' && AllDigits(s, d + 1, |s|)
    && (AllDigits(s, j, d) || (d == j + 1 && s[j] == '*'))
  }

  /** The flags of the directive at `i` end at `j`. */
  ghost predicate FlagsEnd(s: string, i: nat, j: nat) {
    && i < j <= |s| && (forall p | i < p < j :: IsFlag(s[p]))
    && (j < |s| ==> !IsFlag(s[j]))
  }

  lemma {:induction false} FlagsStop(s: string, i: nat, j: nat, f: Flags)
    requires i <= j <= |s| && (forall p | i <= p < j :: IsFlag(s[p])) && (j < |s| ==> !IsFlag(s[j]))
    ensures FlagsAt(s, i, f).1 == j
    decreases j - i
  {
    if i < j { FlagsStop(s, i + 1, j, WithFlag(f, s[i])); }
  }

  /** A number ends at the first character that is not a digit. */
  lemma {:induction false} AmountStop(s: string, i: nat, n: nat)
    requires i <= |s|
    ensures var j := AmountAt(s, i, n).1;
      i <= j <= |s| && AllDigits(s, i, j) && (j < |s| ==> !IsDigit(s[j]))
    decreases |s| - i
  {
    if i < |s| && IsDigit(s[i]) { AmountStop(s, i + 1, (n * 10 + (s[i] as nat - 48)) % U32); }
  }

  /** The width ends at `k`, behind digits or an asterisk that does not end the string. */
  lemma WidthStop(s: string, j: nat)
    requires Text(s) && j <= |s|
    ensures WidthAt(s, j) == Halt <==> j + 1 == |s| && s[j] == '*'
    ensures WidthAt(s, j).Go? ==> var k := WidthAt(s, j).at;
      j <= k <= |s| && (if At(s, j) == '*' then k == j + 1 else AllDigits(s, j, k) && (k < |s| ==> !IsDigit(s[k])))
  {
    AmountStop(s, j, 0);
  }

  /** The precision of the width's end `k` leads to the end of the string. */
  lemma PrecisionStop(s: string, k: nat)
    requires Text(s) && k <= |s|
    ensures PrecisionAt(s, k).Go? && PrecisionAt(s, k).at == |s| <==>
            k == |s| || (k < |s| - 1 && s[k] == '.' && AllDigits(s, k + 1, |s|))
  {
    if k < |s| - 1 { WidthStop(s, k + 1); }
  }

  lemma LengthStop(s: string, l: nat, f: Flags)
    requires Text(s) && l <= |s|
    ensures LengthAt(s, l, f).Go? && LengthAt(s, l, f).at >= |s| <==> l == |s|
  {
  }

  /** Width and precision lead to the end of the string exactly if it is open behind the flags. */
  lemma OpenExactly(s: string, j: nat)
    requires Text(s) && j <= |s|
    ensures Open(s, j) <==>
            && WidthAt(s, j).Go?
            && PrecisionAt(s, WidthAt(s, j).at).Go? && PrecisionAt(s, WidthAt(s, j).at).at == |s|
  {
    WidthStop(s, j);
    if WidthAt(s, j).Go? {
      var k := WidthAt(s, j).at;
      PrecisionStop(s, k);
      DotIs(s, j, k);
    } else {
      assert !IsDigit(s[j]);
    }
  }

  /** The dot, if any, is where the width ends. */
  lemma DotIs(s: string, j: nat, k: nat)
    requires j <= k <= |s|
    requires if At(s, j) == '*' then k == j + 1 < |s| else AllDigits(s, j, k) && (k < |s| ==> !IsDigit(s[k]))
    ensures Open(s, j) <==> k == |s| || (k < |s| - 1 && s[k] == '.' && AllDigits(s, k + 1, |s|))
  {
    assert AllDigits(s, j, |s|) && k < |s| ==> IsDigit(At(s, j)) && IsDigit(At(s, k));
    forall d: nat | OpenAt(s, j, d) ensures d == k {
      assert AllDigits(s, j, d) && d > k ==> IsDigit(At(s, j)) && IsDigit(At(s, k));
    }
    if k < |s| - 1 && s[k] == '.' && AllDigits(s, k + 1, |s|) {
      assert OpenAt(s, j, k);
    }
  }

  /** A directive runs over the end exactly if something follows the percent sign and the string
      is open behind the flags. */
  lemma RunsOverExactly(s: string, i: nat, j: nat)
    requires Text(s) && FlagsEnd(s, i, j)
    ensures RunsOver(s, i) <==> i + 1 < |s| && Open(s, j)
  {
    FlagsStop(s, i + 1, j, NO_FLAGS);
    OpenExactly(s, j);
    var (f, _) := FlagsAt(s, i + 1, NO_FLAGS);
    WidthAdvance(s, j);
    match WidthAt(s, j)
    case Halt =>
    case Go(_, k) =>
      PrecisionLocal(s, "", k);
      match PrecisionAt(s, k)
      case Halt =>
      case Go(dotted, l) => LengthStop(s, l, WithDot(f, dotted.0));
  }

  /** A directive starts at `p`, if the string is read from `i` on. */
  ghost predicate Starts(s: string, i: nat, p: nat)
    decreases |s| - i
  {
    if At(s, i) == NUL then false
    else if s[i] != '%' then Starts(s, i + 1, p)
    else p == i || (ParseAdvances(s, i); ParseAt(s, i).Parsed? && Starts(s, ParseAt(s, i).next, p))
  }

  /** The directive at `p` ends in flags or a number up to the end of the string. */
  ghost predicate BreaksOff(s: string, p: nat) {
    p + 1 < |s| && exists j :: FlagsEnd(s, p, j) && Open(s, j)
  }

  lemma {:induction false} FlagsEndSomewhere(s: string, i: nat, j: nat) returns (e: nat)
    requires i < j <= |s| && forall p | i < p < j :: IsFlag(s[p])
    ensures FlagsEnd(s, i, e)
    decreases |s| - j
  {
    if j < |s| && IsFlag(s[j]) { e := FlagsEndSomewhere(s, i, j + 1); } else { e := j; }
  }

  lemma FlagsEndOnce(s: string, i: nat, j: nat, e: nat)
    requires FlagsEnd(s, i, j) && FlagsEnd(s, i, e)
    ensures j == e
  {
  }

  /** Which directives run over, without the parser. */
  lemma BreaksOffExactly(s: string, i: nat)
    requires Text(s) && i < |s|
    ensures RunsOver(s, i) <==> BreaksOff(s, i)
  {
    var e := FlagsEndSomewhere(s, i, i + 1);
    RunsOverExactly(s, i, e);
    forall j | FlagsEnd(s, i, j) ensures j == e { FlagsEndOnce(s, i, j, e); }
  }

  /** A string is read past its end exactly if one of its directives breaks off. */
  lemma {:induction false} TerminatedUnlessBreaksOff(s: string, i: nat)
    requires Text(s)
    ensures Terminated(s, i) <==> !exists p :: Starts(s, i, p) && BreaksOff(s, p)
    decreases |s| - i
  {
    if i >= |s| {
    } else if s[i] != '%' {
      TerminatedUnlessBreaksOff(s, i + 1);
      assert forall p :: Starts(s, i, p) <==> Starts(s, i + 1, p);
    } else {
      BreaksOffExactly(s, i);
      ParseAdvances(s, i);
      assert Starts(s, i, i);
      if ParseAt(s, i).Parsed? {
        var next := ParseAt(s, i).next;
        TerminatedUnlessBreaksOff(s, next);
        assert forall p :: Starts(s, i, p) <==> p == i || Starts(s, next, p);
      } else {
        assert forall p :: Starts(s, i, p) <==> p == i;
      }
    }
  }

  /** Three strings that are read past their end, and one that is not. */
  lemma Instances()
    ensures !Terminated("%5", 0) && !Terminated("%-", 0) && !Terminated("%.5", 0) && Terminated("%", 0)
  {
    assert FlagsEnd("%5", 0, 1) && AllDigits("%5", 1, 2);
    assert FlagsEnd("%-", 0, 2) && AllDigits("%-", 2, 2);
    assert FlagsEnd("%.5", 0, 1) && OpenAt("%.5", 1, 1);
    RunsOverExactly("%5", 0, 1);
    RunsOverExactly("%-", 0, 2);
    RunsOverExactly("%.5", 0, 1);
  }
}
