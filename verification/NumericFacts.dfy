/** Numeric facts and when two texts contradict each other on them (plugins/memory/src/gate.rs). */
module NumericFacts {
  import opened Wrappers
  import opened Ordering
  import opened Tokens

  datatype NumericFact = NumericFact(subject: string, value: string)

  predicate NumeralChar(c: char) {
    IsAsciiDigit(c) || c == '.'
  }

  predicate UnitChar(c: char) {
    'a' <= c <= 'z' || 'A' <= c <= 'Z' || c == '%'
  }

  predicate IsPlainNumeric(token: string) {
    token != "" && forall i :: 0 <= i < |token| ==> NumeralChar(token[i])
  }

  predicate IsUnit(token: string) {
    token != "" && forall i :: 0 <= i < |token| ==> UnitChar(token[i])
  }

  /** How many numeral characters the token begins with. */
  function NumeralLength(token: string): (n: nat)
    ensures n <= |token| && (forall i :: 0 <= i < n ==> NumeralChar(token[i]))
    ensures n < |token| ==> !NumeralChar(token[n])
  {
    if token == "" || !NumeralChar(token[0]) then 0 else 1 + NumeralLength(token[1..])
  }

  /** A number and a unit written as one token. */
  function SplitInline(token: string): Option<(string, string)> {
    var n := NumeralLength(token);
    if n == |token| || n == 0 || !IsUnit(token[n..]) then None else Some((token[..n], token[n..]))
  }

  /** The value that begins at a token, and how many tokens it takes. */
  function NormalizeNumericValue(tokens: seq<string>, index: nat): (r: Option<(string, nat)>)
    requires index < |tokens|
    ensures r.Some? ==> 1 <= r.value.1 && index + r.value.1 <= |tokens|
  {
    var inlined := SplitInline(tokens[index]);
    if inlined.Some? then Some((inlined.value.0 + inlined.value.1, 1))
    else if IsPlainNumeric(tokens[index]) && index + 1 < |tokens| && IsUnit(tokens[index + 1]) then
      Some((tokens[index] + tokens[index + 1], 2))
    else None
  }

  ghost predicate IsNumberText(s: string) {
    s != "" && forall i :: 0 <= i < |s| ==> '0' <= s[i] <= '9' || s[i] == '.'
  }

  ghost predicate IsUnitText(s: string) {
    s != "" && forall i :: 0 <= i < |s| ==> 'a' <= s[i] <= 'z' || 'A' <= s[i] <= 'Z' || s[i] == '%'
  }

  /** A value is digits and dots followed by letters or '%', in one token or in two. */
  lemma ValueExactly(tokens: seq<string>, index: nat)
    requires index < |tokens|
    ensures var r, t := NormalizeNumericValue(tokens, index), tokens[index];
      if exists n :: 0 <= n <= |t| && IsNumberText(t[..n]) && IsUnitText(t[n..]) then r == Some((t, 1))
      else if IsNumberText(t) && index + 1 < |tokens| && IsUnitText(tokens[index + 1]) then r == Some((t + tokens[index + 1], 2))
      else r == None
  {
    var t := tokens[index];
    var m := NumeralLength(t);
    assert t[..m] + t[m..] == t;
    UnitTextExactly(t[m..]);
    NumberTextExactly(t);
    NumberTextExactly(t[..m]);
    if index + 1 < |tokens| {
      UnitTextExactly(tokens[index + 1]);
    }
    if n :| 0 <= n <= |t| && IsNumberText(t[..n]) && IsUnitText(t[n..]) {
      SplitsAt(t, n);
    }
  }

  lemma NumberTextExactly(s: string)
    ensures IsPlainNumeric(s) <==> IsNumberText(s)
  {
  }

  lemma UnitTextExactly(s: string)
    ensures IsUnit(s) <==> IsUnitText(s)
  {
  }

  lemma SplitsAt(t: string, n: nat)
    requires n <= |t| && IsNumberText(t[..n]) && IsUnitText(t[n..])
    ensures NumeralLength(t) == n
  {
    assert forall i :: 0 <= i < n ==> t[..n][i] == t[i];
    assert n < |t| && t[n..][0] == t[n];
  }

  /** The facts stated from a token on. */
  function FactsFrom(tokens: seq<string>, index: nat): seq<NumericFact>
    requires index <= |tokens|
    decreases |tokens| - index
  {
    if index == |tokens| then []
    else
      var value := NormalizeNumericValue(tokens, index);
      if value.None? then FactsFrom(tokens, index + 1)
      else
        var subject := SubjectFromPrefix(tokens, index);
        (if subject.Some? then [NumericFact(subject.value, value.value.0)] else [])
        + FactsFrom(tokens, index + value.value.1)
  }

  /** Token i begins that value, and the words before it name that subject. */
  ghost predicate StatedAt(tokens: seq<string>, i: int, subject: string, value: string) {
    && 0 <= i < |tokens|
    && NormalizeNumericValue(tokens, i).Some? && NormalizeNumericValue(tokens, i).value.0 == value
    && SubjectFromPrefix(tokens, i) == Some(subject)
  }

  ghost predicate Stated(tokens: seq<string>, subject: string, value: string) {
    exists i :: StatedAt(tokens, i, subject, value)
  }

  /** A unit never begins a value, so passing over two tokens misses nothing. */
  lemma UnitBeginsNothing(tokens: seq<string>, index: nat)
    requires index < |tokens| && NormalizeNumericValue(tokens, index).Some? && NormalizeNumericValue(tokens, index).value.1 == 2
    ensures NormalizeNumericValue(tokens, index + 1) == None
  {
    var unit := tokens[index + 1];
    assert UnitChar(unit[0]) && !NumeralChar(unit[0]);
  }

  /** The facts found are those stated at some token from the start index on. */
  lemma {:induction false} FactsAreStated(tokens: seq<string>, index: nat, fact: NumericFact)
    requires index <= |tokens|
    ensures fact in FactsFrom(tokens, index) <==> exists i :: index <= i && StatedAt(tokens, i, fact.subject, fact.value)
    decreases |tokens| - index
  {
    hide NormalizeNumericValue, SubjectFromPrefix;
    if index < |tokens| {
      var value, subject := NormalizeNumericValue(tokens, index), SubjectFromPrefix(tokens, index);
      if value.None? {
        FactsAreStated(tokens, index + 1, fact);
        assert !StatedAt(tokens, index, fact.subject, fact.value);
      } else {
        var next := index + value.value.1;
        FactsAreStated(tokens, next, fact);
        if value.value.1 == 2 {
          UnitBeginsNothing(tokens, index);
        }
        assert value.value.1 <= 2 by { TakesAtMostTwo(tokens, index); }
        assert forall i :: index < i < next ==> !StatedAt(tokens, i, fact.subject, fact.value);
        var first := if subject.Some? then [NumericFact(subject.value, value.value.0)] else [];
        assert fact in first <==> StatedAt(tokens, index, fact.subject, fact.value);
      }
    }
  }

  lemma TakesAtMostTwo(tokens: seq<string>, index: nat)
    requires index < |tokens| && NormalizeNumericValue(tokens, index).Some?
    ensures NormalizeNumericValue(tokens, index).value.1 <= 2
  {
  }

  method ExtractNumericFacts(tokens: seq<string>) returns (facts: seq<NumericFact>)
    ensures forall fact :: fact in facts <==> Stated(tokens, fact.subject, fact.value)
  {
    hide NormalizeNumericValue, SubjectFromPrefix;
    facts := [];
    var index := 0;
    while index < |tokens|
      invariant index <= |tokens| && facts + FactsFrom(tokens, index) == FactsFrom(tokens, 0)
      decreases |tokens| - index
    {
      var value := NormalizeNumericValue(tokens, index);
      if value.None? {
        index := index + 1;
        continue;
      }
      var subject := SubjectFromPrefix(tokens, index);
      if subject.Some? {
        facts := facts + [NumericFact(subject.value, value.value.0)];
      }
      index := index + value.value.1;
    }
    assert facts == FactsFrom(tokens, 0);
    forall fact ensures fact in facts <==> Stated(tokens, fact.subject, fact.value) {
      FactsAreStated(tokens, 0, fact);
    }
  }

  /** The texts state different values for one subject. */
  ghost predicate ClashOn(a: seq<string>, b: seq<string>, subject: string, value: string, other: string) {
    Stated(a, subject, value) && Stated(b, subject, other) && value != other
  }

  ghost predicate Contradicts(a: seq<string>, b: seq<string>) {
    exists subject, value, other :: ClashOn(a, b, subject, value, other)
  }

  /** The subject and the two values that the description names. */
  datatype Conflict = Conflict(subject: string, existing: string, candidate: string)

  method DetectNumericContradiction(cc: CharClasses, existing: string, candidate: string) returns (r: Option<Conflict>)
    ensures r.Some? <==> Contradicts(TokensOf(cc, existing), TokensOf(cc, candidate))
    ensures r.Some? ==>
      ClashOn(TokensOf(cc, existing), TokensOf(cc, candidate), r.value.subject, r.value.existing, r.value.candidate)
  {
    hide TokensOf, Stated;
    var a := HeuristicTokens(cc, existing);
    var b := HeuristicTokens(cc, candidate);
    var existingFacts := ExtractNumericFacts(a);
    var candidateFacts := ExtractNumericFacts(b);
    for i := 0 to |existingFacts|
      invariant forall f, g :: f in existingFacts[..i] && g in candidateFacts && f.subject == g.subject ==> f.value == g.value
    {
      var f := existingFacts[i];
      assert existingFacts[..i + 1] == existingFacts[..i] + [f];
      for j := 0 to |candidateFacts|
        invariant forall g :: g in candidateFacts[..j] && f.subject == g.subject ==> f.value == g.value
      {
        var g := candidateFacts[j];
        assert candidateFacts[..j + 1] == candidateFacts[..j] + [g];
        if f.subject == g.subject && f.value != g.value {
          assert f in existingFacts && g in candidateFacts;
          assert ClashOn(a, b, f.subject, f.value, g.value);
          return Some(Conflict(f.subject, f.value, g.value));
        }
      }
      assert candidateFacts[..|candidateFacts|] == candidateFacts;
    }
    assert existingFacts[..|existingFacts|] == existingFacts;
    forall s, v, w ensures !ClashOn(a, b, s, v, w) {
      assert NumericFact(s, v) in existingFacts <==> Stated(a, s, v);
      assert NumericFact(s, w) in candidateFacts <==> Stated(b, s, w);
    }
    r := None;
  }

  /** A number and its unit are the same value in one token or in two. */
  lemma SpacingDoesNotMatter(number: string, unit: string, before: seq<string>, after: seq<string>)
    requires IsPlainNumeric(number) && IsUnit(unit)
    ensures NormalizeNumericValue(before + [number + unit] + after, |before|) == Some((number + unit, 1))
    ensures NormalizeNumericValue(before + [number, unit] + after, |before|) == Some((number + unit, 2))
  {
    var whole := number + unit;
    var n := NumeralLength(whole);
    assert whole[|number|] == unit[0];
    assert forall i :: 0 <= i < |number| ==> whole[i] == number[i];
    assert n == |number|;
    assert whole[..n] == number && whole[n..] == unit;
    var m := NumeralLength(number);
    assert m == |number|;
  }

  lemma ContradictionIsSymmetric(a: seq<string>, b: seq<string>)
    ensures Contradicts(a, b) <==> Contradicts(b, a)
  {
    hide Stated;
    forall s, v, w ensures ClashOn(a, b, s, v, w) <==> ClashOn(b, a, s, w, v) {
    }
  }

  /**
   * Unlike technology facts, a text may contradict itself: it does if and only if at two of its tokens it states
   * different values for one subject.
   */
  lemma ContradictsItselfExactly(tokens: seq<string>)
    ensures Contradicts(tokens, tokens) <==>
      exists i, j, subject, value, other ::
        StatedAt(tokens, i, subject, value) && StatedAt(tokens, j, subject, other) && value != other
  {
    hide StatedAt;
    if i, j, subject, value, other :|
        StatedAt(tokens, i, subject, value) && StatedAt(tokens, j, subject, other) && value != other {
      assert ClashOn(tokens, tokens, subject, value, other);
    }
  }

  lemma InlineIs(number: string, unit: string)
    requires IsPlainNumeric(number) && IsUnit(unit)
    ensures SplitInline(number + unit) == Some((number, unit))
  {
    var whole := number + unit;
    assert whole[|number|] == unit[0];
    assert NumeralLength(whole) == |number| by {
      assert forall i :: 0 <= i < |number| ==> whole[i] == number[i];
    }
    assert whole[..|number|] == number && whole[|number|..] == unit;
  }

  /** Three words, each no filler and no number, and two different values in one token each. */
  ghost predicate StatedTwice(words: seq<string>, first: string, second: string) {
    && |words| == 3 && (forall w :: w in words ==> !SubjectFiller(w))
    && SplitInline(first).Some? && SplitInline(second).Some? && first != second
  }

  lemma InlineIsWhole(token: string)
    requires SplitInline(token).Some?
    ensures SplitInline(token).value.0 + SplitInline(token).value.1 == token
  {
  }

  lemma SubjectOf(tokens: seq<string>, end: nat, before: seq<string>, words: seq<string>)
    requires end <= |tokens| && tokens[..end] == before + words && |words| == 3
    requires forall w :: w in words ==> !SubjectFiller(w)
    ensures SubjectFromPrefix(tokens, end) == Some(JoinBlank(words))
  {
    hide SubjectFiller, SubjectFromPrefix, JoinBlank;
    SubjectIsLastThree(tokens, end);
    FilterAppend(ContentWord(), before, words);
    FilterAll(ContentWord(), words);
  }

  /** Three words and a value, then the same words and another value, contradict themselves. */
  lemma TextCanContradictItself(words: seq<string>, first: string, second: string)
    requires StatedTwice(words, first, second)
    ensures var tokens := words + [first] + words + [second];
      Contradicts(tokens, tokens)
  {
    hide SubjectFromPrefix, SplitInline, IsPlainNumeric, SubjectFiller, JoinBlank;
    var tokens := words + [first] + words + [second];
    InlineIsWhole(first);
    InlineIsWhole(second);
    assert tokens[..3] == [] + words && tokens[..7] == (words + [first]) + words;
    SubjectOf(tokens, 3, [], words);
    SubjectOf(tokens, 7, words + [first], words);
    assert StatedAt(tokens, 3, JoinBlank(words), first) && StatedAt(tokens, 7, JoinBlank(words), second);
    ContradictsItselfExactly(tokens);
  }

  lemma LongWordsAreNoFillers(token: string)
    requires |token| > 5
    ensures !SubjectFiller(token)
  {
  }

  /** Such a text exists. */
  lemma SelfContradictingText()
    ensures StatedTwice(["median", "search", "latency"], "80ms", "90ms")
  {
    hide SubjectFiller, SplitInline, IsPlainNumeric;
    InlineIs("80", "ms") by { TwoDigits("80"); }
    InlineIs("90", "ms") by { TwoDigits("90"); }
    assert "80" + "ms" == "80ms" && "90" + "ms" == "90ms";
    assert "80ms"[0] != "90ms"[0];
    LongWordsAreNoFillers("median");
    LongWordsAreNoFillers("search");
    LongWordsAreNoFillers("latency");
  }

  lemma TwoDigits(s: string)
    requires |s| == 2 && IsAsciiDigit(s[0]) && IsAsciiDigit(s[1])
    ensures IsPlainNumeric(s)
  {
  }
}
