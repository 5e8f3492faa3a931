/** Tokens, subjects and compound terms (plugins/memory/src/gate.rs). Unicode character classes are parameters. */
module Tokens {
  import opened Wrappers
  import opened Ordering
  import opened Text

  datatype CharClasses = CharClasses(
    isAlphanumeric: char -> bool,
    isAlphabetic: char -> bool,
    isUpper: char -> bool,
    isLower: char -> bool)

  predicate IsAsciiDigit(c: char) {
    '0' <= c <= '9'
  }

  predicate TokenChar(cc: CharClasses, c: char) {
    cc.isAlphanumeric(c) || c == '#' || c == '+' || c == '.' || c == '%' || c == '-'
  }

  function Flush(current: string): seq<string> {
    if current == "" then [] else [current]
  }

  /** The tokens still to come, with a part of one in hand. */
  function Resume(cc: CharClasses, current: string, rest: string): seq<string>
    decreases |rest|
  {
    if rest == "" then Flush(current)
    else if TokenChar(cc, rest[0]) then Resume(cc, current + [AsciiLower(rest[0])], rest[1..])
    else Flush(current) + Resume(cc, "", rest[1..])
  }

  function TokensOf(cc: CharClasses, content: string): seq<string> {
    Resume(cc, "", content)
  }

  method HeuristicTokens(cc: CharClasses, content: string) returns (tokens: seq<string>)
    ensures tokens == TokensOf(cc, content)
  {
    tokens := [];
    var current := "";
    for i := 0 to |content|
      invariant TokensOf(cc, content) == tokens + Resume(cc, current, content[i..])
    {
      assert content[i..][1..] == content[i + 1..];
      if TokenChar(cc, content[i]) {
        current := current + [AsciiLower(content[i])];
      } else if current != "" {
        tokens := tokens + [current];
        current := "";
      }
    }
    if current != "" {
      tokens := tokens + [current];
    }
  }

  lemma {:induction false} ResumeWord(cc: CharClasses, current: string, word: string)
    requires forall i :: 0 <= i < |word| ==> TokenChar(cc, word[i])
    ensures Resume(cc, current, word) == Flush(current + Lower(word))
    decreases |word|
  {
    if word == "" {
      assert current + "" == current;
    } else {
      ResumeWord(cc, current + [AsciiLower(word[0])], word[1..]);
      assert current + [AsciiLower(word[0])] + Lower(word[1..]) == current + Lower(word);
    }
  }

  lemma {:induction false} ResumeSplits(cc: CharClasses, current: string, left: string, separator: char, right: string)
    requires !TokenChar(cc, separator)
    ensures Resume(cc, current, left + [separator] + right) == Resume(cc, current, left) + TokensOf(cc, right)
    decreases |left|
  {
    var s := left + [separator] + right;
    if left == "" {
      assert s[0] == separator && s[1..] == right;
    } else {
      assert s[0] == left[0] && s[1..] == left[1..] + [separator] + right;
      if TokenChar(cc, left[0]) {
        ResumeSplits(cc, current + [AsciiLower(left[0])], left[1..], separator, right);
      } else {
        ResumeSplits(cc, "", left[1..], separator, right);
      }
    }
  }

  /**
   * Tokens are the maximal runs of token characters, lower-cased: a text without separators is one token, and a
   * separator cuts a text into two that are tokenised apart.
   */
  lemma TokensAreRuns(cc: CharClasses, word: string, left: string, separator: char, right: string)
    ensures (forall i :: 0 <= i < |word| ==> TokenChar(cc, word[i])) ==> TokensOf(cc, word) == Flush(Lower(word))
    ensures !TokenChar(cc, separator) ==>
      TokensOf(cc, left + [separator] + right) == TokensOf(cc, left) + TokensOf(cc, right)
  {
    if forall i :: 0 <= i < |word| ==> TokenChar(cc, word[i]) {
      ResumeWord(cc, "", word);
      assert "" + Lower(word) == Lower(word);
    }
    if !TokenChar(cc, separator) {
      ResumeSplits(cc, "", left, separator, right);
    }
  }

  /** Letters, digits and five signs make up tokens. */
  lemma TokenCharExactly(cc: CharClasses, c: char)
    ensures TokenChar(cc, c) <==> cc.isAlphanumeric(c) || c in "#%+-."
  {
  }

  /** No token is empty. */
  lemma {:induction false} TokensAreNotEmpty(cc: CharClasses, current: string, rest: string)
    ensures forall t :: t in Resume(cc, current, rest) ==> t != ""
    decreases |rest|
  {
    if rest != "" {
      TokensAreNotEmpty(cc, current + [AsciiLower(rest[0])], rest[1..]);
      TokensAreNotEmpty(cc, "", rest[1..]);
    }
  }

  // ----- subjects

  predicate SubjectFiller(token: string) {
    token in {"a", "an", "and", "are", "avec", "de", "des", "du", "en", "est", "et", "in", "is", "la", "le", "les",
              "the", "use", "uses", "using", "with"}
  }

  function Reverse<T>(xs: seq<T>): (r: seq<T>)
    ensures |r| == |xs| && forall i :: 0 <= i < |xs| ==> r[i] == xs[|xs| - 1 - i]
  {
    if xs == [] then [] else Reverse(xs[1..]) + [xs[0]]
  }

  function JoinBlank(words: seq<string>): string {
    if words == [] then "" else if |words| == 1 then words[0] else words[0] + " " + JoinBlank(words[1..])
  }

  /** The words in English and French that say nothing about a subject. */
  lemma FillersExactly(token: string)
    ensures SubjectFiller(token) <==>
      || token in ["a", "an", "and", "are", "in", "is", "the", "use", "uses", "using", "with"]
      || token in ["avec", "de", "des", "du", "en", "est", "et", "la", "le", "les"]
  {
  }

  /** Words are joined by one blank. */
  lemma JoinsByOneBlank(words: seq<string>, last: string)
    ensures JoinBlank([]) == "" && JoinBlank([last]) == last
    ensures words != [] ==> JoinBlank(words + [last]) == JoinBlank(words) + " " + last
  {
    JoinsLast(words, last);
  }

  lemma {:induction false} JoinsLast(words: seq<string>, last: string)
    ensures words != [] ==> JoinBlank(words + [last]) == JoinBlank(words) + " " + last
  {
    if |words| > 1 {
      JoinsLast(words[1..], last);
      assert (words + [last])[1..] == words[1..] + [last];
      assert words[0] + " " + (JoinBlank(words[1..]) + " " + last) == words[0] + " " + JoinBlank(words[1..]) + " " + last;
    } else if |words| == 1 {
      assert (words + [last])[1..] == [last];
    }
  }

  function ContentWord(): string -> bool {
    token => !SubjectFiller(token)
  }

  /** Backwards over the tokens before `end`: skip fillers, take three, and put them back in order. */
  function SubjectFromPrefix(tokens: seq<string>, end: nat): Option<string>
    requires end <= |tokens|
  {
    var subjectTokens := Take(3, Filter(ContentWord(), Reverse(tokens[..end])));
    if subjectTokens == [] then None else Some(JoinBlank(Reverse(subjectTokens)))
  }

  function LastOf<T>(n: nat, xs: seq<T>): seq<T> {
    if |xs| <= n then xs else xs[|xs| - n..]
  }

  lemma {:induction false} FilterReverse<T(!new)>(p: T -> bool, xs: seq<T>)
    ensures Filter(p, Reverse(xs)) == Reverse(Filter(p, xs))
  {
    if xs != [] {
      FilterAppend(p, Reverse(xs[1..]), [xs[0]]);
      FilterReverse(p, xs[1..]);
      assert [xs[0]][1..] == [];
      if p(xs[0]) {
        assert ([xs[0]] + Filter(p, xs[1..]))[1..] == Filter(p, xs[1..]);
      }
    }
  }

  /** The subject is the last three words before `end` that are no fillers, in their order, or nothing without any. */
  lemma SubjectIsLastThree(tokens: seq<string>, end: nat)
    requires end <= |tokens|
    ensures var words := LastOf(3, Filter(ContentWord(), tokens[..end]));
      SubjectFromPrefix(tokens, end) == if words == [] then None else Some(JoinBlank(words))
  {
    var all := Filter(ContentWord(), tokens[..end]);
    FilterReverse(ContentWord(), tokens[..end]);
    assert Reverse(Take(3, Reverse(all))) == LastOf(3, all);
  }

  // ----- compound terms

  /** A part may begin at `i`: lower to upper, the last upper before a lower, digit to letter, letter to digit. */
  predicate Boundary(cc: CharClasses, token: string, i: nat)
    requires 0 < i < |token|
  {
    var previous, character := token[i - 1], token[i];
    || (cc.isLower(previous) && cc.isUpper(character))
    || (cc.isUpper(previous) && cc.isUpper(character) && i + 1 < |token| && cc.isLower(token[i + 1]))
    || (IsAsciiDigit(previous) && cc.isAlphabetic(character))
    || (cc.isAlphabetic(previous) && IsAsciiDigit(character))
  }

  /** Where "aB", "ABc", "1a" and "a1" are cut. */
  lemma BoundaryExactly(cc: CharClasses, token: string, i: nat)
    requires 0 < i < |token|
    ensures var previous, here := token[i - 1], token[i];
      Boundary(cc, token, i) <==>
        || (cc.isUpper(here) && (cc.isLower(previous) || (cc.isUpper(previous) && i != |token| - 1 && cc.isLower(token[i + 1]))))
        || (cc.isAlphabetic(here) && '0' <= previous <= '9') || (cc.isAlphabetic(previous) && '0' <= here <= '9')
  {
  }

  function Concat(parts: seq<string>): string {
    if parts == [] then "" else Concat(parts[..|parts| - 1]) + parts[|parts| - 1]
  }

  /** The parts of the first `n` characters: non-empty, in order, one beginning at each boundary and nowhere else. */
  ghost predicate CutsAt(cc: CharClasses, token: string, n: nat, parts: seq<string>)
    requires n <= |token|
  {
    && Concat(parts) == token[..n]
    && (forall k :: 0 <= k < |parts| ==> parts[k] != "")
    && (forall i :: 0 < i < n ==> (Boundary(cc, token, i) <==> exists k :: 0 < k < |parts| && |Concat(parts[..k])| == i))
  }

  /** Closing the current part, or not, before the next character. */
  lemma CutStep(cc: CharClasses, token: string, i: nat, parts: seq<string>, current: string)
    requires 0 < i < |token| && current != "" && CutsAt(cc, token, i, parts + [current])
    ensures Boundary(cc, token, i) ==> CutsAt(cc, token, i + 1, parts + [current] + [[token[i]]])
    ensures !Boundary(cc, token, i) ==> CutsAt(cc, token, i + 1, parts + [current + [token[i]]])
  {
    hide Boundary;
    var cut := parts + [current];
    assert Concat(cut) == token[..i];
    assert token[..i + 1] == token[..i] + [token[i]];
    if Boundary(cc, token, i) {
      var more := cut + [[token[i]]];
      assert more[..|more| - 1] == cut && more[..|cut|] == cut;
      assert forall k :: 0 < k < |cut| ==> more[..k] == cut[..k];
    } else {
      var more := parts + [current + [token[i]]];
      assert more[..|more| - 1] == parts && cut[..|cut| - 1] == parts;
      assert forall k :: 0 < k < |cut| ==> more[..k] == cut[..k];
      PrefixesAreShort(more);
      PrefixesAreShort(cut);
    }
  }

  lemma {:induction false} PrefixesAreShort(parts: seq<string>)
    requires forall k :: 0 <= k < |parts| ==> parts[k] != ""
    ensures forall k :: 0 <= k < |parts| ==> |Concat(parts[..k])| < |Concat(parts)|
  {
    if parts != [] {
      var rest := parts[..|parts| - 1];
      PrefixesAreShort(rest);
      forall k | 0 <= k < |parts| ensures |Concat(parts[..k])| < |Concat(parts)| {
        assert k < |rest| ==> parts[..k] == rest[..k];
        assert k == |rest| ==> parts[..k] == rest;
      }
    }
  }

  lemma OnePart(part: string)
    ensures Concat([part]) == part
  {
  }

  method SplitCompoundSearchTerm(cc: CharClasses, token: string) returns (parts: seq<string>)
    ensures parts == [] <==> forall i :: 0 < i < |token| ==> !Boundary(cc, token, i)
    ensures parts != [] ==> |parts| > 1 && CutsAt(cc, token, |token|, parts)
  {
    hide Boundary;
    if |token| < 2 {
      return [];
    }
    parts := [];
    var currentPart := [token[0]];
    assert parts + [currentPart] == [[token[0]]];
    OnePart([token[0]]);
    assert token[..1] == [token[0]];
    var index := 1;
    while index < |token|
      invariant 1 <= index <= |token| && currentPart != ""
      invariant CutsAt(cc, token, index, parts + [currentPart])
    {
      CutStep(cc, token, index, parts, currentPart);
      if Boundary(cc, token, index) {
        parts := parts + [currentPart];
        currentPart := "";
        assert currentPart + [token[index]] == [token[index]];
      }
      currentPart := currentPart + [token[index]];
      index := index + 1;
    }
    parts := parts + [currentPart];
    assert token[..|token|] == token;
    ghost var cut := parts;
    if |parts| <= 1 {
      parts := [];
    } else {
      PrefixesAreShort(cut);
      NoEmptyPrefix(cut);
      assert Boundary(cc, token, |Concat(cut[..1])|);
    }
  }

  lemma NoEmptyPrefix(parts: seq<string>)
    requires |parts| > 1 && parts[0] != ""
    ensures |Concat(parts[..1])| > 0
  {
  }
}
