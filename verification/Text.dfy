/**
 * The text operations that merging uses (plugins/memory/src/consolidator.rs, simple_merge_content). Unicode tables are
 * not modelled: which characters are white space, and what lower-casing does to a string, are arbitrary parameters.
 */
module Text {

  datatype Rules = Rules(isWhitespace: char -> bool, lowercase: string -> string)

  /** `str::trim_start_matches`. */
  function TrimStartMatches(p: char -> bool, s: string): (t: string)
    ensures |t| <= |s| && t == s[|s| - |t|..]
    ensures t != "" ==> !p(t[0])
    ensures s == "" || !p(s[0]) ==> t == s
  {
    if s != "" && p(s[0]) then TrimStartMatches(p, s[1..]) else s
  }

  /** `str::trim_end_matches`. */
  function TrimEndMatches(p: char -> bool, s: string): (t: string)
    ensures t <= s
    ensures t != "" ==> !p(t[|t| - 1])
    ensures s == "" || !p(s[|s| - 1]) ==> t == s
  {
    if s != "" && p(s[|s| - 1]) then TrimEndMatches(p, s[..|s| - 1]) else s
  }

  /** `str::trim_matches`. */
  function TrimMatches(p: char -> bool, s: string): (t: string)
    ensures t != "" ==> !p(t[0]) && !p(t[|t| - 1])
    ensures s == "" || (!p(s[0]) && !p(s[|s| - 1])) ==> t == s
    ensures forall c :: c in t ==> c in s
  {
    TrimEndMatches(p, TrimStartMatches(p, s))
  }

  /** `str::trim`. */
  function Trim(rules: Rules, s: string): (t: string) {
    TrimMatches(rules.isWhitespace, s)
  }

  lemma TrimIdempotent(rules: Rules, s: string)
    ensures Trim(rules, Trim(rules, s)) == Trim(rules, s)
  {
    hide TrimMatches;
  }

  /** `split_whitespace().collect().join(" ")`: runs of white space become one blank, none at the ends. */
  function JoinWords(rules: Rules, s: string): string
    decreases |s|
  {
    var rest := TrimStartMatches(rules.isWhitespace, s);
    if rest == [] then []
    else
      var n := WordLength(rules, rest);
      var tail := JoinWords(rules, rest[n..]);
      if tail == [] then rest[..n] else rest[..n] + " " + tail
  }

  function WordLength(rules: Rules, s: string): (n: nat)
    ensures n <= |s|
    ensures s != [] && !rules.isWhitespace(s[0]) ==> n > 0
  {
    if s == [] || rules.isWhitespace(s[0]) then 0 else 1 + WordLength(rules, s[1..])
  }

  /** White space in front is dropped. */
  lemma {:induction false} JoinWordsSkips(rules: Rules, blanks: string, s: string)
    requires forall i :: 0 <= i < |blanks| ==> rules.isWhitespace(blanks[i])
    ensures JoinWords(rules, blanks + s) == JoinWords(rules, s) && JoinWords(rules, "") == ""
  {
    hide WordLength;
    SkipsBlanks(rules, blanks, s);
  }

  lemma {:induction false} SkipsBlanks(rules: Rules, blanks: string, s: string)
    requires forall i :: 0 <= i < |blanks| ==> rules.isWhitespace(blanks[i])
    ensures TrimStartMatches(rules.isWhitespace, blanks + s) == TrimStartMatches(rules.isWhitespace, s)
  {
    if blanks == "" {
      assert blanks + s == s;
    } else {
      assert (blanks + s)[1..] == blanks[1..] + s;
      SkipsBlanks(rules, blanks[1..], s);
    }
  }

  /** The first word, then one blank and the other words, if there are any. */
  lemma JoinWordsExactly(rules: Rules, word: string, rest: string)
    requires word != "" && forall i :: 0 <= i < |word| ==> !rules.isWhitespace(word[i])
    requires rest == "" || rules.isWhitespace(rest[0])
    ensures var others := JoinWords(rules, rest);
      JoinWords(rules, word + rest) == if others == "" then word else word + " " + others
  {
    WordAtFront(rules, word, rest);
    assert (word + rest)[|word|..] == rest && (word + rest)[..|word|] == word;
  }

  lemma {:induction false} WordAtFront(rules: Rules, word: string, rest: string)
    requires forall i :: 0 <= i < |word| ==> !rules.isWhitespace(word[i])
    requires rest == "" || rules.isWhitespace(rest[0])
    ensures WordLength(rules, word + rest) == |word|
  {
    if word == "" {
      assert word + rest == rest;
    } else {
      assert (word + rest)[1..] == word[1..] + rest;
      WordAtFront(rules, word[1..], rest);
    }
  }

  function NormalizeForMerge(rules: Rules, s: string): string {
    rules.lowercase(JoinWords(rules, s))
  }

  predicate Contains(text: string, part: string) {
    part <= text || (text != [] && Contains(text[1..], part))
  }

  // ----- ASCII

  function AsciiLower(c: char): char {
    if 'A' <= c <= 'Z' then c - 'A' + 'a' else c
  }

  /** `str::to_ascii_lowercase`. */
  function Lower(s: string): (t: string)
    ensures |t| == |s| && forall i :: 0 <= i < |s| ==> t[i] == AsciiLower(s[i])
  {
    if s == "" then "" else [AsciiLower(s[0])] + Lower(s[1..])
  }
}
