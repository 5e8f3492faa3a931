/** Slugs and decimal suffixes of generated ids (plugins/planning/src/intent.rs). */
module Slugs {
  import opened Wrappers
  import opened Text
  import Utf8

  /** Unicode lower-casing and the alphanumeric class are parameters. */
  datatype Tables = Tables(lowercase: string -> string, isAlphanumeric: char -> bool)

  function Kebab(tables: Tables, s: string): (t: string)
    ensures |t| == |s| && forall i :: 0 <= i < |s| ==> t[i] == if tables.isAlphanumeric(s[i]) then s[i] else '-'
  {
    if s == "" then "" else [if tables.isAlphanumeric(s[0]) then s[0] else '-'] + Kebab(tables, s[1..])
  }

  predicate IsDash(c: char) {
    c == '-'
  }

  function ByteLength(s: string): nat {
    |Utf8.Encode(s)|
  }

  /** The prefix of exactly n bytes; there is none when the cut falls inside a character. */
  function BytePrefix(s: string, n: nat): (r: Option<string>)
    ensures r.Some? ==> r.value <= s && ByteLength(r.value) == n
  {
    if n == 0 then Some("")
    else if s == "" then None
    else
      var width := |Utf8.EncodeChar(s[0])|;
      if width > n then None
      else
        var rest := BytePrefix(s[1..], n - width);
        if rest.None? then None
        else
          assert ([s[0]] + rest.value)[1..] == rest.value;
          Some([s[0]] + rest.value)
  }

  /** The slug; none when slicing by byte panics. */
  function Slugify(tables: Tables, text: string, maxLength: nat): Option<string> {
    var slug := TrimMatches(IsDash, Kebab(tables, tables.lowercase(text)));
    if ByteLength(slug) <= maxLength then Some(slug)
    else
      var cut := BytePrefix(slug, maxLength);
      if cut.None? then None else Some(TrimEndMatches(IsDash, cut.value))
  }

  lemma {:induction false} BytePrefixExists(s: string, k: nat)
    requires k <= |s|
    ensures BytePrefix(s, ByteLength(s[..k])) == Some(s[..k])
  {
    if k == 0 {
      assert s[..0] == "";
    } else {
      assert s[..k][1..] == s[1..][..k - 1];
      assert s[..k] == [s[0]] + s[1..][..k - 1];
      BytePrefixExists(s[1..], k - 1);
    }
  }

  /** Slicing panics if and only if the slug is too long and no prefix of it has exactly the length allowed. */
  lemma SlugifyPanicsExactly(tables: Tables, text: string, maxLength: nat)
    ensures var slug := TrimMatches(IsDash, Kebab(tables, tables.lowercase(text)));
      Slugify(tables, text, maxLength).None? <==>
        ByteLength(slug) > maxLength && forall k :: 0 <= k <= |slug| ==> ByteLength(slug[..k]) != maxLength
  {
    hide TrimMatches, Kebab, ByteLength, TrimEndMatches;
    var slug := TrimMatches(IsDash, Kebab(tables, tables.lowercase(text)));
    var cut := BytePrefix(slug, maxLength);
    if cut.Some? {
      assert slug[..|cut.value|] == cut.value;
    }
    forall k | 0 <= k <= |slug| && ByteLength(slug[..k]) == maxLength ensures cut.Some? {
      BytePrefixExists(slug, k);
    }
  }

  lemma {:induction false} PrefixIsShorter(s: string, t: string)
    requires t <= s
    ensures ByteLength(t) <= ByteLength(s)
  {
    if t != "" {
      PrefixIsShorter(s[1..], t[1..]);
    }
  }

  /** No slug is longer than allowed, or begins or ends with a dash. */
  lemma SlugIsBounded(tables: Tables, text: string, maxLength: nat)
    ensures var slug := Slugify(tables, text, maxLength);
      slug.Some? ==>
        && ByteLength(slug.value) <= maxLength
        && (slug.value != "" ==> slug.value[0] != '-' && slug.value[|slug.value| - 1] != '-')
  {
    hide Kebab, TrimStartMatches;
    var slug := TrimMatches(IsDash, Kebab(tables, tables.lowercase(text)));
    var cut := BytePrefix(slug, maxLength);
    if cut.Some? {
      PrefixIsShorter(cut.value, TrimEndMatches(IsDash, cut.value));
    }
  }

  // ----- ASCII

  ghost predicate IsAscii(s: string) {
    forall i :: 0 <= i < |s| ==> (s[i] as int) < 128
  }

  predicate AsciiAlphanumeric(c: char) {
    'a' <= c <= 'z' || 'A' <= c <= 'Z' || '0' <= c <= '9'
  }

  /** What the Unicode tables say of ASCII text. */
  ghost predicate AsciiTables(tables: Tables) {
    && (forall c: char :: (c as int) < 128 ==> (tables.isAlphanumeric(c) <==> AsciiAlphanumeric(c)))
    && (forall s: string :: IsAscii(s) ==> |tables.lowercase(s)| == |s| && IsAscii(tables.lowercase(s)))
    && (forall s: string, i :: IsAscii(s) && 0 <= i < |s| && |tables.lowercase(s)| == |s| ==>
          tables.lowercase(s)[i] == if 'A' <= s[i] <= 'Z' then s[i] - 'A' + 'a' else s[i])
  }

  lemma {:induction false} AsciiLength(s: string)
    requires IsAscii(s)
    ensures ByteLength(s) == |s|
  {
    if s != "" {
      assert (s[0] as int) < 128;
      assert forall i :: 0 <= i < |s| - 1 ==> s[1..][i] == s[i + 1];
      AsciiLength(s[1..]);
    }
  }

  /** Lower-case letters, digits and dashes, no dash at either end. */
  ghost predicate IsSlug(s: string) {
    && (forall i :: 0 <= i < |s| ==> 'a' <= s[i] <= 'z' || '0' <= s[i] <= '9' || s[i] == '-')
    && (s != "" ==> s[0] != '-' && s[|s| - 1] != '-')
  }

  lemma LoweredIsSlug(tables: Tables, text: string)
    requires AsciiTables(tables) && IsAscii(text)
    ensures IsSlug(TrimMatches(IsDash, Kebab(tables, tables.lowercase(text))))
  {
    hide TrimMatches;
    var kebab := Kebab(tables, tables.lowercase(text));
    forall i | 0 <= i < |kebab| ensures 'a' <= kebab[i] <= 'z' || '0' <= kebab[i] <= '9' || kebab[i] == '-' {
      assert (tables.lowercase(text)[i] as int) < 128;
    }
    var slug := TrimMatches(IsDash, kebab);
    forall i | 0 <= i < |slug| ensures 'a' <= slug[i] <= 'z' || '0' <= slug[i] <= '9' || slug[i] == '-' {
      assert slug[i] in kebab;
    }
  }

  lemma SlugIsKept(tables: Tables, s: string)
    requires AsciiTables(tables) && IsSlug(s)
    ensures IsAscii(s) && TrimMatches(IsDash, Kebab(tables, tables.lowercase(s))) == s
  {
  }

  /** On ASCII text slicing never panics, the slug is a slug, and a slug is its own slug. */
  lemma AsciiSlugs(tables: Tables, text: string, maxLength: nat)
    requires AsciiTables(tables) && IsAscii(text)
    ensures var slug := Slugify(tables, text, maxLength);
      && slug.Some? && IsSlug(slug.value) && |slug.value| <= maxLength
      && Slugify(tables, slug.value, maxLength) == slug
  {
    hide TrimMatches, Kebab, AsciiTables, ByteLength, TrimEndMatches;
    var full := TrimMatches(IsDash, Kebab(tables, tables.lowercase(text)));
    LoweredIsSlug(tables, text);
    SlugIsKept(tables, full);
    AsciiLength(full);
    if |full| > maxLength {
      assert IsAscii(full[..maxLength]);
      AsciiLength(full[..maxLength]);
      BytePrefixExists(full, maxLength);
    }
    var slug := Slugify(tables, text, maxLength).value;
    assert slug <= full;
    SlugIsKept(tables, slug);
    AsciiLength(slug);
  }

  /** At every length there is a text outside ASCII on which slicing panics. */
  lemma NonAsciiCanPanic(tables: Tables, text: string, maxLength: nat)
    requires maxLength > 0 && |text| == maxLength && IsAscii(text[..maxLength - 1]) && text[maxLength - 1] as int == 0xE9
    requires tables.lowercase(text) == text && forall i :: 0 <= i < |text| ==> tables.isAlphanumeric(text[i]) && text[i] != '-'
    ensures Slugify(tables, text, maxLength).None?
  {
    hide TrimMatches, ByteLength, BytePrefix, TrimEndMatches;
    assert Kebab(tables, text) == text;
    assert TrimMatches(IsDash, text) == text;
    var n := maxLength - 1;
    assert text == text[..n] + [text[n]];
    Utf8.EncodeAppend(text[..n], [text[n]]);
    AsciiLength(text[..n]);
    OneWideChar(text[n]);
    forall k | 0 <= k <= |text| ensures ByteLength(text[..k]) != maxLength {
      if k <= n {
        assert text[..k] == text[..n][..k];
        AsciiLength(text[..k]);
      } else {
        assert text[..k] == text;
        LengthAppends(text[..n], [text[n]]);
      }
    }
    LengthAppends(text[..n], [text[n]]);
    SlugifyPanicsExactly(tables, text, maxLength);
  }

  lemma LengthAppends(s: string, t: string)
    ensures ByteLength(s + t) == ByteLength(s) + ByteLength(t)
  {
    Utf8.EncodeAppend(s, t);
  }

  lemma OneWideChar(c: char)
    requires c as int == 0xE9
    ensures ByteLength([c]) == 2
  {
    assert Utf8.Encode([c]) == Utf8.EncodeChar(c) + Utf8.Encode([]);
  }

  // ----- decimal numerals

  function Digit(d: nat): char
    requires d < 10
  {
    '0' + d as char
  }

  function Decimal(n: nat): (s: string)
    ensures s != "" && forall i :: 0 <= i < |s| ==> '0' <= s[i] <= '9'
  {
    if n < 10 then [Digit(n)] else Decimal(n / 10) + [Digit(n % 10)]
  }

  lemma {:induction false} DecimalInjective(m: nat, n: nat)
    requires Decimal(m) == Decimal(n)
    ensures m == n
    decreases m
  {
    var s, t := Decimal(m), Decimal(n);
    assert s[|s| - 1] == Digit(m % 10) && t[|t| - 1] == Digit(n % 10);
    if m >= 10 && n >= 10 {
      assert s[..|s| - 1] == Decimal(m / 10) && t[..|t| - 1] == Decimal(n / 10);
      DecimalInjective(m / 10, n / 10);
    }
  }

  /** What follows the last dash is the number, whatever the text before it. */
  lemma NumberedInjective(a: string, i: nat, b: string, j: nat)
    requires a + "-" + Decimal(i) == b + "-" + Decimal(j)
    ensures a == b && i == j
  {
    hide Decimal;
    var s, t := a + "-" + Decimal(i), b + "-" + Decimal(j);
    assert s[|a|] == '-' && t[|b|] == '-';
    assert forall k :: |a| < k < |s| ==> s[k] == Decimal(i)[k - |a| - 1];
    assert forall k :: |b| < k < |t| ==> t[k] == Decimal(j)[k - |b| - 1];
    assert |a| == |b|;
    assert s[..|a|] == a && t[..|b|] == b;
    assert s[|a| + 1..] == Decimal(i) && t[|b| + 1..] == Decimal(j);
    DecimalInjective(i, j);
  }
}
