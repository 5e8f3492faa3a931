/** The markdown link scanner (plugins/documentation/src/lib.rs). */
module Links {
  import opened Wrappers
  import opened Utf8

  const OPEN: byte := 40
  const CLOSE: byte := 41
  const BRACKET: byte := 93

  /** Opening parentheses minus closing ones in bs[lo..hi]. */
  function Balance(bs: seq<byte>, lo: nat, hi: nat): int
    requires lo <= hi <= |bs|
    decreases hi
  {
    if lo == hi then 0
    else Balance(bs, lo, hi - 1) + (if bs[hi - 1] == OPEN then 1 else if bs[hi - 1] == CLOSE then -1 else 0)
  }

  /** The balance is the number of '(' less the number of ')'. */
  lemma {:induction false} BalanceCounts(bs: seq<byte>, lo: nat, hi: nat)
    requires lo <= hi <= |bs|
    ensures var part := multiset(bs[lo..hi]); Balance(bs, lo, hi) == (part['(' as int] as int) - (part[')' as int] as int)
    decreases hi
  {
    if lo < hi {
      BalanceCounts(bs, lo, hi - 1);
      assert bs[lo..hi] == bs[lo..hi - 1] + [bs[hi - 1]];
    }
  }

  /** The first position at which the closings outnumber the openings. */
  ghost predicate ClosesAt(bs: seq<byte>, start: nat, end: nat) {
    && start <= end < |bs|
    && Balance(bs, start, end + 1) == -1
    && forall k :: start <= k <= end ==> Balance(bs, start, k) >= 0
  }

  method FindLinkEnd(bs: seq<byte>, start: nat) returns (r: Option<nat>)
    requires start <= |bs|
    ensures r.Some? ==> ClosesAt(bs, start, r.value)
    ensures r.None? ==> forall end: nat :: !ClosesAt(bs, start, end)
  {
    var depth: nat := 0;
    for i := start to |bs|
      invariant depth == Balance(bs, start, i)
      invariant forall k :: start <= k <= i ==> Balance(bs, start, k) >= 0
    {
      if bs[i] == OPEN {
        depth := depth + 1;
      } else if bs[i] == CLOSE {
        if depth == 0 {
          return Some(i);
        }
        depth := depth - 1;
      }
    }
    r := None;
  }

  lemma ClosesOnce(bs: seq<byte>, start: nat, end: nat, other: nat)
    requires ClosesAt(bs, start, end) && ClosesAt(bs, start, other)
    ensures end == other
  {
  }

  /** A link closes at a closing parenthesis, and what it encloses is balanced. */
  lemma EnclosedIsBalanced(bs: seq<byte>, start: nat, end: nat)
    requires ClosesAt(bs, start, end)
    ensures bs[end] == ')' as int && Balance(bs, start, end) == 0
  {
  }

  /** From the bracket to the closing parenthesis. */
  datatype Span = Span(open: nat, close: nat)

  ghost predicate OpensAt(bs: seq<byte>, p: nat) {
    p + 1 < |bs| && bs[p] == BRACKET && bs[p + 1] == OPEN
  }

  /** A link opens at "](". */
  lemma OpensExactly(bs: seq<byte>, p: nat)
    ensures OpensAt(bs, p) <==> p + 1 < |bs| && bs[p] == ']' as int && bs[p + 1] == '(' as int
  {
  }

  ghost predicate SpanAt(bs: seq<byte>, s: Span) {
    OpensAt(bs, s.open) && ClosesAt(bs, s.open + 2, s.close)
  }

  ghost predicate Closable(bs: seq<byte>, p: nat) {
    exists end: nat :: SpanAt(bs, Span(p, end))
  }

  predicate Covers(s: Span, p: nat) {
    s.open <= p <= s.close
  }

  /**
   * The spans of bs[from..to]: each opens at a bracket and a parenthesis and closes where its closings first outnumber
   * its openings, they are in order and disjoint, and they cover every opening that can be closed.
   */
  ghost predicate IsScan(bs: seq<byte>, from: nat, to: nat, spans: seq<Span>) {
    && (forall k :: 0 <= k < |spans| ==> from <= spans[k].open && spans[k].close < to)
    && (forall k :: 0 <= k < |spans| ==> SpanAt(bs, spans[k]))
    && (forall j, k :: 0 <= j < k < |spans| ==> spans[j].close < spans[k].open)
    && (forall p :: from <= p < to && Closable(bs, p) ==> exists k :: 0 <= k < |spans| && Covers(spans[k], p))
  }

  /** The trimmed text of each span, without the empty ones; decoding the bytes is a foreign call. */
  function LinkTexts(text: seq<byte> -> string, bs: seq<byte>, spans: seq<Span>): seq<string>
    requires forall k :: 0 <= k < |spans| ==> spans[k].open + 2 <= spans[k].close < |bs|
  {
    if spans == [] then []
    else
      var last := spans[|spans| - 1];
      var raw := text(bs[last.open + 2..last.close]);
      LinkTexts(text, bs, spans[..|spans| - 1]) + if raw == "" then [] else [raw]
  }

  /** The texts that are not empty, in the order of the spans. */
  lemma {:induction false} TextsOfSpans(text: seq<byte> -> string, bs: seq<byte>, spans: seq<Span>, t: string)
    requires Within(bs, spans)
    ensures t in LinkTexts(text, bs, spans) <==>
      t != "" && exists k :: 0 <= k < |spans| && t == text(bs[spans[k].open + 2..spans[k].close])
    ensures |LinkTexts(text, bs, spans)| <= |spans|
  {
    if spans != [] {
      TextsOfSpans(text, bs, spans[..|spans| - 1], t);
    }
  }

  ghost predicate Within(bs: seq<byte>, spans: seq<Span>) {
    forall k :: 0 <= k < |spans| ==> spans[k].open + 2 <= spans[k].close < |bs|
  }

  lemma SpanFound(bs: seq<byte>, spans: seq<Span>, index: nat, end: nat)
    requires IsScan(bs, 0, index, spans) && OpensAt(bs, index) && ClosesAt(bs, index + 2, end)
    ensures IsScan(bs, 0, end + 1, spans + [Span(index, end)])
  {
    hide OpensAt, ClosesAt;
    var more := spans + [Span(index, end)];
    assert end >= index + 2 by { CloseIsLater(bs, index + 2, end); }
    forall p | 0 <= p < end + 1 && Closable(bs, p) ensures exists k :: 0 <= k < |more| && Covers(more[k], p) {
      if p < index {
        var k :| 0 <= k < |spans| && Covers(spans[k], p);
        assert more[k] == spans[k];
      } else {
        assert Covers(more[|spans|], p);
      }
    }
  }

  lemma CloseIsLater(bs: seq<byte>, start: nat, end: nat)
    requires ClosesAt(bs, start, end)
    ensures end >= start
  {
  }

  lemma NothingFound(bs: seq<byte>, spans: seq<Span>, index: nat)
    requires IsScan(bs, 0, index, spans) && !Closable(bs, index)
    ensures IsScan(bs, 0, index + 1, spans)
  {
  }

  lemma NoMoreOpenings(bs: seq<byte>, spans: seq<Span>, index: nat)
    requires IsScan(bs, 0, index, spans) && index + 1 >= |bs|
    ensures IsScan(bs, 0, |bs|, spans)
  {
  }

  lemma CloseIsInside(bs: seq<byte>, start: nat, end: nat)
    requires ClosesAt(bs, start, end)
    ensures end < |bs|
  {
  }

  method ExtractMarkdownLinks(text: seq<byte> -> string, bs: seq<byte>) returns (links: seq<string>)
    ensures exists spans :: IsScan(bs, 0, |bs|, spans) && Within(bs, spans) && links == LinkTexts(text, bs, spans)
    ensures forall l :: l in links ==> l != ""
  {
    hide OpensAt, ClosesAt, IsScan, Balance, Closable, SpanAt;
    links := [];
    var index := 0;
    ghost var spans: seq<Span> := [];
    assert IsScan(bs, 0, 0, spans) by { EmptyScan(bs); }
    while index + 1 < |bs|
      invariant IsScan(bs, 0, index, spans) && Within(bs, spans)
      invariant links == LinkTexts(text, bs, spans) && forall l :: l in links ==> l != ""
      decreases |bs| - index
    {
      Opening(bs, index);
      if bs[index] == BRACKET && bs[index + 1] == OPEN {
        var start := index + 2;
        var end := FindLinkEnd(bs, start);
        if end.Some? {
          CloseIsLater(bs, start, end.value);
          CloseIsInside(bs, start, end.value);
          var raw := text(bs[start..end.value]);
          if raw != "" {
            links := links + [raw];
          }
          SpanFound(bs, spans, index, end.value);
          ghost var more := spans + [Span(index, end.value)];
          assert more[..|more| - 1] == spans;
          spans := more;
          index := end.value + 1;
          continue;
        }
      }
      NeverCloses(bs, index, index + 2);
      NothingFound(bs, spans, index);
      index := index + 1;
    }
    NoMoreOpenings(bs, spans, index);
  }

  lemma NeverCloses(bs: seq<byte>, p: nat, start: nat)
    requires start == p + 2
    requires !OpensAt(bs, p) || forall end: nat :: !ClosesAt(bs, start, end)
    ensures !Closable(bs, p)
  {
  }

  lemma EmptyScan(bs: seq<byte>)
    ensures IsScan(bs, 0, 0, [])
  {
  }

  lemma Opening(bs: seq<byte>, p: nat)
    requires p + 1 < |bs|
    ensures OpensAt(bs, p) <==> bs[p] == BRACKET && bs[p + 1] == OPEN
  {
  }

  /** There is one scan: the description leaves nothing open. */
  lemma {:induction false} ScanIsUnique(bs: seq<byte>, from: nat, to: nat, spans: seq<Span>, other: seq<Span>)
    requires IsScan(bs, from, to, spans) && IsScan(bs, from, to, other)
    ensures spans == other
    decreases |spans|
  {
    hide OpensAt, ClosesAt, Balance;
    if spans == [] {
      NoSpans(bs, from, to, spans, other);
    } else {
      FirstSpan(bs, from, to, spans, other);
      FirstSpan(bs, from, to, other, spans);
      assert SpanAt(bs, spans[0]) && SpanAt(bs, other[0]);
      ClosesOnce(bs, spans[0].open + 2, spans[0].close, other[0].close);
      RestIsScan(bs, from, to, spans);
      RestIsScan(bs, from, to, other);
      ScanIsUnique(bs, spans[0].close + 1, to, spans[1..], other[1..]);
      assert spans == [spans[0]] + spans[1..] && other == [other[0]] + other[1..];
    }
  }

  lemma NoSpans(bs: seq<byte>, from: nat, to: nat, spans: seq<Span>, other: seq<Span>)
    requires IsScan(bs, from, to, spans) && IsScan(bs, from, to, other) && spans == []
    ensures other == []
  {
    hide OpensAt, ClosesAt, Balance;
    if other != [] {
      SpanOpeningIsClosable(bs, from, to, other, 0);
    }
  }

  lemma SpanOpeningIsClosable(bs: seq<byte>, from: nat, to: nat, spans: seq<Span>, k: nat)
    requires IsScan(bs, from, to, spans) && k < |spans|
    ensures Closable(bs, spans[k].open) && from <= spans[k].open < to
  {
  }

  /** The first span of one scan opens no later than the first of any other. */
  lemma FirstSpan(bs: seq<byte>, from: nat, to: nat, spans: seq<Span>, other: seq<Span>)
    requires IsScan(bs, from, to, spans) && IsScan(bs, from, to, other) && spans != []
    ensures other != [] && other[0].open <= spans[0].open
  {
    hide OpensAt, ClosesAt, Balance;
    SpanOpeningIsClosable(bs, from, to, spans, 0);
    var k :| 0 <= k < |other| && Covers(other[k], spans[0].open);
    if k > 0 {
      assert other[0].close < other[k].open;
      assert SpanAt(bs, other[0]);
      CloseIsLater(bs, other[0].open + 2, other[0].close);
    }
  }

  lemma RestIsScan(bs: seq<byte>, from: nat, to: nat, spans: seq<Span>)
    requires IsScan(bs, from, to, spans) && spans != []
    ensures IsScan(bs, spans[0].close + 1, to, spans[1..])
  {
  }
}
