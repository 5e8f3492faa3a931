/**
 * When the LLM strategy's fallback answers what the simple strategy answers (plugins/memory/src/consolidator.rs, the
 * promise at LlmConsolidator and simple_merge_content).
 */
module Fallback {
  import opened Wrappers
  import opened Scopes
  import opened Candidates
  import opened SimpleStrategy
  import opened Clusters
  import opened LlmStrategy
  import opened LlmFacts
  import opened LlmRuns
  import Similarity
  import Text

  /** The guard of simple_merge_content: the candidate's text is taken, not the existing one. */
  predicate Takes(text: Text.Rules, existing: string, candidate: string, nearIdentical: bool) {
    var e, c := Text.Trim(text, existing), Text.Trim(text, candidate);
    var ne, nc := Text.NormalizeForMerge(text, e), Text.NormalizeForMerge(text, c);
    nearIdentical || (ne != nc && (Text.Contains(nc, ne) || |c| > |e| * 6 / 5))
  }

  lemma MergeByGuard(text: Text.Rules, existing: string, candidate: string, nearIdentical: bool)
    ensures SimpleMergeContent(text, existing, candidate, nearIdentical) ==
      Text.Trim(text, if Takes(text, existing, candidate, nearIdentical) then candidate else existing)
  {
  }

  /** The member of a group whose text the fallback ends with: the last one that was taken, or else the first. */
  function Author(text: Text.Rules, rule: Rule, l: Candidate, author: Candidate, sources: seq<Candidate>): Candidate
    decreases |sources|
  {
    if sources == [] then author
    else
      var c := sources[0];
      var taken := Takes(text, author.memory.content, c.memory.content, rule.nearIdentical(Vector(l), Vector(c)));
      Author(text, rule, l, if taken then c else author, sources[1..])
  }

  /** The guards let the survivor keep its own text. */
  ghost predicate KeepsText(text: Text.Rules, rule: Rule, l: Candidate, sources: seq<Candidate>) {
    Text.Trim(text, Author(text, rule, l, l, sources).memory.content) == l.memory.content
  }

  lemma GuardIgnoresBlanks(text: Text.Rules, existing: string, other: string, candidate: string, nearIdentical: bool)
    requires Text.Trim(text, existing) == Text.Trim(text, other)
    ensures Takes(text, existing, candidate, nearIdentical) == Takes(text, other, candidate, nearIdentical)
  {
  }

  /** Untouched when nothing was taken, and otherwise its author's text, trimmed. */
  ghost predicate EndsWithAuthor(text: Text.Rules, rule: Rule, l: Candidate, author: Candidate, content: string, scan: LlmScan) {
    scan.content == if scan.sources == [] then content
                    else Text.Trim(text, Author(text, rule, l, author, scan.sources).memory.content)
  }

  /** With a provider that always fails a scan ends with its author's text, trimmed. */
  lemma {:induction false} ScanEndsWithAuthor(text: Text.Rules, rule: Rule, limit: Option<nat>, tape: Tape, l: Candidate,
                                              others: seq<Candidate>, author: Candidate, content: string, processed: nat)
    requires AlwaysUnusable(tape) && Text.Trim(text, content) == Text.Trim(text, author.memory.content)
    ensures var r := ScanLlm(text, rule, limit, tape, l, others, content, processed);
      r.Ok? ==> EndsWithAuthor(text, rule, l, author, content, r.value)
    decreases |others|
  {
    hide SimpleMergeContent, Takes, Text.Trim, Compare;
    if others != [] {
      var c, rest := others[0], others[1..];
      var near := rule.nearIdentical(Vector(l), Vector(c));
      var taken := Takes(text, author.memory.content, c.memory.content, near);
      var next, writer := SimpleMergeContent(text, content, c.memory.content, near), if taken then c else author;
      MergeByGuard(text, content, c.memory.content, near);
      GuardIgnoresBlanks(text, content, author.memory.content, c.memory.content, near);
      Text.TrimIdempotent(text, writer.memory.content);
      ScanEndsWithAuthor(text, rule, limit, tape, l, rest, author, content, processed);
      ScanEndsWithAuthor(text, rule, limit, tape, l, rest, writer, next, processed + 1);
      var r := ScanLlm(text, rule, limit, tape, l, rest, next, processed + 1);
      if r.Ok? {
        var sources := [c] + r.value.sources;
        assert sources[0] == c && sources[1..] == r.value.sources;
        assert Author(text, rule, l, author, sources) == Author(text, rule, l, writer, r.value.sources);
      }
    }
  }

  /** The groups of a run: each survivor that takes something, and what it takes. */
  function RunGroups(rule: Rule, limit: Option<nat>, xs: seq<Candidate>, processed: nat): seq<(Candidate, seq<Candidate>)>
    decreases |xs|
  {
    if xs == [] then []
    else
      var r := ScanSimple(rule, limit, xs[0], xs[1..], processed);
      if r.Err? then []
      else
        var first := if r.value.sources == [] then [] else [(xs[0], r.value.sources)];
        if r.value.limitReached then first else first + RunGroups(rule, limit, r.value.kept, r.value.processed)
  }

  ghost predicate AllKeepText(text: Text.Rules, rule: Rule, groups: seq<(Candidate, seq<Candidate>)>) {
    forall g :: g in groups ==> KeepsText(text, rule, g.0, g.1)
  }

  /** One survivor: the two strategies act alike if and only if the survivor keeps its text. */
  lemma FirstAgrees(text: Text.Rules, rule: Rule, l: Candidate, scan: LlmScan)
    requires scan.contradictions == []
    requires EndsWithAuthor(text, rule, l, l, l.memory.content, scan)
    ensures |LlmActions(rule, l, scan)| == |SimpleAction(rule, l, scan.sources)|
    ensures LlmActions(rule, l, scan) == SimpleAction(rule, l, scan.sources) <==>
      scan.sources == [] || KeepsText(text, rule, l, scan.sources)
  {
    hide Text.Trim, Author, HighestScope, Ids;
    var llm, simple := LlmActions(rule, l, scan), SimpleAction(rule, l, scan.sources);
    if scan.sources != [] {
      assert llm[0].result.content == scan.content && simple[0].result.content == l.memory.content;
      assert llm == [llm[0]] && simple == [simple[0]];
    }
  }

  lemma EqualPieces<T>(a: seq<T>, b: seq<T>, c: seq<T>, d: seq<T>)
    requires |a| == |c|
    ensures a + b == c + d <==> a == c && b == d
  {
    assert (a + b)[..|a|] == a && (c + d)[..|c|] == c;
    assert (a + b)[|a|..] == b && (c + d)[|c|..] == d;
  }

  /** Same failures, as many actions, and the same actions if and only if the groups keep their texts. */
  ghost predicate Agrees(text: Text.Rules, rule: Rule, groups: seq<(Candidate, seq<Candidate>)>, llm: LlmRunResult, simple: RunResult) {
    && (llm.Err? ==> simple == Err(llm.error))
    && (llm.Ok? ==> simple.Ok? && |llm.value.actions| == |simple.value|)
    && (llm.Ok? ==> (llm.value.actions == simple.value <==> AllKeepText(text, rule, groups)))
  }

  /** A scan of the LLM strategy beside one of the simple strategy. */
  ghost predicate SideBySide(text: Text.Rules, rule: Rule, limit: Option<nat>, tape: Tape, xs: seq<Candidate>, processed: nat) {
    && xs != []
    && var r := ScanLlm(text, rule, limit, tape, xs[0], xs[1..], xs[0].memory.content, processed);
       && Forget(r) == ScanSimple(rule, limit, xs[0], xs[1..], processed)
       && (r.Ok? ==> r.value.contradictions == [] && EndsWithAuthor(text, rule, xs[0], xs[0], xs[0].memory.content, r.value))
  }

  lemma ScansAreSideBySide(text: Text.Rules, rule: Rule, limit: Option<nat>, tape: Tape, xs: seq<Candidate>, processed: nat)
    requires AlwaysUnusable(tape) && xs != []
    ensures SideBySide(text, rule, limit, tape, xs, processed)
  {
    hide ScanLlm, ScanSimple, EndsWithAuthor;
    ScanRefines(text, rule, limit, tape, xs[0], xs[1..], xs[0].memory.content, processed);
    ScanEndsWithAuthor(text, rule, limit, tape, xs[0], xs[1..], xs[0], xs[0].memory.content, processed);
  }

  /** The last survivor: its scan fails or spends the budget. */
  lemma LastAgrees(text: Text.Rules, rule: Rule, limit: Option<nat>, tape: Tape, xs: seq<Candidate>, processed: nat)
    requires SideBySide(text, rule, limit, tape, xs, processed)
    requires var r := ScanSimple(rule, limit, xs[0], xs[1..], processed); r.Err? || r.value.limitReached
    ensures Agrees(text, rule, RunGroups(rule, limit, xs, processed), RunLlm(text, rule, limit, tape, xs, processed),
              RunSimple(rule, limit, xs, processed))
  {
    hide ScanLlm, ScanSimple, LlmActions, SimpleAction, PairUp, KeepsText, AllKeepText, EndsWithAuthor;
    NoGroupsAgree(text, rule);
    var r := ScanLlm(text, rule, limit, tape, xs[0], xs[1..], xs[0].memory.content, processed);
    if r.Ok? {
      FirstAgrees(text, rule, xs[0], r.value);
      GroupsTogether(text, rule, xs[0], r.value.sources, []);
      assert forall g: seq<(Candidate, seq<Candidate>)> :: g + [] == g;
    }
  }

  /** A survivor, and the rest of the run. */
  lemma NextAgrees(text: Text.Rules, rule: Rule, limit: Option<nat>, tape: Tape, xs: seq<Candidate>, processed: nat, scan: LlmScan)
    requires SideBySide(text, rule, limit, tape, xs, processed)
    requires ScanLlm(text, rule, limit, tape, xs[0], xs[1..], xs[0].memory.content, processed) == Ok(scan) && !scan.limitReached
    requires Agrees(text, rule, RunGroups(rule, limit, scan.kept, scan.processed),
               RunLlm(text, rule, limit, tape, scan.kept, scan.processed), RunSimple(rule, limit, scan.kept, scan.processed))
    ensures Agrees(text, rule, RunGroups(rule, limit, xs, processed), RunLlm(text, rule, limit, tape, xs, processed),
              RunSimple(rule, limit, xs, processed))
  {
    hide ScanLlm, ScanSimple, LlmActions, SimpleAction, PairUp, KeepsText, AllKeepText, EndsWithAuthor;
    var l := xs[0];
    var rest, others := RunLlm(text, rule, limit, tape, scan.kept, scan.processed), RunSimple(rule, limit, scan.kept, scan.processed);
    FirstAgrees(text, rule, l, scan);
    GroupsTogether(text, rule, l, scan.sources, RunGroups(rule, limit, scan.kept, scan.processed));
    if rest.Ok? {
      EqualPieces(LlmActions(rule, l, scan), rest.value.actions, SimpleAction(rule, l, scan.sources), others.value);
    }
  }

  lemma {:induction false} RunsAgree(
      text: Text.Rules, rule: Rule, limit: Option<nat>, tape: Tape, xs: seq<Candidate>, processed: nat)
    requires AlwaysUnusable(tape)
    ensures Agrees(text, rule, RunGroups(rule, limit, xs, processed), RunLlm(text, rule, limit, tape, xs, processed),
              RunSimple(rule, limit, xs, processed))
    decreases |xs|
  {
    hide ScanLlm, ScanSimple, Agrees, RunLlm, RunSimple, RunGroups, EndsWithAuthor;
    if xs == [] {
      EmptyRunsAgree(text, rule, limit, tape, processed);
    } else {
      ScansAreSideBySide(text, rule, limit, tape, xs, processed);
      var r := ScanLlm(text, rule, limit, tape, xs[0], xs[1..], xs[0].memory.content, processed);
      if r.Err? || r.value.limitReached {
        LastAgrees(text, rule, limit, tape, xs, processed);
      } else {
        RunsAgree(text, rule, limit, tape, r.value.kept, r.value.processed);
        NextAgrees(text, rule, limit, tape, xs, processed, r.value);
      }
    }
  }

  lemma EmptyRunsAgree(text: Text.Rules, rule: Rule, limit: Option<nat>, tape: Tape, processed: nat)
    ensures Agrees(text, rule, RunGroups(rule, limit, [], processed), RunLlm(text, rule, limit, tape, [], processed),
              RunSimple(rule, limit, [], processed))
  {
  }

  /**
   * The fallback's promise, for every run and limit with a provider that always fails: the same failures and the same
   * groups as the simple strategy, and the same actions if and only if in every group the guards let the survivor keep
   * its text.
   */
  lemma FallbackAgreesExactly(
      text: Text.Rules, rule: Rule, limit: Option<nat>, tape: Tape, xs: seq<Candidate>, processed: nat)
    requires AlwaysUnusable(tape)
    ensures var llm, simple := RunLlm(text, rule, limit, tape, xs, processed), RunSimple(rule, limit, xs, processed);
      && (llm.Err? ==> simple == Err(llm.error))
      && (llm.Ok? ==> simple.Ok? && Groups(llm.value.actions) == Groups(simple.value))
      && (llm.Ok? ==> (llm.value.actions == simple.value <==> AllKeepText(text, rule, RunGroups(rule, limit, xs, processed))))
  {
    hide RunLlm, RunSimple, RunGroups, AllKeepText, Groups, ActionPairs;
    LlmRefinesSimple(text, rule, limit, tape, xs, processed);
    RunsAgree(text, rule, limit, tape, xs, processed);
  }

  lemma NoGroupsAgree(text: Text.Rules, rule: Rule)
    ensures AllKeepText(text, rule, [])
  {
  }

  lemma GroupsTogether(text: Text.Rules, rule: Rule, l: Candidate, sources: seq<Candidate>, rest: seq<(Candidate, seq<Candidate>)>)
    ensures AllKeepText(text, rule, (if sources == [] then [] else [(l, sources)]) + rest) <==>
      (sources == [] || KeepsText(text, rule, l, sources)) && AllKeepText(text, rule, rest)
  {
    hide KeepsText;
    var first := if sources == [] then [] else [(l, sources)];
    assert forall g :: g in first + rest <==> g in first || g in rest;
    assert sources != [] ==> (l, sources) in first;
  }

  /** It is enough that the survivor's text has no blank ends and that no source is taken over it. */
  lemma {:induction false} UntakenSourcesKeepText(text: Text.Rules, rule: Rule, l: Candidate, sources: seq<Candidate>)
    requires Text.Trim(text, l.memory.content) == l.memory.content
    requires forall c :: c in sources ==>
      !Takes(text, l.memory.content, c.memory.content, rule.nearIdentical(Vector(l), Vector(c)))
    ensures KeepsText(text, rule, l, sources)
  {
    hide Takes, Text.Trim;
    if sources != [] {
      assert sources[0] in sources && forall c :: c in sources[1..] ==> c in sources;
      UntakenSourcesKeepText(text, rule, l, sources[1..]);
    }
  }

  /** It is not necessary: a later source with the survivor's text can undo an earlier change. */
  lemma LaterSourceCanRestore(text: Text.Rules, rule: Rule, l: Candidate, a: Candidate, b: Candidate)
    requires rule.nearIdentical(Vector(l), Vector(a)) && rule.nearIdentical(Vector(l), Vector(b))
    requires b.memory.content == l.memory.content == Text.Trim(text, l.memory.content)
    ensures Takes(text, l.memory.content, a.memory.content, true)
    ensures KeepsText(text, rule, l, [a, b])
  {
    hide Text.Trim, Text.NormalizeForMerge, Text.Contains;
    assert [a, b][1..] == [b] && [b][1..] == [];
    assert Author(text, rule, l, a, [b]) == Author(text, rule, l, b, []) == b;
    assert Author(text, rule, l, l, [a, b]) == Author(text, rule, l, a, [b]);
  }

  // ----- two memories on which the fallback rewrites the survivor

  lemma OneLetter(text: Text.Rules, c: char)
    requires !text.isWhitespace(c)
    ensures Text.Trim(text, [c]) == [c]
  {
  }

  /** The same direction, two texts: the run of the LLM strategy and that of the simple one differ. */
  lemma FallbackCanRewrite(text: Text.Rules, tape: Tape, l: Candidate, o: Candidate)
    requires !text.isWhitespace('a') && !text.isWhitespace('b') && AlwaysUnusable(tape)
    requires l == Candidate(Memory(0, "a", Workspace, 1.0, Active), Some([1.0]))
    requires o == Candidate(Memory(1, "b", Workspace, 0.5, Active), Some([1.0]))
    ensures var rule := CosineRule(None, false);
      var llm, simple := RunLlm(text, rule, None, tape, [l, o], 0), RunSimple(rule, None, [l, o], 0);
      Compare(rule, l, o) == Ok(true) && llm.Ok? && simple.Ok? && llm.value.actions != simple.value
  {
    hide RunLlm, RunSimple, Text.Trim, Text.NormalizeForMerge, Text.Contains, Similarity.Reaches;
    var rule := CosineRule(None, false);
    SameDirection();
    assert Vector(l) == Vector(o) == [1.0] && NormalizeThreshold(None) == 0.85;
    assert rule.reaches([1.0], [1.0]) && rule.nearIdentical([1.0], [1.0]);
    PairGroup(rule, l, o);
    OneLetter(text, 'b');
    assert [o][1..] == [];
    assert Author(text, rule, l, l, [o]) == o;
    assert !KeepsText(text, rule, l, [o]);
    assert (l, [o]) in RunGroups(rule, None, [l, o], 0);
    FallbackAgreesExactly(text, rule, None, tape, [l, o], 0);
  }

  lemma SameDirection()
    ensures Similarity.Reaches([1.0], [1.0], 0.85) && Similarity.Reaches([1.0], [1.0], 0.95)
  {
    assert [1.0][1..] == [];
    assert Similarity.NormSquared([1.0]) == 1.0;
    Similarity.ReachesItself([1.0], 0.85);
    Similarity.ReachesItself([1.0], 0.95);
  }

  lemma PairGroup(rule: Rule, l: Candidate, o: Candidate)
    requires Compare(rule, l, o) == Ok(true)
    ensures RunSimple(rule, None, [l, o], 0).Ok? && RunGroups(rule, None, [l, o], 0) == [(l, [o])]
  {
    hide Compare;
    assert [l, o][1..] == [o] && [o][1..] == [];
    assert [o] + [] == [o];
    assert ScanSimple(rule, None, l, [], 1) == Ok(Scan([], [], 1, false));
    assert ScanSimple(rule, None, l, [o], 0) == Ok(Scan([o], [], 1, false));
    assert RunGroups(rule, None, [], 1) == [];
  }
}
