/** Technology facts and when two texts contradict each other on them (plugins/memory/src/gate.rs). */
module TechnologyFacts {
  import opened Wrappers
  import opened Tokens
  import Utf8

  /** What a text states about one subject in one category. */
  datatype TechnologyFact = TechnologyFact(subject: string, category: string, values: set<string>)

  predicate StatingVerb(token: string) {
    token in {"is", "are", "est", "uses", "use", "using"}
  }

  /** The canonical name of a technology, and its category. */
  function CanonicalTechnologyValue(token: string): Option<(string, string)> {
    match token
    case ".net" => Some((".net", "language"))
    case "asp.net" => Some(("asp.net", "language"))
    case "c#" => Some(("c#", "language"))
    case "csharp" => Some(("c#", "language"))
    case "f#" => Some(("f#", "language"))
    case "go" => Some(("go", "language"))
    case "golang" => Some(("go", "language"))
    case "java" => Some(("java", "language"))
    case "javascript" => Some(("javascript", "language"))
    case "kotlin" => Some(("kotlin", "language"))
    case "php" => Some(("php", "language"))
    case "python" => Some(("python", "language"))
    case "ruby" => Some(("ruby", "language"))
    case "rust" => Some(("rust", "language"))
    case "swift" => Some(("swift", "language"))
    case "typescript" => Some(("typescript", "language"))
    case "actix" => Some(("actix", "framework"))
    case "angular" => Some(("angular", "framework"))
    case "axum" => Some(("axum", "framework"))
    case "django" => Some(("django", "framework"))
    case "fastapi" => Some(("fastapi", "framework"))
    case "flask" => Some(("flask", "framework"))
    case "grpc" => Some(("grpc", "framework"))
    case "react" => Some(("react", "framework"))
    case "tauri" => Some(("tauri", "framework"))
    case "vue" => Some(("vue", "framework"))
    case "mssql" => Some(("mssql", "storage"))
    case "mysql" => Some(("mysql", "storage"))
    case "postgres" => Some(("postgres", "storage"))
    case "postgresql" => Some(("postgres", "storage"))
    case "redis" => Some(("redis", "storage"))
    case "sqlite" => Some(("sqlite", "storage"))
    case _ => None
  }

  const LANGUAGES := {".net", "asp.net", "c#", "f#", "go", "java", "javascript", "kotlin", "php", "python", "ruby", "rust", "swift", "typescript"}
  const FRAMEWORKS := {"actix", "angular", "axum", "django", "fastapi", "flask", "grpc", "react", "tauri", "vue"}
  const STORES := {"mssql", "mysql", "postgres", "redis", "sqlite"}

  /** Three names are other words for a technology; every technology is its own name, in one category. */
  lemma NamesOfTechnologies(token: string)
    ensures var r := CanonicalTechnologyValue(token);
      var name := if token == "csharp" then "c#" else if token == "golang" then "go" else if token == "postgresql" then "postgres" else token;
      && (name in LANGUAGES ==> r == Some((name, "language")))
      && (name in FRAMEWORKS ==> r == Some((name, "framework")))
      && (name in STORES ==> r == Some((name, "storage")))
      && (name !in LANGUAGES && name !in FRAMEWORKS && name !in STORES ==> r == None)
  {
  }

  const REACH: nat := 8

  /** Token i is a stating verb with that subject, and token j, within its reach, names that value. */
  ghost predicate StatedAt(tokens: seq<string>, i: nat, j: nat, subject: string, category: string, value: string) {
    && i < j < |tokens| && j <= i + REACH && StatingVerb(tokens[i])
    && SubjectFromPrefix(tokens, i) == Some(subject)
    && CanonicalTechnologyValue(tokens[j]) == Some((value, category))
  }

  /** A value is stated at most eight tokens after its verb, and has a subject. */
  lemma StatedWithinEight(tokens: seq<string>, i: nat, j: nat, subject: string, category: string, value: string)
    ensures StatedAt(tokens, i, j, subject, category, value) <==>
      && j < |tokens| && 1 <= j - i <= 8 && tokens[i] in ["are", "est", "is", "use", "uses", "using"]
      && SubjectFromPrefix(tokens, i) == Some(subject) && CanonicalTechnologyValue(tokens[j]) == Some((value, category))
  {
  }

  ghost predicate Stated(tokens: seq<string>, subject: string, category: string, value: string) {
    exists i: nat, j: nat :: StatedAt(tokens, i, j, subject, category, value)
  }

  // ----- facts by key, in key order

  /** Keys are pairs of subject and category, in lexicographic order. */
  predicate KeyLess(subject: string, category: string, otherSubject: string, otherCategory: string) {
    Utf8.StringLess(subject, otherSubject) || (subject == otherSubject && Utf8.StringLess(category, otherCategory))
  }

  /** Each key once, in increasing order. */
  ghost predicate KeySorted(facts: seq<TechnologyFact>) {
    forall i, j :: 0 <= i < j < |facts| ==> KeyLess(facts[i].subject, facts[i].category, facts[j].subject, facts[j].category)
  }

  ghost predicate HasValue(facts: seq<TechnologyFact>, subject: string, category: string, value: string) {
    exists f :: f in facts && f.subject == subject && f.category == category && value in f.values
  }

  /** Insert a value under a key, opening the key when it is new. */
  function AddValue(facts: seq<TechnologyFact>, subject: string, category: string, value: string): seq<TechnologyFact> {
    if facts == [] || KeyLess(subject, category, facts[0].subject, facts[0].category) then [TechnologyFact(subject, category, {value})] + facts
    else if facts[0].subject == subject && facts[0].category == category then
      [facts[0].(values := facts[0].values + {value})] + facts[1..]
    else [facts[0]] + AddValue(facts[1..], subject, category, value)
  }

  ghost predicate Meaningful(facts: seq<TechnologyFact>) {
    KeySorted(facts) && forall f :: f in facts ==> f.values != {}
  }

  lemma KeysTotal(s: string, c: string, t: string, d: string)
    ensures KeyLess(s, c, t, d) || (s == t && c == d) || KeyLess(t, d, s, c)
    ensures !(KeyLess(s, c, t, d) && KeyLess(t, d, s, c)) && !KeyLess(s, c, s, c)
  {
    Utf8.StringLessTotal(s, t);
    Utf8.StringLessTotal(c, d);
  }

  lemma KeysTransitive(s: string, c: string, t: string, d: string, u: string, e: string)
    requires KeyLess(s, c, t, d) && KeyLess(t, d, u, e)
    ensures KeyLess(s, c, u, e)
  {
    if Utf8.StringLess(s, t) && Utf8.StringLess(t, u) {
      Utf8.StringLessTransitive(s, t, u);
    } else if s == t == u {
      Utf8.StringLessTransitive(c, d, e);
    }
  }

  /** A fact before all of a meaningful list. */
  lemma ConsMeaning(f: TechnologyFact, rest: seq<TechnologyFact>)
    requires Meaningful(rest) && f.values != {}
    requires forall g :: g in rest ==> KeyLess(f.subject, f.category, g.subject, g.category)
    ensures Meaningful([f] + rest)
  {
  }

  lemma TailMeaning(facts: seq<TechnologyFact>)
    requires Meaningful(facts) && facts != []
    ensures Meaningful(facts[1..]) && facts[0].values != {}
    ensures forall g :: g in facts[1..] ==> KeyLess(facts[0].subject, facts[0].category, g.subject, g.category)
  {
  }

  lemma {:induction false} AddValueKeepsMeaning(facts: seq<TechnologyFact>, subject: string, category: string, value: string)
    requires Meaningful(facts)
    ensures var r := AddValue(facts, subject, category, value);
      && Meaningful(r)
      && (forall f :: f in r ==> (f.subject == subject && f.category == category) || f in facts)
  {
    hide KeyLess, Meaningful;
    var added := TechnologyFact(subject, category, {value});
    if facts == [] {
      ConsMeaning(added, []);
    } else {
      var first, tail := facts[0], facts[1..];
      TailMeaning(facts);
      assert facts == [first] + tail;
      KeysTotal(subject, category, first.subject, first.category);
      if KeyLess(subject, category, first.subject, first.category) {
        forall g | g in facts ensures KeyLess(subject, category, g.subject, g.category) {
          if g in tail {
            KeysTransitive(subject, category, first.subject, first.category, g.subject, g.category);
          }
        }
        ConsMeaning(added, facts);
      } else if first.subject == subject && first.category == category {
        assert value in first.values + {value};
        ConsMeaning(first.(values := first.values + {value}), tail);
      } else {
        AddValueKeepsMeaning(tail, subject, category, value);
        ConsMeaning(first, AddValue(tail, subject, category, value));
      }
    }
  }

  lemma {:induction false} AddValueAdds(facts: seq<TechnologyFact>, subject: string, category: string, value: string)
    ensures forall s, c, v :: HasValue(AddValue(facts, subject, category, value), s, c, v) <==>
      HasValue(facts, s, c, v) || (s == subject && c == category && v == value)
  {
    hide KeyLess;
    var r := AddValue(facts, subject, category, value);
    if facts == [] {
      assert r[0] in r;
    } else {
      assert facts == [facts[0]] + facts[1..];
      if KeyLess(subject, category, facts[0].subject, facts[0].category) {
        assert r[0] in r && forall f :: f in facts ==> f in r;
      } else if facts[0].subject == subject && facts[0].category == category {
        assert r[0] in r && facts[0] in facts;
        assert forall f :: f in r ==> f == r[0] || f in facts[1..];
      } else {
        var tail := AddValue(facts[1..], subject, category, value);
        AddValueAdds(facts[1..], subject, category, value);
        forall s, c, v ensures HasValue(r, s, c, v) <==> (HasValue(tail, s, c, v) || HasValue([facts[0]], s, c, v)) {
          HasValueCons(facts[0], tail, s, c, v);
        }
        forall s, c, v ensures HasValue(facts, s, c, v) <==> (HasValue(facts[1..], s, c, v) || HasValue([facts[0]], s, c, v)) {
          HasValueCons(facts[0], facts[1..], s, c, v);
        }
      }
    }
  }

  lemma HasValueCons(f: TechnologyFact, rest: seq<TechnologyFact>, s: string, c: string, v: string)
    ensures HasValue([f] + rest, s, c, v) <==> HasValue(rest, s, c, v) || HasValue([f], s, c, v)
  {
  }

  // ----- extraction

  /** Stated at a verb before i, or at verb i by a token before j. */
  ghost predicate StatedBefore(tokens: seq<string>, i: nat, j: nat, subject: string, category: string, value: string) {
    exists x: nat, y: nat :: StatedAt(tokens, x, y, subject, category, value) && (x < i || (x == i && y < j))
  }

  ghost predicate Extracted(tokens: seq<string>, i: nat, j: nat, facts: seq<TechnologyFact>) {
    && Meaningful(facts)
    && forall s, c, v :: HasValue(facts, s, c, v) <==> StatedBefore(tokens, i, j, s, c, v)
  }

  method ExtractTechnologyFacts(tokens: seq<string>) returns (facts: seq<TechnologyFact>)
    ensures Meaningful(facts)
    ensures forall s, c, v :: HasValue(facts, s, c, v) <==> Stated(tokens, s, c, v)
  {
    hide HasValue, Meaningful, StatedBefore, AddValue, SubjectFromPrefix, StatingVerb, CanonicalTechnologyValue, StatedAt;
    facts := [];
    NothingExtracted(tokens);
    for index := 0 to |tokens|
      invariant Extracted(tokens, index, index + 1, facts)
    {
      if !StatingVerb(tokens[index]) {
        SkipVerb(tokens, index, facts);
        continue;
      }
      var subject := SubjectFromPrefix(tokens, index);
      if subject.None? {
        SkipVerb(tokens, index, facts);
        continue;
      }
      var end := Min(index + 1 + REACH, |tokens|);
      for j := index + 1 to end
        invariant Extracted(tokens, index, j, facts)
      {
        var value := CanonicalTechnologyValue(tokens[j]);
        AddStated(tokens, index, j, facts, subject.value);
        if value.Some? {
          facts := AddValue(facts, subject.value, value.value.1, value.value.0);
        }
      }
      VerbDone(tokens, index, end, facts);
    }
    AllExtracted(tokens, facts);
  }

  lemma NothingExtracted(tokens: seq<string>)
    ensures Extracted(tokens, 0, 1, [])
  {
  }

  lemma SkipVerb(tokens: seq<string>, i: nat, facts: seq<TechnologyFact>)
    requires i < |tokens| && Extracted(tokens, i, i + 1, facts)
    requires !StatingVerb(tokens[i]) || SubjectFromPrefix(tokens, i).None?
    ensures Extracted(tokens, i + 1, i + 2, facts)
  {
  }

  lemma VerbDone(tokens: seq<string>, i: nat, end: nat, facts: seq<TechnologyFact>)
    requires i < |tokens| && end == Min(i + 1 + REACH, |tokens|) && Extracted(tokens, i, end, facts)
    ensures Extracted(tokens, i + 1, i + 2, facts)
  {
  }

  lemma AllExtracted(tokens: seq<string>, facts: seq<TechnologyFact>)
    requires Extracted(tokens, |tokens|, |tokens| + 1, facts)
    ensures Meaningful(facts) && forall s, c, v :: HasValue(facts, s, c, v) <==> Stated(tokens, s, c, v)
  {
  }

  lemma AddStated(tokens: seq<string>, i: nat, j: nat, facts: seq<TechnologyFact>, subject: string)
    requires i < j < |tokens| && j <= i + REACH && Extracted(tokens, i, j, facts)
    requires StatingVerb(tokens[i]) && SubjectFromPrefix(tokens, i) == Some(subject)
    ensures var value := CanonicalTechnologyValue(tokens[j]);
      Extracted(tokens, i, j + 1, if value.Some? then AddValue(facts, subject, value.value.1, value.value.0) else facts)
  {
    hide SubjectFromPrefix, StatingVerb, CanonicalTechnologyValue, HasValue, Meaningful, AddValue, StatedBefore;
    var value := CanonicalTechnologyValue(tokens[j]);
    forall s, c, v
      ensures StatedBefore(tokens, i, j + 1, s, c, v) <==>
        StatedBefore(tokens, i, j, s, c, v) || (s == subject && value == Some((v, c)))
    {
      OneMoreToken(tokens, i, j, subject, s, c, v);
    }
    if value.Some? {
      var more := AddValue(facts, subject, value.value.1, value.value.0);
      AddValueKeepsMeaning(facts, subject, value.value.1, value.value.0);
      AddValueAdds(facts, subject, value.value.1, value.value.0);
      forall s, c, v ensures HasValue(more, s, c, v) <==> StatedBefore(tokens, i, j + 1, s, c, v) {
        assert value == Some((v, c)) <==> value.value.0 == v && value.value.1 == c;
        assert HasValue(more, s, c, v) <==> HasValue(facts, s, c, v) || (s == subject && value == Some((v, c)));
        assert HasValue(facts, s, c, v) <==> StatedBefore(tokens, i, j, s, c, v);
        OneMoreToken(tokens, i, j, subject, s, c, v);
      }
    }
  }

  lemma OneMoreToken(tokens: seq<string>, i: nat, j: nat, subject: string, s: string, c: string, v: string)
    requires i < j < |tokens| && j <= i + REACH
    requires StatingVerb(tokens[i]) && SubjectFromPrefix(tokens, i) == Some(subject)
    ensures StatedBefore(tokens, i, j + 1, s, c, v) <==>
      StatedBefore(tokens, i, j, s, c, v) || (s == subject && CanonicalTechnologyValue(tokens[j]) == Some((v, c)))
  {
    hide SubjectFromPrefix, StatingVerb, CanonicalTechnologyValue;
    if s == subject && CanonicalTechnologyValue(tokens[j]) == Some((v, c)) {
      assert StatedAt(tokens, i, j, s, c, v);
    }
  }

  // ----- contradiction

  /** Both texts state values for the key, and none in common. */
  ghost predicate OpposedOn(a: seq<string>, b: seq<string>, subject: string, category: string) {
    && (exists v :: Stated(a, subject, category, v))
    && (exists v :: Stated(b, subject, category, v))
    && forall v :: !(Stated(a, subject, category, v) && Stated(b, subject, category, v))
  }

  ghost predicate Contradicts(a: seq<string>, b: seq<string>) {
    exists s, c :: OpposedOn(a, b, s, c)
  }

  /** The subject and the values that the description names on each side. */
  datatype Conflict = Conflict(subject: string, existing: set<string>, candidate: set<string>)

  function ValuesForSubject(facts: seq<TechnologyFact>, subject: string): (values: set<string>)
    ensures forall v :: v in values <==> exists f :: f in facts && f.subject == subject && v in f.values
  {
    if facts == [] then {}
    else
      assert facts == [facts[0]] + facts[1..];
      (if facts[0].subject == subject then facts[0].values else {}) + ValuesForSubject(facts[1..], subject)
  }

  predicate SameKey(f: TechnologyFact, g: TechnologyFact) {
    f.subject == g.subject && f.category == g.category
  }

  predicate Opposed(f: TechnologyFact, g: TechnologyFact) {
    SameKey(f, g) && f.values !! g.values
  }

  /** The facts that a text states. */
  ghost predicate FactsOf(tokens: seq<string>, facts: seq<TechnologyFact>) {
    Meaningful(facts) && forall s, c, v :: HasValue(facts, s, c, v) <==> Stated(tokens, s, c, v)
  }

  /** A fact holds every value stated for its key, because no other fact has that key. */
  lemma FactHoldsAll(tokens: seq<string>, facts: seq<TechnologyFact>, f: TechnologyFact)
    requires FactsOf(tokens, facts) && f in facts
    ensures f.values != {} && forall v :: v in f.values <==> Stated(tokens, f.subject, f.category, v)
  {
    hide Stated, KeyLess;
    forall v ensures v in f.values <==> HasValue(facts, f.subject, f.category, v) {
      if HasValue(facts, f.subject, f.category, v) {
        var g :| g in facts && g.subject == f.subject && g.category == f.category && v in g.values;
        KeyOnce(facts, f, g);
      }
    }
  }

  lemma KeyOnce(facts: seq<TechnologyFact>, f: TechnologyFact, g: TechnologyFact)
    requires KeySorted(facts) && f in facts && g in facts && SameKey(f, g)
    ensures f == g
  {
    var i :| 0 <= i < |facts| && facts[i] == f;
    var j :| 0 <= j < |facts| && facts[j] == g;
    KeysTotal(f.subject, f.category, g.subject, g.category);
  }

  lemma OpposedFacts(a: seq<string>, b: seq<string>, fa: seq<TechnologyFact>, fb: seq<TechnologyFact>, f: TechnologyFact, g: TechnologyFact)
    requires FactsOf(a, fa) && FactsOf(b, fb) && f in fa && g in fb && Opposed(f, g)
    ensures OpposedOn(a, b, f.subject, f.category)
  {
    hide Stated, FactsOf;
    FactHoldsAll(a, fa, f);
    FactHoldsAll(b, fb, g);
    var v :| v in f.values;
    var w :| w in g.values;
  }

  lemma OpposedKeys(a: seq<string>, b: seq<string>, fa: seq<TechnologyFact>, fb: seq<TechnologyFact>, s: string, c: string)
    requires FactsOf(a, fa) && FactsOf(b, fb) && OpposedOn(a, b, s, c)
    ensures exists f, g :: f in fa && g in fb && Opposed(f, g) && f.subject == s && f.category == c
  {
    hide Stated;
    var v :| Stated(a, s, c, v);
    var w :| Stated(b, s, c, w);
    assert HasValue(fa, s, c, v) && HasValue(fb, s, c, w);
    var f :| f in fa && f.subject == s && f.category == c && v in f.values;
    var g :| g in fb && g.subject == s && g.category == c && w in g.values;
    FactHoldsAll(a, fa, f);
    FactHoldsAll(b, fb, g);
    assert Opposed(f, g);
  }

  /** No fact among the first i of one list opposes any of the other, nor fact i any of the first j. */
  ghost predicate NoneYet(fa: seq<TechnologyFact>, fb: seq<TechnologyFact>, i: nat, j: nat) {
    && (forall x, y :: 0 <= x < i && x < |fa| && 0 <= y < |fb| ==> !Opposed(fa[x], fb[y]))
    && (i < |fa| ==> forall y :: 0 <= y < j && y < |fb| ==> !Opposed(fa[i], fb[y]))
  }

  method DetectTechnologyContradiction(cc: CharClasses, existing: string, candidate: string) returns (r: Option<Conflict>)
    ensures r.Some? <==> Contradicts(TokensOf(cc, existing), TokensOf(cc, candidate))
    ensures r.Some? ==>
      && (exists c :: OpposedOn(TokensOf(cc, existing), TokensOf(cc, candidate), r.value.subject, c))
      && (forall v :: v in r.value.existing <==> exists c :: Stated(TokensOf(cc, existing), r.value.subject, c, v))
      && (forall v :: v in r.value.candidate <==> exists c :: Stated(TokensOf(cc, candidate), r.value.subject, c, v))
    ensures r.Some? ==> forall s, c :: OpposedOn(TokensOf(cc, existing), TokensOf(cc, candidate), s, c) ==>
      s == r.value.subject || Utf8.StringLess(r.value.subject, s)
  {
    hide OpposedOn, Stated, TokensOf, HasValue, Meaningful, Contradicts, FactsOf, Opposed, Utf8.StringLess;
    var a := HeuristicTokens(cc, existing);
    var b := HeuristicTokens(cc, candidate);
    var existingFacts := ExtractTechnologyFacts(a);
    var candidateFacts := ExtractTechnologyFacts(b);
    AreFacts(a, existingFacts);
    AreFacts(b, candidateFacts);
    for i := 0 to |existingFacts|
      invariant NoneYet(existingFacts, candidateFacts, i, 0)
    {
      for j := 0 to |candidateFacts|
        invariant NoneYet(existingFacts, candidateFacts, i, j)
      {
        var f, g := existingFacts[i], candidateFacts[j];
        OpposedWhen(a, b, existingFacts, candidateFacts, f, g);
        if f.subject != g.subject || f.category != g.category {
          continue;
        }
        if f.values <= g.values || g.values <= f.values {
          continue;
        }
        if f.values !! g.values {
          OpposedFacts(a, b, existingFacts, candidateFacts, f, g);
          FirstOpposed(a, b, existingFacts, candidateFacts, i, j);
          SubjectValues(a, existingFacts, f.subject);
          SubjectValues(b, candidateFacts, g.subject);
          Contradiction(a, b, f.subject, f.category);
          return Some(Conflict(f.subject, ValuesForSubject(existingFacts, f.subject), ValuesForSubject(candidateFacts, g.subject)));
        }
      }
    }
    NoneOpposed(a, b, existingFacts, candidateFacts);
    r := None;
  }

  lemma AreFacts(tokens: seq<string>, facts: seq<TechnologyFact>)
    requires Meaningful(facts) && forall s, c, v :: HasValue(facts, s, c, v) <==> Stated(tokens, s, c, v)
    ensures FactsOf(tokens, facts)
  {
  }

  lemma Contradiction(a: seq<string>, b: seq<string>, s: string, c: string)
    requires OpposedOn(a, b, s, c)
    ensures Contradicts(a, b)
  {
  }

  lemma OpposedWhen(a: seq<string>, b: seq<string>, fa: seq<TechnologyFact>, fb: seq<TechnologyFact>, f: TechnologyFact, g: TechnologyFact)
    requires FactsOf(a, fa) && FactsOf(b, fb) && f in fa && g in fb
    ensures Opposed(f, g) <==>
      f.subject == g.subject && f.category == g.category && !(f.values <= g.values || g.values <= f.values) && f.values !! g.values
  {
  }

  lemma NoneOpposed(a: seq<string>, b: seq<string>, fa: seq<TechnologyFact>, fb: seq<TechnologyFact>)
    requires FactsOf(a, fa) && FactsOf(b, fb) && NoneYet(fa, fb, |fa|, 0)
    ensures !Contradicts(a, b)
  {
    hide FactsOf, Opposed, OpposedOn;
    forall f, g | f in fa && g in fb ensures !Opposed(f, g) {
      var x :| 0 <= x < |fa| && fa[x] == f;
      var y :| 0 <= y < |fb| && fb[y] == g;
    }
    if s, c :| OpposedOn(a, b, s, c) {
      OpposedKeys(a, b, fa, fb, s, c);
    }
  }

  lemma FirstOpposed(a: seq<string>, b: seq<string>, fa: seq<TechnologyFact>, fb: seq<TechnologyFact>, i: nat, j: nat)
    requires FactsOf(a, fa) && FactsOf(b, fb) && i < |fa| && NoneYet(fa, fb, i, j)
    ensures forall s, c :: OpposedOn(a, b, s, c) ==> s == fa[i].subject || Utf8.StringLess(fa[i].subject, s)
  {
    hide Opposed, OpposedOn, Stated;
    forall s, c | OpposedOn(a, b, s, c) ensures s == fa[i].subject || Utf8.StringLess(fa[i].subject, s) {
      OpposedKeys(a, b, fa, fb, s, c);
      var f, g :| f in fa && g in fb && Opposed(f, g) && f.subject == s && f.category == c;
      var x :| 0 <= x < |fa| && fa[x] == f;
      var y :| 0 <= y < |fb| && fb[y] == g;
      assert x >= i;
    }
  }

  lemma SubjectValues(tokens: seq<string>, facts: seq<TechnologyFact>, s: string)
    requires FactsOf(tokens, facts)
    ensures forall v :: v in ValuesForSubject(facts, s) <==> exists c :: Stated(tokens, s, c, v)
  {
    hide Stated, Meaningful, ValuesForSubject;
    forall v ensures v in ValuesForSubject(facts, s) <==> exists c :: Stated(tokens, s, c, v) {
      if v in ValuesForSubject(facts, s) {
        var f :| f in facts && f.subject == s && v in f.values;
        assert HasValue(facts, s, f.category, v);
      }
      if c :| Stated(tokens, s, c, v) {
        assert HasValue(facts, s, c, v);
      }
    }
  }

  /** Contradiction is symmetric, and no text contradicts itself. */
  lemma ContradictionIsSymmetric(a: seq<string>, b: seq<string>)
    ensures Contradicts(a, b) <==> Contradicts(b, a)
    ensures !Contradicts(a, a)
  {
    hide Stated;
    forall s, c ensures OpposedOn(a, b, s, c) <==> OpposedOn(b, a, s, c) {
    }
    forall s, c ensures !OpposedOn(a, a, s, c) {
    }
  }
}
