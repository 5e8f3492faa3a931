/** Which authority class a documentation path belongs to (plugins/documentation/src/lib.rs). */
module AuthorityPaths {
  import opened Wrappers
  import opened Text

  datatype AuthorityClass = Current | Planning | Research | Generated | Other

  datatype Roots = Roots(current: seq<string>, planning: seq<string>, research: seq<string>, generated: seq<string>)

  function ReplaceBackslashes(s: string): (t: string)
    ensures |t| == |s|
    ensures forall i :: 0 <= i < |s| ==> t[i] == if s[i] == '\\' then '/' else s[i]
  {
    if s == "" then "" else [if s[0] == '\\' then '/' else s[0]] + ReplaceBackslashes(s[1..])
  }

  predicate IsSlash(c: char) {
    c == '/'
  }

  function NormalizeRelString(s: string): string {
    Lower(TrimMatches(IsSlash, ReplaceBackslashes(s)))
  }

  /** No backslash, no upper-case letter, no slash at either end. */
  ghost predicate IsNormal(t: string) {
    && (forall i :: 0 <= i < |t| ==> t[i] != '\\' && !('A' <= t[i] <= 'Z'))
    && (t != "" ==> t[0] != '/' && t[|t| - 1] != '/')
  }

  lemma NormalStays(t: string)
    requires IsNormal(t)
    ensures NormalizeRelString(t) == t
  {
  }

  lemma NormalizationIsNormal(s: string)
    ensures IsNormal(NormalizeRelString(s))
  {
    hide Lower, TrimMatches, ReplaceBackslashes;
    var trimmed := TrimMatches(IsSlash, ReplaceBackslashes(s));
    forall i | 0 <= i < |trimmed| ensures trimmed[i] != '\\' {
      assert trimmed[i] in trimmed;
    }
  }

  /** Normalising gives a normal path, and a normal path is left as it is. */
  lemma NormalizationIsIdempotent(s: string)
    ensures IsNormal(NormalizeRelString(s)) && NormalizeRelString(NormalizeRelString(s)) == NormalizeRelString(s)
  {
    hide IsNormal, NormalizeRelString;
    NormalizationIsNormal(s);
    NormalStays(NormalizeRelString(s));
  }

  predicate StartsWith(s: string, prefix: string) {
    prefix <= s
  }

  /** The path is the root, or lies below it. */
  predicate Under(path: string, root: string) {
    path == root || StartsWith(path, root + "/")
  }

  function Entries(roots: Roots, k: nat): (r: (AuthorityClass, seq<string>))
    requires k < 4
  {
    if k == 0 then (Current, roots.current)
    else if k == 1 then (Planning, roots.planning)
    else if k == 2 then (Research, roots.research)
    else (Generated, roots.generated)
  }

  /** Entry i of class k holds the path. */
  ghost predicate Holds(roots: Roots, path: string, k: int, i: int) {
    && 0 <= k < 4 && 0 <= i < |Entries(roots, k).1|
    && Under(path, NormalizeRelString(Entries(roots, k).1[i]))
  }

  function Score(roots: Roots, k: nat, i: nat): nat
    requires k < 4 && i < |Entries(roots, k).1|
  {
    |NormalizeRelString(Entries(roots, k).1[i])|
  }

  /** The best of the entries before entry i of class k: the longest, and of the longest the first. */
  ghost predicate BestSoFar(roots: Roots, path: string, k: int, i: int, best: Option<(AuthorityClass, nat)>) {
    && (best.None? ==> forall x, y :: Holds(roots, path, x, y) ==> !Earlier(x, y, k, i))
    && (best.Some? ==> exists x, y :: BestIs(roots, path, k, i, best.value, x, y))
  }

  ghost predicate BestIs(roots: Roots, path: string, k: int, i: int, best: (AuthorityClass, nat), x: int, y: int) {
    && Holds(roots, path, x, y) && Earlier(x, y, k, i)
    && best == (Entries(roots, x).0, Score(roots, x, y))
    && Longest(roots, path, x, y, k, i)
  }

  predicate Earlier(x: int, y: int, k: int, i: int) {
    x < k || (x == k && y < i)
  }

  /** No entry before entry i of class k is longer than entry y of class x, and none as long comes before it. */
  ghost predicate Longest(roots: Roots, path: string, x: int, y: int, k: int, i: int)
    requires Holds(roots, path, x, y)
  {
    forall p, q :: Holds(roots, path, p, q) && Earlier(p, q, k, i) ==>
      && Score(roots, p, q) <= Score(roots, x, y)
      && (Earlier(p, q, x, y) ==> Score(roots, p, q) < Score(roots, x, y))
  }

  method ClassifyPath(relativePath: string, roots: Roots) returns (authority: AuthorityClass)
    ensures var path := NormalizeRelString(relativePath);
      if authority.Other? then forall x, y :: !Holds(roots, path, x, y)
      else exists x, y :: Holds(roots, path, x, y) && authority == Entries(roots, x).0 && Longest(roots, path, x, y, 4, 0)
    ensures IsClassOf(roots, NormalizeRelString(relativePath), authority)
  {
    hide NormalizeRelString, Under, Longest, IsClassOf;
    var normalized := NormalizeRelString(relativePath);
    var best: Option<(AuthorityClass, nat)> := None;
    for k := 0 to 4
      invariant BestSoFar(roots, normalized, k, 0, best)
    {
      var entries := Entries(roots, k).1;
      for i := 0 to |entries|
        invariant BestSoFar(roots, normalized, k, i, best)
      {
        var entry := NormalizeRelString(entries[i]);
        NextEntry(roots, normalized, k, i, best);
        if Under(normalized, entry) {
          var score := |entry|;
          if best.None? || score > best.value.1 {
            best := Some((Entries(roots, k).0, score));
          }
        }
      }
      NextClass(roots, normalized, k, best);
    }
    authority := if best.Some? then best.value.0 else Other;
    ClassifiedByLongestRoot(roots, normalized, authority);
  }

  /** The roots of a class. */
  function RootsOf(roots: Roots, authority: AuthorityClass): seq<string> {
    match authority
    case Current => roots.current
    case Planning => roots.planning
    case Research => roots.research
    case Generated => roots.generated
    case Other => []
  }

  /** The place of a class when roots tie. */
  function Precedence(authority: AuthorityClass): nat {
    if authority == Current then 1 else if authority == Planning then 2 else if authority == Research then 3
    else if authority == Generated then 4 else 5
  }

  ghost predicate HoldsPath(path: string, root: string) {
    var normalized := NormalizeRelString(root);
    normalized <= path && (|normalized| == |path| || path[|normalized|] == '/')
  }

  /** A root of the class holds the path, no root holding it is longer, and none of an earlier class is as long. */
  ghost predicate IsClassOf(roots: Roots, path: string, authority: AuthorityClass) {
    if authority == Other then forall c, q :: q in RootsOf(roots, c) ==> !HoldsPath(path, q)
    else
      exists r :: r in RootsOf(roots, authority) && HoldsPath(path, r)
        && forall c, q :: q in RootsOf(roots, c) && HoldsPath(path, q) ==>
             var mine, other := |NormalizeRelString(r)|, |NormalizeRelString(q)|;
             other < mine || (other == mine && Precedence(authority) <= Precedence(c))
  }

  function ClassAt(k: nat): AuthorityClass {
    if k == 0 then Current else if k == 1 then Planning else if k == 2 then Research else Generated
  }

  lemma EntriesAreRoots(roots: Roots, k: nat)
    requires k < 4
    ensures Entries(roots, k).0 == ClassAt(k) && Entries(roots, k).1 == RootsOf(roots, ClassAt(k)) && Precedence(ClassAt(k)) == k + 1
  {
  }

  lemma HeldEntry(roots: Roots, path: string, c: AuthorityClass, q: string) returns (k: int, i: int)
    requires q in RootsOf(roots, c) && HoldsPath(path, q)
    ensures Holds(roots, path, k, i) && Score(roots, k, i) == |NormalizeRelString(q)| && Precedence(c) == k + 1
  {
    hide NormalizeRelString;
    k := Precedence(c) - 1;
    EntriesAreRoots(roots, k);
    UnderExactly(path, NormalizeRelString(q));
    i :| 0 <= i < |RootsOf(roots, c)| && RootsOf(roots, c)[i] == q;
  }

  /** The class that classification answers is the class of the longest root that holds the path. */
  lemma ClassifiedByLongestRoot(roots: Roots, path: string, authority: AuthorityClass)
    requires if authority.Other? then forall x, y :: !Holds(roots, path, x, y)
      else exists x, y :: Holds(roots, path, x, y) && authority == Entries(roots, x).0 && Longest(roots, path, x, y, 4, 0)
    ensures IsClassOf(roots, path, authority)
  {
    hide NormalizeRelString, Under, HoldsPath;
    if authority.Other? {
      forall c, q | q in RootsOf(roots, c) ensures !HoldsPath(path, q) {
        if HoldsPath(path, q) {
          var k, i := HeldEntry(roots, path, c, q);
        }
      }
    } else {
      var x, y :| Holds(roots, path, x, y) && authority == Entries(roots, x).0 && Longest(roots, path, x, y, 4, 0);
      EntriesAreRoots(roots, x);
      var r := Entries(roots, x).1[y];
      HoldsUnder(path, r);
      forall c, q | q in RootsOf(roots, c) && HoldsPath(path, q)
        ensures var mine, other := |NormalizeRelString(r)|, |NormalizeRelString(q)|;
          other < mine || (other == mine && Precedence(authority) <= Precedence(c))
      {
        var k, i := HeldEntry(roots, path, c, q);
        assert Earlier(k, i, 4, 0);
      }
    }
  }

  lemma HoldsUnder(path: string, root: string)
    ensures HoldsPath(path, root) <==> Under(path, NormalizeRelString(root))
  {
    hide NormalizeRelString;
    UnderExactly(path, NormalizeRelString(root));
  }

  /** The entry at hand beats, or does not beat, the best so far. */
  predicate Beats(roots: Roots, path: string, k: nat, i: nat, best: Option<(AuthorityClass, nat)>)
    requires k < 4 && i < |Entries(roots, k).1|
  {
    Under(path, NormalizeRelString(Entries(roots, k).1[i])) && (best.None? || Score(roots, k, i) > best.value.1)
  }

  lemma NextEntry(roots: Roots, path: string, k: nat, i: nat, best: Option<(AuthorityClass, nat)>)
    requires k < 4 && i < |Entries(roots, k).1| && BestSoFar(roots, path, k, i, best)
    ensures BestSoFar(roots, path, k, i + 1,
      if Beats(roots, path, k, i, best) then Some((Entries(roots, k).0, Score(roots, k, i))) else best)
  {
    hide BestSoFar;
    if Beats(roots, path, k, i, best) {
      EntryBeats(roots, path, k, i, best);
    } else {
      EntryDoesNotBeat(roots, path, k, i, best);
    }
  }

  lemma EntryBeats(roots: Roots, path: string, k: nat, i: nat, best: Option<(AuthorityClass, nat)>)
    requires k < 4 && i < |Entries(roots, k).1| && BestSoFar(roots, path, k, i, best) && Beats(roots, path, k, i, best)
    ensures BestSoFar(roots, path, k, i + 1, Some((Entries(roots, k).0, Score(roots, k, i))))
  {
    hide Under, NormalizeRelString, Entries;
    assert Longest(roots, path, k, i, k, i + 1);
    assert BestIs(roots, path, k, i + 1, (Entries(roots, k).0, Score(roots, k, i)), k, i);
  }

  lemma EntryDoesNotBeat(roots: Roots, path: string, k: nat, i: nat, best: Option<(AuthorityClass, nat)>)
    requires k < 4 && i < |Entries(roots, k).1| && BestSoFar(roots, path, k, i, best) && !Beats(roots, path, k, i, best)
    ensures BestSoFar(roots, path, k, i + 1, best)
  {
    hide Under, NormalizeRelString, Entries;
    if best.Some? {
      var x, y :| BestIs(roots, path, k, i, best.value, x, y);
      assert BestIs(roots, path, k, i + 1, best.value, x, y);
    }
  }

  lemma NextClass(roots: Roots, path: string, k: nat, best: Option<(AuthorityClass, nat)>)
    requires k < 4 && BestSoFar(roots, path, k, |Entries(roots, k).1|, best)
    ensures BestSoFar(roots, path, k + 1, 0, best)
  {
    hide Under, NormalizeRelString;
    var n := |Entries(roots, k).1|;
    assert forall x, y :: Holds(roots, path, x, y) ==> (Earlier(x, y, k, n) <==> Earlier(x, y, k + 1, 0));
    if best.Some? {
      var x, y :| BestIs(roots, path, k, n, best.value, x, y);
      assert BestIs(roots, path, k + 1, 0, best.value, x, y);
    }
  }

  /** Entries that tie are the same path: only a root listed under two classes depends on their order. */
  lemma TiesAreEqual(roots: Roots, path: string, x: int, y: int, p: int, q: int)
    requires Holds(roots, path, x, y) && Holds(roots, path, p, q) && Score(roots, x, y) == Score(roots, p, q)
    ensures NormalizeRelString(Entries(roots, x).1[y]) == NormalizeRelString(Entries(roots, p).1[q])
  {
    hide NormalizeRelString;
    var a, b := NormalizeRelString(Entries(roots, x).1[y]), NormalizeRelString(Entries(roots, p).1[q]);
    UnderIsPrefix(path, a);
    UnderIsPrefix(path, b);
    assert a == path[..|a|] && b == path[..|b|];
  }

  lemma UnderIsPrefix(path: string, root: string)
    requires Under(path, root)
    ensures root <= path && (|root| < |path| ==> path[|root|] == '/')
  {
  }

  /** A root holds itself and what lies below it, and nothing else. */
  lemma UnderExactly(path: string, root: string)
    ensures Under(path, root) <==> root <= path && (|root| == |path| || path[|root|] == '/')
  {
  }
}
