/** The scope hierarchy (plugins/memory/src/types.rs). */
module Scopes {

  datatype MemoryScope = Session | Workspace | User | Agent {

    function Rank(): nat {
      match this
      case Session => 0
      case Workspace => 1
      case User => 2
      case Agent => 3
    }

    /** Visible scopes, nearest first. */
    function VisibleScopes(): seq<MemoryScope> {
      match this
      case Session => [Session, Workspace, User, Agent]
      case Workspace => [Workspace, User, Agent]
      case User => [User, Agent]
      case Agent => [Agent]
    }

    predicate CanPromoteTo(target: MemoryScope) {
      Rank() < target.Rank()
    }

    function Max(other: MemoryScope): MemoryScope {
      if Rank() >= other.Rank() then this else other
    }
  }

  /** The visible scopes of s are exactly the scopes of rank at least s's, each listed once in rank order. */
  lemma VisibleIsUpwardClosure(s: MemoryScope)
    ensures forall t :: t in s.VisibleScopes() <==> s.Rank() <= t.Rank()
    ensures forall i, j :: 0 <= i < j < |s.VisibleScopes()| ==>
                             s.VisibleScopes()[i].Rank() < s.VisibleScopes()[j].Rank()
  {
  }

  /** Max is the join of the hierarchy: the least scope that both arguments can see or be promoted to. */
  lemma MaxIsJoin(a: MemoryScope, b: MemoryScope, c: MemoryScope)
    ensures a.Max(b) in a.VisibleScopes() && a.Max(b) in b.VisibleScopes()
    ensures c in a.VisibleScopes() && c in b.VisibleScopes() ==> c in a.Max(b).VisibleScopes()
    ensures a.Max(b) == b.Max(a) && a.Max(b).Max(c) == a.Max(b.Max(c))
    ensures a.Max(b) != a <==> a.CanPromoteTo(b)
  {
  }
}
