/**
 * The modules table consulted by the lifecycle orchestrator: for every module name,
 * its declared dependencies and its optional init and stop actions. The concrete
 * table of the server is defined elsewhere, so it is a parameter of the model.
 */
module Registry {
  import opened Wrappers

  /** A module identifier, modelled as a string. */
  type Name = string

  /** What an action returns when it is invoked: nil, or an error carrying a cause. */
  datatype Outcome = Succeeds | Fails(cause: string)

  /** One table entry; an action that is None stands for a nil func. */
  datatype Module = Module(deps: seq<Name>, init: Option<Outcome>, stop: Option<Outcome>)

  /**
   * The table, together with a rank that is only there to make the orchestrator's
   * recursion well founded: Acyclic says it strictly decreases along every dependency.
   */
  datatype Table = Table(modules: map<Name, Module>, rank: Name -> nat)

  /** The zero descriptor a Go map lookup yields for a name that is not in the table. */
  const NoModule := Module([], None, None)

  /** A name in the table reads its entry; any other name reads as the zero descriptor. */
  function Lookup(t: Table, m: Name): (d: Module)
    ensures m in t.modules ==> d == t.modules[m]
    ensures m !in t.modules ==> d.deps == [] && d.init.None? && d.stop.None?
  {
    if m in t.modules then t.modules[m] else NoModule
  }

  function Deps(t: Table, m: Name): seq<Name>
  {
    Lookup(t, m).deps
  }

  function InitAction(t: Table, m: Name): Option<Outcome>
  {
    Lookup(t, m).init
  }

  function StopAction(t: Table, m: Name): Option<Outcome>
  {
    Lookup(t, m).stop
  }

  /** The dependency relation is acyclic: the rank strictly decreases along each edge. */
  ghost predicate Acyclic(t: Table)
  {
    forall m, k :: 0 <= k < |Deps(t, m)| ==> t.rank(Deps(t, m)[k]) < t.rank(m)
  }

  /** The dependency closure of m: m itself and everything it transitively depends on. */
  ghost function Closure(t: Table, m: Name): set<Name>
    requires Acyclic(t)
    decreases t.rank(m), 1, 0
  {
    {m} + DepsClosure(t, m, 0)
  }

  /** The union of the closures of the dependencies of m from position i on. */
  ghost function DepsClosure(t: Table, m: Name, i: nat): set<Name>
    requires Acyclic(t) && i <= |Deps(t, m)|
    decreases t.rank(m), 0, |Deps(t, m)| - i
  {
    if i == |Deps(t, m)| then {}
    else Closure(t, Deps(t, m)[i]) + DepsClosure(t, m, i + 1)
  }

  /** Every dependency of a member of c is itself in c. */
  ghost predicate Closed(t: Table, c: set<Name>)
  {
    forall x, k :: x in c && 0 <= k < |Deps(t, x)| ==> Deps(t, x)[k] in c
  }

  lemma {:induction false} ClosureRank(t: Table, m: Name, x: Name)
    requires Acyclic(t) && x in Closure(t, m)
    ensures t.rank(x) <= t.rank(m)
    decreases t.rank(m), 1, 0
  {
    if x != m {
      DepsClosureRank(t, m, 0, x);
    }
  }

  lemma {:induction false} DepsClosureRank(t: Table, m: Name, i: nat, x: Name)
    requires Acyclic(t) && i <= |Deps(t, m)| && x in DepsClosure(t, m, i)
    ensures t.rank(x) < t.rank(m)
    decreases t.rank(m), 0, |Deps(t, m)| - i
  {
    if x in Closure(t, Deps(t, m)[i]) {
      ClosureRank(t, Deps(t, m)[i], x);
    } else {
      DepsClosureRank(t, m, i + 1, x);
    }
  }

  lemma {:induction false} DepClosureIncluded(t: Table, m: Name, i: nat, k: nat)
    requires Acyclic(t) && i <= k < |Deps(t, m)|
    ensures Closure(t, Deps(t, m)[k]) <= DepsClosure(t, m, i)
    decreases k - i
  {
    if i < k {
      DepClosureIncluded(t, m, i + 1, k);
    }
  }

  /** The closure of anything in the closure of m lies inside the closure of m. */
  lemma {:induction false} ClosureTransitive(t: Table, m: Name, x: Name)
    requires Acyclic(t) && x in Closure(t, m)
    ensures Closure(t, x) <= Closure(t, m)
    decreases t.rank(m), 1, 0
  {
    if x != m {
      DepsClosureTransitive(t, m, 0, x);
    }
  }

  lemma {:induction false} DepsClosureTransitive(t: Table, m: Name, i: nat, x: Name)
    requires Acyclic(t) && i <= |Deps(t, m)| && x in DepsClosure(t, m, i)
    ensures Closure(t, x) <= DepsClosure(t, m, i)
    decreases t.rank(m), 0, |Deps(t, m)| - i
  {
    if x in Closure(t, Deps(t, m)[i]) {
      ClosureTransitive(t, Deps(t, m)[i], x);
    } else {
      DepsClosureTransitive(t, m, i + 1, x);
    }
  }

  /** A set closed under dependencies that holds m holds the whole closure of m. */
  lemma {:induction false} ClosedContainsClosure(t: Table, c: set<Name>, m: Name)
    requires Acyclic(t) && Closed(t, c) && m in c
    ensures Closure(t, m) <= c
    decreases t.rank(m), 1, 0
  {
    DepsClosedContains(t, c, m, 0);
  }

  lemma {:induction false} DepsClosedContains(t: Table, c: set<Name>, m: Name, i: nat)
    requires Acyclic(t) && Closed(t, c) && m in c && i <= |Deps(t, m)|
    ensures DepsClosure(t, m, i) <= c
    decreases t.rank(m), 0, |Deps(t, m)| - i
  {
    if i < |Deps(t, m)| {
      ClosedContainsClosure(t, c, Deps(t, m)[i]);
      DepsClosedContains(t, c, m, i + 1);
    }
  }
}
