/**
 * A three-module table, A with no dependencies, B depending on A and C depending on A
 * then B, run through init and stop.
 */
module Scenarios {
  import opened Wrappers
  import opened Registry
  import opened Lifecycle

  function Rank(n: Name): nat
  {
    if n == "C" then 2 else if n == "B" then 1 else 0
  }

  /** Every action succeeds, except A's init action, which returns aInit. */
  function Example(aInit: Outcome): Table
  {
    Table(map[
      "A" := Module([], Some(aInit), Some(Succeeds)),
      "B" := Module(["A"], Some(Succeeds), Some(Succeeds)),
      "C" := Module(["A", "B"], Some(Succeeds), Some(Succeeds))],
      Rank)
  }

  lemma ExampleAcyclic(aInit: Outcome)
    ensures Acyclic(Example(aInit))
  {
    var t := Example(aInit);
    forall m, k | 0 <= k < |Deps(t, m)| ensures t.rank(Deps(t, m)[k]) < t.rank(m) {
      if m == "C" {
        assert Deps(t, m) == ["A", "B"];
      } else {
        assert m == "B" && Deps(t, m) == ["A"];
      }
    }
  }

  /** The entries of the example table, as the lookups see them. */
  lemma ExampleShape(aInit: Outcome)
    ensures Acyclic(Example(aInit))
    ensures var t := Example(aInit);
      && Deps(t, "A") == [] && Deps(t, "B") == ["A"] && Deps(t, "C") == ["A", "B"]
      && InitAction(t, "A") == Some(aInit)
      && InitAction(t, "B") == Some(Succeeds) && InitAction(t, "C") == Some(Succeeds)
      && StopAction(t, "A") == Some(Succeeds) && StopAction(t, "B") == Some(Succeeds)
      && StopAction(t, "C") == Some(Succeeds)
  {
    ExampleAcyclic(aInit);
  }

  /** Initialising C from nothing visits A, B, C in that order and inits all three. */
  lemma ExampleInitOrder()
    ensures Acyclic(Example(Succeeds))
    ensures InitFrom(Example(Succeeds), {}, "C") == InitRun({"A", "B", "C"}, ["A", "B", "C"], None)
  {
    var t := Example(Succeeds);
    ExampleShape(Succeeds);
    assert InitDeps(t, {}, "A", 0, []) == InitRun({}, [], None);
    assert InitFrom(t, {}, "A") == InitRun({"A"}, ["A"], None);
    assert InitFrom(t, {"A"}, "A") == InitRun({"A"}, [], None);
    assert InitDeps(t, {"A"}, "B", 1, []) == InitRun({"A"}, [], None);
    assert InitDeps(t, {"A"}, "B", 0, []) == InitRun({"A"}, [], None);
    assert InitFrom(t, {"A"}, "B") == InitRun({"A", "B"}, ["B"], None);
    assert InitDeps(t, {"A", "B"}, "C", 2, ["A", "B"]) == InitRun({"A", "B"}, ["A", "B"], None);
    assert InitDeps(t, {"A"}, "C", 1, ["A"]) == InitRun({"A", "B"}, ["A", "B"], None);
    assert InitDeps(t, {}, "C", 0, []) == InitRun({"A", "B"}, ["A", "B"], None);
  }

  /**
   * Stopping C with all three inited runs the stop actions in the order A, B, C: stop
   * recurses into the dependencies before running a module's own stop action, so the
   * order is not the reverse of the init order.
   */
  lemma ExampleStopOrder()
    ensures Acyclic(Example(Succeeds))
    ensures StopFrom(Example(Succeeds), {"A", "B", "C"}, "C") == StopRun({}, ["A", "B", "C"])
  {
    var t := Example(Succeeds);
    ExampleShape(Succeeds);
    assert StopDeps(t, {"B"}, "A", 0, []) == StopRun({"B"}, []);
    assert StopFrom(t, {"A", "B"}, "A") == StopRun({"B"}, ["A"]);
    assert StopFrom(t, {}, "A") == StopRun({}, []);
    assert StopDeps(t, {}, "B", 1, []) == StopRun({}, []);
    assert StopDeps(t, {}, "B", 0, []) == StopRun({}, []);
    assert {"B"} - {"B"} == {};
    assert StopFrom(t, {"B"}, "B") == StopRun({}, ["B"]);
    assert StopDeps(t, {}, "C", 2, ["A", "B"]) == StopRun({}, ["A", "B"]);
    assert StopDeps(t, {"B"}, "C", 1, ["A"]) == StopRun({}, ["A", "B"]);
    assert {"A", "B", "C"} - {"C"} == {"A", "B"};
    assert StopDeps(t, {"A", "B"}, "C", 0, []) == StopRun({}, ["A", "B"]);
  }

  /**
   * When A's init action fails, initialising C returns A's wrapped error after visiting
   * only A; B's and C's init actions never run, nothing is inited, and a later stop of C
   * does nothing.
   */
  lemma ExampleFailure(cause: string)
    ensures Acyclic(Example(Fails(cause)))
    ensures InitFrom(Example(Fails(cause)), {}, "C") == InitRun({}, ["A"], Some(InitError("A", cause)))
    ensures StopFrom(Example(Fails(cause)), {}, "C") == StopRun({}, [])
  {
    var t := Example(Fails(cause));
    ExampleShape(Fails(cause));
    assert InitDeps(t, {}, "A", 0, []) == InitRun({}, [], None);
    assert InitFrom(t, {}, "A") == InitRun({}, ["A"], Some(InitError("A", cause)));
    assert InitDeps(t, {}, "C", 0, []) == InitRun({}, ["A"], Some(InitError("A", cause)));
  }

  function ChainRank(n: Name): nat
  {
    if n == "M" then 2 else if n == "D" then 1 else 0
  }

  /** M needs D and D needs E; M and E have stop actions, D has none. */
  function Chain(): Table
  {
    Table(map[
      "M" := Module(["D"], None, Some(Succeeds)),
      "D" := Module(["E"], None, None),
      "E" := Module([], None, Some(Succeeds))],
      ChainRank)
  }

  /** The entries of the chain table, as the lookups see them. */
  lemma ChainShape()
    ensures Acyclic(Chain())
    ensures var t := Chain();
      && Deps(t, "M") == ["D"] && Deps(t, "D") == ["E"] && Deps(t, "E") == []
      && StopAction(t, "M").Some? && StopAction(t, "D").None? && StopAction(t, "E").Some?
  {
    var t := Chain();
    forall n, k | 0 <= k < |Deps(t, n)| ensures t.rank(Deps(t, n)[k]) < t.rank(n) {
      if n == "M" {
        assert Deps(t, n) == ["D"];
      } else {
        assert n == "D" && Deps(t, n) == ["E"];
      }
    }
  }

  /**
   * Stopping M with all three inited runs E's stop action before M's, although the
   * dependency between them passes through D, which has no stop action.
   */
  lemma ChainStopOrder()
    ensures Acyclic(Chain())
    ensures StopFrom(Chain(), {"M", "D", "E"}, "M") == StopRun({}, ["E", "M"])
  {
    var t := Chain();
    ChainShape();
    assert {"M", "D", "E"} - {"M"} == {"D", "E"};
    assert {"D", "E"} - {"D"} == {"E"};
    assert {"E"} - {"E"} == {};
    assert StopDeps(t, {}, "E", 0, []) == StopRun({}, []);
    assert StopFrom(t, {"E"}, "E") == StopRun({}, ["E"]);
    assert StopDeps(t, {}, "D", 1, ["E"]) == StopRun({}, ["E"]);
    assert StopDeps(t, {"E"}, "D", 0, []) == StopRun({}, ["E"]);
    assert StopFrom(t, {"D", "E"}, "D") == StopRun({}, ["E"]);
    assert StopDeps(t, {}, "M", 1, ["E"]) == StopRun({}, ["E"]);
    assert StopDeps(t, {"D", "E"}, "M", 0, []) == StopRun({}, ["E"]);
  }
}
