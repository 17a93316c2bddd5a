/**
 * The lifecycle orchestrator as specification functions: InitFrom is what one call of
 * init(m) does to the inited set starting from s, StopFrom what one call of stop(m)
 * does. Each returns the new inited set and the events of that call in order, so the
 * ordering, at-most-once and teardown properties below are stated over them.
 */
module Lifecycle {
  import opened Wrappers
  import opened Registry

  /** The error init returns: the failing module's own error, wrapped with its name. */
  datatype InitError = InitError(failed: Name, cause: string)

  const WrapPrefix := "error initialising module: "

  /**
   * The text of the wrapped error: errors.Wrap puts the context, which names the failing
   * module, before the cause, separated by ": ".
   */
  function Message(e: InitError): (text: string)
    ensures |text| == |WrapPrefix| + |e.failed| + 2 + |e.cause|
    ensures text[..|WrapPrefix|] == WrapPrefix
    ensures text[|WrapPrefix|..|WrapPrefix| + |e.failed|] == e.failed
    ensures text[|WrapPrefix| + |e.failed|..|WrapPrefix| + |e.failed| + 2] == ": "
    ensures text[|text| - |e.cause|..] == e.cause
  {
    WrapPrefix + e.failed + ": " + e.cause
  }

  /**
   * The result of one init call: the inited set afterwards, the modules that reached the
   * "initialising" step (and so had their init action, if any, invoked) in order, and
   * the returned error.
   */
  datatype InitRun = InitRun(inited: set<Name>, events: seq<Name>, err: Option<InitError>)

  /** The result of one stop call: the inited set afterwards and the modules whose stop action ran. */
  datatype StopRun = StopRun(inited: set<Name>, events: seq<Name>)

  ghost function Elems(xs: seq<Name>): set<Name>
  {
    set x | x in xs
  }

  ghost predicate Distinct(xs: seq<Name>)
  {
    forall i, j :: 0 <= i < j < |xs| ==> xs[i] != xs[j]
  }

  /** init(m) from inited set s. */
  ghost function InitFrom(t: Table, s: set<Name>, m: Name): (r: InitRun)
    requires Acyclic(t)
    ensures s <= r.inited
    ensures r.err.None? ==> m in r.inited
    decreases t.rank(m), 1, 0
  {
    if m in s then InitRun(s, [], None)
    else
      var r := InitDeps(t, s, m, 0, []);
      if r.err.Some? then r
      else if InitAction(t, m).Some? && InitAction(t, m).value.Fails? then
        InitRun(r.inited, r.events + [m], Some(InitError(m, InitAction(t, m).value.cause)))
      else
        InitRun(r.inited + {m}, r.events + [m], None)
  }

  /**
   * The loop of init(m) over the dependencies of m from position i on, stopping at the
   * first error; done holds the events of the iterations before i.
   */
  ghost function InitDeps(t: Table, s: set<Name>, m: Name, i: nat, done: seq<Name>): (r: InitRun)
    requires Acyclic(t) && i <= |Deps(t, m)|
    ensures s <= r.inited
    decreases t.rank(m), 0, |Deps(t, m)| - i
  {
    if i == |Deps(t, m)| then InitRun(s, done, None)
    else
      var r := InitFrom(t, s, Deps(t, m)[i]);
      if r.err.Some? then InitRun(r.inited, done + r.events, r.err)
      else InitDeps(t, r.inited, m, i + 1, done + r.events)
  }

  /** stop(m) from inited set c: m leaves the set before its dependencies are stopped. */
  ghost function StopFrom(t: Table, c: set<Name>, m: Name): (r: StopRun)
    requires Acyclic(t)
    ensures r.inited <= c && m !in r.inited
    decreases t.rank(m), 1, 0
  {
    if m !in c then StopRun(c, [])
    else
      var r := StopDeps(t, c - {m}, m, 0, []);
      if StopAction(t, m).None? then r
      else StopRun(r.inited, r.events + [m])
  }

  /** The loop of stop(m) over the dependencies of m from position i on, after the events done. */
  ghost function StopDeps(t: Table, c: set<Name>, m: Name, i: nat, done: seq<Name>): (r: StopRun)
    requires Acyclic(t) && i <= |Deps(t, m)|
    ensures r.inited <= c
    decreases t.rank(m), 0, |Deps(t, m)| - i
  {
    if i == |Deps(t, m)| then StopRun(c, done)
    else
      var r := StopFrom(t, c, Deps(t, m)[i]);
      StopDeps(t, r.inited, m, i + 1, done + r.events)
  }

  /** The events done before position i are a prefix of what the init loop reports. */
  lemma {:induction false} InitDepsShift(t: Table, s: set<Name>, m: Name, i: nat, done: seq<Name>)
    requires Acyclic(t) && i <= |Deps(t, m)|
    ensures var r := InitDeps(t, s, m, i, []);
      InitDeps(t, s, m, i, done) == InitRun(r.inited, done + r.events, r.err)
    decreases |Deps(t, m)| - i
  {
    if i == |Deps(t, m)| {
      assert done + [] == done;
    } else {
      var r := InitFrom(t, s, Deps(t, m)[i]);
      assert [] + r.events == r.events;
      if r.err.None? {
        assert InitDeps(t, s, m, i, done) == InitDeps(t, r.inited, m, i + 1, done + r.events);
        assert InitDeps(t, s, m, i, []) == InitDeps(t, r.inited, m, i + 1, r.events);
        InitDepsShift(t, r.inited, m, i + 1, done + r.events);
        InitDepsShift(t, r.inited, m, i + 1, r.events);
        var rest := InitDeps(t, r.inited, m, i + 1, []);
        assert (done + r.events) + rest.events == done + (r.events + rest.events);
      }
    }
  }

  /** One iteration of the init loop, with the rest of the loop reported on its own. */
  lemma InitDepsStep(t: Table, s: set<Name>, m: Name, i: nat)
    requires Acyclic(t) && i < |Deps(t, m)|
    ensures var r := InitFrom(t, s, Deps(t, m)[i]);
      InitDeps(t, s, m, i, []) ==
        if r.err.Some? then r
        else
          var rest := InitDeps(t, r.inited, m, i + 1, []);
          InitRun(rest.inited, r.events + rest.events, rest.err)
  {
    var r := InitFrom(t, s, Deps(t, m)[i]);
    assert [] + r.events == r.events;
    InitDepsShift(t, r.inited, m, i + 1, r.events);
  }

  /** The events done before position i are a prefix of what the stop loop reports. */
  lemma {:induction false} StopDepsShift(t: Table, c: set<Name>, m: Name, i: nat, done: seq<Name>)
    requires Acyclic(t) && i <= |Deps(t, m)|
    ensures var r := StopDeps(t, c, m, i, []);
      StopDeps(t, c, m, i, done) == StopRun(r.inited, done + r.events)
    decreases |Deps(t, m)| - i
  {
    if i == |Deps(t, m)| {
      assert done + [] == done;
    } else {
      var r := StopFrom(t, c, Deps(t, m)[i]);
      assert [] + r.events == r.events;
      assert StopDeps(t, c, m, i, done) == StopDeps(t, r.inited, m, i + 1, done + r.events);
      assert StopDeps(t, c, m, i, []) == StopDeps(t, r.inited, m, i + 1, r.events);
      StopDepsShift(t, r.inited, m, i + 1, done + r.events);
      StopDepsShift(t, r.inited, m, i + 1, r.events);
      var rest := StopDeps(t, r.inited, m, i + 1, []);
      assert (done + r.events) + rest.events == done + (r.events + rest.events);
    }
  }

  /** One iteration of the stop loop, with the rest of the loop reported on its own. */
  lemma StopDepsStep(t: Table, c: set<Name>, m: Name, i: nat)
    requires Acyclic(t) && i < |Deps(t, m)|
    ensures var r := StopFrom(t, c, Deps(t, m)[i]);
      var rest := StopDeps(t, r.inited, m, i + 1, []);
      StopDeps(t, c, m, i, []) == StopRun(rest.inited, r.events + rest.events)
  {
    var r := StopFrom(t, c, Deps(t, m)[i]);
    assert [] + r.events == r.events;
    StopDepsShift(t, r.inited, m, i + 1, r.events);
  }

  // ---------------------------------------------------------------------------
  // Sequence helpers

  lemma ElemsConcat(a: seq<Name>, b: seq<Name>)
    ensures Elems(a + b) == Elems(a) + Elems(b)
  {
    assert forall x :: x in a + b <==> x in a || x in b;
  }

  lemma DistinctConcat(a: seq<Name>, b: seq<Name>)
    requires Distinct(a) && Distinct(b) && Elems(a) !! Elems(b)
    ensures Distinct(a + b)
  {
    forall i, j | 0 <= i < j < |a + b| ensures (a + b)[i] != (a + b)[j] {
      if j >= |a| && i < |a| {
        assert (a + b)[i] in Elems(a) && (a + b)[j] in Elems(b);
      }
    }
  }

  // ---------------------------------------------------------------------------
  // init

  /**
   * A failed run: the last event is the module whose own init action failed, the
   * error names it and carries its cause, it is not inited, and exactly the modules
   * that reached the "initialising" step before it were added. The text of that error
   * is Message(r.err.value).
   */
  ghost predicate FailedRun(t: Table, s: set<Name>, r: InitRun)
  {
    && r.err.Some?
    && |r.events| > 0
    && var last := r.events[|r.events| - 1];
    && r.err.value.failed == last
    && InitAction(t, last) == Some(Fails(r.err.value.cause))
    && last !in r.inited
    && r.inited == s + Elems(r.events[..|r.events| - 1])
  }

  /**
   * What every init run from s satisfies: nothing inited is forgotten, the visited
   * modules lie in scope, were not inited before and are visited once each; on success
   * exactly the visited modules are added, on failure the run is a FailedRun.
   */
  ghost predicate InitRunFacts(t: Table, s: set<Name>, scope: set<Name>, r: InitRun)
  {
    && s <= r.inited
    && Elems(r.events) <= scope
    && Distinct(r.events)
    && Elems(r.events) !! s
    && (r.err.None? ==> r.inited == s + Elems(r.events))
    && (r.err.Some? ==> FailedRun(t, s, r))
  }

  /** A successful run followed by a run from where it left off is a run from the start. */
  lemma InitRunsCombine(t: Table, s: set<Name>, a: set<Name>, b: set<Name>, r1: InitRun, r2: InitRun)
    requires InitRunFacts(t, s, a, r1) && r1.err.None? && InitRunFacts(t, r1.inited, b, r2)
    ensures InitRunFacts(t, s, a + b, InitRun(r2.inited, r1.events + r2.events, r2.err))
  {
    var r := InitRun(r2.inited, r1.events + r2.events, r2.err);
    ElemsConcat(r1.events, r2.events);
    DistinctConcat(r1.events, r2.events);
    if r2.err.Some? {
      var n2 := |r2.events|;
      assert r.events[..|r.events| - 1] == r1.events + r2.events[..n2 - 1];
      ElemsConcat(r1.events, r2.events[..n2 - 1]);
    }
  }

  /**
   * What one init(m) does: an init run within the closure of m, which leaves m inited
   * exactly when it succeeds.
   */
  lemma {:induction false} InitFromFacts(t: Table, s: set<Name>, m: Name)
    requires Acyclic(t)
    ensures var r := InitFrom(t, s, m);
      && InitRunFacts(t, s, Closure(t, m), r)
      && (r.err.None? <==> m in r.inited)
    decreases t.rank(m), 1, 0
  {
    if m in s {
      assert Elems([]) == {};
    } else {
      InitDepsFacts(t, s, m, 0);
      var r0 := InitDeps(t, s, m, 0, []);
      if m in Elems(r0.events) {
        DepsClosureRank(t, m, 0, m);
      }
      var r := InitFrom(t, s, m);
      if r0.err.Some? {
        assert r == r0;
        var n := |r0.events|;
        assert Elems(r0.events[..n - 1]) <= Elems(r0.events);
      } else {
        var own := InitRun(r.inited, [m], r.err);
        assert r == InitRun(own.inited, r0.events + own.events, own.err);
        assert Elems([m]) == {m} && [m][..0] == [] && Elems([]) == {};
        assert InitRunFacts(t, r0.inited, {m}, own);
        InitRunsCombine(t, s, DepsClosure(t, m, 0), {m}, r0, own);
      }
    }
  }

  /** The same for the dependency loop; on success every dependency from position i on is inited. */
  lemma {:induction false} InitDepsFacts(t: Table, s: set<Name>, m: Name, i: nat)
    requires Acyclic(t) && i <= |Deps(t, m)|
    ensures var r := InitDeps(t, s, m, i, []);
      && InitRunFacts(t, s, DepsClosure(t, m, i), r)
      && (r.err.None? ==> forall k :: i <= k < |Deps(t, m)| ==> Deps(t, m)[k] in r.inited)
    decreases t.rank(m), 0, |Deps(t, m)| - i
  {
    if i == |Deps(t, m)| {
      assert Elems([]) == {};
    } else {
      InitDepsStep(t, s, m, i);
      var d := Deps(t, m)[i];
      InitFromFacts(t, s, d);
      var r1 := InitFrom(t, s, d);
      if r1.err.None? {
        InitDepsFacts(t, r1.inited, m, i + 1);
        var r2 := InitDeps(t, r1.inited, m, i + 1, []);
        InitRunsCombine(t, s, Closure(t, d), DepsClosure(t, m, i + 1), r1, r2);
      }
    }
  }

  /** Every module that reaches the "initialising" step finds each of its dependencies already inited, either before the call or earlier in it. */
  ghost predicate InitsAfterDeps(t: Table, s: set<Name>, events: seq<Name>)
  {
    forall j, k :: 0 <= j < |events| && 0 <= k < |Deps(t, events[j])| ==>
      Deps(t, events[j])[k] in s || Deps(t, events[j])[k] in events[..j]
  }

  lemma {:induction false} InitFromOrdered(t: Table, s: set<Name>, m: Name)
    requires Acyclic(t)
    ensures InitsAfterDeps(t, s, InitFrom(t, s, m).events)
    decreases t.rank(m), 1, 0
  {
    if m !in s {
      InitDepsOrdered(t, s, m, 0);
      InitDepsFacts(t, s, m, 0);
      var r0 := InitDeps(t, s, m, 0, []);
      if r0.err.None? {
        var ev := r0.events + [m];
        assert InitFrom(t, s, m).events == ev;
        forall j, k | 0 <= j < |ev| && 0 <= k < |Deps(t, ev[j])|
          ensures Deps(t, ev[j])[k] in s || Deps(t, ev[j])[k] in ev[..j]
        {
          if j < |r0.events| {
            assert ev[..j] == r0.events[..j];
          } else {
            assert ev[..j] == r0.events;
          }
        }
      }
    }
  }

  lemma {:induction false} InitDepsOrdered(t: Table, s: set<Name>, m: Name, i: nat)
    requires Acyclic(t) && i <= |Deps(t, m)|
    ensures InitsAfterDeps(t, s, InitDeps(t, s, m, i, []).events)
    decreases t.rank(m), 0, |Deps(t, m)| - i
  {
    if i < |Deps(t, m)| {
      InitDepsStep(t, s, m, i);
      var d := Deps(t, m)[i];
      InitFromOrdered(t, s, d);
      InitFromFacts(t, s, d);
      var r1 := InitFrom(t, s, d);
      if r1.err.None? {
        InitDepsOrdered(t, r1.inited, m, i + 1);
        var e1, e2 := r1.events, InitDeps(t, r1.inited, m, i + 1, []).events;
        var ev := e1 + e2;
        forall j, k | 0 <= j < |ev| && 0 <= k < |Deps(t, ev[j])|
          ensures Deps(t, ev[j])[k] in s || Deps(t, ev[j])[k] in ev[..j]
        {
          if j < |e1| {
            assert ev[..j] == e1[..j];
          } else {
            var j2 := j - |e1|;
            assert ev[j] == e2[j2];
            assert ev[..j] == e1 + e2[..j2];
            var dk := Deps(t, e2[j2])[k];
            assert dk in r1.inited || dk in e2[..j2];
            if dk in r1.inited && dk !in s {
              assert dk in Elems(e1);
            }
          }
        }
      }
    }
  }

  /** init keeps the inited set closed under dependencies, whether it succeeds or fails. */
  lemma InitPreservesClosed(t: Table, s: set<Name>, m: Name)
    requires Acyclic(t) && Closed(t, s)
    ensures Closed(t, InitFrom(t, s, m).inited)
  {
    InitFromFacts(t, s, m);
    InitFromOrdered(t, s, m);
    var r := InitFrom(t, s, m);
    var n := |r.events|;
    var done := if r.err.None? then n else n - 1;
    assert r.inited == s + Elems(r.events[..done]);
    forall x, k | x in r.inited && 0 <= k < |Deps(t, x)| ensures Deps(t, x)[k] in r.inited {
      if x !in s {
        var j :| 0 <= j < done && r.events[j] == x;
        assert r.events[..j] <= r.events[..done];
      }
    }
  }

  /** A successful init(m) from a closed set leaves the whole closure of m inited. */
  lemma InitCoversClosure(t: Table, s: set<Name>, m: Name)
    requires Acyclic(t) && Closed(t, s) && InitFrom(t, s, m).err.None?
    ensures Closure(t, m) <= InitFrom(t, s, m).inited
  {
    InitFromFacts(t, s, m);
    InitPreservesClosed(t, s, m);
    ClosedContainsClosure(t, InitFrom(t, s, m).inited, m);
  }

  /** A second init(m) after a successful one changes nothing and invokes no action. */
  lemma InitIdempotent(t: Table, s: set<Name>, m: Name)
    requires Acyclic(t) && InitFrom(t, s, m).err.None?
    ensures var s' := InitFrom(t, s, m).inited; InitFrom(t, s', m) == InitRun(s', [], None)
  {
    InitFromFacts(t, s, m);
  }

  /**
   * Over two init calls in a row, the first succeeding, no module reaches the
   * "initialising" step twice: init actions run at most once over the object's life.
   */
  lemma InitTwiceRunsEachOnce(t: Table, s: set<Name>, m1: Name, m2: Name)
    requires Acyclic(t) && InitFrom(t, s, m1).err.None?
    ensures var r1 := InitFrom(t, s, m1);
      Distinct(r1.events + InitFrom(t, r1.inited, m2).events)
  {
    var r1 := InitFrom(t, s, m1);
    InitFromFacts(t, s, m1);
    InitFromFacts(t, r1.inited, m2);
    DistinctConcat(r1.events, InitFrom(t, r1.inited, m2).events);
  }

  // ---------------------------------------------------------------------------
  // stop

  /** The modules of a removed set that have a stop action. */
  ghost function Stoppable(t: Table, removed: set<Name>): set<Name>
  {
    set x | x in removed && StopAction(t, x).Some?
  }

  /**
   * What one stop(m) does: it only removes modules of the closure of m, m among them
   * when it was inited, and it runs the stop action of exactly the removed modules
   * that have one, each once.
   */
  lemma {:induction false} StopFromFacts(t: Table, c: set<Name>, m: Name)
    requires Acyclic(t)
    ensures var r := StopFrom(t, c, m);
      && r.inited <= c
      && m !in r.inited
      && c - r.inited <= Closure(t, m)
      && Distinct(r.events)
      && Elems(r.events) == Stoppable(t, c - r.inited)
    decreases t.rank(m), 1, 0
  {
    var r := StopFrom(t, c, m);
    if m !in c {
      assert Stoppable(t, c - r.inited) == {};
    } else {
      var c0 := c - {m};
      StopDepsFacts(t, c0, m, 0);
      var r0 := StopDeps(t, c0, m, 0, []);
      assert c - r0.inited == {m} + (c0 - r0.inited);
      if StopAction(t, m).Some? {
        ElemsConcat(r0.events, [m]);
        assert Elems([m]) == {m};
        DistinctConcat(r0.events, [m]);
      }
    }
  }

  lemma {:induction false} StopDepsFacts(t: Table, c: set<Name>, m: Name, i: nat)
    requires Acyclic(t) && i <= |Deps(t, m)|
    ensures var r := StopDeps(t, c, m, i, []);
      && r.inited <= c
      && c - r.inited <= DepsClosure(t, m, i)
      && Distinct(r.events)
      && Elems(r.events) == Stoppable(t, c - r.inited)
      && forall k :: i <= k < |Deps(t, m)| ==> Deps(t, m)[k] !in r.inited
    decreases t.rank(m), 0, |Deps(t, m)| - i
  {
    var r := StopDeps(t, c, m, i, []);
    if i == |Deps(t, m)| {
      assert Stoppable(t, c - r.inited) == {};
    } else {
      StopDepsStep(t, c, m, i);
      var d := Deps(t, m)[i];
      StopFromFacts(t, c, d);
      var r1 := StopFrom(t, c, d);
      StopDepsFacts(t, r1.inited, m, i + 1);
      var r2 := StopDeps(t, r1.inited, m, i + 1, []);
      ElemsConcat(r1.events, r2.events);
      DistinctConcat(r1.events, r2.events);
      assert Stoppable(t, c - r2.inited) == Stoppable(t, c - r1.inited) + Stoppable(t, r1.inited - r2.inited);
    }
  }

  /**
   * Each stop action runs only after the stop calls on the module's dependencies have
   * returned: every dependency that was inited and has a stop action was stopped earlier.
   */
  ghost predicate StopsAfterDeps(t: Table, c: set<Name>, events: seq<Name>)
  {
    forall j, k ::
      (0 <= j < |events| && 0 <= k < |Deps(t, events[j])|
       && Deps(t, events[j])[k] in c && StopAction(t, Deps(t, events[j])[k]).Some?) ==>
      Deps(t, events[j])[k] in events[..j]
  }

  lemma {:induction false} StopFromOrdered(t: Table, c: set<Name>, m: Name)
    requires Acyclic(t)
    ensures StopsAfterDeps(t, c, StopFrom(t, c, m).events)
    decreases t.rank(m), 1, 0
  {
    if m in c {
      var c0 := c - {m};
      StopDepsOrdered(t, c0, m, 0);
      StopDepsFacts(t, c0, m, 0);
      var r0 := StopDeps(t, c0, m, 0, []);
      var ev := StopFrom(t, c, m).events;
      forall j, k | 0 <= j < |ev| && 0 <= k < |Deps(t, ev[j])|
        && Deps(t, ev[j])[k] in c && StopAction(t, Deps(t, ev[j])[k]).Some?
        ensures Deps(t, ev[j])[k] in ev[..j]
      {
        var dk := Deps(t, ev[j])[k];
        if j < |r0.events| {
          assert ev[..j] == r0.events[..j];
          assert r0.events[j] in Elems(r0.events);
          DepsClosureRank(t, m, 0, ev[j]);
        } else {
          assert ev[j] == m && ev[..j] == r0.events;
          assert dk in Elems(r0.events);
        }
      }
    }
  }

  lemma {:induction false} StopDepsOrdered(t: Table, c: set<Name>, m: Name, i: nat)
    requires Acyclic(t) && i <= |Deps(t, m)|
    ensures StopsAfterDeps(t, c, StopDeps(t, c, m, i, []).events)
    decreases t.rank(m), 0, |Deps(t, m)| - i
  {
    if i < |Deps(t, m)| {
      StopDepsStep(t, c, m, i);
      var d := Deps(t, m)[i];
      StopFromOrdered(t, c, d);
      StopFromFacts(t, c, d);
      var r1 := StopFrom(t, c, d);
      StopDepsOrdered(t, r1.inited, m, i + 1);
      var e1, e2 := r1.events, StopDeps(t, r1.inited, m, i + 1, []).events;
      var ev := e1 + e2;
      forall j, k | 0 <= j < |ev| && 0 <= k < |Deps(t, ev[j])|
        && Deps(t, ev[j])[k] in c && StopAction(t, Deps(t, ev[j])[k]).Some?
        ensures Deps(t, ev[j])[k] in ev[..j]
      {
        if j < |e1| {
          assert ev[..j] == e1[..j];
        } else {
          var j2 := j - |e1|;
          assert ev[j] == e2[j2];
          assert ev[..j] == e1 + e2[..j2];
          var dk := Deps(t, e2[j2])[k];
          if dk in r1.inited {
            assert dk in e2[..j2];
          } else {
            assert dk in Stoppable(t, c - r1.inited);
            assert dk in Elems(e1);
          }
        }
      }
    }
  }

  /** Nothing of the closure of x is left in c. */
  ghost predicate Gone(t: Table, c: set<Name>, x: Name)
    requires Acyclic(t)
  {
    Closure(t, x) !! c
  }

  /**
   * Within the closure of m, every dependency of an inited module is either inited
   * too or already torn down with its whole closure. A set closed under dependencies
   * satisfies this for every m.
   */
  ghost predicate TidyFor(t: Table, c: set<Name>, m: Name)
    requires Acyclic(t)
  {
    forall x, k :: x in c && x in Closure(t, m) && 0 <= k < |Deps(t, x)| ==>
      Deps(t, x)[k] in c || Gone(t, c, Deps(t, x)[k])
  }

  lemma TidyShrinks(t: Table, c: set<Name>, c1: set<Name>, d: Name, e: Name)
    requires Acyclic(t) && c1 <= c && c - c1 <= Closure(t, d) && Gone(t, c1, d)
    requires e in c || Gone(t, c, e)
    requires TidyFor(t, c, e)
    ensures e in c1 || Gone(t, c1, e)
    ensures TidyFor(t, c1, e)
  {
    if e in c && e !in c1 {
      ClosureTransitive(t, d, e);
    }
    forall x, k | x in c1 && x in Closure(t, e) && 0 <= k < |Deps(t, x)|
      ensures Deps(t, x)[k] in c1 || Gone(t, c1, Deps(t, x)[k])
    {
      var dk := Deps(t, x)[k];
      if dk in c && dk !in c1 {
        ClosureTransitive(t, d, dk);
      }
    }
  }

  /** Every dependency of m from position i on is inited or gone, and tidy. */
  ghost predicate DepsTidy(t: Table, c: set<Name>, m: Name, i: nat)
    requires Acyclic(t)
  {
    forall k :: i <= k < |Deps(t, m)| ==>
      (Deps(t, m)[k] in c || Gone(t, c, Deps(t, m)[k])) && TidyFor(t, c, Deps(t, m)[k])
  }

  /** Removing a tidy inited m leaves its dependencies tidy. */
  lemma StopTidyDeps(t: Table, c: set<Name>, m: Name)
    requires Acyclic(t) && m in c && TidyFor(t, c, m)
    ensures DepsTidy(t, c - {m}, m, 0)
  {
    var c0 := c - {m};
    var deps := Deps(t, m);
    forall k | 0 <= k < |deps|
      ensures deps[k] in c0 || Gone(t, c0, deps[k])
      ensures TidyFor(t, c0, deps[k])
    {
      var d := deps[k];
      DepClosureIncluded(t, m, 0, k);
      forall x, k' | x in c0 && x in Closure(t, d) && 0 <= k' < |Deps(t, x)|
        ensures Deps(t, x)[k'] in c0 || Gone(t, c0, Deps(t, x)[k'])
      {
        ClosureRank(t, d, x);
      }
    }
  }

  /** Tearing down the dependency at position i keeps the later dependencies tidy. */
  lemma DepsTidyNext(t: Table, c: set<Name>, c1: set<Name>, m: Name, i: nat)
    requires Acyclic(t) && i < |Deps(t, m)| && DepsTidy(t, c, m, i)
    requires c1 <= c && c - c1 <= Closure(t, Deps(t, m)[i]) && Gone(t, c1, Deps(t, m)[i])
    ensures DepsTidy(t, c1, m, i + 1)
  {
    forall k | i + 1 <= k < |Deps(t, m)|
      ensures Deps(t, m)[k] in c1 || Gone(t, c1, Deps(t, m)[k])
      ensures TidyFor(t, c1, Deps(t, m)[k])
    {
      TidyShrinks(t, c, c1, Deps(t, m)[i], Deps(t, m)[k]);
    }
  }

  /** stop(m) tears down the whole closure of m, given that it is tidy. */
  lemma {:induction false} StopTearsDown(t: Table, c: set<Name>, m: Name)
    requires Acyclic(t) && (m in c || Gone(t, c, m)) && TidyFor(t, c, m)
    ensures Gone(t, StopFrom(t, c, m).inited, m)
    decreases t.rank(m), 1, 0
  {
    if m in c {
      StopTidyDeps(t, c, m);
      StopDepsTearDown(t, c - {m}, m, 0);
      StopDepsFacts(t, c - {m}, m, 0);
    }
  }

  lemma {:induction false} StopDepsTearDown(t: Table, c: set<Name>, m: Name, i: nat)
    requires Acyclic(t) && i <= |Deps(t, m)| && DepsTidy(t, c, m, i)
    ensures DepsClosure(t, m, i) !! StopDeps(t, c, m, i, []).inited
    decreases t.rank(m), 0, |Deps(t, m)| - i
  {
    if i < |Deps(t, m)| {
      StopDepsStep(t, c, m, i);
      var d := Deps(t, m)[i];
      StopTearsDown(t, c, d);
      StopFromFacts(t, c, d);
      var c1 := StopFrom(t, c, d).inited;
      DepsTidyNext(t, c, c1, m, i);
      StopDepsTearDown(t, c1, m, i + 1);
      StopDepsFacts(t, c1, m, i + 1);
    }
  }

  /**
   * No stop action runs after the stop action of a module whose closure contains it:
   * once x is stopped, nothing x transitively depends on is stopped later, whether or
   * not the modules in between have stop actions.
   */
  ghost predicate StopsAfterClosure(t: Table, events: seq<Name>)
    requires Acyclic(t)
  {
    forall i, j :: 0 <= i < j < |events| ==> events[j] !in Closure(t, events[i])
  }

  /** Given a tidy set, stop(m) runs every stop action after those of the closure below it. */
  lemma {:induction false} StopFromClosureOrdered(t: Table, c: set<Name>, m: Name)
    requires Acyclic(t) && (m in c || Gone(t, c, m)) && TidyFor(t, c, m)
    ensures StopsAfterClosure(t, StopFrom(t, c, m).events)
    decreases t.rank(m), 1, 0
  {
    if m in c {
      var c0 := c - {m};
      StopTidyDeps(t, c, m);
      StopDepsClosureOrdered(t, c0, m, 0);
      StopDepsFacts(t, c0, m, 0);
      var r0 := StopDeps(t, c0, m, 0, []);
      if StopAction(t, m).Some? {
        var ev := r0.events + [m];
        forall a, b | 0 <= a < b < |ev| ensures ev[b] !in Closure(t, ev[a]) {
          if b < |r0.events| {
            assert ev[a] == r0.events[a] && ev[b] == r0.events[b];
          } else {
            var x := r0.events[a];
            assert ev[a] == x && ev[b] == m;
            assert x in Elems(r0.events);
            DepsClosureRank(t, m, 0, x);
            if m in Closure(t, x) {
              ClosureRank(t, x, m);
            }
          }
        }
      }
    }
  }

  lemma {:induction false} StopDepsClosureOrdered(t: Table, c: set<Name>, m: Name, i: nat)
    requires Acyclic(t) && i <= |Deps(t, m)| && DepsTidy(t, c, m, i)
    ensures StopsAfterClosure(t, StopDeps(t, c, m, i, []).events)
    decreases t.rank(m), 0, |Deps(t, m)| - i
  {
    if i < |Deps(t, m)| {
      StopDepsStep(t, c, m, i);
      var d := Deps(t, m)[i];
      StopFromClosureOrdered(t, c, d);
      StopTearsDown(t, c, d);
      StopFromFacts(t, c, d);
      var r1 := StopFrom(t, c, d);
      DepsTidyNext(t, c, r1.inited, m, i);
      StopDepsClosureOrdered(t, r1.inited, m, i + 1);
      StopDepsFacts(t, r1.inited, m, i + 1);
      var e1, e2 := r1.events, StopDeps(t, r1.inited, m, i + 1, []).events;
      var ev := e1 + e2;
      forall a, b | 0 <= a < b < |ev| ensures ev[b] !in Closure(t, ev[a]) {
        if b < |e1| {
          assert ev[a] == e1[a] && ev[b] == e1[b];
        } else if a >= |e1| {
          assert ev[a] == e2[a - |e1|] && ev[b] == e2[b - |e1|];
        } else {
          var x, y := e1[a], e2[b - |e1|];
          assert ev[a] == x && ev[b] == y;
          assert x in Elems(e1) && y in Elems(e2);
          ClosureTransitive(t, d, x);
        }
      }
    }
  }

  /**
   * The lifecycle round trip: from an empty inited set, a successful init(m) followed by
   * stop(m) leaves nothing inited and runs the stop action of every inited module that
   * has one, exactly once, each after those of the modules it transitively depends on.
   */
  lemma InitThenStopLeavesNothing(t: Table, m: Name)
    requires Acyclic(t) && InitFrom(t, {}, m).err.None?
    ensures var c := InitFrom(t, {}, m).inited;
      var r := StopFrom(t, c, m);
      && r.inited == {}
      && Distinct(r.events)
      && Elems(r.events) == Stoppable(t, c)
      && StopsAfterClosure(t, r.events)
  {
    var c := InitFrom(t, {}, m).inited;
    InitFromFacts(t, {}, m);
    InitPreservesClosed(t, {}, m);
    StopTearsDown(t, c, m);
    StopFromClosureOrdered(t, c, m);
    StopFromFacts(t, c, m);
  }

  /** Two tables that agree on dependencies and on which modules have a stop action. */
  ghost predicate SameStopShape(t: Table, u: Table)
  {
    forall n :: Deps(t, n) == Deps(u, n) && StopAction(t, n).Some? == StopAction(u, n).Some?
  }

  /**
   * Stop errors are swallowed: whether each stop action succeeds or fails changes neither
   * the inited set nor which stop actions run afterwards.
   */
  lemma {:induction false} StopIgnoresOutcomes(t: Table, u: Table, c: set<Name>, m: Name)
    requires Acyclic(t) && Acyclic(u) && SameStopShape(t, u)
    ensures StopFrom(t, c, m) == StopFrom(u, c, m)
    decreases t.rank(m), 1, 0
  {
    if m in c {
      StopDepsIgnoresOutcomes(t, u, c - {m}, m, 0, []);
    }
  }

  lemma {:induction false} StopDepsIgnoresOutcomes(t: Table, u: Table, c: set<Name>, m: Name, i: nat, done: seq<Name>)
    requires Acyclic(t) && Acyclic(u) && SameStopShape(t, u) && i <= |Deps(t, m)|
    ensures i <= |Deps(u, m)| && StopDeps(t, c, m, i, done) == StopDeps(u, c, m, i, done)
    decreases t.rank(m), 0, |Deps(t, m)| - i
  {
    assert Deps(t, m) == Deps(u, m);
    if i < |Deps(t, m)| {
      var d := Deps(t, m)[i];
      StopIgnoresOutcomes(t, u, c, d);
      StopDepsIgnoresOutcomes(t, u, StopFrom(t, c, d).inited, m, i + 1, done + StopFrom(t, c, d).events);
    }
  }
}
