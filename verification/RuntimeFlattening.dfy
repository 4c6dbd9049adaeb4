/**
 When flattening keeps what every package resolves (scripts/package-desktop.ts),
 exactly, and the two ways in which a run that returns may not.
 */
module RuntimeFlattening {
  import opened Prelude
  import opened RuntimeStaging
  import opened RuntimeStagingProperties

  // ---------------------------------------------------------------- what cannot be repaired

  /** A staged package without a dependency it requires, and none can come. */
  predicate StagedWithout(w: World, s: State, n: Name, d: Name) {
    && n in s.tree && s.tree[n] in w.manifests
    && Required(w.manifests[s.tree[n]], d) && Refused(w, s, s.tree[n], d)
  }

  /** A recorded package was never copied, or a staged one lacks what it requires. */
  ghost predicate Broken(w: World, s: State) {
    || (exists n :: n in s.versions && n !in s.tree)
    || (exists n, d :: StagedWithout(w, s, n, d))
  }

  lemma BrokenStays(w: World, s: State, t: State)
    requires Extends(s, t) && Broken(w, s)
    ensures Broken(w, t)
  {
    if n :| n in s.versions && n !in s.tree {
      assert n in t.versions && n !in t.tree;
    } else {
      var n, d :| StagedWithout(w, s, n, d);
      assert StagedWithout(w, t, n, d);
    }
  }

  /** A stretch of the walk in which a failure was caught after a recording leaves something broken. */
  ghost predicate BreaksIfLate(w: World, s: State, o: Outcome) {
    o.state.late && !s.late ==> Broken(w, o.state)
  }

  /** A call fails because its package is refused, or leaves something broken; if it recorded anything, the latter. */
  lemma {:induction false} StageBreaks(w: World, at: Location, name: Name, s: State)
    requires Valid(s)
    ensures var o := Stage(w, at, name, s);
      && BreaksIfLate(w, s, o)
      && (o.failure.Some? ==> !IsSdkBundledExecutablePackage(name))
      && (o.failure.Some? ==> Broken(w, o.state) || (o.state == s && Refused(w, s, at, name)))
    decreases Budget(w, s), 1
  {
    var resolved := Resolve(w, at, name);
    if !IsSdkBundledExecutablePackage(name) && resolved.Some? && w.manifests[resolved.value].name !in s.versions {
      NewBreaks(w, resolved.value, s);
    }
  }

  lemma {:induction false} NewBreaks(w: World, l: Location, s: State)
    requires Valid(s) && l in w.manifests && w.manifests[l].name !in s.versions
    ensures BreaksIfLate(w, s, StageNew(w, l, s))
    ensures StageNew(w, l, s).failure.Some? ==> Broken(w, StageNew(w, l, s).state)
    decreases Budget(w, s), 0
  {
    var m := w.manifests[l];
    if w.copyable(l) {
      var copied := Copied(s, m, l);
      BudgetShrinks(w, s, copied, l);
      DependenciesBreak(w, l, DependencyNames(m), copied);
      var o := StageDependencies(w, l, DependencyNames(m), copied);
      FinishingStaysBroken(w, o.state, m.name);
    } else {
      var t := Recorded(s, m);
      assert m.name in t.versions && m.name !in t.tree;
    }
  }

  lemma FinishingStaysBroken(w: World, s: State, n: Name)
    ensures Broken(w, s) ==> Broken(w, Finished(s, n))
  {
    if Broken(w, s) {
      if m :| m in s.versions && m !in s.tree {
        assert m in Finished(s, n).versions && m !in Finished(s, n).tree;
      } else {
        var m, d :| StagedWithout(w, s, m, d);
        assert StagedWithout(w, Finished(s, n), m, d);
      }
    }
  }

  lemma {:induction false} CatchingBreaks(w: World, l: Location, name: Name, s: State)
    requires l in w.manifests && Valid(s)
    ensures var o := StageCatching(w, l, name, s);
      && BreaksIfLate(w, s, o)
      && (o.failure.Some? ==> !Catches(w.manifests[l], name) && !IsSdkBundledExecutablePackage(name))
      && (o.failure.Some? ==> Broken(w, o.state) || Refused(w, o.state, l, name))
    decreases Budget(w, s), 2
  {
    StageBreaks(w, l, name, s);
    var first := Stage(w, l, name, s);
    if first.failure.Some? && Broken(w, first.state) {
      assert Extends(first.state, Caught(s, first.state));
      BrokenStays(w, first.state, Caught(s, first.state));
    }
  }

  lemma {:induction false} DependenciesBreak(w: World, l: Location, names: seq<Name>, s: State)
    requires l in w.manifests && Valid(s)
    requires w.manifests[l].name in s.tree && s.tree[w.manifests[l].name] == l
    requires forall d | d in names :: d in w.manifests[l].dependencies || d in w.manifests[l].optional
    ensures BreaksIfLate(w, s, StageDependencies(w, l, names, s))
    ensures StageDependencies(w, l, names, s).failure.Some? ==> Broken(w, StageDependencies(w, l, names, s).state)
    decreases Budget(w, s), 3, |names|
  {
    if names != [] {
      var first := StageCatching(w, l, names[0], s);
      CatchingBreaks(w, l, names[0], s);
      BudgetShrinks(w, s, first.state, l);
      if first.failure.Some? {
        if Refused(w, first.state, l, names[0]) {
          assert StagedWithout(w, first.state, w.manifests[l].name, names[0]);
        }
      } else {
        DependenciesBreak(w, l, names[1..], first.state);
        var o := StageDependencies(w, l, names[1..], first.state);
        if Broken(w, first.state) { BrokenStays(w, first.state, o.state); }
      }
    }
  }

  lemma {:induction false} AllBreak(w: World, requests: seq<(Location, Name)>, s: State)
    requires Valid(s)
    ensures BreaksIfLate(w, s, StageAll(w, requests, s))
    decreases |requests|
  {
    if requests != [] {
      var first := Stage(w, requests[0].0, requests[0].1, s);
      StageBreaks(w, requests[0].0, requests[0].1, s);
      if first.failure.None? {
        AllBreak(w, requests[1..], first.state);
        var o := StageAll(w, requests[1..], first.state);
        if Broken(w, first.state) { BrokenStays(w, first.state, o.state); }
      }
    }
  }

  // ---------------------------------------------------------------- what flattening keeps, exactly

  /** Every staged package is served each of its required dependencies, at the version it resolves itself. */
  ghost predicate ServesRequired(w: World, s: State) {
    forall n, d | n in s.tree && s.tree[n] in w.manifests && Required(w.manifests[s.tree[n]], d) ::
      Serves(w, s, s.tree[n], d)
  }

  /** The same for every ordinary dependency, whatever its name. */
  ghost predicate ServesOrdinary(w: World, s: State) {
    forall n, d | n in s.tree && s.tree[n] in w.manifests && Ordinary(w.manifests[s.tree[n]], d) ::
      Serves(w, s, s.tree[n], d)
  }

  /** Whether a package was staged without an ordinary dependency because that is named like a member of every object. */
  predicate PassedOver(w: World, s: State, n: Name, d: Name) {
    && n in s.tree && s.tree[n] in w.manifests && Ordinary(w.manifests[s.tree[n]], d)
    && d in OBJECT_MEMBERS && Refused(w, s, s.tree[n], d)
  }

  /** No package declares a dependency that is named like a member of every object. */
  ghost predicate PlainDependencies(w: World) {
    forall l, d | l in w.manifests && Declares(w.manifests[l], d) :: d !in OBJECT_MEMBERS
  }

  /**
   For every world and every run that returns, cycles included: no failure was caught
   after a recording exactly when every recorded package is staged and served each
   dependency whose failure is not caught. Then an ordinary dependency goes unserved
   exactly where the catch took it for an optional one. Every requester is served.
   */
  lemma FlatteningPreservesResolution(w: World, requests: seq<(Location, Name)>)
    requires StageAll(w, requests, EMPTY).failure.None?
    ensures var s := StageAll(w, requests, EMPTY).state;
      && Matches(w, s)
      && (!s.late <==> s.tree.Keys == s.versions.Keys && ServesRequired(w, s))
      && (!s.late ==> (ServesOrdinary(w, s) <==> forall n, d :: !PassedOver(w, s, n, d)))
      && (forall r | r in requests && !IsSdkBundledExecutablePackage(r.1) :: Serves(w, s, r.0, r.1))
  {
    var s := StageAll(w, requests, EMPTY).state;
    AllClose(w, requests, EMPTY);
    FinishedUnlessLate(w, requests);
    AllBreak(w, requests, EMPTY);
    if !s.late {
      WholeServes(w, s);
    } else if n, d :| StagedWithout(w, s, n, d) {
      assert !Serves(w, s, s.tree[n], d);
    }
  }

  /** When every recorded package has finished, only what a catch passed over is not served. */
  lemma WholeServes(w: World, s: State)
    requires Closed(w, s) && s.finished == s.versions.Keys
    ensures s.tree.Keys == s.versions.Keys && ServesRequired(w, s)
    ensures ServesOrdinary(w, s) <==> forall n, d :: !PassedOver(w, s, n, d)
  {
    forall n, d | n in s.tree && Declares(w.manifests[s.tree[n]], d)
      ensures Settled(w, s, s.tree[n], d)
    {
      assert n in s.finished;
    }
    forall n, d | n in s.tree && Ordinary(w.manifests[s.tree[n]], d)
      ensures Serves(w, s, s.tree[n], d) <==> !PassedOver(w, s, n, d)
    {
    }
  }

  /**
   With no dependency named like a member of every object, which a look at the
   manifests tells, the run keeps what every staged package resolves of its ordinary
   dependencies exactly when no failure was caught after a recording.
   */
  lemma PlainDependenciesAreServed(w: World, requests: seq<(Location, Name)>)
    requires PlainDependencies(w) && StageAll(w, requests, EMPTY).failure.None?
    ensures var s := StageAll(w, requests, EMPTY).state;
      !s.late <==> s.tree.Keys == s.versions.Keys && ServesOrdinary(w, s)
  {
    FlatteningPreservesResolution(w, requests);
    var s := StageAll(w, requests, EMPTY).state;
    forall n, d
      ensures !PassedOver(w, s, n, d)
    {
    }
    if ServesOrdinary(w, s) {
      assert ServesRequired(w, s);
    }
  }

  // ---------------------------------------------------------------- the lookup in the flat folder

  /** What `l` gets when Node looks `d` up in the flat node_modules. */
  predicate FlatLookup(w: World, s: State, l: Location, d: Name) {
    match Resolve(w, l, d)
    case Some(q) =>
      && d in s.tree && s.tree[d] in w.manifests
      && w.manifests[s.tree[d]].name == d && w.manifests[s.tree[d]].version == w.manifests[q].version
    case None => false
  }

  /** A dependency is declared under the name its manifest carries. */
  ghost predicate NoAliases(w: World) {
    forall at, d | Resolve(w, at, d).Some? :: w.manifests[Resolve(w, at, d).value].name == d
  }

  lemma LookupIsService(w: World, s: State, l: Location, d: Name)
    requires NoAliases(w) && Matches(w, s) && s.tree.Keys == s.versions.Keys
    ensures FlatLookup(w, s, l, d) == Serves(w, s, l, d)
  {
  }

  ghost predicate LooksUpRequired(w: World, s: State) {
    forall n, d | n in s.tree && s.tree[n] in w.manifests && Required(w.manifests[s.tree[n]], d) ::
      FlatLookup(w, s, s.tree[n], d)
  }

  /** The same in terms of what Node finds in the flat folder, for packages that go by their own names. */
  lemma FlatLookupPreserves(w: World, requests: seq<(Location, Name)>)
    requires NoAliases(w) && StageAll(w, requests, EMPTY).failure.None?
    ensures var s := StageAll(w, requests, EMPTY).state;
      && (!s.late <==> s.tree.Keys == s.versions.Keys && LooksUpRequired(w, s))
      && (!s.late ==> forall r | r in requests && !IsSdkBundledExecutablePackage(r.1) :: FlatLookup(w, s, r.0, r.1))
  {
    FlatteningPreservesResolution(w, requests);
    var s := StageAll(w, requests, EMPTY).state;
    if s.tree.Keys == s.versions.Keys {
      forall l, d
        ensures FlatLookup(w, s, l, d) == Serves(w, s, l, d)
      {
        LookupIsService(w, s, l, d);
      }
    }
  }

  // ---------------------------------------------------------------- the failure the catch cannot undo

  function Chain(at: Location, d: Name): Option<Location> {
    if at == "root" && d == "a" then Some("a")
    else if at == "a" && d == "b" then Some("b")
    else None
  }

  /** `a` optionally depends on `b`, and `b` requires `c`, which is not installed. */
  const BROKEN_OPTIONAL := World(
    map["a" := Manifest("a", "1", [], ["b"]), "b" := Manifest("b", "1", ["c"], [])], Chain, l => true)

  /** The run returns, `b` stays in the flat tree, and nothing there serves what it requires. */
  lemma CaughtFailureLeavesABrokenPackage()
    ensures var o := StageAll(BROKEN_OPTIONAL, [("root", "a")], EMPTY);
      && o.failure.None? && o.state.late
      && "b" in o.state.tree && Required(BROKEN_OPTIONAL.manifests["b"], "c")
      && !FlatLookup(BROKEN_OPTIONAL, o.state, "b", "c")
  {
    hide StageAll, StageNew;
    var w := BROKEN_OPTIONAL;
    var left := CaughtAndKept();
    PlainNames();
    RootLeadsToA();
    OneRequestForANewPackage(w, "root", "a", "a");
    BRequiresC();
  }

  lemma RootLeadsToA()
    ensures Resolve(BROKEN_OPTIONAL, "root", "a") == Some("a")
  {
  }

  lemma CaughtAndKept() returns (left: State)
    ensures StageNew(BROKEN_OPTIONAL, "a", EMPTY) == Outcome(left, None)
    ensures left.late && "b" in left.tree
  {
    hide Extends, IsSdkBundledExecutablePackage;
    var w := BROKEN_OPTIONAL;
    var a, b := w.manifests["a"], w.manifests["b"];
    var s1 := Copied(EMPTY, a, "a");
    var s2 := Copied(s1, b, "b");
    OneName(a, "b");
    BrokenDependency(s1);
    assert StageCatching(w, "a", "b", s1) == Outcome(s2.(late := true), None);
    assert StageDependencies(w, "a", ["b"], s1) == Outcome(s2.(late := true), None);
    left := Finished(s2.(late := true), "a");
  }

  lemma OneRequestForANewPackage(w: World, at: Location, d: Name, l: Location)
    requires !IsSdkBundledExecutablePackage(d) && Resolve(w, at, d) == Some(l)
    requires StageNew(w, l, EMPTY).failure.None?
    ensures StageAll(w, [(at, d)], EMPTY) == StageNew(w, l, EMPTY)
  {
  }

  lemma BRequiresC()
    ensures Required(BROKEN_OPTIONAL.manifests["b"], "c")
    ensures Resolve(BROKEN_OPTIONAL, "b", "c") == None
  {
  }

  lemma PlainNames()
    ensures forall n | n in {"a", "b", "c"} :: !IsSdkBundledExecutablePackage(n) && n !in OBJECT_MEMBERS
  {
  }

  lemma OneName(m: Manifest, d: Name)
    requires m.dependencies + m.optional == [d]
    ensures DependencyNames(m) == [d]
  {
  }

  lemma BrokenDependency(s1: State)
    requires Valid(s1) && "b" !in s1.versions
    ensures var b := BROKEN_OPTIONAL.manifests["b"];
      Stage(BROKEN_OPTIONAL, "a", "b", s1) == Outcome(Copied(s1, b, "b"), Some(Unresolved("c")))
  {
    var w := BROKEN_OPTIONAL;
    var b := w.manifests["b"];
    var s2 := Copied(s1, b, "b");
    PlainNames();
    OneName(b, "c");
    assert Resolve(w, "b", "c") == None && Resolve(w, "a", "b") == Some("b");
    assert Stage(w, "b", "c", s2) == Outcome(s2, Some(Unresolved("c")));
    assert StageDependencies(w, "b", ["c"], s2) == Outcome(s2, Some(Unresolved("c")));
    assert StageNew(w, "b", s1) == Outcome(s2, Some(Unresolved("c")));
  }

  // ---------------------------------------------------------------- the failure that is caught by its name

  function OnlyA(at: Location, d: Name): Option<Location> {
    if at == "root" && d == "a" then Some("a") else None
  }

  /** `a` depends on `constructor`, which is not installed. */
  const OBJECT_NAMED := World(map["a" := Manifest("a", "1", ["constructor"], [])], OnlyA, l => true)

  /** The run returns and nothing was caught late, yet `a` is staged without an ordinary dependency. */
  lemma ObjectNamedDependencyIsPassedOver()
    ensures var o := StageAll(OBJECT_NAMED, [("root", "a")], EMPTY);
      && o.failure.None? && !o.state.late
      && PassedOver(OBJECT_NAMED, o.state, "a", "constructor")
  {
    var w := OBJECT_NAMED;
    var a := w.manifests["a"];
    var s := Copied(EMPTY, a, "a");
    PlainNames();
    assert !IsSdkBundledExecutablePackage("constructor") by { assert "constructor"[0] != '@'; }
    OneName(a, "constructor");
    assert Resolve(w, "root", "a") == Some("a") && Resolve(w, "a", "constructor") == None;
    assert Stage(w, "a", "constructor", s) == Outcome(s, Some(Unresolved("constructor")));
    assert StageCatching(w, "a", "constructor", s) == Outcome(s, None);
    assert StageDependencies(w, "a", ["constructor"], s) == Outcome(s, None);
    assert StageNew(w, "a", EMPTY) == Outcome(Finished(s, "a"), None);
    OneRequestForANewPackage(w, "root", "a", "a");
  }
}
