/** What a flattened node_modules promises the packages in it (scripts/package-desktop.ts). */
module RuntimeStagingProperties {
  import opened Prelude
  import opened RuntimeStaging

  /** The flat map holds, under its own name, the version that `l` resolves `d` to. */
  predicate Serves(w: World, s: State, l: Location, d: Name) {
    match Resolve(w, l, d)
    case Some(q) => w.manifests[q].name in s.versions && s.versions[w.manifests[q].name] == w.manifests[q].version
    case None => false
  }

  /** Every copied directory could be copied, and is the package its name and recorded version say. */
  ghost predicate Matches(w: World, s: State) {
    forall n | n in s.tree ::
      && s.tree[n] in w.manifests && w.copyable(s.tree[n]) && w.manifests[s.tree[n]].name == n
      && n in s.versions && s.versions[n] == w.manifests[s.tree[n]].version
  }

  /** `d` can no longer be served to `l`: it resolves to nothing, or its name is recorded at another version. */
  predicate Refused(w: World, s: State, l: Location, d: Name) {
    match Resolve(w, l, d)
    case Some(q) => w.manifests[q].name in s.versions && s.versions[w.manifests[q].name] != w.manifests[q].version
    case None => true
  }

  /** A dependency of any kind that is not left out on purpose. */
  predicate Declares(m: Manifest, d: Name) {
    (d in m.dependencies || d in m.optional) && !IsSdkBundledExecutablePackage(d)
  }

  /** One that is not declared optional. */
  predicate Ordinary(m: Manifest, d: Name) {
    Declares(m, d) && d !in m.optional
  }

  /** One whose failure is not caught. */
  predicate Required(m: Manifest, d: Name) {
    Declares(m, d) && !Catches(m, d)
  }

  /** Served, or refused and caught. */
  predicate Settled(w: World, s: State, l: Location, d: Name)
    requires l in w.manifests
  {
    Serves(w, s, l, d) || (Refused(w, s, l, d) && Catches(w.manifests[l], d))
  }

  ghost predicate AllSettled(w: World, s: State, l: Location)
    requires l in w.manifests
  {
    forall d | Declares(w.manifests[l], d) :: Settled(w, s, l, d)
  }

  /** Every finished package finds each dependency at the version it resolves itself, unless a catch passed over it. */
  ghost predicate Closed(w: World, s: State) {
    && Valid(s) && Matches(w, s)
    && forall n | n in s.finished :: n in s.tree && AllSettled(w, s, s.tree[n])
  }

  lemma ServesPersists(w: World, s: State, t: State, l: Location, d: Name)
    requires Extends(s, t) && Serves(w, s, l, d)
    ensures Serves(w, t, l, d)
  {
  }

  lemma SettledPersists(w: World, s: State, t: State, l: Location, d: Name)
    requires l in w.manifests && Extends(s, t) && Settled(w, s, l, d)
    ensures Settled(w, t, l, d)
  {
  }

  lemma ClosedAfterRecording(w: World, s: State, t: State)
    requires Closed(w, s) && Extends(s, t) && Valid(t) && Matches(w, t) && t.finished == s.finished
    ensures Closed(w, t)
  {
  }

  /** A call that returns has put what its requester resolves into the map; a call that throws breaks nothing. */
  lemma {:induction false} StageCloses(w: World, at: Location, name: Name, s: State)
    requires Closed(w, s)
    ensures Closed(w, Stage(w, at, name, s).state)
    ensures !IsSdkBundledExecutablePackage(name) ==>
      var o := Stage(w, at, name, s);
      Serves(w, o.state, at, name) || (o.failure.Some? && Refused(w, o.state, at, name))
    decreases Budget(w, s), 1
  {
    var resolved := Resolve(w, at, name);
    if !IsSdkBundledExecutablePackage(name) && resolved.Some? && w.manifests[resolved.value].name !in s.versions {
      NewCloses(w, resolved.value, s);
    }
  }

  lemma {:induction false} NewCloses(w: World, l: Location, s: State)
    requires Closed(w, s) && l in w.manifests && w.manifests[l].name !in s.versions
    ensures Closed(w, StageNew(w, l, s).state)
    ensures var v := StageNew(w, l, s).state.versions;
      w.manifests[l].name in v && v[w.manifests[l].name] == w.manifests[l].version
    decreases Budget(w, s), 0
  {
    RecordingCloses(w, l, s);
    if w.copyable(l) {
      var copied, names := Copied(s, w.manifests[l], l), DependencyNames(w.manifests[l]);
      BudgetShrinks(w, s, copied, l);
      DependenciesClose(w, l, names, copied);
      var o := StageDependencies(w, l, names, copied);
      SettledByNames(w, l, o);
      FinishingCloses(w, l, copied, o);
      CopiedThenDependencies(w, l, s);
    }
  }

  /** With the names all settled, every dependency is. */
  lemma SettledByNames(w: World, l: Location, o: Outcome)
    requires l in w.manifests
    requires o.failure.None? ==> forall d | d in DependencyNames(w.manifests[l]) && !IsSdkBundledExecutablePackage(d) ::
      Settled(w, o.state, l, d)
    ensures o.failure.None? ==> AllSettled(w, o.state, l)
  {
    if o.failure.None? {
      forall d | Declares(w.manifests[l], d)
        ensures Settled(w, o.state, l, d)
      {
        assert d in DependencyNames(w.manifests[l]);
      }
    }
  }

  lemma RecordingCloses(w: World, l: Location, s: State)
    requires Closed(w, s) && l in w.manifests && w.manifests[l].name !in s.versions
    ensures Closed(w, Recorded(s, w.manifests[l]))
    ensures w.copyable(l) ==> Closed(w, Copied(s, w.manifests[l], l))
  {
  }

  lemma FinishingCloses(w: World, l: Location, copied: State, o: Outcome)
    requires l in w.manifests && Closed(w, o.state) && Extends(copied, o.state)
    requires w.manifests[l].name in copied.tree && copied.tree[w.manifests[l].name] == l
    requires o.failure.None? ==> AllSettled(w, o.state, l)
    ensures o.failure.None? ==> Closed(w, Finished(o.state, w.manifests[l].name))
    ensures var v := o.state.versions;
      w.manifests[l].name in v && v[w.manifests[l].name] == w.manifests[l].version
  {
  }

  lemma {:induction false} CatchingCloses(w: World, l: Location, name: Name, s: State)
    requires l in w.manifests && Closed(w, s)
    ensures Closed(w, StageCatching(w, l, name, s).state)
    ensures var o := StageCatching(w, l, name, s);
      o.failure.None? && !IsSdkBundledExecutablePackage(name) ==> Settled(w, o.state, l, name)
    decreases Budget(w, s), 2
  {
    StageCloses(w, l, name, s);
    var first := Stage(w, l, name, s);
    ClosedAfterRecording(w, first.state, Caught(s, first.state));
  }

  lemma {:induction false} DependenciesClose(w: World, l: Location, names: seq<Name>, s: State)
    requires l in w.manifests && Closed(w, s)
    ensures Closed(w, StageDependencies(w, l, names, s).state)
    ensures StageDependencies(w, l, names, s).failure.None? ==>
      forall d | d in names && !IsSdkBundledExecutablePackage(d) ::
        Settled(w, StageDependencies(w, l, names, s).state, l, d)
    decreases Budget(w, s), 3, |names|
  {
    if names != [] {
      var first := StageCatching(w, l, names[0], s);
      CatchingCloses(w, l, names[0], s);
      BudgetShrinks(w, s, first.state, l);
      if first.failure.None? {
        DependenciesClose(w, l, names[1..], first.state);
        var o := StageDependencies(w, l, names[1..], first.state);
        forall d | d in names && o.failure.None? && !IsSdkBundledExecutablePackage(d)
          ensures Settled(w, o.state, l, d)
        {
          if d == names[0] {
            SettledPersists(w, first.state, o.state, l, d);
          } else {
            assert d in names[1..];
          }
        }
      }
    }
  }

  // ---------------------------------------------------------------- what a caught failure leaves behind

  ghost predicate Unfinished(s: State, t: State) {
    exists n :: n in t.versions && n !in s.versions && n !in t.finished
  }

  /** The records of a stretch of the walk from `s` to `o.state`. */
  ghost predicate LeavesBehind(s: State, o: Outcome) {
    && (forall n | n in o.state.finished :: n in s.finished || n !in s.versions)
    && (o.failure.None? && !o.state.late ==> !Unfinished(s, o.state))
    && (o.state.late && !s.late ==> Unfinished(s, o.state))
  }

  /** A package's call that throws either recorded nothing or leaves a record that never finishes. */
  lemma {:induction false} StageLeaves(w: World, at: Location, name: Name, s: State)
    requires Valid(s)
    ensures LeavesBehind(s, Stage(w, at, name, s))
    ensures var o := Stage(w, at, name, s);
      o.failure.Some? && o.state.versions != s.versions ==> Unfinished(s, o.state)
    decreases Budget(w, s), 1
  {
    var resolved := Resolve(w, at, name);
    if !IsSdkBundledExecutablePackage(name) && resolved.Some? && w.manifests[resolved.value].name !in s.versions {
      NewLeaves(w, resolved.value, s);
    }
  }

  lemma {:induction false} NewLeaves(w: World, l: Location, s: State)
    requires Valid(s) && l in w.manifests && w.manifests[l].name !in s.versions
    ensures LeavesBehind(s, StageNew(w, l, s))
    ensures StageNew(w, l, s).failure.Some? ==> Unfinished(s, StageNew(w, l, s).state)
    decreases Budget(w, s), 0
  {
    var m := w.manifests[l];
    assert m.name !in s.finished;
    if w.copyable(l) {
      var copied := Copied(s, m, l);
      BudgetShrinks(w, s, copied, l);
      DependenciesLeave(w, l, DependencyNames(m), copied);
      NewWraps(s, copied, m, StageDependencies(w, l, DependencyNames(m), copied));
    } else {
      assert m.name in Recorded(s, m).versions;
    }
  }

  lemma NewWraps(s: State, copied: State, m: Manifest, o: Outcome)
    requires Valid(s) && m.name !in s.versions && Extends(copied, o.state) && Valid(o.state)
    requires copied.versions == s.versions[m.name := m.version]
    requires copied.finished == s.finished && copied.late == s.late
    requires LeavesBehind(copied, o)
    ensures o.failure.Some? ==> LeavesBehind(s, o) && Unfinished(s, o.state)
    ensures o.failure.None? ==> LeavesBehind(s, Outcome(Finished(o.state, m.name), None))
  {
  }

  lemma {:induction false} CatchingLeaves(w: World, l: Location, name: Name, s: State)
    requires l in w.manifests && Valid(s)
    ensures LeavesBehind(s, StageCatching(w, l, name, s))
    decreases Budget(w, s), 2
  {
    StageLeaves(w, l, name, s);
    var first := Stage(w, l, name, s);
    assert Unfinished(s, first.state) ==> Unfinished(s, Caught(s, first.state).(late := true));
    if Unfinished(s, first.state) {
      var n :| n in first.state.versions && n !in s.versions && n !in first.state.finished;
      assert n in Caught(s, first.state).versions && n !in Caught(s, first.state).finished;
    }
  }

  lemma {:induction false} DependenciesLeave(w: World, l: Location, names: seq<Name>, s: State)
    requires l in w.manifests && Valid(s)
    ensures LeavesBehind(s, StageDependencies(w, l, names, s))
    decreases Budget(w, s), 3, |names|
  {
    if names != [] {
      var first := StageCatching(w, l, names[0], s);
      CatchingLeaves(w, l, names[0], s);
      BudgetShrinks(w, s, first.state, l);
      if first.failure.None? {
        DependenciesLeave(w, l, names[1..], first.state);
        LeavesBehindTwice(s, first, StageDependencies(w, l, names[1..], first.state));
      }
    }
  }

  lemma LeavesBehindTwice(s: State, first: Outcome, second: Outcome)
    requires first.failure.None? && LeavesBehind(s, first) && LeavesBehind(first.state, second)
    requires Extends(s, first.state) && Extends(first.state, second.state)
    ensures LeavesBehind(s, second)
  {
  }

  // ---------------------------------------------------------------- what a failure says

  /** What a failure says is so: nothing of that name is found, two versions meet, or a directory cannot be copied. */
  ghost predicate IsSo(w: World, s: State, f: Failure) {
    match f
    case Unresolved(name) => !IsSdkBundledExecutablePackage(name) && exists at :: Resolve(w, at, name).None?
    case Collision(name) => name in s.versions && exists l :: Differs(w, l, name, s.versions[name])
    case CopyFailed(l) => l in w.manifests && !w.copyable(l) && w.manifests[l].name in s.versions
  }

  predicate Differs(w: World, l: Location, name: Name, version: string) {
    l in w.manifests && w.manifests[l].name == name && w.manifests[l].version != version
  }

  /** Whatever a call throws is so. */
  lemma {:induction false} FailuresAreSo(w: World, at: Location, name: Name, s: State)
    requires Valid(s)
    ensures var o := Stage(w, at, name, s); o.failure.Some? ==> IsSo(w, o.state, o.failure.value)
    decreases Budget(w, s), 1
  {
    var resolved := Resolve(w, at, name);
    if !IsSdkBundledExecutablePackage(name) && resolved.Some? {
      var m := w.manifests[resolved.value];
      if m.name !in s.versions {
        NewFailuresAreSo(w, resolved.value, s);
      } else if s.versions[m.name] != m.version {
        assert Differs(w, resolved.value, m.name, s.versions[m.name]);
      }
    }
  }

  lemma {:induction false} NewFailuresAreSo(w: World, l: Location, s: State)
    requires Valid(s) && l in w.manifests && w.manifests[l].name !in s.versions
    ensures var o := StageNew(w, l, s); o.failure.Some? ==> IsSo(w, o.state, o.failure.value)
    decreases Budget(w, s), 0
  {
    if w.copyable(l) {
      var copied := Copied(s, w.manifests[l], l);
      BudgetShrinks(w, s, copied, l);
      DependencyFailuresAreSo(w, l, DependencyNames(w.manifests[l]), copied);
    }
  }

  lemma {:induction false} DependencyFailuresAreSo(w: World, l: Location, names: seq<Name>, s: State)
    requires l in w.manifests && Valid(s)
    ensures var o := StageDependencies(w, l, names, s); o.failure.Some? ==> IsSo(w, o.state, o.failure.value)
    decreases Budget(w, s), 3, |names|
  {
    hide IsSo, Stage, Budget, Resolve;
    if names != [] {
      FailuresAreSo(w, l, names[0], s);
      var first := StageCatching(w, l, names[0], s);
      BudgetShrinks(w, s, first.state, l);
      if first.failure.None? { DependencyFailuresAreSo(w, l, names[1..], first.state); }
    }
  }

  // ---------------------------------------------------------------- in order, up to the first failure

  /** A second stretch of requests runs behind the first, unless that failed. */
  lemma {:induction false} RequestsRunInTurn(w: World, a: seq<(Location, Name)>, b: seq<(Location, Name)>, s: State)
    requires Valid(s)
    ensures var first := StageAll(w, a, s);
      StageAll(w, a + b, s) == if first.failure.Some? then first else StageAll(w, b, first.state)
    ensures forall r :: StageAll(w, [r], s) == Stage(w, r.0, r.1, s)
    decreases |a|
  {
    hide Stage, Extends;
    if a == [] {
      assert a + b == b;
    } else {
      assert (a + b)[1..] == a[1..] + b;
      RequestsRunInTurn(w, a[1..], b, Stage(w, a[0].0, a[0].1, s).state);
    }
  }

  /** So do the dependencies of one package. */
  lemma {:induction false} DependenciesRunInTurn(w: World, l: Location, a: seq<Name>, b: seq<Name>, s: State)
    requires l in w.manifests && Valid(s)
    ensures var first := StageDependencies(w, l, a, s);
      StageDependencies(w, l, a + b, s)
      == if first.failure.Some? then first else StageDependencies(w, l, b, first.state)
    ensures forall d :: StageDependencies(w, l, [d], s) == StageCatching(w, l, d, s)
    decreases |a|
  {
    hide StageCatching, Extends;
    if a == [] {
      assert a + b == b;
    } else {
      assert (a + b)[1..] == a[1..] + b;
      DependenciesRunInTurn(w, l, a[1..], b, StageCatching(w, l, a[0], s).state);
    }
  }

  // ---------------------------------------------------------------- whole runs

  lemma {:induction false} AllClose(w: World, requests: seq<(Location, Name)>, s: State)
    requires Closed(w, s)
    ensures var o := StageAll(w, requests, s);
      && Closed(w, o.state) && LeavesBehind(s, o)
      && (o.failure.None? ==> forall r | r in requests && !IsSdkBundledExecutablePackage(r.1) ::
           Serves(w, o.state, r.0, r.1))
  {
    if requests != [] {
      var r := requests[0];
      var first := Stage(w, r.0, r.1, s);
      StageCloses(w, r.0, r.1, s);
      StageLeaves(w, r.0, r.1, s);
      if first.failure.None? {
        AllClose(w, requests[1..], first.state);
        var o := StageAll(w, requests[1..], first.state);
        LeavesBehindTwice(s, first, o);
        if !IsSdkBundledExecutablePackage(r.1) {
          ServesPersists(w, first.state, o.state, r.0, r.1);
        }
        assert requests == [r] + requests[1..];
      }
    }
  }

  /** A run that returns has finished every recorded package exactly when no caught failure came after a recording. */
  lemma FinishedUnlessLate(w: World, requests: seq<(Location, Name)>)
    requires StageAll(w, requests, EMPTY).failure.None?
    ensures var s := StageAll(w, requests, EMPTY).state;
      Closed(w, s) && (!s.late <==> s.versions.Keys == s.finished)
  {
    AllClose(w, requests, EMPTY);
    var s := StageAll(w, requests, EMPTY).state;
    if !s.late {
      forall n | n in s.versions
        ensures n in s.finished
      {
        assert n !in EMPTY.versions;
      }
    } else {
      var n :| n in s.versions && n !in EMPTY.versions && n !in s.finished;
    }
  }
}
