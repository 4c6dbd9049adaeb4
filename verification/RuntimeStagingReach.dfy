/**
 What scripts/package-desktop.ts stages when nothing that is installed fails: exactly the
 reachable packages. An optional dependency that is not installed leads nowhere.
 */
module RuntimeStagingReach {
  import opened Prelude
  import opened RuntimeStaging
  import opened RuntimeStagingProperties

  type Request = (Location, Name)

  /** `p` declares a dependency, not left out on purpose, that it resolves to `q`. */
  ghost predicate Edge(w: World, p: Location, q: Location) {
    p in w.manifests && exists d :: Uses(w, p, d) && Resolve(w, p, d) == Some(q)
  }

  predicate Uses(w: World, p: Location, d: Name)
    requires p in w.manifests
  {
    d in DependencyNames(w.manifests[p]) && !IsSdkBundledExecutablePackage(d)
  }

  ghost predicate Asked(w: World, requests: seq<Request>, q: Location) {
    exists r :: r in requests && !IsSdkBundledExecutablePackage(r.1) && Resolve(w, r.0, r.1) == Some(q)
  }

  ghost predicate Walk(w: World, requests: seq<Request>, path: seq<Location>) {
    && |path| > 0 && Asked(w, requests, path[0])
    && forall i | 0 < i < |path| :: Edge(w, path[i - 1], path[i])
  }

  ghost predicate Reachable(w: World, requests: seq<Request>, q: Location) {
    exists path :: Walk(w, requests, path) && path[|path| - 1] == q
  }

  lemma StepReaches(w: World, requests: seq<Request>, p: Location, q: Location)
    requires Reachable(w, requests, p) && Edge(w, p, q)
    ensures Reachable(w, requests, q)
  {
    var path :| Walk(w, requests, path) && path[|path| - 1] == p;
    assert Walk(w, requests, path + [q]);
    assert (path + [q])[|path + [q]| - 1] == q;
  }

  /**
   `packages` holds what the requests resolve to and all its installed dependencies;
   only a dependency whose failure is caught may be missing, everything can be copied,
   a dependency goes by its own name, and no two packages of one name differ in
   version, in dependency names or in which of them are installed.
   */
  ghost predicate Coherent(w: World, requests: seq<Request>, packages: iset<Location>) {
    && (forall r | r in requests && !IsSdkBundledExecutablePackage(r.1) :: Leads(w, packages, r.0, r.1))
    && (forall p | p in packages :: p in w.manifests && w.copyable(p))
    && (forall p, d | p in packages && p in w.manifests && Uses(w, p, d) ::
          LeadsOrSkips(w, packages, p, d))
    && (forall p, q | p in packages && q in packages && p in w.manifests && q in w.manifests :: Agree(w, p, q))
  }

  ghost predicate Leads(w: World, packages: iset<Location>, at: Location, d: Name) {
    match Resolve(w, at, d)
    case Some(q) => q in packages && w.manifests[q].name == d
    case None => false
  }

  ghost predicate LeadsOrSkips(w: World, packages: iset<Location>, p: Location, d: Name)
    requires p in w.manifests
  {
    if Resolve(w, p, d).Some? then Leads(w, packages, p, d) else Catches(w.manifests[p], d)
  }

  ghost predicate Agree(w: World, p: Location, q: Location)
    requires p in w.manifests && q in w.manifests
  {
    w.manifests[p].name == w.manifests[q].name ==>
      && w.manifests[p].version == w.manifests[q].version
      && (forall d :: d in DependencyNames(w.manifests[p]) <==> d in DependencyNames(w.manifests[q]))
      && (forall d | Uses(w, p, d) :: Resolve(w, p, d).Some? == Resolve(w, q, d).Some?)
  }

  ghost predicate ServesAll(w: World, s: State, l: Location)
    requires l in w.manifests
  {
    forall d | Uses(w, l, d) :: ServesInstalled(w, s, l, d)
  }

  ghost predicate ServesInstalled(w: World, s: State, l: Location, d: Name) {
    Resolve(w, l, d).Some? ==> Serves(w, s, l, d)
  }

  /** A state of a run without failures: everything recorded was copied and is reachable. */
  ghost predicate Sound(w: World, packages: iset<Location>, s: State) {
    && Valid(s) && Matches(w, s) && s.tree.Keys == s.versions.Keys && !s.late
    && (forall n | n in s.tree :: s.tree[n] in packages)
    && (forall n | n in s.finished :: ServesAll(w, s, s.tree[n]))
  }

  lemma StageReaches(w: World, requests: seq<Request>, packages: iset<Location>, at: Location, name: Name, s: State)
    requires Coherent(w, requests, packages) && Sound(w, packages, s)
    requires !IsSdkBundledExecutablePackage(name) ==>
      Leads(w, packages, at, name)
    ensures var o := Stage(w, at, name, s);
      && o.failure.None? && Sound(w, packages, o.state)
      && (!IsSdkBundledExecutablePackage(name) ==> Serves(w, o.state, at, name))
    decreases Budget(w, s), 1
  {
    if !IsSdkBundledExecutablePackage(name) {
      var l := Resolve(w, at, name).value;
      var n := w.manifests[l].name;
      if n in s.versions {
        assert Agree(w, s.tree[n], l);
      } else {
        NewReaches(w, requests, packages, l, s);
      }
    }
  }

  lemma NewReaches(w: World, requests: seq<Request>, packages: iset<Location>, l: Location, s: State)
    requires Coherent(w, requests, packages) && Sound(w, packages, s)
    requires l in packages && l in w.manifests && w.manifests[l].name !in s.versions
    ensures StageNew(w, l, s).failure.None? && Sound(w, packages, StageNew(w, l, s).state)
    ensures var n, v := w.manifests[l].name, StageNew(w, l, s).state.versions;
      n in v && v[n] == w.manifests[l].version
    decreases Budget(w, s), 0
  {
    var m := w.manifests[l];
    var copied, names := Copied(s, m, l), DependencyNames(m);
    CopyingIsSound(w, packages, l, s);
    BudgetShrinks(w, s, copied, l);
    DependenciesReach(w, requests, packages, l, names, copied);
    var o := StageDependencies(w, l, names, copied);
    NewFinishes(w, packages, l, copied, o);
    assert w.copyable(l);
    assert StageNew(w, l, s) == Outcome(Finished(o.state, m.name), None);
  }

  lemma NewFinishes(w: World, packages: iset<Location>, l: Location, copied: State, o: Outcome)
    requires l in w.manifests && Extends(copied, o.state) && Sound(w, packages, o.state)
    requires w.manifests[l].name in copied.tree && copied.tree[w.manifests[l].name] == l
    requires forall d | d in DependencyNames(w.manifests[l]) && Uses(w, l, d) :: ServesInstalled(w, o.state, l, d)
    ensures Sound(w, packages, Finished(o.state, w.manifests[l].name))
    ensures var n, v := w.manifests[l].name, o.state.versions; n in v && v[n] == w.manifests[l].version
  {
    var n := w.manifests[l].name;
    assert n in o.state.tree && o.state.tree[n] == l;
    forall d | Uses(w, l, d)
      ensures ServesInstalled(w, o.state, l, d)
    {
      assert d in DependencyNames(w.manifests[l]);
    }
    FinishingIsSound(w, packages, l, o.state);
  }

  lemma CopyingIsSound(w: World, packages: iset<Location>, l: Location, s: State)
    requires Sound(w, packages, s) && l in packages && l in w.manifests && w.copyable(l)
    requires w.manifests[l].name !in s.versions
    ensures Sound(w, packages, Copied(s, w.manifests[l], l))
  {
  }

  lemma FinishingIsSound(w: World, packages: iset<Location>, l: Location, s: State)
    requires Sound(w, packages, s) && l in w.manifests && ServesAll(w, s, l)
    requires w.manifests[l].name in s.tree && s.tree[w.manifests[l].name] == l
    ensures Sound(w, packages, Finished(s, w.manifests[l].name))
  {
  }

  /** One turn of the loop: a dependency that is not installed is passed over, any other is served. */
  lemma CatchingReaches(w: World, requests: seq<Request>, packages: iset<Location>, l: Location, d: Name, s: State)
    requires Coherent(w, requests, packages) && Sound(w, packages, s) && l in packages && l in w.manifests
    requires d in DependencyNames(w.manifests[l])
    ensures var o := StageCatching(w, l, d, s);
      && o.failure.None? && Sound(w, packages, o.state)
      && (Uses(w, l, d) ==> ServesInstalled(w, o.state, l, d))
    decreases Budget(w, s), 2
  {
    hide Sound, Stage, Coherent;
    SoundIsValid(w, packages, s);
    if Uses(w, l, d) { UsesLead(w, requests, packages, l, d); }
    if !Uses(w, l, d) || Resolve(w, l, d).Some? {
      StageReaches(w, requests, packages, l, d, s);
    } else {
      MissingIsPassedOver(w, l, d, s);
    }
  }

  lemma SoundIsValid(w: World, packages: iset<Location>, s: State)
    requires Sound(w, packages, s)
    ensures Valid(s)
  {
  }

  lemma UsesLead(w: World, requests: seq<Request>, packages: iset<Location>, p: Location, d: Name)
    requires Coherent(w, requests, packages) && p in packages && p in w.manifests && Uses(w, p, d)
    ensures LeadsOrSkips(w, packages, p, d)
  {
  }

  lemma MissingIsPassedOver(w: World, l: Location, d: Name, s: State)
    requires l in w.manifests && Valid(s) && !IsSdkBundledExecutablePackage(d)
    requires Resolve(w, l, d).None? && Catches(w.manifests[l], d)
    ensures StageCatching(w, l, d, s) == Outcome(s, None)
  {
    hide Catches;
  }

  lemma DependenciesReach(w: World, requests: seq<Request>, packages: iset<Location>, l: Location, names: seq<Name>,
                          s: State)
    requires Coherent(w, requests, packages) && Sound(w, packages, s) && l in packages && l in w.manifests
    requires forall d | d in names :: d in DependencyNames(w.manifests[l])
    ensures StageDependencies(w, l, names, s).failure.None?
    ensures Sound(w, packages, StageDependencies(w, l, names, s).state)
    ensures forall d | d in names && Uses(w, l, d) :: ServesInstalled(w, StageDependencies(w, l, names, s).state, l, d)
    decreases Budget(w, s), 3, |names|
  {
    hide Sound, Coherent;
    SoundIsValid(w, packages, s);
    if names != [] {
      var d := names[0];
      var first := StageCatching(w, l, d, s);
      CatchingReaches(w, requests, packages, l, d, s);
      BudgetShrinks(w, s, first.state, l);
      DependenciesReach(w, requests, packages, l, names[1..], first.state);
      ServedStaysServed(w, l, names, first.state, StageDependencies(w, l, names[1..], first.state).state);
    }
  }

  lemma ServedStaysServed(w: World, l: Location, names: seq<Name>, s: State, t: State)
    requires l in w.manifests && names != [] && Extends(s, t)
    requires Uses(w, l, names[0]) ==> ServesInstalled(w, s, l, names[0])
    requires forall d | d in names[1..] && Uses(w, l, d) :: ServesInstalled(w, t, l, d)
    ensures forall d | d in names && Uses(w, l, d) :: ServesInstalled(w, t, l, d)
  {
  }

  lemma AllReach(w: World, all: seq<Request>, packages: iset<Location>, requests: seq<Request>, s: State)
    requires Coherent(w, all, packages) && Sound(w, packages, s)
    requires forall r | r in requests :: r in all
    ensures StageAll(w, requests, s).failure.None? && Sound(w, packages, StageAll(w, requests, s).state)
    ensures forall r | r in requests && !IsSdkBundledExecutablePackage(r.1) ::
      Serves(w, StageAll(w, requests, s).state, r.0, r.1)
  {
    if requests != [] {
      var r := requests[0];
      assert requests == [r] + requests[1..];
      StageReaches(w, all, packages, r.0, r.1, s);
      var first := Stage(w, r.0, r.1, s);
      AllReach(w, all, packages, requests[1..], first.state);
      if !IsSdkBundledExecutablePackage(r.1) {
        ServesPersists(w, first.state, StageAll(w, requests, s).state, r.0, r.1);
      }
    }
  }

  /** Whatever a walk reaches is staged: by following the same names through the staged copies. */
  lemma {:induction false} WalkIsStaged(w: World, requests: seq<Request>, packages: iset<Location>,
                                        path: seq<Location>, s: State)
    requires Coherent(w, requests, packages) && Sound(w, packages, s) && s.finished == s.tree.Keys
    requires forall r | r in requests && !IsSdkBundledExecutablePackage(r.1) :: Serves(w, s, r.0, r.1)
    requires Walk(w, requests, path)
    ensures var q := path[|path| - 1];
      q in packages && q in w.manifests && w.manifests[q].name in s.tree
    decreases |path|
  {
    var q := path[|path| - 1];
    if |path| == 1 {
      var r :| r in requests && !IsSdkBundledExecutablePackage(r.1) && Resolve(w, r.0, r.1) == Some(q);
      assert Leads(w, packages, r.0, r.1) && Serves(w, s, r.0, r.1);
    } else {
      var before, p := path[..|path| - 1], path[|path| - 2];
      assert Walk(w, requests, before) && before[|before| - 1] == p;
      WalkIsStaged(w, requests, packages, before, s);
      assert Edge(w, path[|path| - 1 - 1], path[|path| - 1]);
      var d :| Uses(w, p, d) && Resolve(w, p, d) == Some(q);
      SameNameServes(w, requests, packages, p, d, s);
    }
  }

  lemma SameNameServes(w: World, requests: seq<Request>, packages: iset<Location>, p: Location, d: Name, s: State)
    requires Coherent(w, requests, packages) && Sound(w, packages, s) && s.finished == s.tree.Keys
    requires p in packages && p in w.manifests && Uses(w, p, d) && w.manifests[p].name in s.tree
    requires Resolve(w, p, d).Some?
    ensures Leads(w, packages, p, d) && d in s.tree
  {
    var copy := s.tree[w.manifests[p].name];
    assert Agree(w, p, copy) && LeadsOrSkips(w, packages, p, d);
    assert Uses(w, copy, d) && ServesInstalled(w, s, copy, d) && LeadsOrSkips(w, packages, copy, d);
  }

  /** `d` resolves, to a package of that name. */
  predicate Found(w: World, at: Location, d: Name) {
    match Resolve(w, at, d) case Some(q) => w.manifests[q].name == d case None => false
  }

  /** As `Found`, but a dependency whose failure is caught need not resolve. */
  predicate FoundOrSkipped(w: World, p: Location, d: Name)
    requires p in w.manifests
  {
    Found(w, p, d) || (Resolve(w, p, d).None? && Catches(w.manifests[p], d))
  }

  /**
   What is reachable can be copied, each dependency resolves to a package of its name
   unless its failure is caught, and no two reachable packages of one name differ in
   version, in dependency names or in which of them are installed.
   */
  ghost predicate NothingFails(w: World, requests: seq<Request>) {
    && (forall r | r in requests && !IsSdkBundledExecutablePackage(r.1) :: Found(w, r.0, r.1))
    && (forall p | Reachable(w, requests, p) && p in w.manifests ::
          w.copyable(p) && forall d | Uses(w, p, d) :: FoundOrSkipped(w, p, d))
    && (forall p, q | Reachable(w, requests, p) && Reachable(w, requests, q) && p in w.manifests && q in w.manifests ::
          Agree(w, p, q))
  }

  lemma ReachableIsAManifest(w: World, requests: seq<Request>, q: Location)
    requires Reachable(w, requests, q)
    ensures q in w.manifests
  {
    var path :| Walk(w, requests, path) && path[|path| - 1] == q;
    if |path| == 1 {
      assert Asked(w, requests, q);
    } else {
      assert Edge(w, path[|path| - 1 - 1], path[|path| - 1]);
    }
  }

  lemma ReachableIsCoherent(w: World, requests: seq<Request>)
    requires NothingFails(w, requests)
    ensures Coherent(w, requests, iset q | Reachable(w, requests, q))
  {
    var packages := iset q | Reachable(w, requests, q);
    forall r | r in requests && !IsSdkBundledExecutablePackage(r.1)
      ensures Leads(w, packages, r.0, r.1)
    {
      var q := Resolve(w, r.0, r.1).value;
      assert Asked(w, requests, q);
      assert Walk(w, requests, [q]) && [q][|[q]| - 1] == q;
    }
    forall p | p in packages
      ensures p in w.manifests && w.copyable(p)
    {
      ReachableIsAManifest(w, requests, p);
    }
    forall p, d | p in packages && p in w.manifests && Uses(w, p, d)
      ensures LeadsOrSkips(w, packages, p, d)
    {
      assert FoundOrSkipped(w, p, d);
      if Resolve(w, p, d).Some? {
        assert Edge(w, p, Resolve(w, p, d).value);
        StepReaches(w, requests, p, Resolve(w, p, d).value);
      }
    }
  }

  /**
   When nothing reachable fails or collides, missing optional packages apart, the run
   returns with exactly the reachable packages staged.
   */
  lemma StagesExactlyTheReachable(w: World, requests: seq<Request>)
    requires NothingFails(w, requests)
    ensures var o := StageAll(w, requests, EMPTY);
      && o.failure.None? && !o.state.late
      && o.state.tree.Keys == o.state.versions.Keys
      && (forall n | n in o.state.tree :: Reachable(w, requests, o.state.tree[n]))
      && (forall q | Reachable(w, requests, q) :: StagedAs(w, o.state, q))
  {
    var packages := iset q | Reachable(w, requests, q);
    ReachableIsCoherent(w, requests);
    CoherentRun(w, requests, packages);
    var s := StageAll(w, requests, EMPTY).state;
    TreeWithin(w, packages, s);
    forall q | Reachable(w, requests, q)
      ensures StagedAs(w, s, q)
    {
      WalkEndsStaged(w, requests, s, q);
    }
  }

  lemma TreeWithin(w: World, packages: iset<Location>, s: State)
    requires Sound(w, packages, s)
    ensures !s.late && s.tree.Keys == s.versions.Keys && forall n | n in s.tree :: s.tree[n] in packages
  {
  }

  lemma WalkEndsStaged(w: World, requests: seq<Request>, s: State, q: Location)
    requires Reachable(w, requests, q)
    requires forall path | Walk(w, requests, path) :: StagedAs(w, s, path[|path| - 1])
    ensures StagedAs(w, s, q)
  {
    var path :| Walk(w, requests, path) && path[|path| - 1] == q;
  }

  predicate StagedAs(w: World, s: State, q: Location) {
    && q in w.manifests && w.manifests[q].name in s.versions
    && s.versions[w.manifests[q].name] == w.manifests[q].version
  }

  lemma CoherentRun(w: World, requests: seq<Request>, packages: iset<Location>)
    requires Coherent(w, requests, packages)
    ensures StageAll(w, requests, EMPTY).failure.None?
    ensures Sound(w, packages, StageAll(w, requests, EMPTY).state)
    ensures forall path | Walk(w, requests, path) ::
      StagedAs(w, StageAll(w, requests, EMPTY).state, path[|path| - 1])
  {
    AllReach(w, requests, packages, requests, EMPTY);
    var s := StageAll(w, requests, EMPTY).state;
    AllFinished(w, requests);
    forall path | Walk(w, requests, path)
      ensures StagedAs(w, s, path[|path| - 1])
    {
      WalkIsStaged(w, requests, packages, path, s);
      assert Agree(w, path[|path| - 1], s.tree[w.manifests[path[|path| - 1]].name]);
    }
  }

  lemma AllFinished(w: World, requests: seq<Request>)
    requires StageAll(w, requests, EMPTY).failure.None? && !StageAll(w, requests, EMPTY).state.late
    ensures var s := StageAll(w, requests, EMPTY).state;
      s.finished == s.tree.Keys == s.versions.Keys
  {
    FinishedUnlessLate(w, requests);
  }
}
