/**
 Dependency flattening of scripts/package-desktop.ts: a recursive walk over the shared
 version map, as a class proved against the function `Stage`.
 */
module RuntimeStaging {
  import opened Prelude
  import Sorting

  type Name = string
  /** The path of a package.json. */
  type Location = string

  /** Optional dependencies may repeat ordinary ones. */
  datatype Manifest = Manifest(name: Name, version: string, dependencies: seq<Name>, optional: seq<Name>)

  /** What `in` finds on an object that has no such property of its own. */
  const OBJECT_MEMBERS: set<Name> := {
    "constructor", "hasOwnProperty", "isPrototypeOf", "propertyIsEnumerable", "toLocaleString", "toString",
    "valueOf", "__defineGetter__", "__defineSetter__", "__lookupGetter__", "__lookupSetter__", "__proto__"}

  /** `dependencyName in (manifest.optionalDependencies ?? {})` */
  predicate Catches(m: Manifest, d: Name) {
    d in m.optional || d in OBJECT_MEMBERS
  }

  /**
   The packages on disk. `resolve` is `resolvePackageManifest` and throws as `None`;
   `copyable` says whether `copyRuntimeDirectory` succeeds.
   */
  datatype World = World(
    manifests: map<Location, Manifest>,
    resolve: (Location, Name) -> Option<Location>,
    copyable: Location -> bool)

  datatype Failure = Unresolved(name: Name) | Collision(name: Name) | CopyFailed(from: Location)

  /**
   The shared map and the flat tree. `finished` and `late` observe the walk:
   the packages whose own call returned, and whether a caught failure had
   already recorded a package.
   */
  datatype State = State(versions: map<Name, string>, tree: map<Name, Location>, finished: set<Name>, late: bool)

  const EMPTY := State(map[], map[], {}, false)

  datatype Outcome = Outcome(state: State, failure: Option<Failure>)

  predicate StartsWith(name: Name, prefix: string) {
    prefix <= name
  }

  predicate IsSdkBundledExecutablePackage(name: Name) {
    StartsWith(name, "@anthropic-ai/claude-agent-sdk-") || StartsWith(name, "@ubjs/node-")
  }

  /** The packages left out are those whose names go on behind one of the two prefixes. */
  lemma LeftOutByPrefix(name: Name)
    ensures IsSdkBundledExecutablePackage(name) <==>
      exists rest: Name :: name == "@anthropic-ai/claude-agent-sdk-" + rest || name == "@ubjs/node-" + rest
  {
    var first, second := "@anthropic-ai/claude-agent-sdk-", "@ubjs/node-";
    if first <= name { assert name == first + name[|first|..]; }
    if second <= name { assert name == second + name[|second|..]; }
  }

  /** Where a character comes by UTF-16 code units: past U+FFFF, as surrogates, before U+E000. */
  function Rank(c: char): int {
    if '\U{E000}' <= c <= '\U{FFFF}' then c as int + 0x110000 else c as int
  }

  /** Code-unit order, the default of `Array.prototype.sort`. */
  predicate CodeUnitLess(a: Name, b: Name) {
    if b == [] then false
    else if a == [] then true
    else Rank(a[0]) < Rank(b[0]) || (a[0] == b[0] && CodeUnitLess(a[1..], b[1..]))
  }

  /** The UTF-16 code units of a character, and of a text. */
  function Units(c: char): (r: seq<int>)
    ensures c <= '\U{FFFF}' ==> r == [c as int]
    ensures c > '\U{FFFF}' ==>
      && |r| == 2 && 0xD800 <= r[0] < 0xDC00 <= r[1] < 0xE000
      && 0x10000 + 0x400 * (r[0] - 0xD800) + (r[1] - 0xDC00) == c as int
  {
    if c <= '\U{FFFF}' then [c as int]
    else [0xD800 + (c as int - 0x10000) / 0x400, 0xDC00 + (c as int - 0x10000) % 0x400]
  }

  function Utf16(s: Name): seq<int> {
    if s == [] then [] else Units(s[0]) + Utf16(s[1..])
  }

  predicate UnitsLess(a: seq<int>, b: seq<int>) {
    if b == [] then false
    else if a == [] then true
    else a[0] < b[0] || (a[0] == b[0] && UnitsLess(a[1..], b[1..]))
  }

  /** The one that comes first is a beginning of the other, or smaller where they first differ. */
  ghost predicate ComesFirst(a: seq<int>, b: seq<int>) {
    exists k: nat :: FirstDiffersAt(a, b, k) && (k == |a| || a[k] < b[k])
  }

  predicate FirstDiffersAt(a: seq<int>, b: seq<int>, k: nat) {
    k <= |a| && k < |b| && forall i | 0 <= i < k :: a[i] == b[i]
  }

  lemma {:induction false} UnitsLessComesFirst(a: seq<int>, b: seq<int>)
    ensures UnitsLess(a, b) <==> ComesFirst(a, b)
  {
    if b != [] && (a == [] || a[0] < b[0]) {
      assert FirstDiffersAt(a, b, 0);
    } else if b != [] && a[0] == b[0] {
      UnitsLessComesFirst(a[1..], b[1..]);
      forall k: nat
        ensures k > 0 ==> (FirstDiffersAt(a, b, k) <==> FirstDiffersAt(a[1..], b[1..], k - 1))
      {
        if k > 0 && FirstDiffersAt(a[1..], b[1..], k - 1) {
          assert forall i | 0 < i < k :: a[i] == a[1..][i - 1] && b[i] == b[1..][i - 1];
        }
      }
      if k: nat :| FirstDiffersAt(a[1..], b[1..], k) && (k == |a[1..]| || a[1..][k] < b[1..][k]) {
        assert FirstDiffersAt(a, b, k + 1);
      }
      if k: nat :| FirstDiffersAt(a, b, k) && (k == |a| || a[k] < b[k]) {
        assert k > 0 && FirstDiffersAt(a[1..], b[1..], k - 1);
      }
    }
  }

  /** Two characters differ in order as their first different code units do. */
  lemma RankIsUnitOrder(x: char, y: char, p: seq<int>, q: seq<int>)
    ensures UnitsLess(Units(x) + p, Units(y) + q) <==> Rank(x) < Rank(y) || (x == y && UnitsLess(p, q))
  {
    var a, b := Units(x) + p, Units(y) + q;
    if x > '\U{FFFF}' {
      assert a[1..] == [Units(x)[1]] + p && a[1..][1..] == p;
    } else {
      assert a[1..] == p;
    }
    if y > '\U{FFFF}' {
      assert b[1..] == [Units(y)[1]] + q && b[1..][1..] == q;
    } else {
      assert b[1..] == q;
    }
  }

  /** The order is that of the UTF-16 code units. */
  lemma {:induction false} CodeUnitLessIsUtf16Order(a: Name, b: Name)
    ensures CodeUnitLess(a, b) <==> UnitsLess(Utf16(a), Utf16(b))
    ensures CodeUnitLess(a, b) <==> ComesFirst(Utf16(a), Utf16(b))
  {
    UnitsLessComesFirst(Utf16(a), Utf16(b));
    if a != [] && b != [] {
      CodeUnitLessIsUtf16Order(a[1..], b[1..]);
      RankIsUnitOrder(a[0], b[0], Utf16(a[1..]), Utf16(b[1..]));
    }
  }

  /** Every declared name as often as it is declared, in code-unit order. */
  function DependencyNames(m: Manifest): (names: seq<Name>)
    ensures multiset(names) == multiset(m.dependencies) + multiset(m.optional)
    ensures Sorting.Ordered(CodeUnitLess, names)
    ensures forall d :: d in names <==> d in m.dependencies || d in m.optional
  {
    var declared := m.dependencies + m.optional;
    var names := Sorting.Sort(CodeUnitLess, declared);
    CodeUnitsOrder(set d | d in declared);
    Sorting.SortOrders(CodeUnitLess, declared, set d | d in declared);
    assert forall d :: d in names <==> d in multiset(names);
    assert forall d :: d in declared <==> d in multiset(declared);
    names
  }

  lemma {:induction false} CodeUnitsAreAsymmetric(a: Name, b: Name)
    ensures !(CodeUnitLess(a, b) && CodeUnitLess(b, a))
    ensures a != b ==> CodeUnitLess(a, b) || CodeUnitLess(b, a)
  {
    if a != [] && b != [] {
      CodeUnitsAreAsymmetric(a[1..], b[1..]);
      assert a == [a[0]] + a[1..] && b == [b[0]] + b[1..];
    }
  }

  lemma {:induction false} CodeUnitsAreTransitive(a: Name, b: Name, c: Name)
    requires CodeUnitLess(a, b) && CodeUnitLess(b, c)
    ensures CodeUnitLess(a, c)
  {
    if a != [] && a[0] == b[0] == c[0] {
      CodeUnitsAreTransitive(a[1..], b[1..], c[1..]);
    }
  }

  lemma CodeUnitsOrder(names: set<Name>)
    ensures Sorting.StrictTotalOrderOn(CodeUnitLess, names)
  {
    forall a, b | a in names && b in names
      ensures !(CodeUnitLess(a, b) && CodeUnitLess(b, a))
      ensures a != b ==> CodeUnitLess(a, b) || CodeUnitLess(b, a)
    {
      CodeUnitsAreAsymmetric(a, b);
    }
    forall a, b, c | a in names && b in names && c in names && CodeUnitLess(a, b) && CodeUnitLess(b, c)
      ensures CodeUnitLess(a, c)
    {
      CodeUnitsAreTransitive(a, b, c);
    }
  }

  /** A manifest that cannot be found, read or parsed throws before anything is recorded. */
  function Resolve(w: World, at: Location, name: Name): (r: Option<Location>)
    ensures forall l :: r == Some(l) <==> w.resolve(at, name) == Some(l) && l in w.manifests
  {
    match w.resolve(at, name)
    case Some(l) => if l in w.manifests then Some(l) else None
    case None => None
  }

  /** Nothing recorded is lost or changed, and a name recorded without a copy never gets one. */
  predicate Extends(s: State, t: State) {
    && (forall n | n in s.versions :: n in t.versions && t.versions[n] == s.versions[n])
    && (forall n | n in s.tree :: n in t.tree && t.tree[n] == s.tree[n])
    && (forall n | n in s.versions && n in t.tree :: n in s.tree)
    && s.finished <= t.finished
    && (s.late ==> t.late)
  }

  /** The names not yet recorded: what bounds the recursion. */
  ghost function Budget(w: World, s: State): nat {
    |(set l | l in w.manifests :: w.manifests[l].name) - s.versions.Keys|
  }

  lemma BudgetShrinks(w: World, s: State, t: State, l: Location)
    requires s.versions.Keys <= t.versions.Keys
    ensures Budget(w, t) <= Budget(w, s)
    ensures l in w.manifests && w.manifests[l].name in t.versions.Keys - s.versions.Keys ==>
      Budget(w, t) < Budget(w, s)
  {
    var names := set l | l in w.manifests :: w.manifests[l].name;
    SubsetSize(names - t.versions.Keys, names - s.versions.Keys);
    if l in w.manifests && w.manifests[l].name in t.versions.Keys - s.versions.Keys {
      assert w.manifests[l].name in names - s.versions.Keys;
      SubsetSize(names - t.versions.Keys, names - s.versions.Keys - {w.manifests[l].name});
    }
  }

  lemma SubsetSize(a: set<Name>, b: set<Name>)
    requires a <= b
    ensures |a| <= |b|
  {
    assert b == a + (b - a);
  }

  /** A directory is copied only for a recorded name, and only a copied package finishes. */
  predicate Valid(s: State) {
    s.finished <= s.tree.Keys <= s.versions.Keys
  }

  function Recorded(s: State, m: Manifest): (t: State)
    requires m.name !in s.versions
    ensures Extends(s, t) && (Valid(s) ==> Valid(t))
  {
    s.(versions := s.versions[m.name := m.version])
  }

  function Copied(s: State, m: Manifest, l: Location): (t: State)
    requires Valid(s) && m.name !in s.versions
    ensures Extends(s, t) && Valid(t)
  {
    Recorded(s, m).(tree := s.tree[m.name := l])
  }

  function Finished(s: State, n: Name): State {
    s.(finished := s.finished + {n})
  }

  /** A failure that leaves a record behind cannot be undone by catching it. */
  function Caught(before: State, after: State): State {
    if after.versions == before.versions then after else after.(late := true)
  }

  /** `stageExternalPackage` */
  ghost function Stage(w: World, at: Location, name: Name, s: State): (o: Outcome)
    requires Valid(s)
    ensures Extends(s, o.state) && Valid(o.state)
    decreases Budget(w, s), 1
  {
    if IsSdkBundledExecutablePackage(name) then Outcome(s, None)
    else match Resolve(w, at, name)
      case None => Outcome(s, Some(Unresolved(name)))
      case Some(l) =>
        var m := w.manifests[l];
        if m.name in s.versions then
          Outcome(s, if s.versions[m.name] == m.version then None else Some(Collision(m.name)))
        else StageNew(w, l, s)
  }

  /** The first package of its name: recorded, copied, then its dependencies. */
  ghost function StageNew(w: World, l: Location, s: State): (o: Outcome)
    requires Valid(s) && l in w.manifests && w.manifests[l].name !in s.versions
    ensures Extends(s, o.state) && Valid(o.state)
    decreases Budget(w, s), 0
  {
    var m := w.manifests[l];
    if !w.copyable(l) then Outcome(Recorded(s, m), Some(CopyFailed(l)))
    else
      var copied := Copied(s, m, l);
      BudgetShrinks(w, s, copied, l);
      var o := StageDependencies(w, l, DependencyNames(m), copied);
      if o.failure.Some? then o else Outcome(Finished(o.state, m.name), None)
  }

  /** One turn of the loop over a package's dependencies: an optional one's failure is caught. */
  ghost function StageCatching(w: World, l: Location, name: Name, s: State): (o: Outcome)
    requires l in w.manifests && Valid(s)
    ensures Extends(s, o.state) && Valid(o.state)
    decreases Budget(w, s), 2
  {
    var first := Stage(w, l, name, s);
    if first.failure.Some? && Catches(w.manifests[l], name) then Outcome(Caught(s, first.state), None) else first
  }

  ghost function StageDependencies(w: World, l: Location, names: seq<Name>, s: State): (o: Outcome)
    requires l in w.manifests && Valid(s)
    ensures Extends(s, o.state) && Valid(o.state)
    decreases Budget(w, s), 3, |names|
  {
    if names == [] then Outcome(s, None)
    else
      var first := StageCatching(w, l, names[0], s);
      BudgetShrinks(w, s, first.state, l);
      if first.failure.Some? then first else StageDependencies(w, l, names[1..], first.state)
  }

  lemma UncopiedIsRecorded(w: World, l: Location, s: State)
    requires Valid(s) && l in w.manifests && w.manifests[l].name !in s.versions && !w.copyable(l)
    ensures StageNew(w, l, s) == Outcome(Recorded(s, w.manifests[l]), Some(CopyFailed(l)))
  {
  }

  lemma CopiedThenDependencies(w: World, l: Location, s: State)
    requires Valid(s) && l in w.manifests && w.manifests[l].name !in s.versions && w.copyable(l)
    ensures var o := StageDependencies(w, l, DependencyNames(w.manifests[l]), Copied(s, w.manifests[l], l));
      StageNew(w, l, s) == if o.failure.Some? then o else Outcome(Finished(o.state, w.manifests[l].name), None)
  {
  }

  lemma DependenciesAt(w: World, l: Location, names: seq<Name>, i: nat, s: State)
    requires l in w.manifests && Valid(s) && i < |names|
    ensures var first := StageCatching(w, l, names[i], s);
      StageDependencies(w, l, names[i..], s) ==
        if first.failure.Some? then first else StageDependencies(w, l, names[i + 1..], first.state)
  {
    assert names[i..][0] == names[i] && names[i..][1..] == names[i + 1..];
  }

  /** The names a caller asks for, one requester each: `stageRuntimePackages`, possibly several times over one map. */
  ghost function StageAll(w: World, requests: seq<(Location, Name)>, s: State): (o: Outcome)
    requires Valid(s)
    ensures Extends(s, o.state) && Valid(o.state)
    decreases |requests|
  {
    if requests == [] then Outcome(s, None)
    else
      var first := Stage(w, requests[0].0, requests[0].1, s);
      if first.failure.Some? then first else StageAll(w, requests[1..], first.state)
  }

  /** The walk as it runs, over one shared map and one destination directory. */
  class Stager {
    var stagedVersions: map<Name, string>
    var nodeModules: map<Name, Location>
    ghost var finished: set<Name>
    ghost var late: bool

    ghost function Now(): State
      reads this
    {
      State(stagedVersions, nodeModules, finished, late)
    }

    constructor ()
      ensures Now() == EMPTY
    {
      stagedVersions, nodeModules, finished, late := map[], map[], {}, false;
    }

    method StageExternalPackage(w: World, at: Location, name: Name) returns (failure: Option<Failure>)
      requires Valid(Now())
      modifies this
      ensures Outcome(Now(), failure) == Stage(w, at, name, old(Now()))
      decreases Budget(w, Now()), 0
    {
      if IsSdkBundledExecutablePackage(name) {
        return None;
      }
      var resolved := Resolve(w, at, name);
      if resolved.None? {
        return Some(Unresolved(name));
      }
      var l := resolved.value;
      var m := w.manifests[l];
      if m.name in stagedVersions {
        return if stagedVersions[m.name] == m.version then None else Some(Collision(m.name));
      }
      failure := StageNewPackage(w, l);
    }

    /** The rest of that call, for the first package of its name. */
    method StageNewPackage(w: World, l: Location) returns (failure: Option<Failure>)
      requires Valid(Now()) && l in w.manifests && w.manifests[l].name !in stagedVersions
      modifies this
      ensures Outcome(Now(), failure) == StageNew(w, l, old(Now()))
      decreases Budget(w, Now()), 0, 0
    {
      hide StageNew, StageDependencies, DependencyNames, Budget, Extends;
      var m := w.manifests[l];
      stagedVersions := stagedVersions[m.name := m.version];
      if !w.copyable(l) {
        UncopiedIsRecorded(w, l, old(Now()));
        return Some(CopyFailed(l));
      }
      nodeModules := nodeModules[m.name := l];
      ghost var copied := Now();
      assert copied == Copied(old(Now()), m, l);
      BudgetShrinks(w, old(Now()), copied, l);
      CopiedThenDependencies(w, l, old(Now()));
      failure := StageEach(w, l, DependencyNames(m));
      if failure.None? {
        finished := finished + {m.name};
      }
    }

    /** The loop of one package over its dependency names. */
    method StageEach(w: World, l: Location, names: seq<Name>) returns (failure: Option<Failure>)
      requires l in w.manifests && Valid(Now())
      modifies this
      ensures Outcome(Now(), failure) == StageDependencies(w, l, names, old(Now()))
      decreases Budget(w, Now()), 2
    {
      ghost var start, goal := Now(), StageDependencies(w, l, names, Now());
      assert names[0..] == names;
      for i := 0 to |names|
        invariant Valid(Now()) && Budget(w, Now()) <= Budget(w, start)
        invariant StageDependencies(w, l, names[i..], Now()) == goal
      {
        DependenciesAt(w, l, names, i, Now());
        ghost var before := Now();
        failure := StageOptional(w, l, names[i]);
        BudgetShrinks(w, before, Now(), l);
        if failure.Some? {
          return;
        }
      }
      return None;
    }

    /** The body of that loop: `try`, and `continue` from `catch` for an optional dependency. */
    method StageOptional(w: World, l: Location, name: Name) returns (failure: Option<Failure>)
      requires l in w.manifests && Valid(Now())
      modifies this
      ensures Outcome(Now(), failure) == StageCatching(w, l, name, old(Now()))
      decreases Budget(w, Now()), 1
    {
      failure := StageExternalPackage(w, l, name);
      if failure.Some? && Catches(w.manifests[l], name) {
        late := Caught(old(Now()), Now()).late;
        failure := None;
      }
    }

    method StageRuntimePackages(w: World, requester: Location, packageNames: seq<Name>)
      returns (failure: Option<Failure>)
      requires Valid(Now())
      modifies this
      ensures Outcome(Now(), failure) == StageAll(w, Requests(requester, packageNames), old(Now()))
    {
      ghost var requests := Requests(requester, packageNames);
      assert requests[0..] == requests;
      for i := 0 to |packageNames|
        invariant Valid(Now())
        invariant StageAll(w, requests[i..], Now()) == StageAll(w, requests, old(Now()))
      {
        assert requests[i..][0] == (requester, packageNames[i]) && requests[i..][1..] == requests[i + 1..];
        failure := StageExternalPackage(w, requester, packageNames[i]);
        if failure.Some? {
          return;
        }
      }
      return None;
    }
  }

  function Requests(requester: Location, packageNames: seq<Name>): (r: seq<(Location, Name)>)
    ensures |r| == |packageNames|
    ensures forall i | 0 <= i < |r| :: r[i] == (requester, packageNames[i])
  {
    seq(|packageNames|, i requires 0 <= i < |packageNames| => (requester, packageNames[i]))
  }
}
