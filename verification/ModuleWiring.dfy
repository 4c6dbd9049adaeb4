/**
 The island rules B, D, E and F of scripts/check-module-wiring.ts over the statements
 the patterns extract and an arbitrary resolution of relative specifiers.
 */
module ModuleWiring {
  import opened Prelude

  type Path = string

  datatype Kind = Html | Source | Other

  /** A scanned file, with the facts its path and its text give. */
  datatype File = File(
    path: Path,
    kind: Kind,
    scaffolding: bool,          // isTestScaffolding(path)
    candidate: bool,            // isCandidate(path)
    packageSource: bool,        // packages/<name>/src/…
    barrel: bool,               // isPackageBarrel(path)
    scripts: seq<Path>,         // targets of the script tags of an HTML file
    entries: seq<Path>,         // targets of the literal entries of a tsdown configuration
    specifiers: seq<string>,    // extractSpecifiers(content)
    erased: seq<string>,        // specifiers of the statements whose clause is type-only
    runtimeExport: bool,        // hasRuntimeExport(content)
    exportedNames: seq<string>,
    importedNames: set<string>)

  /** The files, the package export map, and `resolveRelative` from a path. */
  datatype Tree = Tree(files: seq<File>, exportMap: map<string, Path>, relative: (Path, string) -> Option<Path>)

  ghost predicate UniquePaths(tree: Tree) {
    forall f, g | f in tree.files && g in tree.files :: f.path == g.path ==> f == g
  }

  // ---------------------------------------------------------------- erased imports

  /** `all` without one occurrence, the first, for each in `erased`. */
  function Without(all: seq<string>, erased: multiset<string>): seq<string> {
    if all == [] then []
    else if all[0] in erased then Without(all[1..], erased - multiset{all[0]})
    else [all[0]] + Without(all[1..], erased)
  }

  function RuntimeSpecifiers(f: File): seq<string> {
    Without(f.specifiers, multiset(f.erased))
  }

  /** A specifier imported both ways keeps its runtime occurrences. */
  lemma {:induction false} WithoutCounts(all: seq<string>, erased: multiset<string>)
    ensures multiset(Without(all, erased)) == multiset(all) - erased
  {
    if all != [] {
      assert all == [all[0]] + all[1..];
      if all[0] in erased {
        WithoutCounts(all[1..], erased - multiset{all[0]});
      } else {
        WithoutCounts(all[1..], erased);
      }
    }
  }

  lemma RuntimeSpecifiersAreSpecifiers(f: File, s: string)
    ensures s in RuntimeSpecifiers(f) ==> s in f.specifiers
  {
    WithoutCounts(f.specifiers, multiset(f.erased));
    assert s in RuntimeSpecifiers(f) <==> s in multiset(RuntimeSpecifiers(f));
    assert s in f.specifiers <==> s in multiset(f.specifiers);
  }

  function Count(counts: map<string, nat>, s: string): nat {
    if s in counts then counts[s] else 0
  }

  ghost predicate Counts(counts: map<string, nat>, m: multiset<string>) {
    forall s: string :: Count(counts, s) == m[s]
  }

  lemma CountsNone()
    ensures Counts(map[], multiset{})
  {
  }

  lemma CountsMore(counts: map<string, nat>, m: multiset<string>, s: string)
    requires Counts(counts, m)
    ensures Counts(counts[s := Count(counts, s) + 1], m + multiset{s})
  {
  }

  lemma CountsFewer(counts: map<string, nat>, m: multiset<string>, s: string)
    requires Counts(counts, m) && Count(counts, s) > 0
    ensures Counts(counts[s := Count(counts, s) - 1], m - multiset{s})
  {
  }

  lemma CountsMembers(counts: map<string, nat>, m: multiset<string>, s: string)
    requires Counts(counts, m)
    ensures Count(counts, s) > 0 <==> s in m
  {
  }

  /** `extractRuntimeSpecifiers`: count the erased occurrences, then skip as many. */
  method ExtractRuntimeSpecifiers(f: File) returns (runtime: seq<string>)
    ensures runtime == RuntimeSpecifiers(f)
  {
    hide Counts;
    var erased: map<string, nat> := map[];
    CountsNone();
    assert multiset(f.erased[..0]) == multiset{};
    for i := 0 to |f.erased|
      invariant Counts(erased, multiset(f.erased[..i]))
    {
      assert f.erased[..i + 1] == f.erased[..i] + [f.erased[i]];
      CountsMore(erased, multiset(f.erased[..i]), f.erased[i]);
      erased := erased[f.erased[i] := Count(erased, f.erased[i]) + 1];
    }
    assert f.erased[..|f.erased|] == f.erased;
    runtime := [];
    ghost var left := multiset(f.erased);
    assert f.specifiers[0..] == f.specifiers;
    assert [] + RuntimeSpecifiers(f) == RuntimeSpecifiers(f);
    for i := 0 to |f.specifiers|
      invariant Counts(erased, left)
      invariant runtime + Without(f.specifiers[i..], left) == RuntimeSpecifiers(f)
    {
      var specifier := f.specifiers[i];
      assert f.specifiers[i..][0] == specifier && f.specifiers[i..][1..] == f.specifiers[i + 1..];
      var remaining := Count(erased, specifier);
      CountsMembers(erased, left, specifier);
      if remaining > 0 {
        CountsFewer(erased, left, specifier);
        erased := erased[specifier := remaining - 1];
        left := left - multiset{specifier};
      } else {
        assert runtime + ([specifier] + Without(f.specifiers[i + 1..], left))
            == (runtime + [specifier]) + Without(f.specifiers[i + 1..], left);
        runtime := runtime + [specifier];
      }
    }
    assert f.specifiers[|f.specifiers|..] == [];
  }

  // ---------------------------------------------------------------- references

  function Resolve(tree: Tree, f: File, specifier: string): Option<Path> {
    if "." <= specifier then tree.relative(f.path, specifier)
    else if specifier in tree.exportMap then Some(tree.exportMap[specifier])
    else None
  }

  predicate Known(tree: Tree, p: Path) {
    exists f | f in tree.files :: f.path == p
  }

  /** Files whose references never count: tests with their scaffolding, and islands. */
  predicate Counted(f: File, islands: set<Path>) {
    f.kind == Source && !f.scaffolding && f.path !in islands
  }

  function Specifiers(f: File, runtime: bool): seq<string> {
    if runtime then RuntimeSpecifiers(f) else f.specifiers
  }

  /** `f` refers to `target`, by an edge that survives type erasure if `runtime`. */
  predicate RefersTo(tree: Tree, f: File, runtime: bool, islands: set<Path>, target: Path) {
    if f.kind == Html then target in f.scripts && Known(tree, target)
    else
      && Counted(f, islands)
      && (|| (target in f.entries && Known(tree, target))
          || exists s | s in Specifiers(f, runtime) :: Resolve(tree, f, s) == Some(target))
  }

  predicate Referenced(tree: Tree, runtime: bool, islands: set<Path>, target: Path) {
    exists f | f in tree.files :: RefersTo(tree, f, runtime, islands, target)
  }

  /** A specifier stands in a file, if `runtime` more often than in imports that are erased. */
  predicate Stands(f: File, s: string, runtime: bool) {
    multiset(f.specifiers)[s] > if runtime then multiset(f.erased)[s] else 0
  }

  /** A specifier that starts with a dot goes by the file's own path, any other by the export map. */
  predicate Leads(tree: Tree, f: File, s: string, target: Path) {
    if s != "" && s[0] == '.' then tree.relative(f.path, s) == Some(target)
    else s in tree.exportMap && tree.exportMap[s] == target
  }

  /** A page's script tag, a counted file's bundler entry, or a counted file's import. */
  ghost predicate Names(tree: Tree, f: File, runtime: bool, islands: set<Path>, target: Path) {
    || (f.kind == Html && target in f.scripts && Known(tree, target))
    || (f.kind == Source && !f.scaffolding && f.path !in islands
        && ((target in f.entries && Known(tree, target))
            || exists s :: Stands(f, s, runtime) && Leads(tree, f, s, target)))
  }

  lemma ResolvesWhereItLeads(tree: Tree, f: File, s: string, target: Path)
    ensures Resolve(tree, f, s) == Some(target) <==> Leads(tree, f, s, target)
  {
    assert "." <= s <==> s != "" && s[0] == '.';
  }

  lemma OccursInSpecifiers(f: File, s: string, runtime: bool)
    ensures s in Specifiers(f, runtime) <==> Stands(f, s, runtime)
  {
    WithoutCounts(f.specifiers, multiset(f.erased));
    assert s in Specifiers(f, runtime) <==> s in multiset(Specifiers(f, runtime));
  }

  /** A module is referenced exactly when some file names it. */
  lemma ReferencesAreExact(tree: Tree, runtime: bool, islands: set<Path>, target: Path)
    ensures Referenced(tree, runtime, islands, target) <==>
      exists f | f in tree.files :: Names(tree, f, runtime, islands, target)
  {
    hide Specifiers, Resolve, Leads, Stands, Known;
    forall f | f in tree.files
      ensures RefersTo(tree, f, runtime, islands, target) <==> Names(tree, f, runtime, islands, target)
    {
      forall s
        ensures s in Specifiers(f, runtime) <==> Stands(f, s, runtime)
        ensures Resolve(tree, f, s) == Some(target) <==> Leads(tree, f, s, target)
      {
        OccursInSpecifiers(f, s, runtime);
        ResolvesWhereItLeads(tree, f, s, target);
      }
    }
  }

  /** `collectReferences`; `runtime` picks the extraction. */
  method CollectReferences(tree: Tree, runtime: bool, islands: set<Path>) returns (referenced: set<Path>)
    ensures forall p :: p in referenced <==> Referenced(tree, runtime, islands, p)
  {
    referenced := {};
    for i := 0 to |tree.files|
      invariant forall p :: p in referenced <==>
        exists f | f in tree.files[..i] :: RefersTo(tree, f, runtime, islands, p)
    {
      var f := tree.files[i];
      assert tree.files[..i + 1] == tree.files[..i] + [f];
      var targets := ReferencesOf(tree, f, runtime, islands);
      referenced := referenced + targets;
    }
    assert tree.files[..|tree.files|] == tree.files;
  }

  /** One turn of that loop: what one file adds. */
  method ReferencesOf(tree: Tree, f: File, runtime: bool, islands: set<Path>) returns (targets: set<Path>)
    ensures forall p :: p in targets <==> RefersTo(tree, f, runtime, islands, p)
  {
    targets := {};
    if f.kind == Html {
      targets := AddKnown(tree, f.scripts);
      return;
    }
    if f.kind != Source || f.scaffolding || f.path in islands {
      return;
    }
    var entries := AddKnown(tree, f.entries);
    var specifiers := f.specifiers;
    if runtime {
      specifiers := ExtractRuntimeSpecifiers(f);
    }
    for j := 0 to |specifiers|
      invariant forall p :: p in targets <==> exists s | s in specifiers[..j] :: Resolve(tree, f, s) == Some(p)
    {
      assert specifiers[..j + 1] == specifiers[..j] + [specifiers[j]];
      var resolved := Resolve(tree, f, specifiers[j]);
      if resolved.Some? {
        targets := targets + {resolved.value};
      }
    }
    assert specifiers[..|specifiers|] == specifiers;
    targets := entries + targets;
  }

  method AddKnown(tree: Tree, paths: seq<Path>) returns (targets: set<Path>)
    ensures forall p :: p in targets <==> p in paths && Known(tree, p)
  {
    targets := {};
    for j := 0 to |paths|
      invariant forall p :: p in targets <==> p in paths[..j] && Known(tree, p)
    {
      assert paths[..j + 1] == paths[..j] + [paths[j]];
      if Known(tree, paths[j]) {
        targets := targets + {paths[j]};
      }
    }
    assert paths[..|paths|] == paths;
  }

  // ---------------------------------------------------------------- rules B, D, E and F

  predicate Unreachable(tree: Tree, islands: set<Path>, f: File) {
    f.candidate && !Referenced(tree, false, islands, f.path)
  }

  predicate TypeOnly(tree: Tree, islands: set<Path>, f: File) {
    f.candidate && Referenced(tree, false, islands, f.path) && !Referenced(tree, true, islands, f.path)
    && f.runtimeExport
  }

  predicate Consumes(g: File, f: File, islands: set<Path>) {
    Counted(g, islands) && !g.barrel && g.path != f.path && exists n | n in f.exportedNames :: n in g.importedNames
  }

  predicate BarrelOnly(tree: Tree, islands: set<Path>, f: File) {
    f.packageSource && !f.barrel && f.candidate && f.exportedNames != []
    && !exists g | g in tree.files :: Consumes(g, f, islands)
  }

  function Filter(files: seq<File>, keep: File -> bool): (paths: seq<Path>)
    ensures forall p :: p in paths <==> exists f | f in files :: keep(f) && f.path == p
  {
    if files == [] then []
    else
      assert files == [files[0]] + files[1..];
      (if keep(files[0]) then [files[0].path] else []) + Filter(files[1..], keep)
  }

  method FindUnreachableModules(tree: Tree, exemptions: set<Path>, islands: set<Path>) returns (paths: seq<Path>)
    ensures forall p :: p in paths <==>
      p !in exemptions && exists f | f in tree.files :: Unreachable(tree, islands, f) && f.path == p
  {
    var referenced := CollectReferences(tree, false, islands);
    paths := Filter(tree.files, (f: File) => f.candidate && f.path !in referenced && f.path !in exemptions);
  }

  method FindTypeOnlyReferencedModules(tree: Tree, exemptions: set<Path>, islands: set<Path>) returns (paths: seq<Path>)
    ensures forall p :: p in paths <==>
      p !in exemptions && exists f | f in tree.files :: TypeOnly(tree, islands, f) && f.path == p
  {
    var referenced := CollectReferences(tree, false, islands);
    var runtimeReferenced := CollectReferences(tree, true, islands);
    paths := Filter(tree.files, (f: File) => f.candidate && f.path in referenced && f.path !in runtimeReferenced
                                     && f.path !in exemptions && f.runtimeExport);
  }

  /** The imported names by path, of every file that counts as a consumer. */
  method CollectImportedNames(tree: Tree, islands: set<Path>) returns (imported: map<Path, set<string>>)
    requires UniquePaths(tree)
    ensures forall p :: p in imported <==> exists g | g in tree.files :: Counted(g, islands) && !g.barrel && g.path == p
    ensures forall g | g in tree.files && g.path in imported :: imported[g.path] == g.importedNames
  {
    imported := map[];
    for i := 0 to |tree.files|
      invariant forall p :: p in imported <==>
        exists g | g in tree.files[..i] :: Counted(g, islands) && !g.barrel && g.path == p
      invariant forall g | g in tree.files && g.path in imported :: imported[g.path] == g.importedNames
    {
      var g := tree.files[i];
      assert tree.files[..i + 1] == tree.files[..i] + [g];
      if Counted(g, islands) && !g.barrel {
        imported := imported[g.path := g.importedNames];
      }
    }
    assert tree.files[..|tree.files|] == tree.files;
  }

  /** The file at `p`, another one, imports a name the candidate exports. */
  predicate ImportsFrom(imported: map<Path, set<string>>, p: Path, candidate: File)
    requires p in imported
  {
    p != candidate.path && exists n | n in candidate.exportedNames :: n in imported[p]
  }

  lemma UsedIsConsumed(tree: Tree, islands: set<Path>, imported: map<Path, set<string>>, candidate: File)
    requires forall p ::
      p in imported <==> exists g | g in tree.files :: Counted(g, islands) && !g.barrel && g.path == p
    requires forall g | g in tree.files && g.path in imported :: imported[g.path] == g.importedNames
    ensures (exists p | p in imported :: ImportsFrom(imported, p, candidate))
       <==> exists g | g in tree.files :: Consumes(g, candidate, islands)
  {
    if exists p | p in imported :: ImportsFrom(imported, p, candidate) {
      var p :| p in imported && ImportsFrom(imported, p, candidate);
      var g :| g in tree.files && Counted(g, islands) && !g.barrel && g.path == p;
      assert Consumes(g, candidate, islands);
    }
    if exists g | g in tree.files :: Consumes(g, candidate, islands) {
      var g :| g in tree.files && Consumes(g, candidate, islands);
      assert g.path in imported && imported[g.path] == g.importedNames;
      assert ImportsFrom(imported, g.path, candidate);
    }
  }

  method FindBarrelOnlyModules(tree: Tree, exemptions: set<Path>, islands: set<Path>) returns (paths: seq<Path>)
    requires UniquePaths(tree)
    ensures forall p :: p in paths <==>
      p !in exemptions && exists f | f in tree.files :: BarrelOnly(tree, islands, f) && f.path == p
  {
    hide Consumes, Counted, ImportsFrom;
    var imported := CollectImportedNames(tree, islands);
    paths := [];
    for i := 0 to |tree.files|
      invariant forall p :: p in paths <==>
        p !in exemptions && exists f | f in tree.files[..i] :: BarrelOnly(tree, islands, f) && f.path == p
    {
      var candidate := tree.files[i];
      assert tree.files[..i + 1] == tree.files[..i] + [candidate];
      var used := exists p | p in imported :: ImportsFrom(imported, p, candidate);
      UsedIsConsumed(tree, islands, imported, candidate);
      if candidate.packageSource && !candidate.barrel && candidate.candidate
         && candidate.path !in exemptions && candidate.exportedNames != [] && !used {
        paths := paths + [candidate.path];
      }
    }
    assert tree.files[..|tree.files|] == tree.files;
  }

  /** A module the rules find unreachable, type-only or barrel-only when `islands` contribute nothing. */
  predicate IsIsland(tree: Tree, islands: set<Path>, f: File) {
    Unreachable(tree, islands, f) || TypeOnly(tree, islands, f) || BarrelOnly(tree, islands, f)
  }

  /** The operator the exemption list feeds back into. */
  function Islands(tree: Tree, islands: set<Path>): set<Path> {
    set f | f in tree.files && IsIsland(tree, islands, f) :: f.path
  }

  /** Rule F; `exempt` is the key order of the exemption map. */
  method FindStaleIslandExemptions(tree: Tree, exempt: seq<Path>) returns (paths: seq<Path>)
    requires UniquePaths(tree)
    ensures forall p :: p in paths <==> p in exempt && p !in Islands(tree, Keys(exempt))
  {
    var islands := Keys(exempt);
    var b := FindUnreachableModules(tree, {}, islands);
    var e := FindTypeOnlyReferencedModules(tree, {}, islands);
    var d := FindBarrelOnlyModules(tree, {}, islands);
    var stillIslands := b + e + d;
    StillIslands(tree, islands, b, e, d);
    paths := [];
    for i := 0 to |exempt|
      invariant forall p :: p in paths <==> p in exempt[..i] && p !in Islands(tree, islands)
    {
      assert exempt[..i + 1] == exempt[..i] + [exempt[i]];
      if !Known(tree, exempt[i]) {
        assert exempt[i] !in Islands(tree, islands);
        paths := paths + [exempt[i]];
        continue;
      }
      if exempt[i] !in stillIslands {
        paths := paths + [exempt[i]];
      }
    }
    assert exempt[..|exempt|] == exempt;
  }

  lemma StillIslands(tree: Tree, islands: set<Path>, b: seq<Path>, e: seq<Path>, d: seq<Path>)
    requires forall p :: p in b <==> exists f | f in tree.files :: Unreachable(tree, islands, f) && f.path == p
    requires forall p :: p in e <==> exists f | f in tree.files :: TypeOnly(tree, islands, f) && f.path == p
    requires forall p :: p in d <==> exists f | f in tree.files :: BarrelOnly(tree, islands, f) && f.path == p
    ensures forall p :: p in b + e + d <==> p in Islands(tree, islands)
  {
  }

  function Keys(exempt: seq<Path>): set<Path> {
    set p | p in exempt
  }

  /** The island rules as the gate runs them, all against one exemption list. */
  method IslandViolations(tree: Tree, exempt: seq<Path>) returns (paths: seq<Path>)
    requires UniquePaths(tree)
    ensures paths == [] <==> Islands(tree, Keys(exempt)) == Keys(exempt)
    ensures forall p :: p in paths <==>
      p in Islands(tree, Keys(exempt)) - Keys(exempt) || p in Keys(exempt) - Islands(tree, Keys(exempt))
  {
    var islands := Keys(exempt);
    var b := FindUnreachableModules(tree, islands, islands);
    var e := FindTypeOnlyReferencedModules(tree, islands, islands);
    var d := FindBarrelOnlyModules(tree, islands, islands);
    var f := FindStaleIslandExemptions(tree, exempt);
    paths := b + e + d + f;
    assert forall p :: p in b || p in e || p in d <==> p in Islands(tree, islands) - islands;
    assert forall p :: p in f <==> p in islands - Islands(tree, islands);
    if paths == [] {
      assert forall p :: p !in Islands(tree, islands) - islands && p !in islands - Islands(tree, islands);
    } else {
      assert paths[0] in paths;
    }
  }

  // ---------------------------------------------------------------- the fixed point

  lemma FewerReferences(tree: Tree, runtime: bool, k: set<Path>, l: set<Path>, p: Path)
    requires k <= l && Referenced(tree, runtime, l, p)
    ensures Referenced(tree, runtime, k, p)
  {
  }

  lemma RuntimeReferencesAreReferences(tree: Tree, k: set<Path>, p: Path)
    requires Referenced(tree, true, k, p)
    ensures Referenced(tree, false, k, p)
  {
    var f :| f in tree.files && RefersTo(tree, f, true, k, p);
    forall s
      ensures s in RuntimeSpecifiers(f) ==> s in f.specifiers
    {
      RuntimeSpecifiersAreSpecifiers(f, s);
    }
    assert RefersTo(tree, f, false, k, p);
  }

  /** Another counted file, no barrel, imports something by a name that the module exports. */
  ghost predicate HasConsumer(tree: Tree, islands: set<Path>, f: File) {
    exists g, n :: g in tree.files && g.kind == Source && !g.scaffolding && g.path !in islands && !g.barrel
      && g.path != f.path && n in f.exportedNames && n in g.importedNames
  }

  /**
   What makes an island, the three rules together: a candidate that no counted file
   refers to, that has something at run time to export and no reference which survives
   erasure, or that is a package's own file and exports names which nobody consumes.
   */
  lemma IslandIsExactly(tree: Tree, islands: set<Path>, f: File)
    ensures IsIsland(tree, islands, f) <==>
      f.candidate
      && (|| !Referenced(tree, false, islands, f.path)
          || (f.runtimeExport && !Referenced(tree, true, islands, f.path))
          || (f.packageSource && !f.barrel && f.exportedNames != [] && !HasConsumer(tree, islands, f)))
  {
    hide Referenced;
    if Referenced(tree, true, islands, f.path) {
      RuntimeReferencesAreReferences(tree, islands, f.path);
    }
    assert HasConsumer(tree, islands, f) <==> exists g | g in tree.files :: Consumes(g, f, islands);
  }

  /** A longer exemption list never makes an island of the rules disappear. */
  lemma IslandsAreMonotone(tree: Tree, k: set<Path>, l: set<Path>)
    requires k <= l
    ensures Islands(tree, k) <= Islands(tree, l)
  {
    forall f | f in tree.files && IsIsland(tree, k, f)
      ensures IsIsland(tree, l, f)
    {
      if Referenced(tree, true, l, f.path) {
        FewerReferences(tree, true, k, l, f.path);
        RuntimeReferencesAreReferences(tree, k, f.path);
      }
      if BarrelOnly(tree, k, f) && exists g | g in tree.files :: Consumes(g, f, l) {
        var g :| g in tree.files && Consumes(g, f, l);
        assert Consumes(g, f, k);
      }
    }
  }

  ghost function Unlisted(tree: Tree, k: set<Path>): nat {
    |(set f | f in tree.files :: f.path) - k|
  }

  /** Adding every reported module, again and again, until none is reported. */
  ghost function AddReported(tree: Tree, k: set<Path>): set<Path>
    requires k <= Islands(tree, k)
    decreases Unlisted(tree, k)
  {
    var grown := Islands(tree, k);
    if grown == k then k
    else
      IslandsAreMonotone(tree, k, grown);
      FewerUnlisted(tree, k, grown);
      AddReported(tree, grown)
  }

  lemma FewerUnlisted(tree: Tree, k: set<Path>, grown: set<Path>)
    requires grown == Islands(tree, k) && k <= grown && k != grown
    ensures Unlisted(tree, grown) < Unlisted(tree, k)
  {
    hide IsIsland;
    var p :| p in grown && p !in k;
    FewerLeft(set f | f in tree.files :: f.path, k, grown, p);
  }

  lemma FewerLeft(all: set<Path>, k: set<Path>, grown: set<Path>, p: Path)
    requires k <= grown && p in all && p in grown && p !in k
    ensures |all - grown| < |all - k|
  {
    assert all - k == (all - grown) + (grown - k) * all;
    assert p in (grown - k) * all;
  }

  /** The repair ends at a clean list, contained in every list above its start that reports no missing entry. */
  lemma {:induction false} AddReportedIsLeast(tree: Tree, k: set<Path>)
    requires k <= Islands(tree, k)
    ensures var r := AddReported(tree, k);
      Islands(tree, r) == r && k <= r && forall m | Islands(tree, m) <= m && k <= m :: r <= m
    decreases Unlisted(tree, k)
  {
    var grown := Islands(tree, k);
    if grown != k {
      IslandsAreMonotone(tree, k, grown);
      FewerUnlisted(tree, k, grown);
      AddReportedIsLeast(tree, grown);
      forall m | Islands(tree, m) <= m && k <= m
        ensures AddReported(tree, k) <= m
      {
        IslandsAreMonotone(tree, k, m);
      }
    }
  }

  /** Starting from no exemption, the repair finds the least of all clean lists. */
  lemma LeastCleanList(tree: Tree)
    ensures {} <= Islands(tree, {})
    ensures var least := AddReported(tree, {});
      Islands(tree, least) == least && forall k | Islands(tree, k) == k :: least <= k
  {
    AddReportedIsLeast(tree, {});
  }

  // ---------------------------------------------------------------- rule E alone

  const PLAIN := File("", Source, false, false, false, false, [], [], [], [], false, [], {})

  /** `user.ts` imports the candidate `view.ts` for its types alone. */
  const TYPE_USER := Tree(
    [PLAIN.(path := "user.ts", specifiers := ["view"], erased := ["view"]),
     PLAIN.(path := "view.ts", candidate := true, runtimeExport := true)],
    map["view" := "view.ts"], (p, s) => None)

  /** Rule E keeps a module as the list grows exactly while anything still refers to it; after that rule B has it. */
  lemma TypeOnlyStaysWhileReferenced(tree: Tree, k: set<Path>, l: set<Path>, f: File)
    requires k <= l && TypeOnly(tree, k, f)
    ensures TypeOnly(tree, l, f) <==> Referenced(tree, false, l, f.path)
    ensures !TypeOnly(tree, l, f) <==> Unreachable(tree, l, f)
  {
    if Referenced(tree, true, l, f.path) {
      FewerReferences(tree, true, k, l, f.path);
    }
  }

  /** Exempting the importer moves the module from rule E to rule B, so E alone is not monotone. */
  lemma TypeOnlyIsNotMonotone()
    ensures var view := TYPE_USER.files[1];
      && TypeOnly(TYPE_USER, {}, view) && !TypeOnly(TYPE_USER, {"user.ts"}, view)
      && Unreachable(TYPE_USER, {"user.ts"}, view)
  {
    var user, view := TYPE_USER.files[0], TYPE_USER.files[1];
    assert "."[0] != "view"[0];
    assert Resolve(TYPE_USER, user, "view") == Some("view.ts");
    assert RefersTo(TYPE_USER, user, false, {}, "view.ts");
    assert RuntimeSpecifiers(user) == [] by {
      assert Without(["view"], multiset{"view"}) == Without([], multiset{"view"} - multiset{"view"});
    }
    assert RuntimeSpecifiers(view) == [];
  }

  /** Two candidates that import only each other. */
  const MUTUAL := Tree(
    [PLAIN.(path := "a.ts", candidate := true, specifiers := ["b"]),
     PLAIN.(path := "b.ts", candidate := true, specifiers := ["a"])],
    map["a" := "a.ts", "b" := "b.ts"], (p, s) => None)

  /** A clean list need not be the least one: exempting both or neither passes the gate. */
  lemma CleanListsAreNotUnique()
    ensures Islands(MUTUAL, {}) == {} && Islands(MUTUAL, {"a.ts", "b.ts"}) == {"a.ts", "b.ts"}
  {
    var a, b := MUTUAL.files[0], MUTUAL.files[1];
    assert "."[0] != "a"[0] && "."[0] != "b"[0];
    assert Resolve(MUTUAL, a, "b") == Some("b.ts") && Resolve(MUTUAL, b, "a") == Some("a.ts");
    assert RefersTo(MUTUAL, a, false, {}, "b.ts") && RefersTo(MUTUAL, b, false, {}, "a.ts");
    assert !IsIsland(MUTUAL, {}, a) && !IsIsland(MUTUAL, {}, b);
    var both := {"a.ts", "b.ts"};
    assert !Counted(a, both) && !Counted(b, both);
    assert IsIsland(MUTUAL, both, a) && IsIsland(MUTUAL, both, b);
    assert a in MUTUAL.files && b in MUTUAL.files;
    assert "a.ts" in Islands(MUTUAL, both) && "b.ts" in Islands(MUTUAL, both);
  }
}
