/** What the commands of scripts/sign-desktop.ts do to the bundle: signatures, seals, the staple and the archive. */
module BundleSigning {
  import opened Prelude
  import opened SigningOrder
  import Sorting

  datatype Command = Sign(target: Path, entitled: bool) | Check | Archive | Submit | ShowLog | Staple

  /** The bundle as an archive holds it. */
  datatype Snapshot = Snapshot(stamps: map<Path, nat>, seals: map<Path, map<Path, nat>>, stapled: bool)

  /**
   A signature rewrites its target and seals what lies inside it, so a later change inside
   breaks the seal. `stamps` counts how often each target was rewritten; `seals` holds, for
   each signed target, the stamps it was sealed over; `archive` is the archive as last written.
   */
  datatype Bundle = Bundle(contents: Snapshot, archive: Option<Snapshot>)

  function Stamp(stamps: map<Path, nat>, p: Path): nat {
    if p in stamps then stamps[p] else 0
  }

  function Signed(s: Snapshot, target: Path): Snapshot {
    var stamps := s.stamps[target := Stamp(s.stamps, target) + 1];
    s.(stamps := stamps, seals := s.seals[target := stamps])
  }

  function Execute(b: Bundle, c: Command): Bundle {
    match c
    case Sign(target, _) => b.(contents := Signed(b.contents, target))
    case Archive => b.(archive := Some(b.contents))
    case Staple => b.(contents := b.contents.(stapled := true))
    case _ => b
  }

  function ExecuteAll(b: Bundle, commands: seq<Command>): Bundle {
    if commands == [] then b
    else Execute(ExecuteAll(b, commands[..|commands| - 1]), commands[|commands| - 1])
  }

  /** The seal of `target` matches what is inside it now. */
  ghost predicate Matches(s: Snapshot, target: Path)
    requires target in s.seals
  {
    forall p :: Inside(p, target) ==> Stamp(s.stamps, p) == Stamp(s.seals[target], p)
  }

  ghost predicate Intact(s: Snapshot) {
    forall target :: target in s.seals ==> Matches(s, target)
  }

  // ---------------------------------------------------------------- the release

  function SignAll(targets: seq<Path>, entitled: bool): seq<Command> {
    seq(|targets|, i requires 0 <= i < |targets| => Sign(targets[i], entitled))
  }

  /** Vendored tools and the language server get no entitlements; everything else does. */
  ghost function Signatures(product: string, tools: seq<Path>): seq<Command> {
    SignAll(RuntimeTargets(), true) + SignAll(tools + [LANGUAGE_SERVER], false)
    + SignAll(PackagedOrder(product) + [[]], true)
  }

  ghost function Release(product: string, tools: seq<Path>, accepted: bool): seq<Command> {
    Signatures(product, tools) + [Check, Archive, Submit] + (if accepted then [Staple, Archive] else [ShowLog])
  }

  datatype Failure = CommandFailed | NotAccepted

  /** What the notary service answered; an answer without an id and a status is none. */
  datatype Submission = Submission(exitCode: int, status: string)

  predicate Accepted(s: Option<Submission>) {
    s.Some? && s.value.exitCode == 0 && s.value.status == "Accepted"
  }

  /** One release: `succeeds(k)` says whether the `k`-th command it runs succeeds. */
  class Signing {
    const succeeds: nat -> bool
    var bundle: Bundle
    var trace: seq<Command>

    constructor (bundle: Bundle, succeeds: nat -> bool)
      ensures this.bundle == bundle && this.succeeds == succeeds && trace == []
    {
      this.bundle, this.succeeds, trace := bundle, succeeds, [];
    }

    /** The commands run so far, in order, are those of the plan. */
    ghost predicate OnPlan(plan: seq<Command>, start: Bundle)
      reads this
    {
      && trace <= plan && bundle == ExecuteAll(start, trace)
      && forall k: nat :: k < |trace| ==> succeeds(k)
    }

    method Perform(c: Command, ghost plan: seq<Command>, ghost start: Bundle) returns (ok: bool)
      requires OnPlan(plan, start) && |trace| < |plan| && plan[|trace|] == c
      modifies this
      ensures OnPlan(plan, start)
      ensures ok ==> |trace| == |old(trace)| + 1
      ensures !ok ==> trace == old(trace) && !succeeds(|trace|)
    {
      ok := succeeds(|trace|);
      if ok {
        assert (trace + [c])[..|trace|] == trace;
        bundle := Execute(bundle, c);
        trace := trace + [c];
      }
    }

    method SignEach(targets: seq<Path>, entitled: bool, ghost plan: seq<Command>, ghost start: Bundle)
      returns (ok: bool)
      requires OnPlan(plan, start) && |trace| + |targets| <= |plan|
      requires forall i: nat :: i < |targets| ==> plan[|trace| + i] == Sign(targets[i], entitled)
      modifies this
      ensures OnPlan(plan, start)
      ensures ok ==> |trace| == |old(trace)| + |targets|
      ensures !ok ==> |trace| < |old(trace)| + |targets| && !succeeds(|trace|)
    {
      for i := 0 to |targets|
        invariant OnPlan(plan, start) && |trace| == |old(trace)| + i
      {
        ok := Perform(Sign(targets[i], entitled), plan, start);
        if !ok { return; }
      }
      return true;
    }

    /** The part of the order that is packaged elsewhere is looked up as each path comes. */
    method SignOrder(product: string, ghost plan: seq<Command>, ghost start: Bundle) returns (ok: bool)
      requires OnPlan(plan, start) && |trace| + |PackagedOrder(product)| <= |plan|
      requires forall i: nat :: i < |PackagedOrder(product)| ==> plan[|trace| + i] == Sign(PackagedOrder(product)[i], true)
      modifies this
      ensures OnPlan(plan, start)
      ensures ok ==> |trace| == |old(trace)| + |PackagedOrder(product)|
      ensures !ok ==> |trace| < |old(trace)| + |PackagedOrder(product)| && !succeeds(|trace|)
    {
      hide OnPlan, OrderFor, PackagedNativePath, ExecuteAll;
      var order := OrderFor(product);
      OrderIsPackaged(product);
      for i := 0 to |order|
        invariant OnPlan(plan, start) && |trace| == |old(trace)| + i
      {
        var path := PackagedNativePath(order[i]).value;
        assert path == PackagedOrder(product)[i];
        ok := Perform(Sign(path, true), plan, start);
        if !ok { return; }
      }
      return true;
    }

    /** The worker runtime, the tools and the language server. */
    method SignVendored(runtime: seq<Path>, tools: seq<Path>, ghost plan: seq<Command>, ghost start: Bundle)
      returns (ok: bool)
      requires OnPlan(plan, start) && |trace| + |runtime| + |tools| < |plan|
      requires forall i: nat :: i < |runtime| ==> plan[|trace| + i] == Sign(runtime[i], true)
      requires forall i: nat :: i < |tools| ==> plan[|trace| + |runtime| + i] == Sign(tools[i], false)
      requires plan[|trace| + |runtime| + |tools|] == Sign(LANGUAGE_SERVER, false)
      modifies this
      ensures OnPlan(plan, start)
      ensures ok ==> |trace| == |old(trace)| + |runtime| + |tools| + 1
      ensures !ok ==> |trace| <= |old(trace)| + |runtime| + |tools| && !succeeds(|trace|)
    {
      ok := SignEach(runtime, true, plan, start);
      if !ok { return; }
      ok := SignEach(tools, false, plan, start);
      if !ok { return; }
      ServerStaysInPlace();
      ok := Perform(Sign(PackagedNativePath(LANGUAGE_SERVER).value, false), plan, start);
    }

    method SignBundle(product: string, tools: seq<Path>, ghost plan: seq<Command>)
      returns (ok: bool)
      requires trace == [] && Signatures(product, tools) <= plan
      modifies this
      ensures OnPlan(plan, old(bundle))
      ensures ok ==> |trace| == |Signatures(product, tools)|
      ensures !ok ==> |trace| < |Signatures(product, tools)| && !succeeds(|trace|)
    {
      hide RuntimeTargets, PackagedOrder, Signatures, Execute;
      ghost var start := bundle;
      var runtime := RuntimeTargets();
      PlanOfRelease(product, tools, plan);
      ok := SignVendored(runtime, tools, plan, start);
      if !ok { return; }
      ok := SignOrder(product, plan, start);
      if !ok { return; }
      ok := Perform(Sign([], true), plan, start);
    }

    method SignAndNotarize(product: string, entries: Option<seq<Entry>>, less: (Path, Path) -> bool,
                           submission: Option<Submission>)
      returns (result: Result<(), Failure>)
      requires trace == []
      modifies this
      ensures var plan := Release(product, Tools(entries, less), Accepted(submission));
              && OnPlan(plan, old(bundle))
              && (result.Ok? <==> Accepted(submission) && trace == plan)
              && (result.Ok? ==> submission == Some(Submission(0, "Accepted")))
              && (result == Err(CommandFailed) ==> |trace| < |plan| && !succeeds(|trace|))
              && (result == Err(NotAccepted) ==> !Accepted(submission))
      ensures result.Ok? && ListsTools(entries, less) ==> Ships(bundle, Targets(product, Tools(entries, less)))
    {
      hide Signatures, ExecuteAll, RuntimeTargets, PackagedOrder, Sorting.Sort, MachOPaths;
      hide ListsTools, Ships, Targets;
      ghost var start := bundle;
      var tools := FindMachOFiles(entries, less);
      ghost var plan := Release(product, tools, Accepted(submission));
      PlanEnds(Signatures(product, tools), Accepted(submission));
      var ok := SignBundle(product, tools, plan);
      if !ok { return Err(CommandFailed); }
      ok := Perform(Check, plan, start);
      if !ok { return Err(CommandFailed); }
      ok := Perform(Archive, plan, start);
      if !ok { return Err(CommandFailed); }
      ok := Perform(Submit, plan, start);
      if !ok { return Err(CommandFailed); }
      if submission.None? { return Err(NotAccepted); }
      if submission.value.exitCode != 0 || submission.value.status != "Accepted" {
        ok := Perform(ShowLog, plan, start);
        return Err(if ok then NotAccepted else CommandFailed);
      }
      ok := Perform(Staple, plan, start);
      if !ok { return Err(CommandFailed); }
      ok := Perform(Archive, plan, start);
      if !ok { return Err(CommandFailed); }
      if ListsTools(entries, less) { FoundReleaseIsSealed(product, entries, less, start); }
      return Ok(());
    }
  }

  function Tools(entries: Option<seq<Entry>>, less: (Path, Path) -> bool): seq<Path> {
    if entries.None? then [] else Sorting.Sort(DeeperFirst(less), MachOPaths(entries.value))
  }

  lemma PlanOfSignatures(product: string, tools: seq<Path>)
    ensures var all := Signatures(product, tools);
            var runtime, order := RuntimeTargets(), PackagedOrder(product);
            var server := |runtime| + |tools|;
            && |all| == server + 1 + |order| + 1
            && (forall i: nat :: i < |runtime| ==> all[i] == Sign(runtime[i], true))
            && (forall i: nat :: i < |tools| ==> all[|runtime| + i] == Sign(tools[i], false))
            && all[server] == Sign(LANGUAGE_SERVER, false)
            && (forall i: nat :: i < |order| ==> all[server + 1 + i] == Sign(order[i], true))
            && all[server + 1 + |order|] == Sign([], true)
  {
    hide RuntimeTargets, PackagedOrder, SignAll;
    PlanOfParts(RuntimeTargets(), tools, PackagedOrder(product));
  }

  lemma PlanOfParts(runtime: seq<Path>, tools: seq<Path>, order: seq<Path>)
    ensures var all := SignAll(runtime, true) + SignAll(tools + [LANGUAGE_SERVER], false) + SignAll(order + [[]], true);
            var server := |runtime| + |tools|;
            && |all| == server + 1 + |order| + 1
            && (forall i: nat :: i < |runtime| ==> all[i] == Sign(runtime[i], true))
            && (forall i: nat :: i < |tools| ==> all[|runtime| + i] == Sign(tools[i], false))
            && all[server] == Sign(LANGUAGE_SERVER, false)
            && (forall i: nat :: i < |order| ==> all[server + 1 + i] == Sign(order[i], true))
            && all[server + 1 + |order|] == Sign([], true)
  {
  }

  lemma PlanEnds(signs: seq<Command>, accepted: bool)
    ensures var n := |signs|;
            var plan := signs + [Check, Archive, Submit] + (if accepted then [Staple, Archive] else [ShowLog]);
            && signs <= plan && |plan| == n + (if accepted then 5 else 4)
            && plan[n] == Check && plan[n + 1] == Archive && plan[n + 2] == Submit
            && (if accepted then plan[n + 3] == Staple && plan[n + 4] == Archive else plan[n + 3] == ShowLog)
  {
  }

  lemma PlanOfRelease(product: string, tools: seq<Path>, plan: seq<Command>)
    requires Signatures(product, tools) <= plan
    ensures var runtime, order := RuntimeTargets(), PackagedOrder(product);
            var server := |runtime| + |tools|;
            && |Signatures(product, tools)| == server + 1 + |order| + 1 <= |plan|
            && (forall i: nat :: i < |runtime| ==> plan[i] == Sign(runtime[i], true))
            && (forall i: nat :: i < |tools| ==> plan[|runtime| + i] == Sign(tools[i], false))
            && plan[server] == Sign(LANGUAGE_SERVER, false)
            && (forall i: nat :: i < |order| ==> plan[server + 1 + i] == Sign(order[i], true))
            && plan[server + 1 + |order|] == Sign([], true)
  {
    hide RuntimeTargets, PackagedOrder, Signatures;
    PlanOfSignatures(product, tools);
    assert forall i :: 0 <= i < |Signatures(product, tools)| ==> plan[i] == Signatures(product, tools)[i];
  }

  // ---------------------------------------------------------------- seals

  predicate OnlySigns(commands: seq<Command>) {
    forall i :: 0 <= i < |commands| ==> commands[i].Sign?
  }

  function TargetsOf(commands: seq<Command>): seq<Path>
    requires OnlySigns(commands)
  {
    seq(|commands|, i requires 0 <= i < |commands| => commands[i].target)
  }

  /** The seal is not newer than the bundle: it holds stamps its target has had. */
  ghost predicate Lags(s: Snapshot, target: Path)
    requires target in s.seals
  {
    forall p :: Stamp(s.seals[target], p) <= Stamp(s.stamps, p)
  }

  /** Something inside `t` is signed, and `t` never again. */
  ghost predicate Disturbed(targets: seq<Path>, t: Path) {
    exists j :: 0 <= j < |targets| && Disturbs(targets, t, j)
  }

  predicate Disturbs(targets: seq<Path>, t: Path, j: nat)
    requires j < |targets|
  {
    Inside(targets[j], t) && forall k :: j < k < |targets| ==> targets[k] != t
  }

  lemma DisturbedByOneMore(targets: seq<Path>, x: Path, t: Path)
    ensures Disturbed(targets + [x], t) <==> x != t && (Disturbed(targets, t) || Inside(x, t))
  {
    var more, n := targets + [x], |targets|;
    assert more[n] == x;
    assert Disturbs(more, t, n) <==> Inside(x, t);
    forall j: nat | j < n
      ensures Disturbs(more, t, j) <==> Disturbs(targets, t, j) && x != t
    {
      assert forall k :: j < k < n ==> more[k] == targets[k];
    }
  }

  lemma SigningSeals(s: Snapshot, x: Path)
    ensures x in Signed(s, x).seals && Lags(Signed(s, x), x) && Matches(Signed(s, x), x)
  {
  }

  /** Another seal stays as it is, and goes on matching exactly when what is signed does not lie inside. */
  lemma SigningDisturbs(s: Snapshot, x: Path, t: Path)
    requires x != t && t in s.seals && Lags(s, t)
    ensures t in Signed(s, x).seals && Lags(Signed(s, x), t)
    ensures Matches(Signed(s, x), t) <==> Matches(s, t) && !Inside(x, t)
  {
    var n := Signed(s, x);
    assert Stamp(s.seals[t], x) <= Stamp(s.stamps, x) < Stamp(n.stamps, x);
    assert forall p :: p != x ==> Stamp(n.stamps, p) == Stamp(s.stamps, p);
  }

  lemma OneMoreTarget(commands: seq<Command>)
    requires OnlySigns(commands) && commands != []
    ensures var n := |commands| - 1;
      OnlySigns(commands[..n]) && TargetsOf(commands) == TargetsOf(commands[..n]) + [commands[n].target]
  {
  }

  /** Whatever seals the bundle came with: one taken here matches at the end exactly when it was not disturbed since. */
  lemma {:induction false} TakenSealMatchesExactly(b: Bundle, commands: seq<Command>, t: Path)
    requires OnlySigns(commands) && t in TargetsOf(commands)
    ensures var s := ExecuteAll(b, commands).contents;
      t in s.seals && Lags(s, t) && (Matches(s, t) <==> !Disturbed(TargetsOf(commands), t))
  {
    hide Lags, Matches, Disturbed, Signed;
    var n := |commands| - 1;
    var before, x := commands[..n], commands[n].target;
    var s := ExecuteAll(b, before).contents;
    OneMoreTarget(commands);
    DisturbedByOneMore(TargetsOf(before), x, t);
    if x == t {
      SigningSeals(s, x);
    } else {
      TakenSealMatchesExactly(b, before, t);
      SigningDisturbs(s, x, t);
    }
  }

  /** One the bundle came with and that is not taken anew matches exactly when it did and nothing is signed inside. */
  lemma {:induction false} OldSealMatchesExactly(b: Bundle, commands: seq<Command>, t: Path)
    requires OnlySigns(commands) && t !in TargetsOf(commands)
    requires t in b.contents.seals && Lags(b.contents, t)
    ensures var s := ExecuteAll(b, commands).contents;
      t in s.seals && Lags(s, t)
      && (Matches(s, t) <==> Matches(b.contents, t) && !Disturbed(TargetsOf(commands), t))
  {
    hide Lags, Matches, Signed;
    if commands != [] {
      var n := |commands| - 1;
      var before, x := commands[..n], commands[n].target;
      OneMoreTarget(commands);
      DisturbedByOneMore(TargetsOf(before), x, t);
      OldSealMatchesExactly(b, before, t);
      SigningDisturbs(ExecuteAll(b, before).contents, x, t);
    }
  }

  lemma {:induction false} SealedTargets(b: Bundle, commands: seq<Command>)
    requires OnlySigns(commands)
    ensures forall t ::
      t in ExecuteAll(b, commands).contents.seals <==> t in b.contents.seals || t in TargetsOf(commands)
  {
    if commands != [] {
      SealedTargets(b, commands[..|commands| - 1]);
      OneMoreTarget(commands);
    }
  }

  /** No target is left disturbed: one is signed again after whatever is signed inside it. */
  ghost predicate Resealed(targets: seq<Path>) {
    forall t | t in targets :: !Disturbed(targets, t)
  }

  lemma InsideOutIsResealed(targets: seq<Path>)
    ensures InsideOut(targets) ==> Resealed(targets)
    ensures Distinct(targets) && Resealed(targets) ==> InsideOut(targets)
  {
    if InsideOut(targets) {
      forall t | t in targets
        ensures !Disturbed(targets, t)
      {
        var i :| 0 <= i < |targets| && targets[i] == t;
      }
    }
    if Distinct(targets) && Resealed(targets) {
      forall i, j | 0 <= i < j < |targets|
        ensures !Inside(targets[j], targets[i])
      {
        assert targets[i] in targets && !Disturbs(targets, targets[i], j);
      }
    }
  }

  /** Every target has its seal, and the seal matches. */
  ghost predicate Sealed(s: Snapshot, targets: seq<Path>) {
    forall t | t in targets :: t in s.seals && Matches(s, t)
  }

  /** Signed inside out, whatever the bundle came with, every seal taken matches at the end. */
  lemma InsideOutIsSealed(b: Bundle, commands: seq<Command>)
    requires OnlySigns(commands) && InsideOut(TargetsOf(commands))
    ensures Sealed(ExecuteAll(b, commands).contents, TargetsOf(commands))
  {
    InsideOutIsResealed(TargetsOf(commands));
    forall t | t in TargetsOf(commands)
      ensures t in ExecuteAll(b, commands).contents.seals && Matches(ExecuteAll(b, commands).contents, t)
    {
      TakenSealMatchesExactly(b, commands, t);
    }
  }

  /** The seals the bundle came with and that are not taken anew. */
  ghost predicate Kept(s: Snapshot, targets: seq<Path>, t: Path) {
    t in s.seals && t !in targets
  }

  ghost predicate KeptLag(s: Snapshot, targets: seq<Path>) {
    forall t | Kept(s, targets, t) :: Lags(s, t)
  }

  ghost predicate HoldsTarget(targets: seq<Path>, t: Path) {
    exists j :: 0 <= j < |targets| && Inside(targets[j], t)
  }

  /** Each of them matches, and no target lies inside. */
  ghost predicate KeptStand(s: Snapshot, targets: seq<Path>) {
    forall t | Kept(s, targets, t) :: Matches(s, t) && !HoldsTarget(targets, t)
  }

  lemma NeverSignedIsDisturbed(targets: seq<Path>, t: Path)
    requires t !in targets
    ensures Disturbed(targets, t) <==> HoldsTarget(targets, t)
  {
    forall j | 0 <= j < |targets| && Inside(targets[j], t)
      ensures Disturbed(targets, t)
    {
      assert Disturbs(targets, t, j);
    }
  }

  /**
   Exactly, for any targets and any bundle whose kept seals are not newer than itself:
   every seal matches at the end just when no target is left disturbed, which for
   distinct targets is the inside-out order, and every kept seal matched and has no
   target inside.
   */
  lemma SealsHoldExactly(b: Bundle, commands: seq<Command>)
    requires OnlySigns(commands) && KeptLag(b.contents, TargetsOf(commands))
    ensures var targets := TargetsOf(commands);
      && (Intact(ExecuteAll(b, commands).contents) <==> Resealed(targets) && KeptStand(b.contents, targets))
      && (Distinct(targets) ==> (Resealed(targets) <==> InsideOut(targets)))
  {
    hide Matches, Lags, Disturbed, HoldsTarget, ExecuteAll;
    var targets, s := TargetsOf(commands), ExecuteAll(b, commands).contents;
    InsideOutIsResealed(targets);
    SealedTargets(b, commands);
    forall t | t in targets
      ensures t in s.seals && (Matches(s, t) <==> !Disturbed(targets, t))
    {
      TakenSealMatchesExactly(b, commands, t);
    }
    forall t | Kept(b.contents, targets, t)
      ensures t in s.seals && (Matches(s, t) <==> Matches(b.contents, t) && !HoldsTarget(targets, t))
    {
      OldSealMatchesExactly(b, commands, t);
      NeverSignedIsDisturbed(targets, t);
    }
  }

  // ---------------------------------------------------------------- what ships

  lemma TargetsOfParts(a: seq<Path>, b: seq<Path>, c: seq<Path>)
    ensures var commands := SignAll(a, true) + SignAll(b, false) + SignAll(c, true);
            OnlySigns(commands) && TargetsOf(commands) == a + b + c
  {
  }

  lemma Regroup(a: seq<Path>, b: seq<Path>, p: Path, c: seq<Path>, q: Path)
    ensures a + (b + [p]) + (c + [q]) == a + b + [p] + c + [q]
  {
  }

  lemma SignaturesOfTargets(product: string, tools: seq<Path>)
    ensures OnlySigns(Signatures(product, tools))
    ensures TargetsOf(Signatures(product, tools)) == Targets(product, tools)
  {
    var runtime, order := RuntimeTargets(), PackagedOrder(product);
    TargetsOfParts(runtime, tools + [LANGUAGE_SERVER], order + [[]]);
    Regroup(runtime, tools, LANGUAGE_SERVER, order, []);
  }

  lemma ExecuteMore(b: Bundle, commands: seq<Command>, c: Command)
    ensures ExecuteAll(b, commands + [c]) == Execute(ExecuteAll(b, commands), c)
  {
  }

  /** What ships: the archive is the stapled bundle, and every target's seal in it matches. */
  ghost predicate Ships(b: Bundle, targets: seq<Path>) {
    b.contents.stapled && b.archive == Some(b.contents) && Sealed(b.contents, targets)
  }

  lemma StapleKeepsSeals(s: Snapshot)
    ensures forall t | t in s.seals :: Matches(s.(stapled := true), t) <==> Matches(s, t)
  {
  }

  /**
   A release that runs to its end, whatever signatures the bundle came with: when the app
   is verified every seal taken matches, the app's own included, and all seals do exactly
   when the kept ones stood; the archive that ships is that bundle, stapled, unchanged
   since its staple.
   */
  lemma ReleaseIsSealed(product: string, tools: seq<Path>, b: Bundle)
    requires InsideOut(tools) && TaggedAt(tools, 2, {ManagedTools})
    ensures var targets := Targets(product, tools);
            var checked := ExecuteAll(b, Signatures(product, tools));
            var shipped := ExecuteAll(b, Release(product, tools, true));
            && [] in targets && Sealed(checked.contents, targets)
            && (KeptLag(b.contents, targets) ==> (Intact(checked.contents) <==> KeptStand(b.contents, targets)))
            && shipped.contents == checked.contents.(stapled := true) && Ships(shipped, targets)
  {
    hide Targets, Signatures, InsideOut, Resealed, KeptLag, KeptStand, Intact, Matches, ExecuteAll;
    var targets, signs := Targets(product, tools), Signatures(product, tools);
    TargetsAreInsideOut(product, tools);
    SignaturesOfTargets(product, tools);
    AppIsATarget(product, tools);
    InsideOutIsSealed(b, signs);
    InsideOutIsResealed(targets);
    if KeptLag(b.contents, targets) { SealsHoldExactly(b, signs); }
    ReleaseEnds(b, signs, true);
    StapleKeepsSeals(ExecuteAll(b, signs).contents);
  }

  lemma AppIsATarget(product: string, tools: seq<Path>)
    ensures [] in Targets(product, tools)
  {
    hide RuntimeTargets, PackagedOrder;
    assert Targets(product, tools)[|Targets(product, tools)| - 1] == [];
  }

  /** The tools folder as its walk lists it: tools, which `less` puts in a strict order. */
  ghost predicate ListsTools(entries: Option<seq<Entry>>, less: (Path, Path) -> bool) {
    entries.Some? ==>
      && Sorting.StrictTotalOrderOn(less, PathsOf(entries.value))
      && forall e :: e in entries.value ==> IsTool(e.path)
  }

  function PathsOf(entries: seq<Entry>): set<Path> {
    set e | e in entries :: e.path
  }

  /** Whatever tools are found: they and all other targets of the release ship with matching seals. */
  lemma FoundReleaseIsSealed(product: string, entries: Option<seq<Entry>>, less: (Path, Path) -> bool, b: Bundle)
    requires ListsTools(entries, less)
    ensures var tools := Tools(entries, less);
            Ships(ExecuteAll(b, Release(product, tools, true)), Targets(product, tools))
  {
    hide Ships, Release, Targets, ExecuteAll, InsideOut, TaggedAt, Sorting.StrictTotalOrderOn, IsTool;
    if entries.Some? { FoundToolsAreInsideOut(entries.value, less, PathsOf(entries.value)); }
    NoTools();
    ReleaseIsSealed(product, Tools(entries, less), b);
  }

  lemma NoTools()
    ensures InsideOut([]) && TaggedAt([], 2, {ManagedTools})
  {
  }

  /** A release the notary turned down leaves the bundle unstapled, and so its archive. */
  lemma RefusedIsUnstapled(product: string, tools: seq<Path>, b: Bundle)
    requires !b.contents.stapled
    ensures var left := ExecuteAll(b, Release(product, tools, false));
            !left.contents.stapled && left.archive == Some(left.contents)
  {
    SignaturesOfTargets(product, tools);
    var signs := Signatures(product, tools);
    SigningNeverStaples(b, signs);
    ReleaseEnds(b, signs, false);
  }

  lemma {:induction false} SigningNeverStaples(b: Bundle, commands: seq<Command>)
    requires OnlySigns(commands)
    ensures ExecuteAll(b, commands).contents.stapled == b.contents.stapled
  {
    if commands != [] {
      SigningNeverStaples(b, commands[..|commands| - 1]);
    }
  }

  lemma ReleaseEnds(b: Bundle, signs: seq<Command>, accepted: bool)
    ensures var checked := ExecuteAll(b, signs).contents;
            ExecuteAll(b, signs + [Check, Archive, Submit] + (if accepted then [Staple, Archive] else [ShowLog]))
            == if accepted then Bundle(checked.(stapled := true), Some(checked.(stapled := true)))
               else Bundle(checked, Some(checked))
  {
    var one := signs + [Check];
    var two := one + [Archive];
    var three := two + [Submit];
    ExecuteMore(b, signs, Check);
    ExecuteMore(b, one, Archive);
    ExecuteMore(b, two, Submit);
    assert signs + [Check, Archive, Submit] == three;
    if accepted {
      ExecuteMore(b, three, Staple);
      ExecuteMore(b, three + [Staple], Archive);
      assert three + [Staple, Archive] == three + [Staple] + [Archive];
    } else {
      ExecuteMore(b, three, ShowLog);
    }
  }
}
