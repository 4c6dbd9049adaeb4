/**
 Which declarations the markers of scripts/check-ui-stylesheets.ts exempt, exactly: they
 wait in a queue, so one left over exempts a later block.
 */
module StylesheetExemptions {
  import opened Prelude
  import opened StylesheetText
  import opened StylesheetReader
  import opened StylesheetProperties
  import opened StylesheetDeclarations

  lemma {:induction false} OpensIncrease(s: Sheet, at: nat)
    ensures Increasing(Opens(s, at))
    ensures forall o | o in Opens(s, at) :: at <= o < at + Length(s)
    decreases s
  {
    match s
    case End =>
    case Then(item, next) =>
      ItemOpensIncrease(item, at);
      OpensIncrease(next, at + Width(item));
      JoinIncreasing(OpensIn(item, at), Opens(next, at + Width(item)), at + Width(item));
  }

  lemma {:induction false} ItemOpensIncrease(i: Item, at: nat)
    ensures Increasing(OpensIn(i, at))
    ensures forall o | o in OpensIn(i, at) :: at <= o < at + Width(i)
    decreases i
  {
    if i.Block? {
      var brace := at + |i.header|;
      OpensIncrease(i.body, brace + 1);
      JoinIncreasing([brace], Opens(i.body, brace + 1), brace + 1);
    }
  }

  lemma JoinIncreasing(a: seq<nat>, b: seq<nat>, mid: nat)
    requires Increasing(a) && Increasing(b)
    requires (forall x | x in a :: x < mid) && (forall x | x in b :: mid <= x)
    ensures Increasing(a + b)
  {
    assert forall i | 0 <= i < |a| :: a[i] in a;
    assert forall i | 0 <= i < |b| :: b[i] in b;
  }

  /** Whether the opening `o` is the first after some marker, `previous` being the one before it. */
  predicate FirstAfterMarker(markers: seq<nat>, previous: int, o: nat) {
    exists m | m in markers :: previous < m <= o
  }

  function Firsts(opens: seq<nat>, markers: seq<nat>, previous: int): (flags: seq<bool>)
    ensures |flags| == |opens|
  {
    if opens == [] then []
    else [FirstAfterMarker(markers, previous, opens[0])] + Firsts(opens[1..], markers, opens[0])
  }

  /** A block opens between the two offsets, at the first at the earliest. */
  ghost predicate OpensBetween(opens: seq<nat>, a: nat, b: nat) {
    exists o :: o in opens && a <= o < b
  }

  lemma {:induction false} FirstsForgetTaken(opens: seq<nat>, markers: seq<nat>, more: seq<nat>, previous: int)
    requires forall o | o in opens :: previous < o
    requires forall m | m in more :: m <= previous
    requires Increasing(opens)
    ensures Firsts(opens, more + markers, previous) == Firsts(opens, markers, previous)
  {
    if opens != [] {
      assert opens == [opens[0]] + opens[1..];
      assert forall i | 0 <= i < |opens[1..]| :: opens[1..][i] == opens[i + 1] && opens[i + 1] > opens[0];
      assert opens[0] in opens && previous < opens[0];
      if FirstAfterMarker(more + markers, previous, opens[0]) {
        var m :| m in more + markers && previous < m <= opens[0];
        assert m in markers;
      }
      if FirstAfterMarker(markers, previous, opens[0]) {
        var m :| m in markers && previous < m <= opens[0];
        assert m in more + markers;
      }
      FirstsForgetTaken(opens[1..], markers, more, opens[0]);
    }
  }

  /** Before block `k`, which no flag marks, two markers with no block between them: one of them is left over. */
  ghost predicate Spills(opens: seq<nat>, markers: seq<nat>, flags: seq<bool>, k: nat, i: nat, j: nat)
    requires |flags| == |opens|
  {
    k < |opens| && i < j < |markers| && !flags[k] && markers[j] <= opens[k] && !OpensBetween(opens, markers[i], markers[j])
  }

  /** No marker is left over for a block that is not the first after one. */
  ghost predicate NoneSpills(opens: seq<nat>, markers: seq<nat>, flags: seq<bool>)
    requires |flags| == |opens|
  {
    forall k: nat, i: nat, j: nat :: !Spills(opens, markers, flags, k, i, j)
  }

  predicate AllTrue(flags: seq<bool>) {
    forall k | 0 <= k < |flags| :: flags[k]
  }

  lemma TailIncreases(s: seq<nat>)
    requires Increasing(s) && s != []
    ensures Increasing(s[1..]) && forall x | x in s[1..] :: s[0] < x
  {
  }

  lemma TakenIsFirst(markers: seq<nat>, previous: int, o: nat)
    requires Increasing(markers) && forall m | m in markers :: previous < m
    ensures Taken(markers, o) == FirstAfterMarker(markers, previous, o)
  {
    if markers != [] {
      TailIncreases(markers);
      assert markers[0] in markers && markers == [markers[0]] + markers[1..];
    }
  }

  lemma FlagsSplit(x: bool, y: bool, xs: seq<bool>, ys: seq<bool>)
    ensures [x] + xs == [y] + ys <==> x == y && xs == ys
  {
    assert ([x] + xs)[1..] == xs && ([y] + ys)[1..] == ys;
  }

  /** While a marker is left over every block takes one, so the flags agree only if every block is a first. */
  lemma {:induction false} LeftOverTakesAll(opens: seq<nat>, markers: seq<nat>, previous: int)
    requires Increasing(opens) && Increasing(markers) && forall o | o in opens :: previous < o
    requires markers != [] && markers[0] <= previous
    ensures Takes(opens, markers) == Firsts(opens, markers, previous) <==> AllTrue(Firsts(opens, markers, previous))
    decreases |opens|
  {
    if opens != [] {
      var o, rest, behind := opens[0], opens[1..], markers[1..];
      var first := FirstAfterMarker(markers, previous, o);
      TailIncreases(opens);
      TailIncreases(markers);
      assert o in opens && Taken(markers, o) && Behind(markers, o) == behind;
      assert markers == [markers[0]] + behind;
      FirstsForgetTaken(rest, behind, [markers[0]], o);
      assert Firsts(opens, markers, previous) == [first] + Firsts(rest, behind, o);
      FlagsSplit(true, first, Takes(rest, behind), Firsts(rest, behind, o));
      AllTrueSplits(first, Firsts(rest, behind, o));
      if first {
        var m :| m in markers && previous < m <= o;
        assert m in behind;
        HeadIsLeast(behind, m);
        LeftOverTakesAll(rest, behind, o);
      }
    }
  }

  lemma AllTrueSplits(first: bool, rest: seq<bool>)
    ensures AllTrue([first] + rest) <==> first && AllTrue(rest)
  {
    var all := [first] + rest;
    assert all[0] == first;
    if AllTrue(all) {
      assert forall k | 0 <= k < |rest| :: rest[k] == all[k + 1];
    }
  }

  lemma HeadIsLeast(s: seq<nat>, m: nat)
    requires Increasing(s) && m in s
    ensures s != [] && s[0] <= m
  {
  }

  /**
   The queue flags exactly the first block after each marker when, and only when, no
   marker is left over for a block that is not one.
   */
  lemma {:induction false} TakesAreFirstsExactly(opens: seq<nat>, markers: seq<nat>, previous: int)
    requires Increasing(opens) && Increasing(markers)
    requires (forall o | o in opens :: previous < o) && (forall m | m in markers :: previous < m)
    ensures Takes(opens, markers) == Firsts(opens, markers, previous) <==>
      NoneSpills(opens, markers, Firsts(opens, markers, previous))
    decreases |opens|
  {
    if opens != [] {
      var o, rest := opens[0], opens[1..];
      var behind := Behind(markers, o);
      var first := FirstAfterMarker(markers, previous, o);
      assert opens == [o] + rest && o in opens;
      TailIncreases(opens);
      TakenIsFirst(markers, previous, o);
      BehindIncreases(markers, o);
      FirstsBehind(rest, markers, o);
      FlagsSplit(first, first, Takes(rest, behind), Firsts(rest, behind, o));
      if behind != [] && behind[0] <= o {
        LeftOverSpills(o, rest, markers, previous);
        LeftOverTakesAll(rest, behind, o);
      } else {
        assert forall m | m in behind :: o < m by {
          forall m | m in behind ensures o < m { HeadIsLeast(behind, m); }
        }
        TakesAreFirstsExactly(rest, behind, o);
        SpillsBehind(o, rest, markers, first, Firsts(rest, behind, o));
      }
    }
  }

  lemma BehindIncreases(markers: seq<nat>, o: nat)
    requires Increasing(markers)
    ensures Increasing(Behind(markers, o)) && forall m | m in Behind(markers, o) :: m in markers
  {
  }

  lemma FirstsBehind(rest: seq<nat>, markers: seq<nat>, o: nat)
    requires Increasing(rest) && forall x | x in rest :: o < x
    ensures Firsts(rest, markers, o) == Firsts(rest, Behind(markers, o), o)
  {
    if Taken(markers, o) {
      assert markers == [markers[0]] + Behind(markers, o);
      FirstsForgetTaken(rest, Behind(markers, o), [markers[0]], o);
    }
  }

  /** Two markers before the same block: from there on a spill is any block that is no first. */
  lemma LeftOverSpills(o: nat, rest: seq<nat>, markers: seq<nat>, previous: int)
    requires Increasing([o] + rest) && Increasing(markers) && |markers| >= 2 && markers[1] <= o
    requires forall m | m in markers :: previous < m
    ensures var flags := Firsts(rest, Behind(markers, o), o);
      NoneSpills([o] + rest, markers, Firsts([o] + rest, markers, previous)) <==> AllTrue(flags)
  {
    var opens, flags := [o] + rest, Firsts(rest, Behind(markers, o), o);
    var all := Firsts(opens, markers, previous);
    assert opens[1..] == rest;
    TailIncreases(opens);
    FirstsBehind(rest, markers, o);
    assert all == [FirstAfterMarker(markers, previous, o)] + flags;
    assert markers[0] in markers && markers[0] < markers[1] && FirstAfterMarker(markers, previous, o);
    AllTrueSplits(true, flags);
    assert !OpensBetween(opens, markers[0], markers[1]) by {
      forall x | x in opens ensures o <= x { OpensBehind(o, rest, x); }
    }
    if NoneSpills(opens, markers, all) {
      forall k: nat | k < |opens|
        ensures all[k]
      {
        OpensBehind(o, rest, opens[k]);
        assert !Spills(opens, markers, all, k, 0, 1);
      }
    }
  }

  lemma OpensBehind(o: nat, rest: seq<nat>, x: nat)
    requires Increasing([o] + rest) && x in [o] + rest
    ensures o <= x
  {
    assert ([o] + rest)[0] == o;
  }

  /** With no marker left over, the first block and its marker can be left aside. */
  lemma SpillsBehind(o: nat, rest: seq<nat>, markers: seq<nat>, first: bool, flags: seq<bool>)
    requires Increasing([o] + rest) && Increasing(markers) && |flags| == |rest|
    requires forall m | m in Behind(markers, o) :: o < m
    ensures NoneSpills([o] + rest, markers, [first] + flags) <==> NoneSpills(rest, Behind(markers, o), flags)
  {
    var opens, all, behind := [o] + rest, [first] + flags, Behind(markers, o);
    var shift := if Taken(markers, o) then 1 else 0;
    forall k: nat, i: nat, j: nat | Spills(rest, behind, flags, k, i, j)
      ensures Spills(opens, markers, all, k + 1, i + shift, j + shift)
    {
      SpillsAhead(o, rest, markers, first, flags, k, i, j);
    }
    forall k: nat, i: nat, j: nat | Spills(opens, markers, all, k, i, j)
      ensures k > 0 && i >= shift && Spills(rest, behind, flags, k - 1, i - shift, j - shift)
    {
      SpillStays(o, rest, markers, first, flags, k, i, j);
    }
  }

  lemma SpillsAhead(o: nat, rest: seq<nat>, markers: seq<nat>, first: bool, flags: seq<bool>, k: nat, i: nat, j: nat)
    requires |flags| == |rest| && forall m | m in Behind(markers, o) :: o < m
    requires Spills(rest, Behind(markers, o), flags, k, i, j)
    ensures var shift := if Taken(markers, o) then 1 else 0;
      Spills([o] + rest, markers, [first] + flags, k + 1, i + shift, j + shift)
  {
    var behind := Behind(markers, o);
    assert behind[i] in behind;
    OpensBetweenBehind(o, rest, behind[i], behind[j]);
  }

  lemma SpillStays(o: nat, rest: seq<nat>, markers: seq<nat>, first: bool, flags: seq<bool>, k: nat, i: nat, j: nat)
    requires |flags| == |rest| && Increasing([o] + rest) && Increasing(markers)
    requires forall m | m in Behind(markers, o) :: o < m
    requires Spills([o] + rest, markers, [first] + flags, k, i, j)
    ensures var shift := if Taken(markers, o) then 1 else 0;
      k > 0 && i >= shift && Spills(rest, Behind(markers, o), flags, k - 1, i - shift, j - shift)
  {
    var opens, behind, shift := [o] + rest, Behind(markers, o), if Taken(markers, o) then 1 else 0;
    assert markers[j] == behind[j - shift] && behind[j - shift] in behind;
    if i < shift {
      assert o in opens && OpensBetween(opens, markers[i], markers[j]);
    } else {
      assert markers[i] == behind[i - shift] && behind[i - shift] in behind;
      OpensBetweenBehind(o, rest, behind[i - shift], behind[j - shift]);
    }
  }

  lemma OpensBetweenBehind(o: nat, rest: seq<nat>, a: nat, b: nat)
    requires o < a
    ensures OpensBetween([o] + rest, a, b) <==> OpensBetween(rest, a, b)
  {
    if OpensBetween(rest, a, b) {
      var x :| x in rest && a <= x < b;
      assert x in [o] + rest;
    }
  }

  // ---------------------------------------------------------------- the queue in closed form

  /** How many markers lie behind `lo`, at or before `hi`. */
  function Between(markers: seq<nat>, lo: int, hi: int): nat {
    if markers == [] then 0 else (if lo < markers[0] <= hi then 1 else 0) + Between(markers[1..], lo, hi)
  }

  /** Where the opening before opening `j` is. */
  function Before(opens: seq<nat>, j: nat): int
    requires j <= |opens|
  {
    if j == 0 then -1 else opens[j - 1]
  }

  /** From opening `j` up to opening `k` more markers came than openings, not counting the last. */
  predicate Surplus(opens: seq<nat>, markers: seq<nat>, j: nat, k: nat)
    requires j <= k < |opens|
  {
    Between(markers, Before(opens, j), opens[k]) > k - j
  }

  predicate Owed(opens: seq<nat>, markers: seq<nat>, k: nat)
    requires k < |opens|
  {
    exists j :: 0 <= j <= k && Surplus(opens, markers, j, k)
  }

  lemma {:induction false} FewerBetween(markers: seq<nat>, lo: int, mid: int, hi: int)
    requires lo <= mid
    ensures Between(markers, mid, hi) <= Between(markers, lo, hi)
    ensures (forall m | m in markers :: mid < m) ==> Between(markers, mid, hi) == Between(markers, lo, hi)
  {
    if markers != [] {
      assert markers[0] in markers && forall m | m in markers[1..] :: m in markers;
      FewerBetween(markers[1..], lo, mid, hi);
    }
  }

  lemma {:induction false} SomeBetween(markers: seq<nat>, lo: int, hi: nat)
    ensures Between(markers, lo, hi) > 0 <==> FirstAfterMarker(markers, lo, hi)
  {
    if markers != [] {
      var rest := markers[1..];
      SomeBetween(rest, lo, hi);
      if FirstAfterMarker(markers, lo, hi) {
        var m :| m in markers && lo < m <= hi;
        assert m == markers[0] || m in rest;
      }
      if FirstAfterMarker(rest, lo, hi) {
        var m :| m in rest && lo < m <= hi;
        assert m in markers;
      }
      assert markers[0] in markers;
    }
  }

  /** Behind the first opening the queue has what lies behind it, and whatever is left over. */
  lemma BetweenBehind(markers: seq<nat>, o: nat, lo: int, hi: int)
    requires Increasing(markers) && o <= hi
    ensures lo >= o ==> Between(Behind(markers, o), lo, hi) == Between(markers, lo, hi)
    ensures Taken(markers, o) ==> Between(markers, -1, hi) == 1 + Between(Behind(markers, o), -1, hi)
    ensures !Taken(markers, o) ==> Between(markers, -1, hi) == Between(markers, o, hi)
  {
    if !Taken(markers, o) && markers != [] {
      TailIncreases(markers);
      assert markers == [markers[0]] + markers[1..];
      FewerBetween(markers, -1, o, hi);
    }
  }

  /** A block takes a marker exactly when, from some block up to it, more markers came than blocks opened before. */
  lemma {:induction false} TakenExactly(opens: seq<nat>, markers: seq<nat>, k: nat)
    requires Increasing(opens) && Increasing(markers) && k < |opens|
    ensures Takes(opens, markers)[k] <==> Owed(opens, markers, k)
    decreases k
  {
    hide Owed, Increasing;
    if k == 0 {
      FirstTakenExactly(opens, markers);
    } else {
      TailIncreases(opens);
      BehindIncreases(markers, opens[0]);
      TakenExactly(opens[1..], Behind(markers, opens[0]), k - 1);
      OwedBehind(opens, markers, k);
    }
  }

  lemma FirstTakenExactly(opens: seq<nat>, markers: seq<nat>)
    requires Increasing(markers) && opens != []
    ensures Takes(opens, markers)[0] <==> Owed(opens, markers, 0)
  {
    var o := opens[0];
    BetweenBehind(markers, o, o, o);
    NothingBetween(markers, o);
    assert Surplus(opens, markers, 0, 0) <==> Taken(markers, o);
  }

  lemma NothingBetween(markers: seq<nat>, o: nat)
    ensures Between(markers, o, o) == 0
  {
    SomeBetween(markers, o, o);
  }

  lemma SurplusBehind(opens: seq<nat>, markers: seq<nat>, j: nat, k: nat)
    requires Increasing(opens) && Increasing(markers) && 2 <= j <= k < |opens|
    ensures Surplus(opens, markers, j, k) <==> Surplus(opens[1..], Behind(markers, opens[0]), j - 1, k - 1)
  {
    var rest := opens[1..];
    assert rest[k - 1] == opens[k] && rest[j - 2] == opens[j - 1];
    assert opens[0] < opens[j - 1] && opens[0] < opens[k];
    BetweenBehind(markers, opens[0], opens[j - 1], opens[k]);
  }

  /** From the first opening on there is a surplus behind it exactly when there is one with it or from the next one on. */
  lemma FirstSurplusBehind(opens: seq<nat>, markers: seq<nat>, k: nat)
    requires Increasing(opens) && Increasing(markers) && 1 <= k < |opens|
    ensures Surplus(opens, markers, 0, k) || Surplus(opens, markers, 1, k)
       <==> Surplus(opens[1..], Behind(markers, opens[0]), 0, k - 1)
  {
    var o, hi := opens[0], opens[k];
    assert o < hi && opens[1..][k - 1] == hi;
    BetweenBehind(markers, o, o, hi);
    FewerBetween(markers, -1, o, hi);
    FewerBetween(Behind(markers, o), -1, o, hi);
  }

  lemma OwedBehind(opens: seq<nat>, markers: seq<nat>, k: nat)
    requires Increasing(opens) && Increasing(markers) && 1 <= k < |opens|
    ensures Owed(opens, markers, k) <==> Owed(opens[1..], Behind(markers, opens[0]), k - 1)
  {
    hide Surplus;
    var rest, behind := opens[1..], Behind(markers, opens[0]);
    FirstSurplusBehind(opens, markers, k);
    forall j: nat | 2 <= j <= k
      ensures Surplus(opens, markers, j, k) <==> Surplus(rest, behind, j - 1, k - 1)
    {
      SurplusBehind(opens, markers, j, k);
    }
    if Owed(rest, behind, k - 1) {
      var i :| 0 <= i <= k - 1 && Surplus(rest, behind, i, k - 1);
      if i > 0 { assert Surplus(opens, markers, i + 1, k); }
    }
    if Owed(opens, markers, k) {
      var j :| 0 <= j <= k && Surplus(opens, markers, j, k);
      assert Surplus(rest, behind, if j < 2 then 0 else j - 1, k - 1);
    }
  }

  lemma {:induction false} FirstsAt(opens: seq<nat>, markers: seq<nat>, previous: int, k: nat)
    requires k < |opens|
    ensures Firsts(opens, markers, previous)[k]
       <==> FirstAfterMarker(markers, if k == 0 then previous else opens[k - 1], opens[k])
    decreases k
  {
    if k > 0 { FirstsAt(opens[1..], markers, opens[0], k - 1); }
  }

  /** The first block after a marker always takes one. */
  lemma FirstIsOwed(opens: seq<nat>, markers: seq<nat>, k: nat)
    requires k < |opens| && Firsts(opens, markers, -1)[k]
    ensures Owed(opens, markers, k)
  {
    FirstsAt(opens, markers, -1, k);
    SomeBetween(markers, Before(opens, k), opens[k]);
    assert Surplus(opens, markers, k, k);
  }

  // ---------------------------------------------------------------- the rules around a declaration

  /** For each declaration, in order, the rules around it, by their place in opening order. */
  function Around(s: Styles, n: nat, outer: set<nat>): seq<set<nat>> {
    match s
    case Done => []
    case And(style, next) => AroundIn(style, n, outer) + Around(next, n + BlocksIn(ItemOf(style)), outer)
  }

  function AroundIn(s: Style, n: nat, outer: set<nat>): seq<set<nat>> {
    match s
    case Property(_, _, _, _, _, _, _) => if outer == {} then [] else [outer]
    case Bare(_) => []
    case Rule(_, _, _, body, _) => Around(body, n + 1, outer + {n})
  }

  /** Whether one of the rules is flagged. */
  predicate Marked(rules: set<nat>, flags: seq<bool>) {
    exists r | r in rules :: r < |flags| && flags[r]
  }

  /** The declarations, each exempt when one of the rules around it is flagged. */
  function Exempted(declared: seq<Declaration>, around: seq<set<nat>>, flags: seq<bool>): seq<Declaration>
    requires |declared| == |around|
  {
    seq(|declared|, k requires 0 <= k < |declared| => declared[k].(exempt := Marked(around[k], flags)))
  }

  /** The declarations are those of the stylesheet with the exemptions the flags give. */
  ghost predicate ExemptBy(declared: seq<Declaration>, plain: seq<Declaration>, around: seq<set<nat>>,
                           flags: seq<bool>)
  {
    |plain| == |around| && declared == Exempted(plain, around, flags)
  }

  lemma ExemptByJoins(a: seq<Declaration>, b: seq<Declaration>, p: seq<Declaration>, q: seq<Declaration>,
                      x: seq<set<nat>>, y: seq<set<nat>>, flags: seq<bool>)
    requires ExemptBy(a, p, x, flags) && ExemptBy(b, q, y, flags)
    ensures ExemptBy(a + b, p + q, x + y, flags)
  {
  }

  function NoFlags(n: nat): (flags: seq<bool>)
    ensures |flags| == n && forall k | 0 <= k < n :: !flags[k]
  {
    seq(n, _ => false)
  }

  /** The declarations with none of them exempt. */
  function Unexempted(s: Styles, source: string, at: nat, path: seq<string>): seq<Declaration> {
    Declarations(s, source, at, path, false, NoFlags(Blocks(SheetOf(s))))
  }

  lemma NoFlagsSplit(n: nat, k: nat)
    requires k <= n
    ensures NoFlags(n)[..k] == NoFlags(k) && NoFlags(n)[k..] == NoFlags(n - k)
  {
  }

  lemma UnexemptedSplits(style: Style, next: Styles, source: string, at: nat, path: seq<string>)
    ensures Unexempted(And(style, next), source, at, path)
         == DeclarationsOf(style, source, at, path, false, NoFlags(BlocksIn(ItemOf(style))))
            + Unexempted(next, source, at + Width(ItemOf(style)), path)
  {
    hide Width, BlocksIn, ItemOf;
    var n, m := BlocksIn(ItemOf(style)), Blocks(SheetOf(next));
    NoFlagsSplit(n + m, n);
  }

  lemma MarkedByOneMore(outer: set<nat>, n: nat, flags: seq<bool>)
    requires n < |flags|
    ensures Marked(outer + {n}, flags) <==> Marked(outer, flags) || flags[n]
  {
    if Marked(outer, flags) {
      var r :| r in outer && r < |flags| && flags[r];
      assert r in outer + {n};
    }
    assert n in outer + {n};
  }

  /** Inside `outer`, from rule `n` on: a declaration is exempt exactly when a rule around it is flagged. */
  lemma {:induction false} DeclarationsExempt(s: Styles, source: string, at: nat, path: seq<string>, exempt: bool,
                                              all: seq<bool>, n: nat, outer: set<nat>)
    requires n + Blocks(SheetOf(s)) <= |all|
    requires exempt == Marked(outer, all) && (path == [] <==> outer == {})
    ensures ExemptBy(Declarations(s, source, at, path, exempt, all[n..n + Blocks(SheetOf(s))]),
                     Unexempted(s, source, at, path), Around(s, n, outer), all)
    decreases s
  {
    hide ExemptBy, Marked, Width, BlocksIn, ItemOf, Declarations, DeclarationsOf, Unexempted, AroundIn;
    match s
    case Done =>
      assert all[n..n + 0] == [];
      NothingIsExempt(s, source, at, path, exempt, all);
    case And(style, next) =>
      var k, m, end := BlocksIn(ItemOf(style)), Blocks(SheetOf(next)), at + Width(ItemOf(style));
      StyleExempts(style, source, at, path, exempt, all, n, outer);
      DeclarationsExempt(next, source, end, path, exempt, all, n + k, outer);
      UnexemptedSplits(style, next, source, at, path);
      DeclarationsSplit(style, next, source, at, path, exempt, all, n);
      ExemptByJoins(DeclarationsOf(style, source, at, path, exempt, all[n..n + k]),
                    Declarations(next, source, end, path, exempt, all[n + k..n + k + m]),
                    DeclarationsOf(style, source, at, path, false, NoFlags(k)), Unexempted(next, source, end, path),
                    AroundIn(style, n, outer), Around(next, n + k, outer), all);
  }

  lemma DeclarationsSplit(style: Style, next: Styles, source: string, at: nat, path: seq<string>, exempt: bool,
                          all: seq<bool>, n: nat)
    requires n + Blocks(SheetOf(And(style, next))) <= |all|
    ensures var k, m := BlocksIn(ItemOf(style)), Blocks(SheetOf(next));
      Declarations(And(style, next), source, at, path, exempt, all[n..n + k + m])
      == DeclarationsOf(style, source, at, path, exempt, all[n..n + k])
         + Declarations(next, source, at + Width(ItemOf(style)), path, exempt, all[n + k..n + k + m])
  {
    hide Width, BlocksIn, ItemOf, DeclarationsOf;
    SliceSplits(all, n, BlocksIn(ItemOf(style)), Blocks(SheetOf(next)));
  }

  lemma SliceSplits(all: seq<bool>, n: nat, k: nat, m: nat)
    requires n + k + m <= |all|
    ensures all[n..n + k + m][..k] == all[n..n + k] && all[n..n + k + m][k..] == all[n + k..n + k + m]
  {
  }

  lemma NothingIsExempt(s: Styles, source: string, at: nat, path: seq<string>, exempt: bool, flags: seq<bool>)
    requires s == Done
    ensures ExemptBy(Declarations(s, source, at, path, exempt, []), Unexempted(s, source, at, path), [], flags)
  {
  }

  lemma {:induction false} StyleExempts(s: Style, source: string, at: nat, path: seq<string>, exempt: bool,
                                        all: seq<bool>, n: nat, outer: set<nat>)
    requires n + BlocksIn(ItemOf(s)) <= |all|
    requires exempt == Marked(outer, all) && (path == [] <==> outer == {})
    ensures ExemptBy(DeclarationsOf(s, source, at, path, exempt, all[n..n + BlocksIn(ItemOf(s))]),
                     DeclarationsOf(s, source, at, path, false, NoFlags(BlocksIn(ItemOf(s)))),
                     AroundIn(s, n, outer), all)
    decreases s
  {
    hide ExemptBy, Marked, Declarations, Around, LineOf;
    match s
    case Property(_, _, _, _, _, _, _) => PropertyExempts(s, source, at, path, exempt, all, outer);
    case Bare(_) => BareExempts(all);
    case Rule(lead, header, rest, body, _) =>
      var m := Blocks(SheetOf(body));
      SliceSplits(all, n, 1, m);
      NoFlagsSplit(1 + m, 1);
      MarkedByOneMore(outer, n, all);
      assert n in outer + {n};
      DeclarationsExempt(body, source, at + |lead + header + rest| + 1, path + [header], exempt || all[n],
                         all, n + 1, outer + {n});
  }

  lemma BareExempts(all: seq<bool>)
    ensures ExemptBy([], [], [], all)
  {
  }

  lemma PropertyExempts(s: Style, source: string, at: nat, path: seq<string>, exempt: bool, all: seq<bool>,
                        outer: set<nat>)
    requires s.Property? && exempt == Marked(outer, all) && (path == [] <==> outer == {})
    ensures ExemptBy(DeclarationsOf(s, source, at, path, exempt, []), DeclarationsOf(s, source, at, path, false, []),
                     if outer == {} then [] else [outer], all)
  {
    hide Marked, LineOf;
  }

  // ---------------------------------------------------------------- what is exempt, exactly

  /** Some rule around takes a marker. */
  ghost predicate OwedAround(opens: seq<nat>, markers: seq<nat>, rules: set<nat>) {
    exists r | r in rules :: r < |opens| && Owed(opens, markers, r)
  }

  /** Some rule around is the first to open after a marker. */
  ghost predicate FirstAround(opens: seq<nat>, markers: seq<nat>, rules: set<nat>) {
    exists r | r in rules :: r < |opens| && FirstAfterMarker(markers, Before(opens, r), opens[r])
  }

  /** No declaration lies in a rule that takes a marker without lying in one that is first after a marker. */
  ghost predicate NoneExemptByLeftOver(opens: seq<nat>, markers: seq<nat>, around: seq<set<nat>>) {
    forall k | 0 <= k < |around| && OwedAround(opens, markers, around[k]) :: FirstAround(opens, markers, around[k])
  }

  lemma MarkedMeans(opens: seq<nat>, markers: seq<nat>, rules: set<nat>)
    requires Increasing(opens) && Increasing(markers)
    ensures Marked(rules, Takes(opens, markers)) <==> OwedAround(opens, markers, rules)
    ensures Marked(rules, Firsts(opens, markers, -1)) <==> FirstAround(opens, markers, rules)
    ensures FirstAround(opens, markers, rules) ==> OwedAround(opens, markers, rules)
  {
    hide Takes, Firsts, Owed, FirstAfterMarker;
    forall r: nat | r < |opens|
      ensures Takes(opens, markers)[r] <==> Owed(opens, markers, r)
      ensures Firsts(opens, markers, -1)[r] <==> FirstAfterMarker(markers, Before(opens, r), opens[r])
      ensures Firsts(opens, markers, -1)[r] ==> Owed(opens, markers, r)
    {
      TakenExactly(opens, markers, r);
      FirstsAt(opens, markers, -1, r);
      if Firsts(opens, markers, -1)[r] { FirstIsOwed(opens, markers, r); }
    }
  }

  lemma ExemptionsAgree(a: seq<Declaration>, b: seq<Declaration>, plain: seq<Declaration>, around: seq<set<nat>>,
                        f: seq<bool>, g: seq<bool>)
    requires ExemptBy(a, plain, around, f) && ExemptBy(b, plain, around, g)
    ensures a == b <==> forall k | 0 <= k < |around| :: Marked(around[k], f) == Marked(around[k], g)
  {
    if a == b {
      forall k | 0 <= k < |around|
        ensures Marked(around[k], f) == Marked(around[k], g)
      {
        assert a[k].exempt == b[k].exempt;
      }
    }
  }

  /** The declarations of a stylesheet under the flags of all its rules. */
  lemma WholeExempts(s: Styles, source: string, flags: seq<bool>)
    requires |flags| == Blocks(SheetOf(s))
    ensures ExemptBy(Declarations(s, source, 0, [], false, flags), Unexempted(s, source, 0, []), Around(s, 0, {}),
                     flags)
  {
    hide Declarations, Around, ExemptBy;
    assert flags[0..0 + Blocks(SheetOf(s))] == flags;
    DeclarationsExempt(s, source, 0, [], false, flags, 0, {});
  }

  /**
   What the reader exempts, declaration by declaration: it reads the declarations of the
   stylesheet, and one as exempt exactly when a rule around it takes a marker, that is,
   when from some rule up to it more markers came than rules opened before it.
   */
  lemma ExemptExactly(source: string, marks: string -> bool, s: Styles, end: string)
    requires WellWritten(s) && Plain(end)
    requires StripComments(source, marks).text == Print(SheetOf(s)) + end
    ensures var stripped := StripComments(source, marks);
      var read, plain := Read(stripped.text, stripped.markers), Unexempted(s, source, 0, []);
      var around := Around(s, 0, {});
      && |read| == |plain| == |around|
      && forall k | 0 <= k < |read| ::
           read[k] == plain[k].(exempt := OwedAround(Opens(SheetOf(s), 0), stripped.markers, around[k]))
  {
    hide Read, Unexempted, Around, Marked, OwedAround, FirstAround, Takes;
    var opens, markers := Opens(SheetOf(s), 0), StripComments(source, marks).markers;
    MarkersIncrease(source, 0, marks);
    OpensIncrease(SheetOf(s), 0);
    ReadsItsDeclarations(source, marks, s, end);
    WholeExempts(s, source, Takes(opens, markers));
    forall k | 0 <= k < |Around(s, 0, {})|
      ensures Marked(Around(s, 0, {})[k], Takes(opens, markers)) <==> OwedAround(opens, markers, Around(s, 0, {})[k])
    {
      MarkedMeans(opens, markers, Around(s, 0, {})[k]);
    }
  }

  /**
   When the markers exempt what their comment says, exactly: the declarations read are
   those with 'a rule around it is the first to open after a marker' as their exemption
   if and only if none is exempt by a marker left over alone. That no marker is left over
   for a rule is enough, and not needed inside a rule that is exempt anyway.
   */
  lemma ExemptWhenFirstAfterMarker(source: string, marks: string -> bool, s: Styles, end: string)
    requires WellWritten(s) && Plain(end)
    requires StripComments(source, marks).text == Print(SheetOf(s)) + end
    ensures var text, markers := StripComments(source, marks).text, StripComments(source, marks).markers;
      var opens := Opens(SheetOf(s), 0);
      var firsts := Firsts(opens, markers, -1);
      && Read(text, markers) == Declarations(s, source, 0, [], false, Takes(opens, markers))
      && (Read(text, markers) == Declarations(s, source, 0, [], false, firsts)
          <==> NoneExemptByLeftOver(opens, markers, Around(s, 0, {})))
      && (NoneSpills(opens, markers, firsts) ==> Read(text, markers) == Declarations(s, source, 0, [], false, firsts))
  {
    hide Read, Declarations, Unexempted, Around, Marked, OwedAround, FirstAround, Takes, Firsts, NoneSpills, ExemptBy;
    var opens, markers := Opens(SheetOf(s), 0), StripComments(source, marks).markers;
    var takes, firsts, around := Takes(opens, markers), Firsts(opens, markers, -1), Around(s, 0, {});
    MarkersIncrease(source, 0, marks);
    OpensIncrease(SheetOf(s), 0);
    ReadsItsDeclarations(source, marks, s, end);
    TakesAreFirstsExactly(opens, markers, -1);
    WholeExempts(s, source, takes);
    WholeExempts(s, source, firsts);
    ExemptionsAgree(Declarations(s, source, 0, [], false, takes), Declarations(s, source, 0, [], false, firsts),
                    Unexempted(s, source, 0, []), around, takes, firsts);
    forall k | 0 <= k < |around|
      ensures Marked(around[k], takes) <==> OwedAround(opens, markers, around[k])
      ensures Marked(around[k], firsts) <==> FirstAround(opens, markers, around[k])
      ensures FirstAround(opens, markers, around[k]) ==> OwedAround(opens, markers, around[k])
    {
      MarkedMeans(opens, markers, around[k]);
    }
  }
}
