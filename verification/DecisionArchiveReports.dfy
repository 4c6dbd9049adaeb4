/** What each violation of the archive's gate says is so, and whatever is so is reported. */
module DecisionArchiveReports {
  import opened DecisionArchive
  import opened DecisionArchiveProperties
  import opened Prelude

  /** What a violation of one record, by itself, says of it. */
  predicate RecordFault(v: Violation, r: Record, numbers: set<nat>) {
    match v
    case NoHeading(n) => n == r.number && r.heading.None?
    case HeadingDiffers(n, heading) =>
      n == r.number && r.heading.Some? && heading == r.heading.value.number && heading != n
    case NoStatus(n) => n == r.number && r.statuses == []
    case ManyStatuses(n, count) => n == r.number && count == |r.statuses| >= 2
    case StatusUnknown(n) => n == r.number && |r.statuses| == 1 && r.statuses[0].Unknown?
    case SupersederMissing(n, later) => n == r.number && r.statuses == [Superseded(later)] && later !in numbers
    case SupersederNotLater(n, later) =>
      n == r.number && r.statuses == [Superseded(later)] && later in numbers && later <= n
    case NoSection(n, section) => n == r.number && section !in r.sections
    case _ => false
  }

  /** The highest number a record has. */
  predicate IsHighest(records: seq<Record>, highest: nat) {
    && (exists i :: 0 <= i < |records| && records[i].number == highest)
    && forall i :: 0 <= i < |records| ==> records[i].number <= highest
  }

  predicate Ascending(s: seq<nat>) {
    forall i, j :: 0 <= i < j < |s| ==> s[i] < s[j]
  }

  /** Numbers are missing below the highest: just those of 1 to it that no record has, each once, ascending. */
  ghost predicate GapFault(v: Violation, records: seq<Record>) {
    && v.Skipped? && v.missing != [] && IsHighest(records, v.highest) && Ascending(v.missing)
    && forall n: nat :: n in v.missing <==>
         1 <= n <= v.highest && forall i :: 0 <= i < |records| ==> records[i].number != n
  }

  /** Row `j` is the last one of its number, which is `n`. */
  predicate IsLastRow(rows: seq<Row>, j: nat, n: nat) {
    j < |rows| && rows[j].number == n && forall k :: j < k < |rows| ==> rows[k].number != n
  }

  /** No earlier record has the number of record `i`. */
  predicate IsFirstOfNumber(records: seq<Record>, i: nat)
    requires i < |records|
  {
    forall k :: 0 <= k < i ==> records[k].number != records[i].number
  }

  /** Row `j` is the one record `i` is held against. */
  predicate IsRowOf(records: seq<Record>, i: nat, rows: seq<Row>, j: nat)
    requires i < |records|
  {
    IsFirstOfNumber(records, i) && IsLastRow(rows, j, records[i].number)
  }

  /** What a violation of record `i` against the index says. */
  ghost predicate IndexFault(v: Violation, records: seq<Record>, i: nat, rows: seq<Row>) {
    i < |records| &&
    var r := records[i];
    match v
    case NotIndexed(n) => n == r.number && forall j: nat :: !IsRowOf(records, i, rows, j)
    case TargetDiffers(n) =>
      n == r.number && exists j: nat :: IsRowOf(records, i, rows, j) && rows[j].target != r.file
    case TitleDiffers(n) =>
      n == r.number && r.heading.Some?
      && exists j: nat :: IsRowOf(records, i, rows, j) && rows[j].title != r.heading.value.title
    case StatusDiffers(n) =>
      n == r.number && r.statuses != []
      && exists j: nat :: IsRowOf(records, i, rows, j) && rows[j].status != r.statuses[0]
    case _ => false
  }

  predicate ClosureFault(v: Violation, records: seq<Record>) {
    v.AfterClosure? && (v.number < 1 || v.number > 164) && v.number in Numbers(records)
  }

  lemma SameAreEmpty(a: seq<nat>, b: seq<nat>)
    requires forall n: nat :: n in a <==> n in b
    ensures a == [] <==> b == []
  {
    if a != [] { assert a[0] in b; }
    if b != [] { assert b[0] in a; }
  }

  /** Ascending lists of the same numbers are the same list. */
  lemma {:induction false} AscendingIsUnique(a: seq<nat>, b: seq<nat>)
    requires Ascending(a) && Ascending(b) && forall n: nat :: n in a <==> n in b
    ensures a == b
    decreases |a|
  {
    hide Ascending;
    SameAreEmpty(a, b);
    if a != [] {
      LastIsGreatest(a);
      LastIsGreatest(b);
      SameLast(a, b);
      var c, d := a[..|a| - 1], b[..|b| - 1];
      forall n: nat
        ensures n in c <==> n in d
      {
        assert n in c <==> n in a && n != a[|a| - 1];
        assert n in d <==> n in b && n != b[|b| - 1];
      }
      AscendingIsUnique(c, d);
      assert a == c + [a[|a| - 1]] && b == d + [b[|b| - 1]];
    }
  }

  lemma SameLast(a: seq<nat>, b: seq<nat>)
    requires a != [] && b != [] && forall n: nat :: n in a <==> n in b
    requires (forall n | n in a :: n <= a[|a| - 1]) && forall n | n in b :: n <= b[|b| - 1]
    ensures a[|a| - 1] == b[|b| - 1]
  {
    assert a[|a| - 1] in b && b[|b| - 1] in a;
  }

  lemma LastIsGreatest(a: seq<nat>)
    requires Ascending(a) && a != []
    ensures var last := a[|a| - 1];
      (forall n | n in a :: n <= last) && forall n: nat :: n in a[..|a| - 1] <==> n in a && n != last
    ensures Ascending(a[..|a| - 1])
  {
    var last, front := a[|a| - 1], a[..|a| - 1];
    assert a == front + [last];
  }

  lemma GapReports(records: seq<Record>, v: Violation)
    ensures v in NumberingGaps(records) <==> GapFault(v, records)
  {
    var missing, highest := Absent(Numbers(records), Highest(records)), Highest(records);
    AbsentIsExact(Numbers(records), highest);
    HighestIsMaximum(records);
    if GapFault(v, records) {
      assert v.missing[0] in v.missing;
      assert v.highest == highest;
      AscendingIsUnique(v.missing, missing);
    }
    if v in NumberingGaps(records) {
      assert missing[0] in missing;
    }
  }

  lemma {:induction false} ClosureReports(records: seq<Record>, v: Violation)
    ensures v in RecordsAfterClosure(records) <==> ClosureFault(v, records)
  {
    if records != [] {
      var last := |records| - 1;
      ClosureReports(records[..last], v);
      OneMoreNumber(records, last);
      assert records[..last + 1] == records;
    }
  }

  lemma {:induction false} SectionReports(r: Record, required: seq<Section>, v: Violation)
    ensures v in SectionViolations(r, required) <==>
      v.NoSection? && v.number == r.number && v.section in required && v.section !in r.sections
  {
    if required != [] {
      SectionReports(r, required[1..], v);
      assert required == [required[0]] + required[1..];
    }
  }

  lemma RecordReports(r: Record, numbers: set<nat>, v: Violation)
    ensures v in HeadingViolations(r) + StatusViolations(r, numbers) + SectionViolations(r, REQUIRED_SECTIONS) <==>
      RecordFault(v, r, numbers)
  {
    SectionReports(r, REQUIRED_SECTIONS, v);
    assert v.NoSection? ==> v.section in REQUIRED_SECTIONS by {
      if v.NoSection? { EverySectionIsRequired(v.section); }
    }
    assert |r.statuses| == 1 ==> r.statuses == [r.statuses[0]];
  }

  lemma EverySectionIsRequired(section: Section)
    ensures section in REQUIRED_SECTIONS
  {
  }

  predicate SomeRecordFault(v: Violation, records: seq<Record>, numbers: set<nat>) {
    exists i :: 0 <= i < |records| && RecordFault(v, records[i], numbers)
  }

  lemma LastRecordFault(v: Violation, records: seq<Record>, numbers: set<nat>)
    requires records != []
    ensures SomeRecordFault(v, records, numbers) <==>
      SomeRecordFault(v, records[..|records| - 1], numbers) || RecordFault(v, records[|records| - 1], numbers)
  {
  }

  lemma {:induction false} MalformedReports(records: seq<Record>, numbers: set<nat>, v: Violation)
    ensures v in MalformedRecords(records, numbers) <==> SomeRecordFault(v, records, numbers)
  {
    if records != [] {
      var record := records[|records| - 1];
      MalformedReports(records[..|records| - 1], numbers, v);
      RecordReports(record, numbers, v);
      LastRecordFault(v, records, numbers);
    }
  }

  predicate SameNumber(rows: seq<Row>, i: nat, j: nat, n: nat) {
    i < j < |rows| && rows[i].number == n && rows[j].number == n
  }

  /** Two rows have the number. */
  ghost predicate Twice(rows: seq<Row>, n: nat) {
    exists i: nat, j: nat :: SameNumber(rows, i, j, n)
  }

  lemma TwiceByOneMore(rows: seq<Row>, n: nat)
    requires rows != []
    ensures var last := |rows| - 1;
            Twice(rows, n) <==> Twice(rows[..last], n) || (rows[last].number == n && n in RowNumbers(rows[..last]))
  {
    var last := |rows| - 1;
    var before := rows[..last];
    assert forall i :: 0 <= i < last ==> before[i] == rows[i];
    if Twice(before, n) {
      var i: nat, j: nat :| SameNumber(before, i, j, n);
      assert SameNumber(rows, i, j, n);
    }
    if rows[last].number == n && n in RowNumbers(before) {
      var i: nat :| i < last && before[i].number == n;
      assert SameNumber(rows, i, last, n);
    }
    if Twice(rows, n) {
      var i: nat, j: nat :| SameNumber(rows, i, j, n);
      if j < last { assert SameNumber(before, i, j, n); }
      else { assert before[i].number in RowNumbers(before); }
    }
  }

  lemma {:induction false} RepeatReports(rows: seq<Row>, v: Violation)
    ensures v in Repeats(rows) <==> v.IndexedTwice? && Twice(rows, v.number)
  {
    hide RowNumbers;
    if rows != [] {
      RepeatReports(rows[..|rows| - 1], v);
      if v.IndexedTwice? { TwiceByOneMore(rows, v.number); }
    }
  }

  ghost predicate SomeIndexFault(v: Violation, records: seq<Record>, rows: seq<Row>) {
    exists i: nat :: IndexFault(v, records, i, rows)
  }

  /** The same of one record and the rows that the loop has left for it. */
  predicate LeftFault(v: Violation, r: Record, left: map<nat, Row>) {
    match v
    case NotIndexed(n) => n == r.number && n !in left
    case TargetDiffers(n) => n == r.number && n in left && left[n].target != r.file
    case TitleDiffers(n) =>
      n == r.number && n in left && r.heading.Some? && left[n].title != r.heading.value.title
    case StatusDiffers(n) => n == r.number && n in left && r.statuses != [] && left[n].status != r.statuses[0]
    case _ => false
  }

  lemma RowReports(r: Record, left: map<nat, Row>, v: Violation)
    ensures v in (if r.number in left then RowViolations(r, left[r.number]) else [NotIndexed(r.number)]) <==>
      LeftFault(v, r, left)
  {
  }

  /** The map has a number exactly when a row does, and then its last row. */
  lemma {:induction false} MapHoldsLastRows(rows: seq<Row>, n: nat)
    ensures n in RowMap(rows) <==> exists j: nat :: IsLastRow(rows, j, n)
    ensures forall j: nat :: IsLastRow(rows, j, n) ==> n in RowMap(rows) && RowMap(rows)[n] == rows[j]
  {
    if rows != [] {
      var last := |rows| - 1;
      var before := rows[..last];
      MapHoldsLastRows(before, n);
      if rows[last].number == n {
        assert IsLastRow(rows, last, n);
      } else {
        forall j: nat
          ensures IsLastRow(rows, j, n) <==> IsLastRow(before, j, n)
        {
          if j < last { assert before[j] == rows[j]; }
          assert forall k :: j < k < last ==> before[k] == rows[k];
        }
      }
    }
  }

  /** A record finds, among the rows that no earlier record took, the last of its number. */
  lemma LeftIsLastRow(records: seq<Record>, i: nat, rows: seq<Row>)
    requires i < |records|
    ensures var left, n := Untaken(records[..i], RowMap(rows)), records[i].number;
      && (n in left <==> exists j: nat :: IsRowOf(records, i, rows, j))
      && forall j: nat :: IsRowOf(records, i, rows, j) ==> n in left && left[n] == rows[j]
  {
    hide RowMap;
    var n := records[i].number;
    MapHoldsLastRows(rows, n);
    assert IsFirstOfNumber(records, i) <==> n !in Numbers(records[..i]) by {
      assert forall k :: 0 <= k < i ==> records[..i][k] == records[k];
    }
    if n in RowMap(rows) && IsFirstOfNumber(records, i) {
      var j: nat :| IsLastRow(rows, j, n);
      assert IsRowOf(records, i, rows, j);
    }
  }

  lemma LeftFaultIsIndexFault(v: Violation, records: seq<Record>, i: nat, rows: seq<Row>)
    requires i < |records|
    ensures LeftFault(v, records[i], Untaken(records[..i], RowMap(rows))) <==> IndexFault(v, records, i, rows)
  {
    hide Untaken, RowMap, IsRowOf;
    LeftIsLastRow(records, i, rows);
  }

  /** What is found of a record depends on those before it alone. */
  lemma SameFaultBefore(v: Violation, records: seq<Record>, i: nat, last: nat, rows: seq<Row>)
    requires i < last < |records|
    ensures IndexFault(v, records[..last], i, rows) <==> IndexFault(v, records, i, rows)
  {
    assert records[..last][i] == records[i] && records[..last][..i] == records[..i];
    LeftFaultIsIndexFault(v, records[..last], i, rows);
    LeftFaultIsIndexFault(v, records, i, rows);
  }

  lemma LastIndexFault(v: Violation, records: seq<Record>, rows: seq<Row>)
    requires records != []
    ensures var last := |records| - 1;
            SomeIndexFault(v, records, rows) <==>
              SomeIndexFault(v, records[..last], rows) || IndexFault(v, records, last, rows)
  {
    var last := |records| - 1;
    forall i: nat
      ensures IndexFault(v, records[..last], i, rows) <==> i < last && IndexFault(v, records, i, rows)
    {
      if i < last { SameFaultBefore(v, records, i, last, rows); }
    }
    assert forall i: nat :: IndexFault(v, records, i, rows) ==> i <= last;
  }

  lemma {:induction false} ComparisonReports(records: seq<Record>, rows: seq<Row>, v: Violation)
    ensures v in Compared(records, RowMap(rows)) <==> SomeIndexFault(v, records, rows)
  {
    hide IndexFault, LeftFault, RowMap, Untaken, RowViolations;
    if records != [] {
      var last := |records| - 1;
      ComparisonReports(records[..last], rows, v);
      LastIndexFault(v, records, rows);
      RowReports(records[last], Untaken(records[..last], RowMap(rows)), v);
      LeftFaultIsIndexFault(v, records, last, rows);
    } else {
      NoRecordNoFault(v, rows);
    }
  }

  lemma NoRecordNoFault(v: Violation, rows: seq<Row>)
    ensures !SomeIndexFault(v, [], rows)
  {
  }

  lemma {:induction false} LeftoverReports(keys: seq<nat>, left: map<nat, Row>, v: Violation)
    ensures v in Leftover(keys, left) <==> v.NoRecord? && v.number in keys && v.number in left
  {
    if keys != [] {
      var last := |keys| - 1;
      LeftoverReports(keys[..last], left, v);
      assert keys == keys[..last] + [keys[last]];
    }
  }

  /** A number indexed twice, a record its row does not show, or a row without a record. */
  ghost predicate IndexOrRowFault(v: Violation, records: seq<Record>, rows: seq<Row>) {
    || (v.IndexedTwice? && Twice(rows, v.number))
    || SomeIndexFault(v, records, rows)
    || (v.NoRecord? && v.number in RowNumbers(rows) && v.number !in Numbers(records))
  }

  lemma IndexReports(records: seq<Record>, rows: seq<Row>, v: Violation)
    ensures v in IndexDisagreements(records, Some(rows)) <==> IndexOrRowFault(v, records, rows)
  {
    RepeatReports(rows, v);
    ComparisonReports(records, rows, v);
    LeftoverReports(KeyOrder(rows), Untaken(records, RowMap(rows)), v);
    KeysAreRowNumbers(rows);
    MapHasRowNumbers(rows);
  }

  lemma InSomePart(records: seq<Record>, index: Option<seq<Row>>, v: Violation)
    ensures v in ArchiveViolations(records, index) <==>
      v in NumberingGaps(records) || v in RecordsAfterClosure(records)
      || v in MalformedRecords(records, Numbers(records)) || v in IndexDisagreements(records, index)
  {
  }

  /** What a violation says of the whole archive. */
  ghost predicate Fault(v: Violation, records: seq<Record>, index: Option<seq<Row>>) {
    || GapFault(v, records) || ClosureFault(v, records) || SomeRecordFault(v, records, Numbers(records))
    || (if index.None? then v == IndexMissing else IndexOrRowFault(v, records, index.value))
  }

  /** The gate reports exactly the faults of the archive: none missed and none made up. */
  lemma ReportsAreExact(records: seq<Record>, index: Option<seq<Row>>, v: Violation)
    ensures v in ArchiveViolations(records, index) <==> Fault(v, records, index)
  {
    InSomePart(records, index, v);
    GapReports(records, v);
    ClosureReports(records, v);
    MalformedReports(records, Numbers(records), v);
    if index.Some? { IndexReports(records, index.value, v); }
  }
}
