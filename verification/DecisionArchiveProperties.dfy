/** What the archive's local rules say together: an archive without violations, described outright. */
module DecisionArchiveProperties {
  import opened DecisionArchive
  import opened Prelude

  // ---------------------------------------------------------------- the archive as it should be

  predicate StatusStands(records: seq<Record>, record: Record) {
    && |record.statuses| == 1
    && match record.statuses[0]
       case Superseded(later) => record.number < later <= |records|
       case Unknown(_) => false
       case _ => true
  }

  predicate Readable(record: Record) {
    && record.heading.Some? && record.heading.value.number == record.number
    && {Context, Decision, Consequences} <= record.sections
  }

  /** The record's one row: same number, and the index shows what the record says. */
  predicate Shows(row: Row, record: Record) {
    && row.number == record.number && row.target == record.file
    && (record.heading.Some? ==> row.title == record.heading.value.title)
    && (record.statuses != [] ==> row.status == record.statuses[0])
  }

  predicate DistinctRecords(records: seq<Record>) {
    forall i, j :: 0 <= i < j < |records| ==> records[i].number != records[j].number
  }

  predicate DistinctRows(rows: seq<Row>) {
    forall i, j :: 0 <= i < j < |rows| ==> rows[i].number != rows[j].number
  }

  /** The numbers are exactly 1 to the count of records, each once, and the count is that of the closed archive at most. */
  predicate Numbered(records: seq<Record>) {
    && |records| <= 164 && DistinctRecords(records)
    && (forall i :: 0 <= i < |records| ==> 1 <= records[i].number <= |records|)
    && (forall n :: 1 <= n <= |records| ==> n in Numbers(records))
  }

  /** Records and rows pair off, one to one. */
  predicate Indexed(records: seq<Record>, rows: seq<Row>) {
    && DistinctRows(rows) && DistinctRecords(records)
    && (forall i :: 0 <= i < |records| ==> exists j :: 0 <= j < |rows| && Shows(rows[j], records[i]))
    && (forall j :: 0 <= j < |rows| ==> rows[j].number in Numbers(records))
  }

  predicate AllStand(records: seq<Record>) {
    forall i :: 0 <= i < |records| ==> Readable(records[i]) && StatusStands(records, records[i])
  }

  predicate Consistent(records: seq<Record>, rows: seq<Row>) {
    Numbered(records) && Indexed(records, rows) && AllStand(records)
  }

  // ---------------------------------------------------------------- numbering

  lemma {:induction false} AbsentIsExact(present: set<nat>, to: nat)
    ensures var missing := Absent(present, to);
            && (forall n :: n in missing <==> 1 <= n <= to && n !in present)
            && (forall i, j :: 0 <= i < j < |missing| ==> missing[i] < missing[j])
  {
    if to > 0 {
      var before := Absent(present, to - 1);
      AbsentIsExact(present, to - 1);
      assert forall i :: 0 <= i < |before| ==> before[i] in before;
    }
  }

  lemma {:induction false} HighestIsMaximum(records: seq<Record>)
    ensures forall i :: 0 <= i < |records| ==> records[i].number <= Highest(records)
    ensures Highest(records) == 0 || Highest(records) in Numbers(records)
  {
    if records != [] {
      var before := records[..|records| - 1];
      HighestIsMaximum(before);
      assert forall i :: 0 <= i < |before| ==> before[i] == records[i];
      assert records[|records| - 1].number in Numbers(records);
      if Highest(before) in Numbers(before) {
        var i :| 0 <= i < |before| && before[i].number == Highest(before);
        assert records[i].number == Highest(before);
      }
    }
  }

  /** The gap report names exactly the numbers skipped below the highest, in order. */
  lemma GapsAreExact(records: seq<Record>)
    ensures NumberingGaps(records) == [] <==>
      forall n :: 1 <= n <= Highest(records) ==> n in Numbers(records)
  {
    var missing := Absent(Numbers(records), Highest(records));
    AbsentIsExact(Numbers(records), Highest(records));
    if missing != [] { assert missing[0] in missing; }
  }

  function UpTo(n: nat): (s: set<nat>)
    ensures forall k :: k in s <==> 1 <= k <= n
    ensures |s| == n
  {
    if n == 0 then {} else UpTo(n - 1) + {n}
  }

  lemma {:induction false} DistinctRecordsCount(records: seq<Record>)
    requires DistinctRecords(records)
    ensures |Numbers(records)| == |records|
  {
    if records != [] {
      var i := |records| - 1;
      DistinctRecordsCount(records[..i]);
      OneMoreNumber(records, i);
      assert records[..i + 1] == records;
      assert forall j :: 0 <= j < i ==> records[..i][j] == records[j];
    } else {
      assert Numbers(records) == {};
    }
  }

  lemma {:induction false} DistinctRowsCount(rows: seq<Row>)
    requires DistinctRows(rows)
    ensures |RowNumbers(rows)| == |rows|
  {
    if rows != [] {
      var i := |rows| - 1;
      DistinctRowsCount(rows[..i]);
      OneMoreRow(rows, i);
      assert rows[..i + 1] == rows;
      assert forall j :: 0 <= j < i ==> rows[..i][j] == rows[j];
    } else {
      assert RowNumbers(rows) == {};
    }
  }

  lemma {:induction false} ClosureIsExact(records: seq<Record>)
    ensures RecordsAfterClosure(records) == [] <==>
      forall i :: 0 <= i < |records| ==> 1 <= records[i].number <= 164
  {
    if records != [] {
      var before := records[..|records| - 1];
      ClosureIsExact(before);
      assert forall i :: 0 <= i < |before| ==> before[i] == records[i];
    }
  }

  /** No gaps, nothing outside the archive and no number twice: exactly 1 to the count. */
  lemma NumberingIsExact(records: seq<Record>)
    requires DistinctRecords(records)
    ensures NumberingGaps(records) == [] && RecordsAfterClosure(records) == [] <==> Numbered(records)
  {
    GapsAreExact(records);
    ClosureIsExact(records);
    HighestIsMaximum(records);
    DistinctRecordsCount(records);
    if NumberingGaps(records) == [] && RecordsAfterClosure(records) == [] {
      var n := Highest(records);
      assert Numbers(records) == UpTo(n);
      assert |Numbers(records)| == n;
    }
    if Numbered(records) {
      assert forall i :: 0 <= i < |records| ==> records[i].number <= |records|;
    }
  }

  // ---------------------------------------------------------------- the records

  lemma {:induction false} SectionsAreExact(record: Record, required: seq<Section>)
    ensures SectionViolations(record, required) == [] <==>
      forall section :: section in required ==> section in record.sections
  {
    if required != [] {
      SectionsAreExact(record, required[1..]);
      assert forall section :: section in required <==> section == required[0] || section in required[1..];
    }
  }

  lemma MalformedIsExactForOne(record: Record, records: seq<Record>)
    requires forall n :: n in Numbers(records) <==> 1 <= n <= |records|
    ensures HeadingViolations(record) == [] && StatusViolations(record, Numbers(records)) == []
            && SectionViolations(record, REQUIRED_SECTIONS) == []
            <==> Readable(record) && StatusStands(records, record)
  {
    SectionsAreExact(record, REQUIRED_SECTIONS);
    assert {Context, Decision, Consequences} <= record.sections <==>
      forall section :: section in REQUIRED_SECTIONS ==> section in record.sections;
  }

  lemma {:induction false} MalformedIsExact(some: seq<Record>, records: seq<Record>)
    requires forall n :: n in Numbers(records) <==> 1 <= n <= |records|
    ensures MalformedRecords(some, Numbers(records)) == [] <==>
      forall i :: 0 <= i < |some| ==> Readable(some[i]) && StatusStands(records, some[i])
  {
    if some != [] {
      var before := some[..|some| - 1];
      MalformedIsExact(before, records);
      MalformedIsExactForOne(some[|some| - 1], records);
      assert forall i :: 0 <= i < |before| ==> before[i] == some[i];
    }
  }

  // ---------------------------------------------------------------- the index

  lemma DistinctOneMoreRow(rows: seq<Row>)
    requires rows != []
    ensures var before, row := rows[..|rows| - 1], rows[|rows| - 1];
            DistinctRows(rows) <==> DistinctRows(before) && row.number !in RowNumbers(before)
  {
    var before, row := rows[..|rows| - 1], rows[|rows| - 1];
    assert forall i :: 0 <= i < |before| ==> before[i] == rows[i] && before[i].number in RowNumbers(before);
  }

  lemma {:induction false} RepeatsAreExact(rows: seq<Row>)
    ensures Repeats(rows) == [] <==> DistinctRows(rows)
  {
    hide DistinctRows, RowNumbers;
    if rows != [] {
      RepeatsAreExact(rows[..|rows| - 1]);
      DistinctOneMoreRow(rows);
    } else {
      NoRowsAreDistinct();
    }
  }

  lemma NoRowsAreDistinct()
    ensures DistinctRows([])
  {
  }

  lemma {:induction false} MapHasRowNumbers(rows: seq<Row>)
    ensures RowMap(rows).Keys == RowNumbers(rows)
  {
    if rows != [] {
      var last := |rows| - 1;
      MapHasRowNumbers(rows[..last]);
      OneMoreRow(rows, last);
      assert rows[..last + 1] == rows;
    }
  }

  lemma {:induction false} MapHoldsItsRows(rows: seq<Row>)
    ensures forall n :: n in RowMap(rows) ==> RowMap(rows)[n] in rows && RowMap(rows)[n].number == n
  {
    if rows != [] {
      var last := |rows| - 1;
      MapHoldsItsRows(rows[..last]);
      assert rows == rows[..last] + [rows[last]];
    }
  }

  lemma {:induction false} KeysAreRowNumbers(rows: seq<Row>)
    ensures forall n :: n in KeyOrder(rows) <==> n in RowNumbers(rows)
  {
    if rows != [] {
      var last := |rows| - 1;
      KeysAreRowNumbers(rows[..last]);
      OneMoreRow(rows, last);
      assert rows[..last + 1] == rows;
    }
  }

  lemma {:induction false} LeftoverIsExact(keys: seq<nat>, left: map<nat, Row>)
    ensures Leftover(keys, left) == [] <==> forall k :: k in keys ==> k !in left
  {
    if keys != [] {
      var last := |keys| - 1;
      LeftoverIsExact(keys[..last], left);
      assert keys[last] in keys;
      assert forall k :: k in keys ==> k in keys[..last] || k == keys[last];
    }
  }

  predicate AllShown(records: seq<Record>, rows: map<nat, Row>) {
    forall i :: 0 <= i < |records| ==> records[i].number in rows && Shows(rows[records[i].number], records[i])
  }

  lemma DistinctOneMore(records: seq<Record>)
    requires records != []
    ensures var last := |records| - 1;
            DistinctRecords(records) <==>
              DistinctRecords(records[..last]) && records[last].number !in Numbers(records[..last])
  {
  }

  lemma AllShownOneMore(records: seq<Record>, rows: map<nat, Row>)
    requires records != []
    ensures var last := records[|records| - 1];
            AllShown(records, rows) <==>
              AllShown(records[..|records| - 1], rows) && last.number in rows && Shows(rows[last.number], last)
  {
  }

  lemma {:induction false} ComparisonIsExact(records: seq<Record>, rows: map<nat, Row>)
    requires forall n :: n in rows ==> rows[n].number == n
    ensures Compared(records, rows) == [] <==> DistinctRecords(records) && AllShown(records, rows)
  {
    if records != [] {
      var last := |records| - 1;
      var before := records[..last];
      ComparisonIsExact(before, rows);
      DistinctOneMore(records);
      AllShownOneMore(records, rows);
      var n := records[last].number;
      assert n in Untaken(before, rows) <==> n in rows && n !in Numbers(before);
    }
  }

  lemma LeftoverMeansNoRecord(records: seq<Record>, rows: seq<Row>)
    ensures Leftover(KeyOrder(rows), Untaken(records, RowMap(rows))) == [] <==>
      forall j :: 0 <= j < |rows| ==> rows[j].number in Numbers(records)
  {
    var left := Untaken(records, RowMap(rows));
    MapHasRowNumbers(rows);
    KeysAreRowNumbers(rows);
    LeftoverIsExact(KeyOrder(rows), left);
    forall j | 0 <= j < |rows|
      ensures rows[j].number in KeyOrder(rows)
      ensures rows[j].number in left <==> rows[j].number !in Numbers(records)
    {
      assert rows[j].number in RowNumbers(rows);
    }
    forall k | k in KeyOrder(rows)
      ensures exists j :: 0 <= j < |rows| && rows[j].number == k
    {
    }
  }

  predicate HasRow(rows: seq<Row>, record: Record) {
    exists j :: 0 <= j < |rows| && Shows(rows[j], record)
  }

  lemma ComparisonMeansShown(records: seq<Record>, rows: seq<Row>)
    requires DistinctRows(rows)
    ensures Compared(records, RowMap(rows)) == [] <==>
      && DistinctRecords(records)
      && forall i :: 0 <= i < |records| ==> HasRow(rows, records[i])
  {
    hide HasRow, Shows, RowMap, DistinctRows, Compared;
    var m := RowMap(rows);
    MapHoldsItsRows(rows);
    ComparisonIsExact(records, m);
    forall i | 0 <= i < |records|
      ensures records[i].number in m && Shows(m[records[i].number], records[i]) <==> HasRow(rows, records[i])
    {
      RowOfRecord(rows, records[i]);
    }
  }

  /** The index rule is silent exactly when records and rows pair off and agree. */
  lemma IndexIsExact(records: seq<Record>, rows: seq<Row>)
    ensures IndexDisagreements(records, Some(rows)) == [] <==> Indexed(records, rows)
  {
    RepeatsAreExact(rows);
    LeftoverMeansNoRecord(records, rows);
    if DistinctRows(rows) {
      ComparisonMeansShown(records, rows);
    }
  }

  lemma RowOfRecord(rows: seq<Row>, record: Record)
    requires DistinctRows(rows)
    ensures record.number in RowMap(rows) && Shows(RowMap(rows)[record.number], record) <==> HasRow(rows, record)
  {
  }

  // ---------------------------------------------------------------- the gate

  lemma RecordRulesAreExact(records: seq<Record>)
    requires DistinctRecords(records)
    ensures NumberingGaps(records) == [] && RecordsAfterClosure(records) == []
            && MalformedRecords(records, Numbers(records)) == []
            <==> Numbered(records) && AllStand(records)
  {
    NumberingIsExact(records);
    if Numbered(records) {
      assert forall n :: n in Numbers(records) ==> 1 <= n <= |records|;
      MalformedIsExact(records, records);
    }
  }

  lemma AllSilent(records: seq<Record>, index: Option<seq<Row>>)
    ensures ArchiveViolations(records, index) == [] <==>
      NumberingGaps(records) == [] && RecordsAfterClosure(records) == []
      && MalformedRecords(records, Numbers(records)) == [] && IndexDisagreements(records, index) == []
  {
  }

  /** The gate is silent exactly on a consistent archive with an index. */
  lemma GateIsExact(records: seq<Record>, index: Option<seq<Row>>)
    ensures ArchiveViolations(records, index) == [] <==> index.Some? && Consistent(records, index.value)
  {
    AllSilent(records, index);
    if index.Some? {
      IndexIsExact(records, index.value);
      if DistinctRecords(records) {
        RecordRulesAreExact(records);
      }
    }
  }

  /** In a consistent archive there are as many rows as records, and each row shows one record. */
  lemma RowsAndRecordsPairOff(records: seq<Record>, rows: seq<Row>)
    requires Consistent(records, rows)
    ensures |rows| == |records|
    ensures forall j :: 0 <= j < |rows| ==> exists i :: 0 <= i < |records| && Shows(rows[j], records[i])
    ensures forall i, j, k ::
      0 <= i < |records| && 0 <= j < |rows| && 0 <= k < |rows| && Shows(rows[j], records[i]) && Shows(rows[k], records[i])
      ==> j == k
  {
    DistinctRecordsCount(records);
    DistinctRowsCount(rows);
    forall n | n in Numbers(records)
      ensures n in RowNumbers(rows)
    {
      var i :| 0 <= i < |records| && records[i].number == n;
      var j :| 0 <= j < |rows| && Shows(rows[j], records[i]);
      assert rows[j].number == n;
    }
    assert RowNumbers(rows) == Numbers(records);
    forall j | 0 <= j < |rows|
      ensures exists i :: 0 <= i < |records| && Shows(rows[j], records[i])
    {
      var i :| 0 <= i < |records| && records[i].number == rows[j].number;
      var k :| 0 <= k < |rows| && Shows(rows[k], records[i]);
      assert k == j;
    }
  }

  // ---------------------------------------------------------------- supersession

  predicate Supersedes(records: seq<Record>, older: nat, newer: nat) {
    older < |records| && newer < |records| && records[older].statuses == [Superseded(records[newer].number)]
  }

  /** A path of records, each superseded by the next, that ends at one that is not superseded. */
  ghost predicate EndsAlive(records: seq<Record>, chain: seq<nat>) {
    && chain != [] && (forall k :: 0 <= k < |chain| ==> chain[k] < |records|)
    && (forall k :: 0 <= k < |chain| - 1 ==> Supersedes(records, chain[k], chain[k + 1]))
    && |records[chain[|chain| - 1]].statuses| == 1
    && !records[chain[|chain| - 1]].statuses[0].Superseded?
  }

  predicate Forward(records: seq<Record>, chain: seq<nat>) {
    && (forall k :: 0 <= k < |chain| ==> chain[k] < |records|)
    && forall j, k :: 0 <= j < k < |chain| ==> records[chain[j]].number < records[chain[k]].number
  }

  lemma LaterRecord(records: seq<Record>, rows: seq<Row>, at: nat) returns (next: nat)
    requires Consistent(records, rows) && at < |records| && records[at].statuses[0].Superseded?
    ensures Supersedes(records, at, next) && records[at].number < records[next].number <= |records|
  {
    assert StatusStands(records, records[at]);
    var later := records[at].statuses[0].later;
    assert later in Numbers(records);
    next :| next < |records| && records[next].number == later;
  }

  lemma LongerChain(records: seq<Record>, at: nat, rest: seq<nat>)
    requires rest != [] && EndsAlive(records, rest) && Forward(records, rest)
    requires Supersedes(records, at, rest[0]) && records[at].number < records[rest[0]].number
    ensures EndsAlive(records, [at] + rest) && Forward(records, [at] + rest)
  {
  }

  /** From every record the supersessions lead, by strictly later numbers, to a record still standing. */
  lemma {:induction false} SupersessionEnds(records: seq<Record>, rows: seq<Row>, at: nat) returns (chain: seq<nat>)
    requires Consistent(records, rows) && at < |records|
    ensures chain != [] && chain[0] == at && EndsAlive(records, chain) && Forward(records, chain)
    decreases |records| - records[at].number
  {
    assert StatusStands(records, records[at]);
    if records[at].statuses[0].Superseded? {
      var next := LaterRecord(records, rows, at);
      var rest := SupersessionEnds(records, rows, next);
      LongerChain(records, at, rest);
      chain := [at] + rest;
    } else {
      chain := [at];
    }
  }
}
