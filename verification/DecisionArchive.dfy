/**
 The rules of scripts/check-decisions.ts that read the archive's records and its
 index, each on its own. `DecisionArchiveProperties` shows what they say together,
 `DecisionArchiveReports` what each report says.
 */
module DecisionArchive {
  import opened Prelude

  /** A status as written; `Superseded(n)` is the text "Superseded by" and four digits. */
  datatype Status = Proposed | Accepted | Deprecated | Superseded(later: nat) | Unknown(text: string)

  datatype Section = Context | Decision | Consequences

  datatype Heading = Heading(number: nat, title: string)

  /** What is read from one record's file, outside its fenced examples. */
  datatype Record = Record(
    number: nat, file: string, heading: Option<Heading>, statuses: seq<Status>, sections: set<Section>)

  datatype Row = Row(number: nat, target: string, title: string, status: Status)

  datatype Violation =
    | Skipped(missing: seq<nat>, highest: nat)
    | AfterClosure(number: nat)
    | NoHeading(number: nat)
    | HeadingDiffers(number: nat, heading: nat)
    | NoStatus(number: nat)
    | ManyStatuses(number: nat, count: nat)
    | StatusUnknown(number: nat)
    | SupersederMissing(number: nat, later: nat)
    | SupersederNotLater(number: nat, later: nat)
    | NoSection(number: nat, section: Section)
    | IndexMissing
    | IndexedTwice(number: nat)
    | NotIndexed(number: nat)
    | TargetDiffers(number: nat)
    | TitleDiffers(number: nat)
    | StatusDiffers(number: nat)
    | NoRecord(number: nat)

  const LAST_ARCHIVED_RECORD: nat := 164
  const REQUIRED_SECTIONS := [Context, Decision, Consequences]

  function Numbers(records: seq<Record>): set<nat> {
    set i | 0 <= i < |records| :: records[i].number
  }

  // ---------------------------------------------------------------- rule F: numbering

  /** The numbers of `from..to` that are absent, ascending. */
  function Absent(present: set<nat>, to: nat): seq<nat> {
    if to == 0 then [] else Absent(present, to - 1) + (if to in present then [] else [to])
  }

  function Highest(records: seq<Record>): nat {
    if records == [] then 0
    else
      var before := Highest(records[..|records| - 1]);
      var last := records[|records| - 1].number;
      if last > before then last else before
  }

  function NumberingGaps(records: seq<Record>): seq<Violation> {
    var missing := Absent(Numbers(records), Highest(records));
    if missing == [] then [] else [Skipped(missing, Highest(records))]
  }

  method FindNumberingGaps(records: seq<Record>) returns (violations: seq<Violation>)
    ensures violations == NumberingGaps(records)
  {
    var present := Numbers(records);
    var highest := 0;
    for i := 0 to |records|
      invariant highest == Highest(records[..i])
    {
      assert records[..i + 1][..i] == records[..i];
      if records[i].number > highest { highest := records[i].number; }
    }
    assert records[..|records|] == records;
    var missing: seq<nat> := [];
    var number := 1;
    while number <= highest
      invariant 1 <= number <= highest + 1
      invariant missing == Absent(present, number - 1)
    {
      if number !in present { missing := missing + [number]; }
      number := number + 1;
    }
    violations := if missing == [] then [] else [Skipped(missing, highest)];
  }

  // ---------------------------------------------------------------- rule H: closure

  function RecordsAfterClosure(records: seq<Record>): seq<Violation> {
    if records == [] then []
    else
      var last := records[|records| - 1].number;
      RecordsAfterClosure(records[..|records| - 1]) +
      (if last < 1 || last > LAST_ARCHIVED_RECORD then [AfterClosure(last)] else [])
  }

  // ---------------------------------------------------------------- rules A, B and C

  function HeadingViolations(record: Record): seq<Violation> {
    match record.heading
    case None => [NoHeading(record.number)]
    case Some(heading) =>
      if heading.number != record.number then [HeadingDiffers(record.number, heading.number)] else []
  }

  function StatusViolations(record: Record, numbers: set<nat>): seq<Violation> {
    if record.statuses == [] then [NoStatus(record.number)]
    else if |record.statuses| > 1 then [ManyStatuses(record.number, |record.statuses|)]
    else
      match record.statuses[0]
      case Superseded(later) =>
        if later !in numbers then [SupersederMissing(record.number, later)]
        else if later <= record.number then [SupersederNotLater(record.number, later)]
        else []
      case Unknown(_) => [StatusUnknown(record.number)]
      case _ => []
  }

  function SectionViolations(record: Record, required: seq<Section>): seq<Violation> {
    if required == [] then []
    else
      (if required[0] in record.sections then [] else [NoSection(record.number, required[0])]) +
      SectionViolations(record, required[1..])
  }

  function MalformedRecords(records: seq<Record>, numbers: set<nat>): seq<Violation> {
    if records == [] then []
    else
      var record := records[|records| - 1];
      MalformedRecords(records[..|records| - 1], numbers) + HeadingViolations(record)
      + StatusViolations(record, numbers) + SectionViolations(record, REQUIRED_SECTIONS)
  }

  // ---------------------------------------------------------------- rule D: the index

  /** One report for each row whose number an earlier row has. */
  function Repeats(rows: seq<Row>): seq<Violation> {
    if rows == [] then []
    else
      var before := rows[..|rows| - 1];
      var number := rows[|rows| - 1].number;
      Repeats(before) + (if number in RowNumbers(before) then [IndexedTwice(number)] else [])
  }

  function RowNumbers(rows: seq<Row>): set<nat> {
    set i | 0 <= i < |rows| :: rows[i].number
  }

  /** The last row of each number. */
  function RowMap(rows: seq<Row>): map<nat, Row> {
    if rows == [] then map[]
    else
      var row := rows[|rows| - 1];
      RowMap(rows[..|rows| - 1])[row.number := row]
  }

  /** The keys of that map in the order they were first put in. */
  function KeyOrder(rows: seq<Row>): seq<nat> {
    if rows == [] then []
    else
      var before := rows[..|rows| - 1];
      var number := rows[|rows| - 1].number;
      KeyOrder(before) + (if number in RowNumbers(before) then [] else [number])
  }

  function RowViolations(record: Record, row: Row): seq<Violation> {
    (if row.target != record.file then [TargetDiffers(record.number)] else []) +
    (if record.heading.Some? && row.title != record.heading.value.title
     then [TitleDiffers(record.number)] else []) +
    (if record.statuses != [] && row.status != record.statuses[0] then [StatusDiffers(record.number)] else [])
  }

  /** The rows no record has taken yet: a record takes its row, so a second one of its number finds none. */
  function Untaken(records: seq<Record>, rows: map<nat, Row>): map<nat, Row> {
    rows - Numbers(records)
  }

  function Compared(records: seq<Record>, rows: map<nat, Row>): seq<Violation> {
    if records == [] then []
    else
      var before := records[..|records| - 1];
      var record := records[|records| - 1];
      var left := Untaken(before, rows);
      Compared(before, rows) +
      (if record.number in left then RowViolations(record, left[record.number]) else [NotIndexed(record.number)])
  }

  function Leftover(keys: seq<nat>, left: map<nat, Row>): seq<Violation> {
    if keys == [] then []
    else
      var key := keys[|keys| - 1];
      Leftover(keys[..|keys| - 1], left) + (if key in left then [NoRecord(key)] else [])
  }

  function IndexDisagreements(records: seq<Record>, index: Option<seq<Row>>): seq<Violation> {
    if index.None? then [IndexMissing]
    else
      var rows := index.value;
      Repeats(rows) + Compared(records, RowMap(rows)) + Leftover(KeyOrder(rows), Untaken(records, RowMap(rows)))
  }

  lemma OneMoreNumber(records: seq<Record>, i: nat)
    requires i < |records|
    ensures records[..i + 1][..i] == records[..i]
    ensures Numbers(records[..i + 1]) == Numbers(records[..i]) + {records[i].number}
  {
  }

  lemma OneMoreRow(rows: seq<Row>, i: nat)
    requires i < |rows|
    ensures rows[..i + 1][..i] == rows[..i]
    ensures RowNumbers(rows[..i + 1]) == RowNumbers(rows[..i]) + {rows[i].number}
  {
  }

  /** The first two loops of the rule: repeated rows, and the map that keeps the last of each number. */
  method CollectRows(parsed: seq<Row>) returns (violations: seq<Violation>, keys: seq<nat>, rows: map<nat, Row>)
    ensures violations == Repeats(parsed) && keys == KeyOrder(parsed) && rows == RowMap(parsed)
  {
    violations, keys, rows := [], [], map[];
    var seen: set<nat> := {};
    for i := 0 to |parsed|
      invariant seen == RowNumbers(parsed[..i])
      invariant violations == Repeats(parsed[..i])
      invariant keys == KeyOrder(parsed[..i])
      invariant rows == RowMap(parsed[..i])
    {
      OneMoreRow(parsed, i);
      var number := parsed[i].number;
      if number in seen {
        violations := violations + [IndexedTwice(number)];
      } else {
        keys := keys + [number];
      }
      seen := seen + {number};
      rows := rows[number := parsed[i]];
    }
    assert parsed[..|parsed|] == parsed;
  }

  method CompareRow(record: Record, row: Row) returns (violations: seq<Violation>)
    ensures violations == RowViolations(record, row)
  {
    violations := [];
    if row.target != record.file {
      violations := violations + [TargetDiffers(record.number)];
    }
    if record.heading.Some? && row.title != record.heading.value.title {
      violations := violations + [TitleDiffers(record.number)];
    }
    if record.statuses != [] && row.status != record.statuses[0] {
      violations := violations + [StatusDiffers(record.number)];
    }
  }

  /** The third loop: every record against its row, which it takes out of the map. */
  method CompareRecords(records: seq<Record>, all: map<nat, Row>)
    returns (violations: seq<Violation>, rows: map<nat, Row>)
    ensures violations == Compared(records, all) && rows == Untaken(records, all)
  {
    violations, rows := [], all;
    for i := 0 to |records|
      invariant rows == Untaken(records[..i], all)
      invariant violations == Compared(records[..i], all)
    {
      OneMoreNumber(records, i);
      var record := records[i];
      if record.number !in rows {
        violations := violations + [NotIndexed(record.number)];
        continue;
      }
      var row := rows[record.number];
      rows := rows - {record.number};
      var differences := CompareRow(record, row);
      violations := violations + differences;
    }
    assert records[..|records|] == records;
  }

  /** The last loop: the rows left over. */
  method ReportLeftover(keys: seq<nat>, rows: map<nat, Row>) returns (violations: seq<Violation>)
    ensures violations == Leftover(keys, rows)
  {
    violations := [];
    for i := 0 to |keys|
      invariant violations == Leftover(keys[..i], rows)
    {
      assert keys[..i + 1][..i] == keys[..i];
      if keys[i] in rows { violations := violations + [NoRecord(keys[i])]; }
    }
    assert keys[..|keys|] == keys;
  }

  method FindIndexDisagreements(records: seq<Record>, index: Option<seq<Row>>) returns (violations: seq<Violation>)
    ensures violations == IndexDisagreements(records, index)
  {
    if index.None? { return [IndexMissing]; }
    var repeated, keys, all := CollectRows(index.value);
    var compared, rows := CompareRecords(records, all);
    var leftover := ReportLeftover(keys, rows);
    violations := repeated + compared + leftover;
  }

  // ---------------------------------------------------------------- the gate

  function ArchiveViolations(records: seq<Record>, index: Option<seq<Row>>): seq<Violation> {
    NumberingGaps(records) + RecordsAfterClosure(records) + MalformedRecords(records, Numbers(records))
    + IndexDisagreements(records, index)
  }
}
