/**
 The two spreadsheet imports: punch sheets become a normalised attendance sheet for review, and
 attendance sheets are posted as records.
 */
module AttendanceSheets {
  import opened Prelude
  import opened Sorting
  import opened AttendanceDay

  type EmployeeId = nat

  const DAY := 86400
  const MINUTE := 60

  /** The active employees of the organisation by employee code. */
  type Directory = map<string, EmployeeId>

  type Key = (EmployeeId, int)

  type Records = map<Key, AttendanceRecord>

  newtype TimeOfDay = t: int | 0 <= t < 86400

  /** One row of an attendance sheet. A cell that is empty or cannot be read as a date or time is `None`. */
  datatype SheetRow = SheetRow(
    rowNumber: nat, code: string, date: Option<int>, checkIn: Option<TimeOfDay>, checkOut: Option<TimeOfDay>)

  datatype PunchRow = PunchRow(rowNumber: nat, code: string, date: Option<int>, time: Option<TimeOfDay>)

  datatype RowStatus = Valid | Incomplete | Faulty | Posted

  datatype ImportRow = ImportRow(
    rowNumber: nat, code: string, key: Option<Key>, checkInAt: Option<Instant>, checkOutAt: Option<Instant>,
    punchCount: nat, status: RowStatus)

  datatype JobStatus = JobFailed | JobPosted | ReadyForReview

  datatype Job = Job(
    status: JobStatus, totalRows: nat, validRows: nat, errorRows: nat, postedRows: nat, rows: seq<ImportRow>)

  datatype ImportError = NoRows

  function At(date: int, time: TimeOfDay): Instant {
    date * DAY + time as int
  }

  function CountStatus(rows: seq<ImportRow>, status: RowStatus): nat {
    if rows == [] then 0
    else CountStatus(rows[..|rows| - 1], status) + (if rows[|rows| - 1].status == status then 1 else 0)
  }

  // ----- attendance sheets

  /** The row names an active employee and a readable, ordered interval. */
  predicate Readable(directory: Directory, row: SheetRow) {
    && row.code in directory
    && row.date.Some? && row.checkIn.Some? && row.checkOut.Some?
    && row.checkIn.value <= row.checkOut.value
  }

  function KeyOf(directory: Directory, row: SheetRow): Key
    requires Readable(directory, row)
  {
    (directory[row.code], row.date.value)
  }

  function RecordOf(directory: Directory, row: SheetRow): AttendanceRecord
    requires Readable(directory, row)
  {
    AttendanceRecord(At(row.date.value, row.checkIn.value), Some(At(row.date.value, row.checkOut.value)))
  }

  /** The row is readable and the first readable one for its employee and date. */
  predicate Accepted(directory: Directory, rows: seq<SheetRow>, i: nat)
    requires i < |rows|
  {
    && Readable(directory, rows[i])
    && forall j :: 0 <= j < i && Readable(directory, rows[j]) ==> KeyOf(directory, rows[j]) != KeyOf(directory, rows[i])
  }

  function Checked(directory: Directory, rows: seq<SheetRow>, i: nat): ImportRow
    requires i < |rows|
  {
    var row := rows[i];
    if Accepted(directory, rows, i) then
      var record := RecordOf(directory, row);
      ImportRow(row.rowNumber, row.code, Some(KeyOf(directory, row)), Some(record.checkInAt), record.checkOutAt, 0,
        Valid)
    else ImportRow(row.rowNumber, row.code, None, None, None, 0, Faulty)
  }

  function CheckedRows(directory: Directory, rows: seq<SheetRow>, n: nat): (checked: seq<ImportRow>)
    requires n <= |rows|
    ensures |checked| == n
  {
    seq(n, i requires 0 <= i < n => Checked(directory, rows, i))
  }

  predicate AllReadable(directory: Directory, rows: seq<SheetRow>) {
    forall i :: 0 <= i < |rows| ==> Readable(directory, rows[i])
  }

  /** Every row is readable, and no employee-date occurs twice. */
  predicate AllAcceptable(directory: Directory, rows: seq<SheetRow>) {
    && AllReadable(directory, rows)
    && forall i, j :: 0 <= i < j < |rows| ==> KeyOf(directory, rows[i]) != KeyOf(directory, rows[j])
  }

  lemma AcceptableIff(directory: Directory, rows: seq<SheetRow>)
    ensures AllAcceptable(directory, rows) <==> forall i :: 0 <= i < |rows| ==> Accepted(directory, rows, i)
  {
    if forall i :: 0 <= i < |rows| ==> Accepted(directory, rows, i) {
      forall i, j | 0 <= i < j < |rows|
        ensures Readable(directory, rows[i]) && Readable(directory, rows[j])
        ensures KeyOf(directory, rows[i]) != KeyOf(directory, rows[j])
      {
        assert Accepted(directory, rows, i) && Accepted(directory, rows, j);
      }
      forall i | 0 <= i < |rows|
        ensures Readable(directory, rows[i])
      {
        assert Accepted(directory, rows, i);
      }
    }
  }

  /** The records after posting the first `n` rows. */
  function PostedRecords(directory: Directory, rows: seq<SheetRow>, records: Records, n: nat): Records
    requires n <= |rows| && AllReadable(directory, rows)
  {
    if n == 0 then records
    else
      var row := rows[n - 1];
      PostedRecords(directory, rows, records, n - 1)[KeyOf(directory, row) := RecordOf(directory, row)]
  }

  /** The employee-dates of the readable rows among the first `n`. */
  function SeenKeys(directory: Directory, rows: seq<SheetRow>, n: nat): set<Key>
    requires n <= |rows|
  {
    if n == 0 then {}
    else
      SeenKeys(directory, rows, n - 1)
      + (if Readable(directory, rows[n - 1]) then {KeyOf(directory, rows[n - 1])} else {})
  }

  lemma {:induction false} SeenKeysAre(directory: Directory, rows: seq<SheetRow>, n: nat, key: Key)
    requires n <= |rows|
    ensures key in SeenKeys(directory, rows, n) <==>
            exists j :: 0 <= j < n && Readable(directory, rows[j]) && KeyOf(directory, rows[j]) == key
  {
    if n > 0 {
      SeenKeysAre(directory, rows, n - 1, key);
    }
  }

  lemma {:induction false} CheckedCounts(directory: Directory, rows: seq<SheetRow>, n: nat)
    requires n <= |rows|
    ensures var checked := CheckedRows(directory, rows, n);
            && CountStatus(checked, Valid) + CountStatus(checked, Faulty) == n
            && (CountStatus(checked, Faulty) == 0 <==> forall i :: 0 <= i < n ==> Accepted(directory, rows, i))
  {
    if n > 0 {
      CheckedCounts(directory, rows, n - 1);
      var checked := CheckedRows(directory, rows, n);
      assert checked[..n - 1] == CheckedRows(directory, rows, n - 1);
    }
  }

  /** The set of keys seen so far decides whether a row is accepted. */
  lemma AcceptedIffUnseen(directory: Directory, rows: seq<SheetRow>, i: nat)
    requires i < |rows|
    ensures Accepted(directory, rows, i) <==>
            Readable(directory, rows[i]) && KeyOf(directory, rows[i]) !in SeenKeys(directory, rows, i)
  {
    if Readable(directory, rows[i]) {
      SeenKeysAre(directory, rows, i, KeyOf(directory, rows[i]));
    }
  }

  method CheckRows(directory: Directory, rows: seq<SheetRow>) returns (checked: seq<ImportRow>, valid: nat, errors: nat)
    ensures checked == CheckedRows(directory, rows, |rows|)
    ensures valid == CountStatus(checked, Valid) && valid + errors == |rows|
    ensures errors == 0 <==> AllAcceptable(directory, rows)
  {
    checked, valid, errors := [], 0, 0;
    var seen: set<Key> := {};
    for i := 0 to |rows|
      invariant checked == CheckedRows(directory, rows, i)
      invariant valid == CountStatus(checked, Valid) && errors == CountStatus(checked, Faulty)
      invariant seen == SeenKeys(directory, rows, i)
    {
      var row := rows[i];
      AcceptedIffUnseen(directory, rows, i);
      if Readable(directory, row) && KeyOf(directory, row) !in seen {
        seen := seen + {KeyOf(directory, row)};
        var record := RecordOf(directory, row);
        checked := checked + [ImportRow(row.rowNumber, row.code, Some(KeyOf(directory, row)),
                                        Some(record.checkInAt), record.checkOutAt, 0, Valid)];
        valid := valid + 1;
      } else {
        checked := checked + [ImportRow(row.rowNumber, row.code, None, None, None, 0, Faulty)];
        errors := errors + 1;
      }
    }
    CheckedCounts(directory, rows, |rows|);
    AcceptableIff(directory, rows);
  }

  function WithStatus(rows: seq<ImportRow>, from: RowStatus, to: RowStatus): (changed: seq<ImportRow>)
    ensures |changed| == |rows|
  {
    seq(|rows|, i requires 0 <= i < |rows| => if rows[i].status == from then rows[i].(status := to) else rows[i])
  }

  /** What the import of an attendance sheet does to the job and to the records. */
  ghost predicate Imports(directory: Directory, rows: seq<SheetRow>, before: Records, job: Job, after: Records) {
    && job.totalRows == |rows| == |job.rows|
    && job.validRows + job.errorRows == job.totalRows
    && job.validRows == CountStatus(CheckedRows(directory, rows, |rows|), Valid)
    && (job.errorRows == 0 <==> AllAcceptable(directory, rows))
    && if AllAcceptable(directory, rows) then
         && job.status == JobPosted && job.postedRows == |rows|
         && job.rows == WithStatus(CheckedRows(directory, rows, |rows|), Valid, Posted)
         && after == PostedRecords(directory, rows, before, |rows|)
       else
         && job.status == JobFailed && job.postedRows == 0
         && job.rows == CheckedRows(directory, rows, |rows|)
         && after == before
  }

  class AttendanceStore {
    var records: Records

    method ImportAttendanceSheet(directory: Directory, rows: seq<SheetRow>) returns (outcome: Result<Job, ImportError>)
      modifies this
      ensures rows == [] ==> outcome == Err(NoRows) && records == old(records)
      ensures rows != [] ==> outcome.Ok? && Imports(directory, rows, old(records), outcome.value, records)
    {
      if rows == [] {
        return Err(NoRows);
      }
      var checked, valid, errors := CheckRows(directory, rows);
      if errors != 0 {
        return Ok(Job(JobFailed, |rows|, valid, errors, 0, checked));
      }
      var posted := 0;
      for i := 0 to |rows|
        invariant posted == i
        invariant records == PostedRecords(directory, rows, old(records), i)
      {
        var row := rows[i];
        records := records[KeyOf(directory, row) := RecordOf(directory, row)];
        posted := posted + 1;
      }
      return Ok(Job(JobPosted, |rows|, valid, errors, posted, WithStatus(checked, Valid, Posted)));
    }
  }

  /** Posting stores the record of every row, since no later row has the same employee-date. */
  lemma {:induction false} PostingStoresRow(directory: Directory, rows: seq<SheetRow>, records: Records, n: nat, i: nat)
    requires i < n <= |rows| && AllAcceptable(directory, rows)
    ensures var after := PostedRecords(directory, rows, records, n);
            KeyOf(directory, rows[i]) in after && after[KeyOf(directory, rows[i])] == RecordOf(directory, rows[i])
    decreases n
  {
    if i < n - 1 {
      PostingStoresRow(directory, rows, records, n - 1, i);
    }
  }

  /** Posting touches no employee-date that is not in the sheet. */
  lemma {:induction false} PostingKeepsOthers(directory: Directory, rows: seq<SheetRow>, records: Records, n: nat,
                                              key: Key)
    requires n <= |rows| && AllReadable(directory, rows)
    requires forall i :: 0 <= i < n ==> KeyOf(directory, rows[i]) != key
    ensures var after := PostedRecords(directory, rows, records, n);
            (key in after <==> key in records) && (key in after ==> after[key] == records[key])
    decreases n
  {
    if n > 0 {
      PostingKeepsOthers(directory, rows, records, n - 1, key);
    }
  }

  // ----- punch sheets

  /** One readable punch. */
  datatype Entry = Entry(code: string, at: Instant)

  predicate ReadablePunch(directory: Directory, row: PunchRow) {
    row.code in directory && row.date.Some? && row.time.Some?
  }

  function PunchKey(directory: Directory, row: PunchRow): Key
    requires ReadablePunch(directory, row)
  {
    (directory[row.code], row.date.value)
  }

  predicate IsPunchFor(directory: Directory, row: PunchRow, key: Key) {
    ReadablePunch(directory, row) && PunchKey(directory, row) == key
  }

  function EntryOf(row: PunchRow): Entry
    requires row.date.Some? && row.time.Some?
  {
    Entry(row.code, At(row.date.value, row.time.value))
  }

  /** The punches of one employee-day, in sheet order. */
  function EntriesFor(directory: Directory, rows: seq<PunchRow>, key: Key): (entries: seq<Entry>)
    ensures forall e :: e in entries ==>
              e.code in directory && directory[e.code] == key.0 && key.1 * DAY <= e.at < (key.1 + 1) * DAY
  {
    if rows == [] then [] else
    var last := rows[|rows| - 1];
    EntriesFor(directory, rows[..|rows| - 1], key) + (if IsPunchFor(directory, last, key) then [EntryOf(last)] else [])
  }

  /** The employee-days with at least one readable punch, in order of first appearance. */
  function KeysIn(directory: Directory, rows: seq<PunchRow>): seq<Key> {
    if rows == [] then [] else
    var last := rows[|rows| - 1];
    var earlier := KeysIn(directory, rows[..|rows| - 1]);
    if ReadablePunch(directory, last) && PunchKey(directory, last) !in earlier then
      earlier + [PunchKey(directory, last)]
    else earlier
  }

  function FaultyPunches(directory: Directory, rows: seq<PunchRow>): seq<ImportRow> {
    if rows == [] then [] else
    var last := rows[|rows| - 1];
    FaultyPunches(directory, rows[..|rows| - 1])
    + (if ReadablePunch(directory, last) then []
       else [ImportRow(last.rowNumber, last.code, None, None, None, 0, Faulty)])
  }

  /** By date, then by employee. */
  function ByDateThenEmployee(): (Key, Key) -> bool {
    (a: Key, b: Key) => a.1 < b.1 || (a.1 == b.1 && a.0 <= b.0)
  }

  function ByTime(): (Entry, Entry) -> bool {
    (a: Entry, b: Entry) => a.at <= b.at
  }

  function Generated(key: Key, entries: seq<Entry>, rowNumber: nat): ImportRow
    requires entries != []
  {
    SortedMembers(ByTime(), entries);
    var sorted := Sort(ByTime(), entries);
    var checkOut := if |sorted| > 1 then Some(sorted[|sorted| - 1].at) else None;
    ImportRow(rowNumber, sorted[0].code, Some(key), Some(sorted[0].at), checkOut, |sorted|,
              if checkOut.Some? then Valid else RowStatus.Incomplete)
  }

  lemma {:induction false} KeysHaveEntries(directory: Directory, rows: seq<PunchRow>)
    ensures Distinct(KeysIn(directory, rows))
    ensures forall k :: k in KeysIn(directory, rows) <==> EntriesFor(directory, rows, k) != []
  {
    if rows != [] {
      KeysHaveEntries(directory, rows[..|rows| - 1]);
    }
  }

  function SortedKeys(directory: Directory, rows: seq<PunchRow>): (keys: seq<Key>)
    ensures Sorted(ByDateThenEmployee(), keys) && Distinct(keys)
    ensures forall k :: k in keys <==> EntriesFor(directory, rows, k) != []
  {
    KeysHaveEntries(directory, rows);
    SortPermutes(ByDateThenEmployee(), KeysIn(directory, rows));
    SortedMembers(ByDateThenEmployee(), KeysIn(directory, rows));
    Sort(ByDateThenEmployee(), KeysIn(directory, rows))
  }

  /** The rows generated for the first `n` employee-days; the sheet's numbering starts below its header. */
  function GeneratedRows(directory: Directory, rows: seq<PunchRow>, n: nat): (generated: seq<ImportRow>)
    requires n <= |SortedKeys(directory, rows)|
    ensures |generated| == n
  {
    var keys := SortedKeys(directory, rows);
    seq(n, i requires 0 <= i < n =>
      assert keys[i] in keys;
      Generated(keys[i], EntriesFor(directory, rows, keys[i]), i + 2))
  }

  function PunchJob(directory: Directory, rows: seq<PunchRow>): Job {
    var faulty := FaultyPunches(directory, rows);
    var generated := GeneratedRows(directory, rows, |SortedKeys(directory, rows)|);
    Job(if generated != [] then ReadyForReview else JobFailed,
        |rows|, |generated|, |faulty|, 0, faulty + generated)
  }

  method ImportPunchSheet(directory: Directory, rows: seq<PunchRow>) returns (outcome: Result<Job, ImportError>)
    ensures outcome == if rows == [] then Err(NoRows) else Ok(PunchJob(directory, rows))
  {
    if rows == [] {
      return Err(NoRows);
    }
    var grouped: map<Key, seq<Entry>> := map[];
    var order: seq<Key> := [];
    var faulty: seq<ImportRow> := [];
    for i := 0 to |rows|
      invariant order == KeysIn(directory, rows[..i])
      invariant faulty == FaultyPunches(directory, rows[..i])
      invariant forall k :: k in grouped <==> k in order
      invariant forall k :: k in grouped ==> grouped[k] == EntriesFor(directory, rows[..i], k)
    {
      var row := rows[i];
      assert rows[..i + 1][..i] == rows[..i];
      KeysHaveEntries(directory, rows[..i]);
      if ReadablePunch(directory, row) {
        var key := PunchKey(directory, row);
        if key !in grouped {
          grouped := grouped[key := []];
          order := order + [key];
        }
        grouped := grouped[key := grouped[key] + [EntryOf(row)]];
      } else {
        faulty := faulty + [ImportRow(row.rowNumber, row.code, None, None, None, 0, Faulty)];
      }
    }
    assert rows[..|rows|] == rows;
    var keys := SortedKeys(directory, rows);
    var generated: seq<ImportRow> := [];
    for i := 0 to |keys|
      invariant generated == GeneratedRows(directory, rows, i)
    {
      assert keys[i] in keys;
      KeysHaveEntries(directory, rows);
      generated := generated + [Generated(keys[i], grouped[keys[i]], |generated| + 2)];
    }
    return Ok(Job(if generated != [] then ReadyForReview else JobFailed,
                  |rows|, |generated|, |faulty|, 0, faulty + generated));
  }

  /** The generated rows are numbered from 2, and go by date and within a date by employee, each pair once. */
  lemma GeneratedRowsInOrder(directory: Directory, rows: seq<PunchRow>, i: nat, j: nat)
    requires i < j < |SortedKeys(directory, rows)|
    ensures var generated := GeneratedRows(directory, rows, |SortedKeys(directory, rows)|);
            && generated[i].rowNumber == i + 2
            && generated[i].key.Some? && generated[j].key.Some?
            && var (first, second) := (generated[i].key.value, generated[j].key.value);
               first.1 < second.1 || (first.1 == second.1 && first.0 < second.0)
  {
    var keys := SortedKeys(directory, rows);
    assert ByDateThenEmployee()(keys[i], keys[j]) && keys[i] != keys[j];
  }

  // ----- no punch is lost

  function PunchTotal(rows: seq<ImportRow>): nat {
    if rows == [] then 0 else PunchTotal(rows[..|rows| - 1]) + rows[|rows| - 1].punchCount
  }

  function EntryTotal(directory: Directory, rows: seq<PunchRow>, keys: seq<Key>): nat {
    if keys == [] then 0
    else EntryTotal(directory, rows, keys[..|keys| - 1]) + |EntriesFor(directory, rows, keys[|keys| - 1])|
  }

  lemma {:induction false} OneMorePunch(directory: Directory, rows: seq<PunchRow>, keys: seq<Key>)
    requires rows != [] && Distinct(keys)
    ensures var last := rows[|rows| - 1];
            EntryTotal(directory, rows, keys) == EntryTotal(directory, rows[..|rows| - 1], keys)
              + (if ReadablePunch(directory, last) && PunchKey(directory, last) in keys then 1 else 0)
  {
    if keys != [] {
      OneMorePunch(directory, rows, keys[..|keys| - 1]);
      assert keys == keys[..|keys| - 1] + [keys[|keys| - 1]];
    }
  }

  lemma {:induction false} EveryPunchIsGrouped(directory: Directory, rows: seq<PunchRow>, keys: seq<Key>)
    requires Distinct(keys)
    requires forall i :: 0 <= i < |rows| && ReadablePunch(directory, rows[i]) ==> PunchKey(directory, rows[i]) in keys
    ensures EntryTotal(directory, rows, keys) + |FaultyPunches(directory, rows)| == |rows|
  {
    if rows == [] {
      NoRowsNoEntries(directory, keys);
    } else {
      EveryPunchIsGrouped(directory, rows[..|rows| - 1], keys);
      OneMorePunch(directory, rows, keys);
    }
  }

  lemma {:induction false} NoRowsNoEntries(directory: Directory, keys: seq<Key>)
    ensures EntryTotal(directory, [], keys) == 0
  {
    if keys != [] {
      NoRowsNoEntries(directory, keys[..|keys| - 1]);
    }
  }

  lemma {:induction false} ReadablePunchHasEntries(directory: Directory, rows: seq<PunchRow>, i: nat)
    requires i < |rows| && ReadablePunch(directory, rows[i])
    ensures EntryOf(rows[i]) in EntriesFor(directory, rows, PunchKey(directory, rows[i]))
  {
    if i < |rows| - 1 {
      ReadablePunchHasEntries(directory, rows[..|rows| - 1], i);
    }
  }

  lemma {:induction false} GeneratedTotal(directory: Directory, rows: seq<PunchRow>, n: nat)
    requires n <= |SortedKeys(directory, rows)|
    ensures PunchTotal(GeneratedRows(directory, rows, n)) ==
              EntryTotal(directory, rows, SortedKeys(directory, rows)[..n])
  {
    if n > 0 {
      var keys := SortedKeys(directory, rows);
      GeneratedTotal(directory, rows, n - 1);
      var generated := GeneratedRows(directory, rows, n);
      assert generated[..n - 1] == GeneratedRows(directory, rows, n - 1);
      assert keys[..n][..n - 1] == keys[..n - 1];
      assert keys[n - 1] in keys;
      SortedMembers(ByTime(), EntriesFor(directory, rows, keys[n - 1]));
    }
  }

  /** Every row of a punch sheet is either grouped into a generated row or reported as an error. */
  lemma PunchSheetAccounting(directory: Directory, rows: seq<PunchRow>)
    ensures var generated := GeneratedRows(directory, rows, |SortedKeys(directory, rows)|);
            var job := PunchJob(directory, rows);
            && PunchTotal(generated) + job.errorRows == job.totalRows
            && job.validRows == |generated| && job.rows == FaultyPunches(directory, rows) + generated
  {
    var keys := SortedKeys(directory, rows);
    forall i | 0 <= i < |rows| && ReadablePunch(directory, rows[i])
      ensures PunchKey(directory, rows[i]) in keys
    {
      ReadablePunchHasEntries(directory, rows, i);
    }
    EveryPunchIsGrouped(directory, rows, keys);
    GeneratedTotal(directory, rows, |keys|);
    assert keys[..|keys|] == keys;
  }

  // ----- from a punch sheet to posted records

  predicate ForReview(row: ImportRow) {
    row.status == Valid || row.status == RowStatus.Incomplete
  }

  function RowsForReview(rows: seq<ImportRow>): seq<ImportRow> {
    if rows == [] then []
    else RowsForReview(rows[..|rows| - 1]) + (if ForReview(rows[|rows| - 1]) then [rows[|rows| - 1]] else [])
  }

  function ByRowNumber(): (ImportRow, ImportRow) -> bool {
    (a: ImportRow, b: ImportRow) => a.rowNumber <= b.rowNumber
  }

  /** The instant's time of day, as HH:MM. */
  function ClockTime(at: Instant): TimeOfDay {
    var second := at % DAY;
    (second - second % MINUTE) as TimeOfDay
  }

  function NormalizedRow(row: ImportRow, position: nat): SheetRow {
    SheetRow(position + 2, row.code,
             if row.key.Some? then Some(row.key.value.1) else None,
             if row.checkInAt.Some? then Some(ClockTime(row.checkInAt.value)) else None,
             if row.checkOutAt.Some? then Some(ClockTime(row.checkOutAt.value)) else None)
  }

  /** The rows of the workbook that a job is reviewed in. */
  function NormalizedSheet(job: Job): (sheet: seq<SheetRow>)
  {
    var rows := Sort(ByRowNumber(), RowsForReview(job.rows));
    seq(|rows|, i requires 0 <= i < |rows| => NormalizedRow(rows[i], i))
  }

  method BuildNormalizedAttendanceWorkbook(job: Job) returns (sheet: seq<SheetRow>)
    ensures sheet == NormalizedSheet(job)
  {
    var rows := Sort(ByRowNumber(), RowsForReview(job.rows));
    sheet := [];
    for i := 0 to |rows|
      invariant sheet == NormalizedSheet(job)[..i]
    {
      sheet := sheet + [NormalizedRow(rows[i], i)];
    }
  }

  function ToMinute(at: Instant): Instant {
    at - at % MINUTE
  }

  lemma SecondOfMinute(date: int, second: int)
    ensures (date * 86400 + second) % 60 == second % 60
  {
    assert date * 86400 + second == 60 * (1440 * date) + second;
  }

  lemma ClockTimeIsToMinute(date: int, at: Instant)
    requires date * DAY <= at < (date + 1) * DAY
    ensures At(date, ClockTime(at)) == ToMinute(at)
  {
    var second := at - date * DAY;
    assert at == date * 86400 + second;
    SecondOfMinute(date, second);
    assert ClockTime(at) as int == second - second % 60;
  }

  lemma ToMinuteIsMonotone(a: Instant, b: Instant)
    requires a <= b
    ensures ToMinute(a) <= ToMinute(b)
  {
  }

  lemma {:induction false} ReviewSkipsFaulty(faulty: seq<ImportRow>, generated: seq<ImportRow>)
    requires forall r :: r in faulty ==> !ForReview(r)
    requires forall r :: r in generated ==> ForReview(r)
    ensures RowsForReview(faulty + generated) == generated
    decreases |faulty| + |generated|
  {
    var all := faulty + generated;
    if generated != [] {
      ReviewSkipsFaulty(faulty, generated[..|generated| - 1]);
      assert all[..|all| - 1] == faulty + generated[..|generated| - 1];
    } else if faulty != [] {
      ReviewSkipsFaulty(faulty[..|faulty| - 1], []);
      assert all[..|all| - 1] == faulty[..|faulty| - 1] + [];
    }
  }

  lemma {:induction false} SortedStays<T>(le: (T, T) -> bool, xs: seq<T>)
    requires Sorted(le, xs)
    ensures Sort(le, xs) == xs
  {
    if xs != [] {
      SortedStays(le, xs[1..]);
    }
  }

  lemma {:induction false} FaultyAreFaulty(directory: Directory, rows: seq<PunchRow>)
    ensures forall r :: r in FaultyPunches(directory, rows) ==> r.status == Faulty
  {
    if rows != [] {
      FaultyAreFaulty(directory, rows[..|rows| - 1]);
    }
  }

  /** The workbook of a punch sheet has one row for each employee-day, in order. */
  lemma SheetOfPunchJob(directory: Directory, rows: seq<PunchRow>)
    ensures var n := |SortedKeys(directory, rows)|;
            var generated := GeneratedRows(directory, rows, n);
            NormalizedSheet(PunchJob(directory, rows)) ==
              seq(n, i requires 0 <= i < n => NormalizedRow(generated[i], i))
  {
    var n := |SortedKeys(directory, rows)|;
    var generated := GeneratedRows(directory, rows, n);
    FaultyAreFaulty(directory, rows);
    ReviewSkipsFaulty(FaultyPunches(directory, rows), generated);
    SortedStays(ByRowNumber(), generated);
  }

  /** The earliest and the latest of the entries. */
  predicate Spans(entries: seq<Entry>, first: Entry, last: Entry) {
    first in entries && last in entries && forall e :: e in entries ==> first.at <= e.at <= last.at
  }

  /** The generated row of an employee-day runs from its earliest to its latest punch. */
  lemma GeneratedRunsFirstToLast(key: Key, entries: seq<Entry>, rowNumber: nat) returns (first: Entry, last: Entry)
    requires entries != []
    ensures Spans(entries, first, last)
    ensures var row := Generated(key, entries, rowNumber);
            && row.key == Some(key) && row.checkInAt == Some(first.at) && row.code == first.code
            && row.checkOutAt == (if |entries| > 1 then Some(last.at) else None)
            && (row.status == Valid <==> |entries| > 1)
  {
    var sorted := Sort(ByTime(), entries);
    SortPermutes(ByTime(), entries);
    SortedMembers(ByTime(), entries);
    first, last := sorted[0], sorted[|sorted| - 1];
    assert first in sorted && last in sorted;
    forall e | e in entries
      ensures first.at <= e.at <= last.at
    {
      var i :| 0 <= i < |sorted| && sorted[i] == e;
      assert ByTime()(sorted[0], e) || i == 0;
      assert ByTime()(e, sorted[|sorted| - 1]) || i == |sorted| - 1;
    }
  }

  /** A re-imported row stands for the earliest and latest punch of its employee-day, to the minute. */
  ghost predicate StoredToTheMinute(entries: seq<Entry>, record: AttendanceRecord) {
    exists first, last ::
      && Spans(entries, first, last)
      && record == AttendanceRecord(ToMinute(first.at), Some(ToMinute(last.at)))
      && record.checkInAt <= record.checkOutAt.value
  }

  lemma SheetRowStandsFor(directory: Directory, rows: seq<PunchRow>, i: nat)
    requires i < |SortedKeys(directory, rows)|
    ensures SortedKeys(directory, rows)[i] in SortedKeys(directory, rows)
    ensures var key := SortedKeys(directory, rows)[i];
            var entries := EntriesFor(directory, rows, key);
            var row := NormalizedRow(Generated(key, entries, i + 2), i);
            && (Readable(directory, row) <==> |entries| > 1)
            && (Readable(directory, row) ==>
                  KeyOf(directory, row) == key && StoredToTheMinute(entries, RecordOf(directory, row)))
  {
    var key := SortedKeys(directory, rows)[i];
    assert key in SortedKeys(directory, rows);
    var entries := EntriesFor(directory, rows, key);
    var first, last := GeneratedRunsFirstToLast(key, entries, i + 2);
    ClockTimeIsToMinute(key.1, first.at);
    ClockTimeIsToMinute(key.1, last.at);
    ToMinuteIsMonotone(first.at, last.at);
    var row := NormalizedRow(Generated(key, entries, i + 2), i);
    if |entries| > 1 {
      assert row.checkIn == Some(ClockTime(first.at)) && row.checkOut == Some(ClockTime(last.at));
      assert RecordOf(directory, row) == AttendanceRecord(ToMinute(first.at), Some(ToMinute(last.at)));
    }
  }

  /** No employee-day of the sheet has a single punch. */
  predicate NoIncompleteDay(directory: Directory, rows: seq<PunchRow>) {
    forall key :: key in SortedKeys(directory, rows) ==> |EntriesFor(directory, rows, key)| > 1
  }

  /** Row by row, the sheet stands for the employee-days `keys`. */
  ghost predicate SheetMatches(directory: Directory, rows: seq<PunchRow>, keys: seq<Key>, sheet: seq<SheetRow>) {
    && |sheet| == |keys|
    && forall i :: 0 <= i < |keys| ==>
         && (Readable(directory, sheet[i]) <==> |EntriesFor(directory, rows, keys[i])| > 1)
         && (Readable(directory, sheet[i]) ==>
               && KeyOf(directory, sheet[i]) == keys[i]
               && StoredToTheMinute(EntriesFor(directory, rows, keys[i]), RecordOf(directory, sheet[i])))
  }

  lemma NormalizedSheetMatches(directory: Directory, rows: seq<PunchRow>)
    ensures SheetMatches(directory, rows, SortedKeys(directory, rows), NormalizedSheet(PunchJob(directory, rows)))
  {
    var keys := SortedKeys(directory, rows);
    var sheet := NormalizedSheet(PunchJob(directory, rows));
    SheetOfPunchJob(directory, rows);
    forall i | 0 <= i < |keys|
      ensures Readable(directory, sheet[i]) <==> |EntriesFor(directory, rows, keys[i])| > 1
      ensures Readable(directory, sheet[i]) ==>
                && KeyOf(directory, sheet[i]) == keys[i]
                && StoredToTheMinute(EntriesFor(directory, rows, keys[i]), RecordOf(directory, sheet[i]))
    {
      SheetRowStandsFor(directory, rows, i);
    }
  }

  lemma MatchingSheetIsAcceptableIff(directory: Directory, rows: seq<PunchRow>, keys: seq<Key>, sheet: seq<SheetRow>)
    requires SheetMatches(directory, rows, keys, sheet) && Distinct(keys)
    ensures AllAcceptable(directory, sheet) <==>
            forall key :: key in keys ==> |EntriesFor(directory, rows, key)| > 1
  {
    if AllAcceptable(directory, sheet) {
      forall key | key in keys
        ensures |EntriesFor(directory, rows, key)| > 1
      {
        var i :| 0 <= i < |keys| && keys[i] == key;
        assert Readable(directory, sheet[i]);
      }
    }
    if forall key :: key in keys ==> |EntriesFor(directory, rows, key)| > 1 {
      forall i | 0 <= i < |sheet|
        ensures Readable(directory, sheet[i]) && KeyOf(directory, sheet[i]) == keys[i]
      {
        assert keys[i] in keys;
      }
    }
  }

  lemma MatchingRow(directory: Directory, rows: seq<PunchRow>, keys: seq<Key>, sheet: seq<SheetRow>, i: nat)
    requires SheetMatches(directory, rows, keys, sheet) && AllAcceptable(directory, sheet) && i < |keys|
    ensures Readable(directory, sheet[i]) && KeyOf(directory, sheet[i]) == keys[i]
    ensures StoredToTheMinute(EntriesFor(directory, rows, keys[i]), RecordOf(directory, sheet[i]))
  {
    assert Readable(directory, sheet[i]);
  }

  lemma MatchingKeyIsStored(directory: Directory, rows: seq<PunchRow>, keys: seq<Key>, sheet: seq<SheetRow>,
                            before: Records, key: Key)
    requires SheetMatches(directory, rows, keys, sheet) && AllAcceptable(directory, sheet) && key in keys
    ensures var after := PostedRecords(directory, sheet, before, |sheet|);
            key in after && StoredToTheMinute(EntriesFor(directory, rows, key), after[key])
  {
    var i :| 0 <= i < |keys| && keys[i] == key;
    MatchingRow(directory, rows, keys, sheet, i);
    PostingStoresRow(directory, sheet, before, |sheet|, i);
  }

  lemma OtherKeysAreKept(directory: Directory, rows: seq<PunchRow>, keys: seq<Key>, sheet: seq<SheetRow>,
                         before: Records, key: Key)
    requires SheetMatches(directory, rows, keys, sheet) && AllAcceptable(directory, sheet) && key !in keys
    ensures var after := PostedRecords(directory, sheet, before, |sheet|);
            (key in after <==> key in before) && (key in after ==> after[key] == before[key])
  {
    forall i | 0 <= i < |sheet|
      ensures Readable(directory, sheet[i]) && KeyOf(directory, sheet[i]) != key
    {
      MatchingRow(directory, rows, keys, sheet, i);
      assert keys[i] in keys;
    }
    PostingKeepsOthers(directory, sheet, before, |sheet|, key);
  }

  lemma MatchingSheetIsStored(directory: Directory, rows: seq<PunchRow>, keys: seq<Key>, sheet: seq<SheetRow>,
                              before: Records)
    requires SheetMatches(directory, rows, keys, sheet) && AllAcceptable(directory, sheet)
    ensures var after := PostedRecords(directory, sheet, before, |sheet|);
            && (forall key :: key in keys ==>
                  key in after && StoredToTheMinute(EntriesFor(directory, rows, key), after[key]))
            && (forall key :: key !in keys ==>
                  (key in after <==> key in before) && (key in after ==> after[key] == before[key]))
  {
    var after := PostedRecords(directory, sheet, before, |sheet|);
    forall key | key in keys
      ensures key in after && StoredToTheMinute(EntriesFor(directory, rows, key), after[key])
    {
      MatchingKeyIsStored(directory, rows, keys, sheet, before, key);
    }
    forall key | key !in keys
      ensures (key in after <==> key in before) && (key in after ==> after[key] == before[key])
    {
      OtherKeysAreKept(directory, rows, keys, sheet, before, key);
    }
  }

  /**
   The round trip. Re-importing the workbook made from a punch sheet posts exactly when no
   employee-day has a single punch; it then stores, for each employee-day with punches, the
   earliest and the latest of them to the minute, and changes nothing else.
   */
  lemma PunchSheetRoundTrip(directory: Directory, rows: seq<PunchRow>, before: Records, job: Job, after: Records)
    requires NormalizedSheet(PunchJob(directory, rows)) != []
    requires Imports(directory, NormalizedSheet(PunchJob(directory, rows)), before, job, after)
    ensures job.status == JobPosted <==> NoIncompleteDay(directory, rows)
    ensures job.status == JobPosted ==>
              && (forall key :: key in SortedKeys(directory, rows) ==>
                    key in after && StoredToTheMinute(EntriesFor(directory, rows, key), after[key]))
              && (forall key :: key !in SortedKeys(directory, rows) ==>
                    (key in after <==> key in before) && (key in after ==> after[key] == before[key]))
    ensures job.status != JobPosted ==> after == before
  {
    var keys := SortedKeys(directory, rows);
    var sheet := NormalizedSheet(PunchJob(directory, rows));
    NormalizedSheetMatches(directory, rows);
    MatchingSheetIsAcceptableIff(directory, rows, keys, sheet);
    if AllAcceptable(directory, sheet) {
      MatchingSheetIsStored(directory, rows, keys, sheet, before);
    }
  }

  /** The workbook has no rows at all, so that its import is refused, exactly when no punch was readable. */
  lemma EmptyWorkbookIff(directory: Directory, rows: seq<PunchRow>)
    ensures NormalizedSheet(PunchJob(directory, rows)) == [] <==>
            forall i :: 0 <= i < |rows| ==> !ReadablePunch(directory, rows[i])
  {
    SheetOfPunchJob(directory, rows);
    PunchSheetAccounting(directory, rows);
    forall i | 0 <= i < |rows| && ReadablePunch(directory, rows[i])
      ensures SortedKeys(directory, rows) != []
    {
      ReadablePunchHasEntries(directory, rows, i);
      assert PunchKey(directory, rows[i]) in SortedKeys(directory, rows);
    }
    if SortedKeys(directory, rows) != [] {
      var key := SortedKeys(directory, rows)[0];
      assert key in SortedKeys(directory, rows);
      EntriesComeFromRows(directory, rows, key);
    }
  }

  lemma {:induction false} EntriesComeFromRows(directory: Directory, rows: seq<PunchRow>, key: Key)
    requires EntriesFor(directory, rows, key) != []
    ensures exists i :: 0 <= i < |rows| && ReadablePunch(directory, rows[i])
  {
    if !ReadablePunch(directory, rows[|rows| - 1]) {
      EntriesComeFromRows(directory, rows[..|rows| - 1], key);
      var i :| 0 <= i < |rows[..|rows| - 1]| && ReadablePunch(directory, rows[..|rows| - 1][i]);
      assert rows[i] == rows[..|rows| - 1][i];
    }
  }
}
