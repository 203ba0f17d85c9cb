/** What the two spreadsheet imports read from a row and write to it, cell by cell. */
module SheetFacts {
  import opened Prelude
  import opened Sorting
  import opened AttendanceDay
  import opened AttendanceSheets

  // ----- attendance sheets

  /** Every cell can be read, the employee is known, and the check-out does not come before the check-in. */
  lemma ReadableIff(directory: Directory, row: SheetRow)
    ensures Readable(directory, row) <==>
              && row.code in directory && row.date.Some? && row.checkIn.Some? && row.checkOut.Some?
              && !(row.checkOut.value < row.checkIn.value)
  {
  }

  /** The record holds both times on the date of the row, for the employee with its code. */
  lemma RecordOfRow(directory: Directory, row: SheetRow)
    requires Readable(directory, row)
    ensures KeyOf(directory, row).0 == directory[row.code] && KeyOf(directory, row).1 == row.date.value
    ensures var record := RecordOf(directory, row);
            && record.checkInAt - 86400 * row.date.value == row.checkIn.value as int
            && record.checkOutAt.Some? && record.checkOutAt.value - 86400 * row.date.value == row.checkOut.value as int
  {
  }

  /** The first readable row of an employee-date is accepted with its key and times; the others are faulty. */
  lemma CheckedRowIff(directory: Directory, rows: seq<SheetRow>, i: nat)
    requires i < |rows|
    ensures var (row, checked) := (rows[i], Checked(directory, rows, i));
            var first := Readable(directory, row)
                         && forall j :: 0 <= j < i && Readable(directory, rows[j]) ==>
                              directory[rows[j].code] != directory[row.code] || rows[j].date != row.date;
            && checked.rowNumber == row.rowNumber && checked.code == row.code && checked.punchCount == 0
            && (checked.status == Valid <==> first) && (checked.status == Faulty <==> !first)
            && (first ==>
                  && checked.key == Some((directory[row.code], row.date.value))
                  && checked.checkInAt == Some(RecordOf(directory, row).checkInAt)
                  && checked.checkOutAt == RecordOf(directory, row).checkOutAt)
            && (!first ==> checked.key.None? && checked.checkInAt.None? && checked.checkOutAt.None?)
  {
    if Readable(directory, rows[i]) {
      forall j | 0 <= j < i && Readable(directory, rows[j])
        ensures KeyOf(directory, rows[j]) != KeyOf(directory, rows[i]) <==>
                directory[rows[j].code] != directory[rows[i].code] || rows[j].date != rows[i].date
      {
      }
    }
  }

  lemma CountOfOne(row: ImportRow, status: RowStatus)
    ensures CountStatus([row], status) == (if row.status == status then 1 else 0) && CountStatus([], status) == 0
  {
    assert [row][..0] == [];
  }

  lemma {:induction false} CountOfBoth(a: seq<ImportRow>, b: seq<ImportRow>, status: RowStatus)
    ensures CountStatus(a + b, status) == CountStatus(a, status) + CountStatus(b, status)
  {
    if b == [] {
      assert a + b == a;
    } else {
      assert (a + b)[..|a + b| - 1] == a + b[..|b| - 1];
      CountOfBoth(a, b[..|b| - 1], status);
    }
  }

  /** A posted job shows every row as posted, with what it was accepted with; a failed job shows what was found. */
  lemma JobRows(directory: Directory, rows: seq<SheetRow>, before: Records, job: Job, after: Records, i: nat)
    requires Imports(directory, rows, before, job, after) && i < |rows|
    ensures var checked := Checked(directory, rows, i);
            && (job.status == JobPosted ==> checked.status == Valid && job.rows[i] == checked.(status := Posted))
            && (job.status != JobPosted ==> job.status == JobFailed && job.rows[i] == checked && job.postedRows == 0)
    ensures job.status == JobPosted ==> job.postedRows == job.validRows == |rows| && job.errorRows == 0
  {
    var checked := CheckedRows(directory, rows, |rows|);
    assert checked[i] == Checked(directory, rows, i);
    if job.status == JobPosted {
      AcceptableIff(directory, rows);
      assert Accepted(directory, rows, i);
    }
  }

  // ----- punch sheets

  lemma ReadablePunchIff(directory: Directory, row: PunchRow)
    ensures ReadablePunch(directory, row) <==> row.code in directory && row.date.Some? && row.time.Some?
    ensures ReadablePunch(directory, row) ==>
              && PunchKey(directory, row) == (directory[row.code], row.date.value)
              && EntryOf(row).code == row.code
              && EntryOf(row).at - 86400 * row.date.value == row.time.value as int
  {
  }

  lemma EntriesOfOne(directory: Directory, row: PunchRow, key: Key)
    ensures EntriesFor(directory, [row], key) ==
              if ReadablePunch(directory, row) && PunchKey(directory, row) == key then [EntryOf(row)] else []
    ensures EntriesFor(directory, [], key) == []
  {
    assert [row][..0] == [];
  }

  /** The punches of an employee-day keep the order of the sheet. */
  lemma {:induction false} EntriesOfBoth(directory: Directory, a: seq<PunchRow>, b: seq<PunchRow>, key: Key)
    ensures EntriesFor(directory, a + b, key) == EntriesFor(directory, a, key) + EntriesFor(directory, b, key)
  {
    if b == [] {
      assert a + b == a;
    } else {
      assert (a + b)[..|a + b| - 1] == a + b[..|b| - 1];
      EntriesOfBoth(directory, a, b[..|b| - 1], key);
    }
  }

  /** A row is faulty exactly if it is not readable, and is reported by number and code. */
  lemma FaultyOfOne(directory: Directory, row: PunchRow)
    ensures FaultyPunches(directory, [row]) ==
              if ReadablePunch(directory, row) then []
              else [ImportRow(row.rowNumber, row.code, None, None, None, 0, Faulty)]
    ensures FaultyPunches(directory, []) == []
  {
    assert [row][..0] == [];
  }

  lemma {:induction false} FaultyOfBoth(directory: Directory, a: seq<PunchRow>, b: seq<PunchRow>)
    ensures FaultyPunches(directory, a + b) == FaultyPunches(directory, a) + FaultyPunches(directory, b)
  {
    if b == [] {
      assert a + b == a;
    } else {
      assert (a + b)[..|a + b| - 1] == a + b[..|b| - 1];
      FaultyOfBoth(directory, a, b[..|b| - 1]);
    }
  }

  /** A generated row counts its punches, and waits for a check-out exactly if there is only one. */
  lemma GeneratedRowIff(key: Key, entries: seq<Entry>, rowNumber: nat)
    requires entries != []
    ensures var row := Generated(key, entries, rowNumber);
            && row.rowNumber == rowNumber && row.key == Some(key) && row.punchCount == |entries|
            && (row.status == RowStatus.Incomplete <==> |entries| == 1) && (row.status == Valid <==> |entries| > 1)
            && (row.checkOutAt.None? <==> |entries| == 1)
  {
    SortedMembers(ByTime(), entries);
  }

  /** The job of a punch sheet waits for review if any punch was readable, and fails otherwise. */
  lemma PunchJobIff(directory: Directory, rows: seq<PunchRow>)
    ensures var job := PunchJob(directory, rows);
            && job.totalRows == |rows| && job.postedRows == 0 && |job.rows| == job.validRows + job.errorRows
            && (job.status == ReadyForReview <==> exists i :: 0 <= i < |rows| && ReadablePunch(directory, rows[i]))
            && (job.status == JobFailed <==> forall i :: 0 <= i < |rows| ==> !ReadablePunch(directory, rows[i]))
  {
    if i :| 0 <= i < |rows| && ReadablePunch(directory, rows[i]) {
      ReadablePunchHasEntries(directory, rows, i);
      assert PunchKey(directory, rows[i]) in SortedKeys(directory, rows);
    }
    if SortedKeys(directory, rows) != [] {
      var key := SortedKeys(directory, rows)[0];
      assert key in SortedKeys(directory, rows);
      EntriesComeFromRows(directory, rows, key);
    }
  }

  // ----- the workbook for review

  /** The last full minute that is not later. */
  lemma ToMinuteIff(at: Instant)
    ensures ToMinute(at) <= at < ToMinute(at) + 60 && ToMinute(at) % 60 == 0
  {
  }

  /** A workbook row repeats code and date and shows the times of day without their seconds. */
  lemma NormalizedRowIff(row: ImportRow, position: nat)
    ensures var sheet := NormalizedRow(row, position);
            && sheet.rowNumber == position + 2 && sheet.code == row.code
            && (sheet.date.Some? <==> row.key.Some?) && (row.key.Some? ==> sheet.date.value == row.key.value.1)
            && (sheet.checkIn.Some? <==> row.checkInAt.Some?)
            && (row.checkInAt.Some? ==> IsClockTime(row.checkInAt.value, sheet.checkIn.value))
            && (sheet.checkOut.Some? <==> row.checkOutAt.Some?)
            && (row.checkOutAt.Some? ==> IsClockTime(row.checkOutAt.value, sheet.checkOut.value))
  {
    if row.checkInAt.Some? {
      ClockTimeIsClockTime(row.checkInAt.value);
    }
    if row.checkOutAt.Some? {
      ClockTimeIsClockTime(row.checkOutAt.value);
    }
  }

  /** The time is a full minute of the instant's day, at most a minute before it. */
  predicate IsClockTime(at: Instant, time: TimeOfDay) {
    var second := at % 86400;
    time as int % 60 == 0 && time as int <= second < time as int + 60
  }

  lemma ClockTimeIsClockTime(at: Instant)
    ensures IsClockTime(at, ClockTime(at))
  {
  }

  /** Rows for review are the accepted and the incomplete ones, ordered by number. */
  lemma WorkbookRows(job: Job)
    ensures forall i, j :: 0 <= i < j < |Sort(ByRowNumber(), RowsForReview(job.rows))| ==>
              Sort(ByRowNumber(), RowsForReview(job.rows))[i].rowNumber <= Sort(ByRowNumber(),
                RowsForReview(job.rows))[j].rowNumber
    ensures multiset(Sort(ByRowNumber(), RowsForReview(job.rows))) == multiset(RowsForReview(job.rows))
    ensures forall row :: row in RowsForReview(job.rows) <==>
              row in job.rows && (row.status == Valid || row.status == RowStatus.Incomplete)
    ensures |NormalizedSheet(job)| == |RowsForReview(job.rows)|
  {
    SortPermutes(ByRowNumber(), RowsForReview(job.rows));
    SortedMembers(ByRowNumber(), RowsForReview(job.rows));
    ReviewMembers(job.rows);
    var rows := Sort(ByRowNumber(), RowsForReview(job.rows));
    forall i, j | 0 <= i < j < |rows|
      ensures rows[i].rowNumber <= rows[j].rowNumber
    {
      assert ByRowNumber()(rows[i], rows[j]);
    }
  }

  lemma {:induction false} ReviewMembers(rows: seq<ImportRow>)
    ensures forall row :: row in RowsForReview(rows) <==>
              row in rows && (row.status == Valid || row.status == RowStatus.Incomplete)
  {
    if rows != [] {
      ReviewMembers(rows[..|rows| - 1]);
      assert rows == rows[..|rows| - 1] + [rows[|rows| - 1]];
    }
  }
}
