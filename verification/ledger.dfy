/** The attendance ledger: a CSV file of rows `name, "YYYY-MM-DD HH:MM:SS"`,
    checked by scanning and written only by appending (app.py:49-66).
    Rows are taken as the CSV reader delivers them, already split into fields. */
module Ledger {
  import opened Clock

  type Row = seq<string>

  /** The ledger file: missing until the first mark creates it. */
  datatype LedgerFile = Absent | Present(rows: seq<Row>)

  /** What `is_attendance_marked` yields: a boolean answer, or the IndexError that
      `row[1]` raises on a row holding the name as its only field. */
  datatype Check = Marked | NotMarked | RowTooShort(row: nat)

  function RowsOf(f: LedgerFile): seq<Row> {
    if f.Present? then f.rows else []
  }

  predicate StartsWith(s: string, prefix: string) {
    |prefix| <= |s| && s[..|prefix|] == prefix
  }

  /** The row records `name` on the day printed as `today`. */
  predicate RowMatches(row: Row, name: string, today: string) {
    |row| >= 2 && row[0] == name && StartsWith(row[1], today)
  }

  /** The row makes `row[1]` fail once its first field has matched `name`. */
  predicate RowTooShortFor(row: Row, name: string) {
    |row| == 1 && row[0] == name
  }

  /** No row has exactly one field, so the scan can never raise. */
  predicate WellFormed(f: LedgerFile) {
    forall i :: 0 <= i < |RowsOf(f)| ==> |RowsOf(f)[i]| != 1
  }

  /** The scan of `is_attendance_marked` from row `from` on: the first row that
      either matches or is too short for `name` decides. */
  function Scan(rows: seq<Row>, from: nat, name: string, today: string): (c: Check)
    requires from <= |rows|
    decreases |rows| - from
    ensures c == Marked ==> exists i :: from <= i < |rows| && RowMatches(rows[i], name, today)
    ensures c == NotMarked ==>
      forall i :: from <= i < |rows| ==> !RowMatches(rows[i], name, today) && !RowTooShortFor(rows[i], name)
    ensures c.RowTooShort? ==> from <= c.row < |rows| && RowTooShortFor(rows[c.row], name)
  {
    if from == |rows| then NotMarked
    else
      var row := rows[from];
      if |row| > 0 && row[0] == name then
        if |row| < 2 then RowTooShort(from)
        else if StartsWith(row[1], today) then Marked
        else Scan(rows, from + 1, name, today)
      else Scan(rows, from + 1, name, today)
  }

  /** `is_attendance_marked(name)` with the clock reading `now`: a missing ledger
      answers NotMarked, otherwise every row is scanned for today's date. */
  function CheckMarked(f: LedgerFile, name: string, now: DateTime): Check
    requires Valid(now)
  {
    match f
    case Absent => NotMarked
    case Present(rows) => Scan(rows, 0, name, DateString(now.date))
  }

  /** The ledger after `mark_attendance(name)` at `now`. */
  function AfterMark(f: LedgerFile, name: string, now: DateTime): LedgerFile
    requires Valid(now)
  {
    Present(RowsOf(f) + [[name, Timestamp(now)]])
  }

  /** On a well-formed ledger the check never raises, and it answers Marked exactly
      when some row carries the name and a timestamp on that day. */
  lemma CheckMarkedExists(f: LedgerFile, name: string, now: DateTime)
    requires Valid(now) && WellFormed(f)
    ensures !CheckMarked(f, name, now).RowTooShort?
    ensures CheckMarked(f, name, now) == Marked <==>
      exists i :: 0 <= i < |RowsOf(f)| && RowMatches(RowsOf(f)[i], name, DateString(now.date))
  {
    if f.Present? {
      var c := Scan(f.rows, 0, name, DateString(now.date));
      assert RowsOf(f) == f.rows;
      if i :| 0 <= i < |f.rows| && RowMatches(f.rows[i], name, DateString(now.date)) {
        assert c != NotMarked;
      }
    }
  }

  /** Appending a row only matters to the scan when no earlier row has decided. */
  lemma {:induction false} ScanAppend(rows: seq<Row>, from: nat, row: Row, name: string, today: string)
    requires from <= |rows|
    ensures Scan(rows + [row], from, name, today) ==
      if Scan(rows, from, name, today) != NotMarked then Scan(rows, from, name, today)
      else if |row| > 0 && row[0] == name then
        (if |row| < 2 then RowTooShort(|rows|)
         else if StartsWith(row[1], today) then Marked else NotMarked)
      else NotMarked
    decreases |rows| - from
  {
    var rs := rows + [row];
    assert rs[..|rows|] == rows;
    if from == |rows| {
      assert Scan(rs, from + 1, name, today) == NotMarked;
    } else {
      assert rs[from] == rows[from];
      ScanAppend(rows, from + 1, row, name, today);
    }
  }

  /** The effect of one mark on every later check: the marked person becomes
      Marked on the marking day (unless an earlier row already decides the scan),
      and nothing else changes, for that person on other days or for anyone else. */
  lemma MarkedAfterMark(f: LedgerFile, name: string, now: DateTime, who: string, day: DateTime)
    requires Valid(now) && Valid(day)
    ensures CheckMarked(AfterMark(f, name, now), who, day) ==
      if CheckMarked(f, who, day) == NotMarked && who == name && day.date == now.date
      then Marked else CheckMarked(f, who, day)
  {
    var rows, today, ts := RowsOf(f), DateString(day.date), Timestamp(now);
    assert CheckMarked(f, who, day) == Scan(rows, 0, who, today);
    ScanAppend(rows, 0, [name, ts], who, today);
    if who == name {
      assert ts[..DateWidth] == DateString(now.date);
      DateStringInjective(day.date, now.date);
      assert StartsWith(ts, today) <==> day.date == now.date;
    }
  }

  /** Marking makes the person Marked for that day on any ledger whose scan for
      them does not already stop on a malformed row. */
  lemma MarkThenMarked(f: LedgerFile, name: string, now: DateTime)
    requires Valid(now) && !CheckMarked(f, name, now).RowTooShort?
    ensures CheckMarked(AfterMark(f, name, now), name, now) == Marked
  {
    MarkedAfterMark(f, name, now, name, now);
  }

  /** Two rows record the same person on the same calendar day. */
  predicate SameDayRows(a: Row, b: Row) {
    |a| >= 2 && |b| >= 2 && a[0] == b[0] &&
    |a[1]| >= DateWidth && |b[1]| >= DateWidth && a[1][..DateWidth] == b[1][..DateWidth]
  }

  /** At most one row per person per day. */
  predicate OncePerDay(f: LedgerFile) {
    forall i, j :: 0 <= i < j < |RowsOf(f)| ==> !SameDayRows(RowsOf(f)[i], RowsOf(f)[j])
  }

  /** A mark made only after the check answered NotMarked keeps the ledger at one
      row per person per day. */
  lemma GuardedMarkKeepsOncePerDay(f: LedgerFile, name: string, now: DateTime)
    requires Valid(now) && OncePerDay(f)
    requires CheckMarked(f, name, now) == NotMarked
    ensures OncePerDay(AfterMark(f, name, now))
  {
    var rows, g := RowsOf(f), RowsOf(AfterMark(f, name, now));
    var today := DateString(now.date);
    forall i, j | 0 <= i < j < |g|
      ensures !SameDayRows(g[i], g[j])
    {
      if j == |rows| {
        assert g[i] == rows[i];
        if SameDayRows(g[i], g[j]) {
          assert RowMatches(rows[i], name, today);
          assert false;
        }
      } else {
        assert g[i] == rows[i] && g[j] == rows[j];
      }
    }
  }

  /** Appending a two-field row keeps the ledger well formed. */
  lemma MarkKeepsWellFormed(f: LedgerFile, name: string, now: DateTime)
    requires Valid(now) && WellFormed(f)
    ensures WellFormed(AfterMark(f, name, now))
  {
    var rows, g := RowsOf(f), RowsOf(AfterMark(f, name, now));
    forall i | 0 <= i < |g| ensures |g[i]| != 1 {
      if i < |rows| { assert g[i] == rows[i]; }
    }
  }

  /** The ledger file as state that `mark_attendance` changes in place. */
  class AttendanceLog {
    var file: LedgerFile

    constructor (initial: LedgerFile)
      ensures file == initial
    {
      file := initial;
    }

    /** `is_attendance_marked`: scans the rows in order and returns on the first
        row that decides. */
    method IsAttendanceMarked(name: string, now: DateTime) returns (c: Check)
      requires Valid(now)
      ensures c == CheckMarked(file, name, now)
    {
      var today := DateString(now.date);
      if file.Absent? {
        return NotMarked;
      }
      var rows := file.rows;
      var i := 0;
      while i < |rows|
        invariant 0 <= i <= |rows|
        invariant Scan(rows, 0, name, today) == Scan(rows, i, name, today)
      {
        var row := rows[i];
        if |row| > 0 && row[0] == name {
          if |row| < 2 {
            return RowTooShort(i);
          }
          if StartsWith(row[1], today) {
            return Marked;
          }
        }
        i := i + 1;
      }
      return NotMarked;
    }

    /** `mark_attendance`: appends exactly one row `[name, timestamp]`, creating
        the file when it is missing; earlier rows stay as they were. */
    method MarkAttendance(name: string, now: DateTime)
      requires Valid(now)
      modifies this
      ensures file == AfterMark(old(file), name, now)
      ensures file.Present? && file.rows[..|RowsOf(old(file))|] == RowsOf(old(file))
      ensures |file.rows| == |RowsOf(old(file))| + 1
    {
      file := Present(RowsOf(file) + [[name, Timestamp(now)]]);
      assert file.rows[..|RowsOf(old(file))|] == RowsOf(old(file));
    }
  }
}
