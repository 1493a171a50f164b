/**
 * The attendance table (attendance.xlsx) held in memory, and the row updates that the
 * detection path, the two check-in paths and the last-seen path apply to it.
 */
module Ledger {
  import opened Common
  import opened AttendanceStatus

  const StudentIdColumn: string := "student_id"
  const NameColumn: string := "name"
  const CheckInColumn: string := "check_in_time"
  const LastSeenColumn: string := "last_seen_time"
  const StatusColumn: string := "status"
  const TotalColumn: string := "total_time_present"

  /** The columns of check_in.py's fresh table. */
  const BaseColumns: set<string> := {StudentIdColumn, NameColumn, CheckInColumn, LastSeenColumn}
  /** The columns of the GUI's fresh table. */
  const AllColumns: set<string> := BaseColumns + {StatusColumn, TotalColumn}

  /**
   * One row. None is an empty cell (NaN/NaT); `total` is total_time_present in whole
   * seconds ("0:00:00" is Some(0)).
   */
  datatype Record = Record(
    studentId: string,
    name: string,
    checkIn: Option<int>,
    lastSeen: Option<int>,
    status: Option<string>,
    total: Option<int>)

  datatype Sheet = Sheet(columns: set<string>, rows: seq<Record>)

  /** A row's cells in columns the sheet lacks are empty. */
  predicate Conforms(r: Record, columns: set<string>) {
    && (StatusColumn !in columns ==> r.status.None?)
    && (TotalColumn !in columns ==> r.total.None?)
  }

  predicate WellFormed(s: Sheet) {
    && BaseColumns <= s.columns <= AllColumns
    && forall i | 0 <= i < |s.rows| :: Conforms(s.rows[i], s.columns)
  }

  /** An empty table with the given header. */
  function EmptySheet(columns: set<string>): (s: Sheet)
    ensures s.rows == [] && s.columns == columns
    ensures BaseColumns <= columns <= AllColumns ==> WellFormed(s)
  {
    Sheet(columns, [])
  }

  /** A row as pandas stores it under a header: cells of missing columns become empty. */
  function Project(r: Record, columns: set<string>): (p: Record)
    ensures Conforms(p, columns)
    ensures p.studentId == r.studentId && p.name == r.name
    ensures p.checkIn == r.checkIn && p.lastSeen == r.lastSeen
    ensures StatusColumn in columns ==> p.status == r.status
    ensures TotalColumn in columns ==> p.total == r.total
    ensures Conforms(r, columns) ==> p == r
  {
    r.(status := if StatusColumn in columns then r.status else None,
       total := if TotalColumn in columns then r.total else None)
  }

  predicate HasStudent(rows: seq<Record>, id: string) {
    exists i | 0 <= i < |rows| :: rows[i].studentId == id
  }

  /** At most one row per student. */
  predicate UniqueIds(rows: seq<Record>) {
    forall i, j | 0 <= i < j < |rows| :: rows[i].studentId != rows[j].studentId
  }

  /** Number of rows of a student. */
  function CountOf(rows: seq<Record>, id: string): nat {
    if rows == [] then 0
    else CountOf(rows[..|rows| - 1], id) + (if rows[|rows| - 1].studentId == id then 1 else 0)
  }

  /** Two tables that differ only in rows of `id`: same length, same key per position. */
  predicate SameExceptFor(a: seq<Record>, b: seq<Record>, id: string) {
    && |a| == |b|
    && forall i | 0 <= i < |a| :: a[i].studentId == b[i].studentId && (a[i].studentId != id ==> a[i] == b[i])
  }

  lemma {:induction false} CountOfUnique(rows: seq<Record>, id: string)
    requires UniqueIds(rows)
    ensures CountOf(rows, id) <= 1
    ensures CountOf(rows, id) == 1 <==> HasStudent(rows, id)
  {
    if rows != [] {
      var init := rows[..|rows| - 1];
      CountOfUnique(init, id);
      if rows[|rows| - 1].studentId == id {
        assert !HasStudent(init, id);
      } else {
        if HasStudent(rows, id) {
          var i :| 0 <= i < |rows| && rows[i].studentId == id;
          assert init[i].studentId == id;
        }
      }
    }
  }

  /** `.iloc[0]` of the rows of a student: the position of the first, or |rows| if none. */
  function FirstIndexOf(rows: seq<Record>, id: string): (k: nat)
    ensures k <= |rows|
    ensures k < |rows| <==> HasStudent(rows, id)
    ensures k < |rows| ==> rows[k].studentId == id
    ensures forall j | 0 <= j < k :: rows[j].studentId != id
  {
    if rows == [] then 0
    else if rows[0].studentId == id then 0
    else
      var k := FirstIndexOf(rows[1..], id);
      assert HasStudent(rows[1..], id) ==> HasStudent(rows, id);
      assert HasStudent(rows, id) ==> HasStudent(rows[1..], id) by {
        if HasStudent(rows, id) {
          var i :| 0 <= i < |rows| && rows[i].studentId == id;
          assert rows[1..][i - 1].studentId == id;
        }
      }
      1 + k
  }

  /** `df.loc[df['student_id'] == id] = row`: every row of the student becomes `r`. */
  function ReplaceRows(rows: seq<Record>, id: string, r: Record): (out: seq<Record>)
    requires r.studentId == id
    ensures SameExceptFor(rows, out, id)
    ensures forall i | 0 <= i < |out| && out[i].studentId == id :: out[i] == r
  {
    if rows == [] then []
    else [if rows[0].studentId == id then r else rows[0]] + ReplaceRows(rows[1..], id, r)
  }

  lemma SameExceptForKeepsUnique(a: seq<Record>, b: seq<Record>, id: string)
    requires SameExceptFor(a, b, id) && UniqueIds(a)
    ensures UniqueIds(b)
    ensures forall x :: HasStudent(a, x) <==> HasStudent(b, x)
  {
    forall x ensures HasStudent(a, x) <==> HasStudent(b, x) {
      if HasStudent(a, x) {
        var i :| 0 <= i < |a| && a[i].studentId == x;
        assert b[i].studentId == x;
      }
      if HasStudent(b, x) {
        var i :| 0 <= i < |b| && b[i].studentId == x;
        assert a[i].studentId == x;
      }
    }
  }

  /**
   * Replace the student's rows in place if there are any (`df.loc[mask] = new_row`, the new
   * row aligned on the sheet's header), else append one row (`pd.concat`), whose keys
   * `rowColumns` join the header.
   */
  function Upsert(s: Sheet, r: Record, rowColumns: set<string>): (out: Sheet)
    requires Conforms(r, rowColumns)
    ensures HasStudent(out.rows, r.studentId)
    ensures HasStudent(s.rows, r.studentId) ==> out.columns == s.columns && SameExceptFor(s.rows, out.rows, r.studentId)
    ensures !HasStudent(s.rows, r.studentId) ==>
              out.columns == s.columns + rowColumns && out.rows == s.rows + [r]
    ensures forall i | 0 <= i < |s.rows| && s.rows[i].studentId != r.studentId :: out.rows[i] == s.rows[i]
    ensures forall i | 0 <= i < |out.rows| && out.rows[i].studentId == r.studentId :: out.rows[i] == Project(r, out.columns)
  {
    if HasStudent(s.rows, r.studentId) then
      Sheet(s.columns, ReplaceRows(s.rows, r.studentId, Project(r, s.columns)))
    else
      var out := Sheet(s.columns + rowColumns, s.rows + [r]);
      assert out.rows[|s.rows|].studentId == r.studentId;
      out
  }

  /** The upsert keeps "at most one row per student" and leaves the student with exactly one. */
  lemma UpsertKeepsUnique(s: Sheet, r: Record, rowColumns: set<string>)
    requires Conforms(r, rowColumns)
    requires UniqueIds(s.rows)
    ensures UniqueIds(Upsert(s, r, rowColumns).rows)
    ensures CountOf(Upsert(s, r, rowColumns).rows, r.studentId) == 1
  {
    var out := Upsert(s, r, rowColumns);
    if HasStudent(s.rows, r.studentId) {
      SameExceptForKeepsUnique(s.rows, out.rows, r.studentId);
    } else {
      forall i, j | 0 <= i < j < |out.rows| ensures out.rows[i].studentId != out.rows[j].studentId {
        if j == |s.rows| {
          assert out.rows[i] == s.rows[i];
        }
      }
    }
    CountOfUnique(out.rows, r.studentId);
  }

  lemma UpsertWellFormed(s: Sheet, r: Record, rowColumns: set<string>)
    requires Conforms(r, rowColumns) && BaseColumns <= rowColumns <= AllColumns
    requires WellFormed(s)
    ensures WellFormed(Upsert(s, r, rowColumns))
  {
  }

  /** The row update_attendance writes for a detection at `now`. */
  function DetectionRow(rows: seq<Record>, id: string, name: string, now: int, w: EventWindow): Record {
    var checkIn := if HasStudent(rows, id) then rows[FirstIndexOf(rows, id)].checkIn else Some(now);
    var status := StatusIn(checkIn, Some(now), w);
    var total :=
      if !HasStudent(rows, id) then Some(0)
      else if checkIn.Some? then Some(now - checkIn.value)
      else None;
    Record(id, name, checkIn, Some(now), Some(StatusName(status)), total)
  }

  /**
   * The table update of update_attendance. A known student keeps the check-in of its first
   * row and gets last_seen = now, total = now - check_in and the recomputed status; an unknown
   * student is appended checked in and last seen at now with total 0.
   */
  function DetectionUpsert(s: Sheet, id: string, name: string, now: int, w: EventWindow): (out: Sheet)
    requires WellFormed(s)
    ensures WellFormed(out)
    ensures HasStudent(s.rows, id) ==>
      var c := s.rows[FirstIndexOf(s.rows, id)].checkIn;
      && out.columns == s.columns
      && forall i | 0 <= i < |out.rows| && out.rows[i].studentId == id ::
           && out.rows[i].name == name
           && out.rows[i].checkIn == c
           && out.rows[i].lastSeen == Some(now)
           && (TotalColumn in s.columns ==> out.rows[i].total == (if c.Some? then Some(now - c.value) else None))
           && (StatusColumn in s.columns ==> out.rows[i].status == Some(StatusName(StatusIn(c, Some(now), w))))
    ensures !HasStudent(s.rows, id) ==>
      && out.columns == AllColumns
      && out.rows == s.rows + [Record(id, name, Some(now), Some(now), Some(StatusName(StatusIn(Some(now), Some(now), w))), Some(0))]
    ensures HasStudent(s.rows, id) ==> SameExceptFor(s.rows, out.rows, id)
    ensures forall i | 0 <= i < |s.rows| && s.rows[i].studentId != id :: out.rows[i] == s.rows[i]
  {
    var r := DetectionRow(s.rows, id, name, now, w);
    if HasStudent(s.rows, id) then
      var c := s.rows[FirstIndexOf(s.rows, id)].checkIn;
      assert r == Record(id, name, c, Some(now), Some(StatusName(StatusIn(c, Some(now), w))),
                         if c.Some? then Some(now - c.value) else None);
      Upsert(s, r, AllColumns)
    else
      assert r == Record(id, name, Some(now), Some(now), Some(StatusName(StatusIn(Some(now), Some(now), w))), Some(0));
      Upsert(s, r, AllColumns)
  }

  /** A student who already had one row still has exactly that one, with the same check-in. */
  lemma DetectionKeepsCheckIn(s: Sheet, id: string, name: string, now: int, w: EventWindow, i: int)
    requires WellFormed(s) && UniqueIds(s.rows)
    requires 0 <= i < |s.rows| && s.rows[i].studentId == id
    ensures UniqueIds(DetectionUpsert(s, id, name, now, w).rows)
    ensures CountOf(DetectionUpsert(s, id, name, now, w).rows, id) == 1
    ensures DetectionUpsert(s, id, name, now, w).rows[i].studentId == id
    ensures DetectionUpsert(s, id, name, now, w).rows[i].checkIn == s.rows[i].checkIn
    ensures DetectionUpsert(s, id, name, now, w).rows[i].lastSeen == Some(now)
  {
    UpsertKeepsUnique(s, DetectionRow(s.rows, id, name, now, w), AllColumns);
    assert FirstIndexOf(s.rows, id) == i;
  }

  /** The row both check-in paths write: only the four base keys, check-in = last seen = t. */
  function CheckInRow(id: string, name: string, t: int): Record {
    Record(id, name, Some(t), Some(t), None, None)
  }

  /**
   * The table update of a check-in (gui.py process_check_in_thread and check_in.py
   * _update_attendance_log): the student's rows are overwritten, or one row is appended.
   * The status and time-present cells of the written row are empty.
   */
  function CheckInUpsert(s: Sheet, id: string, name: string, t: int): (out: Sheet)
    requires WellFormed(s)
    ensures WellFormed(out) && out.columns == s.columns
    ensures |out.rows| == |s.rows| + (if HasStudent(s.rows, id) then 0 else 1)
    ensures HasStudent(s.rows, id) ==> SameExceptFor(s.rows, out.rows, id)
    ensures !HasStudent(s.rows, id) ==> out.rows == s.rows + [CheckInRow(id, name, t)]
    ensures forall i | 0 <= i < |out.rows| && out.rows[i].studentId == id :: out.rows[i] == CheckInRow(id, name, t)
    ensures forall i | 0 <= i < |s.rows| && s.rows[i].studentId != id :: out.rows[i] == s.rows[i]
  {
    Upsert(s, CheckInRow(id, name, t), BaseColumns)
  }

  /**
   * `_update_last_seen`: the student's rows get last_seen = t and nothing else changes;
   * an unknown student leaves the table as it is.
   */
  function SetLastSeen(rows: seq<Record>, id: string, t: int): (out: seq<Record>)
    ensures |out| == |rows|
  {
    if rows == [] then []
    else [if rows[0].studentId == id then rows[0].(lastSeen := Some(t)) else rows[0]] + SetLastSeen(rows[1..], id, t)
  }

  lemma {:induction false} SetLastSeenSpec(rows: seq<Record>, id: string, t: int)
    ensures SameExceptFor(rows, SetLastSeen(rows, id, t), id)
    ensures forall i | 0 <= i < |rows| && rows[i].studentId == id ::
              SetLastSeen(rows, id, t)[i] == rows[i].(lastSeen := Some(t))
    ensures !HasStudent(rows, id) ==> SetLastSeen(rows, id, t) == rows
  {
    if rows != [] {
      SetLastSeenSpec(rows[1..], id, t);
      var out := SetLastSeen(rows, id, t);
      assert forall i | 1 <= i < |rows| :: out[i] == SetLastSeen(rows[1..], id, t)[i - 1] && rows[i] == rows[1..][i - 1];
      if !HasStudent(rows, id) {
        assert [rows[0]] + rows[1..] == rows;
      }
    }
  }

  /** last_seen updates for a sequence of recognised students, applied in order. */
  function MarkSeen(rows: seq<Record>, ids: seq<string>, t: int): seq<Record> {
    if ids == [] then rows else SetLastSeen(MarkSeen(rows, ids[..|ids| - 1], t), ids[|ids| - 1], t)
  }

  /** Applying them one by one amounts to stamping every row whose student was recognised. */
  lemma {:induction false} MarkSeenStampsRecognised(rows: seq<Record>, ids: seq<string>, t: int)
    ensures |MarkSeen(rows, ids, t)| == |rows|
    ensures forall i | 0 <= i < |rows| ::
              MarkSeen(rows, ids, t)[i] == if rows[i].studentId in ids then rows[i].(lastSeen := Some(t)) else rows[i]
  {
    if ids != [] {
      var init := ids[..|ids| - 1];
      MarkSeenStampsRecognised(rows, init, t);
      SetLastSeenSpec(MarkSeen(rows, init, t), ids[|ids| - 1], t);
      forall i | 0 <= i < |rows|
        ensures MarkSeen(rows, ids, t)[i] == if rows[i].studentId in ids then rows[i].(lastSeen := Some(t)) else rows[i]
      {
        assert rows[i].studentId in ids <==> rows[i].studentId in init || rows[i].studentId == ids[|ids| - 1] by {
          assert ids == init + [ids[|ids| - 1]];
        }
      }
    }
  }

  lemma MarkSeenSnoc(rows: seq<Record>, ids: seq<string>, id: string, t: int)
    ensures MarkSeen(rows, ids + [id], t) == SetLastSeen(MarkSeen(rows, ids, t), id, t)
  {
    assert (ids + [id])[..|ids|] == ids;
  }

  /** Stamping for one batch of students and then another is stamping for both batches. */
  lemma {:induction false} MarkSeenAppend(rows: seq<Record>, a: seq<string>, b: seq<string>, t: int)
    ensures MarkSeen(rows, a + b, t) == MarkSeen(MarkSeen(rows, a, t), b, t)
  {
    if b == [] {
      assert a + b == a;
    } else {
      var n := |b| - 1;
      MarkSeenAppend(rows, a, b[..n], t);
      assert (a + b)[..|a + b| - 1] == a + b[..n];
    }
  }

  lemma SetLastSeenWellFormed(s: Sheet, id: string, t: int)
    requires WellFormed(s)
    ensures WellFormed(Sheet(s.columns, SetLastSeen(s.rows, id, t)))
  {
    SetLastSeenSpec(s.rows, id, t);
  }

  lemma {:induction false} MarkSeenWellFormed(s: Sheet, ids: seq<string>, t: int)
    requires WellFormed(s)
    ensures WellFormed(Sheet(s.columns, MarkSeen(s.rows, ids, t)))
  {
    if ids != [] {
      MarkSeenWellFormed(s, ids[..|ids| - 1], t);
      SetLastSeenWellFormed(Sheet(s.columns, MarkSeen(s.rows, ids[..|ids| - 1], t)), ids[|ids| - 1], t);
    }
  }

  /** The attendance file on disk: whether it exists, and its table. */
  class AttendanceFile {
    var onDisk: bool
    var sheet: Sheet

    ghost predicate Valid()
      reads this
    {
      WellFormed(sheet)
    }

    /** A file as found at start-up; a missing file is represented with an empty base table. */
    constructor (onDisk: bool, sheet: Sheet)
      requires WellFormed(sheet)
      ensures Valid() && this.onDisk == onDisk && this.sheet == sheet
    {
      this.onDisk := onDisk;
      this.sheet := sheet;
    }
  }
}
