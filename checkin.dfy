/**
 * CheckInSystem of check_in.py: validate a student id, capture a face, store its encoding and
 * log the check-in in the attendance table.
 */
module CheckIn {
  import opened Common
  import opened ClockText
  import opened Ledger

  /** A row of the students register (students.csv). */
  datatype Student = Student(studentId: string, name: string)

  const NotFound: string := "Student ID not found"
  const CaptureFailed: string := "Failed to capture image"
  const NoFace: string := "No face detected"
  const CheckedIn: string := "Check-in successful"

  /**
   * `students_df[students_df['student_id'] == student_id]` on a register whose ids are read as
   * text: every row of the student, in register order, so that `.iloc[0]` is the first of them.
   */
  function Lookup(registry: seq<Student>, id: string): (found: seq<Student>)
    ensures Subsequence(found, registry)
    ensures forall i | 0 <= i < |found| :: found[i].studentId == id
    ensures forall s :: multiset(found)[s] == if s.studentId == id then multiset(registry)[s] else 0
    ensures found == [] <==> forall i | 0 <= i < |registry| :: registry[i].studentId != id
    ensures forall k | 0 <= k < |registry| && registry[k].studentId == id && (forall j | 0 <= j < k :: registry[j].studentId != id) ::
              found != [] && found[0] == registry[k]
  {
    var keep := (s: Student) => s.studentId == id;
    FilterCounts(registry, keep);
    FilterFirst(registry, keep);
    var found := Filter(registry, keep);
    assert found != [] ==> multiset(found)[found[0]] > 0;
    assert forall i | 0 <= i < |registry| :: multiset(registry)[registry[i]] > 0;
    found
  }

  /**
   * pd.read_csv reads the student_id column as integers when every id in it is an integer
   * literal.
   */
  predicate NumericIds(registry: seq<Student>) {
    registry != [] && forall i | 0 <= i < |registry| :: ParseInt(registry[i].studentId).Some?
  }

  /**
   * The lookup of `process_check_in` as written: `student_id` is the text typed or read from
   * the reader, and no integer cell of the register equals a text.
   */
  function LookupAsWritten(registry: seq<Student>, id: string): (found: seq<Student>)
    ensures NumericIds(registry) ==> found == []
    ensures !NumericIds(registry) ==> found == Lookup(registry, id)
  {
    if NumericIds(registry) then [] else Lookup(registry, id)
  }

  /** A register of integer ids, as the dashboard's check-in expects, turns away every registered student. */
  lemma KioskRejectsRegisteredStudent()
    ensures Lookup([Student("1", "Ann")], "1") == [Student("1", "Ann")]
    ensures LookupAsWritten([Student("1", "Ann")], "1") == []
  {
    assert DigitsValue("1") == 1 by { assert "1"[..0] == []; }
    assert ParseInt([Student("1", "Ann")][0].studentId).Some?;
    assert Lookup([Student("1", "Ann")], "1")[0] == Student("1", "Ann");
  }

  /** The table `_update_attendance_log` starts from: the file's, or an empty four-column one. */
  function StartingSheet(onDisk: bool, s: Sheet): (start: Sheet)
    requires WellFormed(s)
    ensures WellFormed(start)
    ensures !onDisk ==> start.columns == BaseColumns && start.rows == []
    ensures onDisk ==> start == s
  {
    if onDisk then s else EmptySheet(BaseColumns)
  }

  class CheckInSystem<F, E> {
    const registry: seq<Student>
    /** face_locations followed by face_encodings: one encoding per face found in a frame. */
    const encodeFaces: F -> seq<E>
    /** What the check-in camera will deliver on its next reads; None is a failed read. */
    var device: seq<Option<F>>
    /** `<id>.jpg` files written to the faces directory. */
    var images: map<string, F>
    /** `<id>.npy` files written to the faces directory. */
    var encodings: map<string, E>
    const file: AttendanceFile

    ghost predicate Valid()
      reads file
    {
      file.Valid()
    }

    constructor (registry: seq<Student>, encodeFaces: F -> seq<E>, device: seq<Option<F>>,
                 images: map<string, F>, encodings: map<string, E>, file: AttendanceFile)
      requires file.Valid()
      ensures Valid()
      ensures this.registry == registry && this.device == device && this.file == file
      ensures this.images == images && this.encodings == encodings
    {
      this.registry := registry;
      this.encodeFaces := encodeFaces;
      this.device := device;
      this.images := images;
      this.encodings := encodings;
      this.file := file;
    }

    /** `capture_face`: one read of the camera; a failed read yields no frame. */
    method CaptureFace() returns (frame: Option<F>)
      modifies this`device
      ensures old(device) == [] ==> frame.None? && device == []
      ensures old(device) != [] ==> frame == old(device)[0] && device == old(device)[1..]
    {
      if device == [] {
        frame := None;
      } else {
        frame := device[0];
        device := device[1..];
      }
    }

    /** `_update_attendance_log`: replace the student's rows or append one, stamping both times with `now`. */
    method UpdateAttendanceLog(studentId: string, name: string, now: int)
      requires Valid()
      modifies file
      ensures Valid()
      ensures file.onDisk
      ensures file.sheet == CheckInUpsert(StartingSheet(old(file.onDisk), old(file.sheet)), studentId, name, now)
    {
      var start := StartingSheet(file.onDisk, file.sheet);
      file.sheet := CheckInUpsert(start, studentId, name, now);
      file.onDisk := true;
    }

    /**
     * `process_check_in`: the register is consulted first, then the camera, then the face
     * detector; only a check-in that passes all three writes anything.
     */
    method ProcessCheckIn(studentId: string, now: int) returns (ok: bool, message: string)
      requires Valid()
      modifies this, file
      ensures Valid()
      ensures ok <==> message == CheckedIn
      ensures LookupAsWritten(registry, studentId) == [] ==>
                && !ok && message == NotFound
                && device == old(device) && images == old(images) && encodings == old(encodings)
                && file.onDisk == old(file.onDisk) && file.sheet == old(file.sheet)
      ensures LookupAsWritten(registry, studentId) != [] ==>
                device == if old(device) == [] then [] else old(device)[1..]
      ensures LookupAsWritten(registry, studentId) != [] && (old(device) == [] || old(device)[0].None?) ==>
                && !ok && message == CaptureFailed
                && images == old(images) && encodings == old(encodings)
                && file.onDisk == old(file.onDisk) && file.sheet == old(file.sheet)
      ensures LookupAsWritten(registry, studentId) != [] && old(device) != [] && old(device)[0].Some?
              && encodeFaces(old(device)[0].value) == [] ==>
                && !ok && message == NoFace
                && images == old(images) && encodings == old(encodings)
                && file.onDisk == old(file.onDisk) && file.sheet == old(file.sheet)
      ensures LookupAsWritten(registry, studentId) != [] && old(device) != [] && old(device)[0].Some?
              && encodeFaces(old(device)[0].value) != [] ==>
                && ok && message == CheckedIn
                && images == old(images)[studentId := old(device)[0].value]
                && encodings == old(encodings)[studentId := encodeFaces(old(device)[0].value)[0]]
                && file.onDisk
                && file.sheet == CheckInUpsert(StartingSheet(old(file.onDisk), old(file.sheet)), studentId,
                                               LookupAsWritten(registry, studentId)[0].name, now)
    {
      var student := LookupAsWritten(registry, studentId);
      if student == [] {
        return false, NotFound;
      }
      var frame := CaptureFace();
      if frame.None? {
        return false, CaptureFailed;
      }
      var faces := encodeFaces(frame.value);
      if faces == [] {
        return false, NoFace;
      }
      images := images[studentId := frame.value];
      encodings := encodings[studentId := faces[0]];
      UpdateAttendanceLog(studentId, student[0].name, now);
      return true, CheckedIn;
    }
  }

  /** Check-in keeps one row per student when the table had one row per student. */
  lemma CheckInKeepsUnique(s: Sheet, id: string, name: string, t: int)
    requires WellFormed(s) && UniqueIds(s.rows)
    ensures UniqueIds(CheckInUpsert(s, id, name, t).rows)
    ensures HasStudent(CheckInUpsert(s, id, name, t).rows, id)
  {
    UpsertKeepsUnique(s, CheckInRow(id, name, t), BaseColumns);
  }
}
