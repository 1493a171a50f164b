/**
 * AttendanceGUI of gui.py: the throttled detection update, the face-by-face recognition pass,
 * the GUI check-in, reset and save of the attendance file, and the frame-skip counters.
 */
module Gui {
  import opened Common
  import opened ClockText
  import opened AttendanceStatus
  import opened Ledger
  import opened Matching
  import opened Monitor

  /** Seconds between two detection updates of the attendance file. */
  const UpdateInterval: int := 120
  /** The camera feed shows every 2nd frame; the recognition pass looks at every 3rd frame it is handed. */
  const FeedSkip: int := 2
  const RecognitionSkip: int := 3
  const DefaultStartText: string := "14:00"
  const DefaultEndText: string := "17:00"

  /** A detection update at `now` is dropped: one happened less than UpdateInterval seconds ago. */
  predicate Throttled(lastUpdate: Option<int>, now: int) {
    lastUpdate.Some? && now - lastUpdate.value < UpdateInterval
  }

  /**
   * The GUI's view of attendance.xlsx: whether the file exists, its table, the table cached
   * in self.attendance_df by the last detection update (None until there was one), and
   * self.last_update_time.
   */
  datatype Store = Store(onDisk: bool, disk: Sheet, cache: Option<Sheet>, lastUpdate: Option<int>)

  predicate StoreValid(st: Store) {
    WellFormed(st.disk) && (st.cache.Some? ==> WellFormed(st.cache.value))
  }

  /** The cached table is the file's table. */
  predicate Coherent(st: Store) {
    st.cache.Some? ==> st.onDisk && st.cache.value == st.disk
  }

  /** `update_attendance`: throttled, or the file is missing, and nothing changes; otherwise upsert and cache. */
  function Detect(st: Store, id: string, name: string, now: int, e: EventSettings): (out: Store)
    requires StoreValid(st)
    ensures StoreValid(out)
    ensures out != st ==> out.onDisk && out.cache == Some(out.disk) && out.lastUpdate == Some(now)
    ensures Throttled(st.lastUpdate, now) || !st.onDisk ==> out == st
    ensures !Throttled(st.lastUpdate, now) && st.onDisk ==>
              var s := DetectionUpsert(st.disk, id, name, now, ResolveWindow(e, now));
              out == Store(true, s, Some(s), Some(now))
  {
    if Throttled(st.lastUpdate, now) || !st.onDisk then st
    else
      var s := DetectionUpsert(st.disk, id, name, now, ResolveWindow(e, now));
      Store(true, s, Some(s), Some(now))
  }

  /** The throttle is one timestamp for all students: while it holds, no student's detection writes. */
  lemma ThrottleIsGlobal(st: Store, now: int, e: EventSettings)
    requires StoreValid(st) && Throttled(st.lastUpdate, now)
    ensures forall id, name :: Detect(st, id, name, now, e) == st
  {
  }

  /** After a detection writes at t, every detection before t + UpdateInterval is dropped, whoever it is for. */
  lemma AtMostOneUpdatePerInterval(st: Store, id: string, name: string, t: int, e: EventSettings,
                                   id2: string, name2: string, t2: int, e2: EventSettings)
    requires StoreValid(st) && st.onDisk && !Throttled(st.lastUpdate, t)
    requires t <= t2 < t + UpdateInterval
    ensures Detect(st, id, name, t, e).lastUpdate == Some(t)
    ensures Detect(Detect(st, id, name, t, e), id2, name2, t2, e2) == Detect(st, id, name, t, e)
  {
  }

  /** A detection update of a student with one row keeps that row's check-in and stamps last seen. */
  lemma DetectionOfKnownStudent(st: Store, id: string, name: string, now: int, e: EventSettings, i: int)
    requires StoreValid(st) && UniqueIds(st.disk.rows) && st.onDisk && !Throttled(st.lastUpdate, now)
    requires 0 <= i < |st.disk.rows| && st.disk.rows[i].studentId == id
    ensures UniqueIds(Detect(st, id, name, now, e).disk.rows)
    ensures CountOf(Detect(st, id, name, now, e).disk.rows, id) == 1
    ensures Detect(st, id, name, now, e).disk.rows[i].studentId == id
    ensures Detect(st, id, name, now, e).disk.rows[i].checkIn == st.disk.rows[i].checkIn
    ensures Detect(st, id, name, now, e).disk.rows[i].lastSeen == Some(now)
  {
    DetectionKeepsCheckIn(st.disk, id, name, now, ResolveWindow(e, now), i);
  }

  /** A recognised face: a non-empty student id and the name registered for it. */
  datatype Detection = Detection(studentId: string, name: string)

  /** The `if student_id:` test on the outcome of the best-match scan. */
  function Detected(m: Match): (d: seq<Detection>)
    ensures |d| <= 1
    ensures d != [] <==> m.studentId.Some? && m.studentId.value != ""
    ensures d != [] ==> d[0] == Detection(m.studentId.value, m.name)
  {
    if m.studentId.Some? && m.studentId.value != "" then [Detection(m.studentId.value, m.name)] else []
  }

  /** The detections of one frame, face by face, each face scanned against the whole gallery. */
  function FrameDetections(faces: seq<seq<Candidate>>): seq<Detection> {
    if faces == [] then [] else Detected(Scan(faces[0])) + FrameDetections(faces[1..])
  }

  /** Detection updates applied in order. */
  function ApplyDetections(st: Store, ds: seq<Detection>, now: int, e: EventSettings): (out: Store)
    requires StoreValid(st)
    ensures StoreValid(out)
    decreases ds
  {
    if ds == [] then st else ApplyDetections(Detect(st, ds[0].studentId, ds[0].name, now, e), ds[1..], now, e)
  }

  /** Applying two batches of detections one after the other is applying their concatenation. */
  lemma {:induction false} ApplyDetectionsAppend(st: Store, a: seq<Detection>, b: seq<Detection>, now: int, e: EventSettings)
    requires StoreValid(st)
    ensures ApplyDetections(st, a + b, now, e) == ApplyDetections(ApplyDetections(st, a, now, e), b, now, e)
    decreases a
  {
    if a != [] {
      assert (a + b)[1..] == a[1..] + b;
      ApplyDetectionsAppend(Detect(st, a[0].studentId, a[0].name, now, e), a[1..], b, now, e);
    } else {
      assert a + b == b;
    }
  }

  /**
   * Within one recognition pass (one `now`), only the first detection can write: it sets
   * last_update_time to now, which throttles every later one.
   */
  lemma {:induction false} OneUpdatePerFrame(st: Store, ds: seq<Detection>, now: int, e: EventSettings)
    requires StoreValid(st)
    ensures ApplyDetections(st, ds, now, e) == if ds == [] then st else Detect(st, ds[0].studentId, ds[0].name, now, e)
  {
    if ds != [] {
      var st1 := Detect(st, ds[0].studentId, ds[0].name, now, e);
      ThrottledFor(st1, ds[1..], now, e);
    }
  }

  lemma {:induction false} ThrottledFor(st: Store, ds: seq<Detection>, now: int, e: EventSettings)
    requires StoreValid(st)
    requires Throttled(st.lastUpdate, now) || !st.onDisk
    ensures ApplyDetections(st, ds, now, e) == st
  {
    if ds != [] {
      ThrottledFor(st, ds[1..], now, e);
    }
  }

  /** `save_attendance_data`: write the cached table back, if there is one. */
  function Save(st: Store): (out: Store)
    ensures out.cache == st.cache && out.lastUpdate == st.lastUpdate
    ensures st.cache.Some? ==> out.onDisk && out.disk == st.cache.value
    ensures st.cache.None? ==> out == st
    ensures StoreValid(st) ==> StoreValid(out)
  {
    if st.cache.Some? then st.(onDisk := true, disk := st.cache.value) else st
  }

  /** The table `reset_logs` writes. */
  function FreshSheet(): (s: Sheet)
    ensures WellFormed(s) && s.rows == [] && s.columns == AllColumns
  {
    EmptySheet(AllColumns)
  }

  /** `reset_logs` as written: the file is emptied, the cached table is left as it was. */
  function ResetAsWritten(st: Store): (out: Store)
    ensures out.onDisk && out.disk == FreshSheet()
    ensures out.cache == st.cache && out.lastUpdate == st.lastUpdate
    ensures StoreValid(st) ==> StoreValid(out)
  {
    st.(onDisk := true, disk := FreshSheet())
  }

  /** `reset_logs`, keeping the cached table in step with the file. */
  function Reset(st: Store): (out: Store)
    ensures out.onDisk && out.disk == FreshSheet() && out.lastUpdate == st.lastUpdate
    ensures out.cache == if st.cache.Some? then Some(FreshSheet()) else None
  {
    Store(true, FreshSheet(), if st.cache.Some? then Some(FreshSheet()) else None, st.lastUpdate)
  }

  /** The check-in write of `process_check_in_thread` as written: the cached table is left as it was. */
  function CheckInStoreAsWritten(st: Store, id: string, name: string, now: int): (out: Store)
    requires StoreValid(st)
    ensures StoreValid(out)
    ensures out.onDisk == st.onDisk && out.disk == CheckInUpsert(st.disk, id, name, now)
    ensures out.cache == st.cache && out.lastUpdate == st.lastUpdate
  {
    st.(disk := CheckInUpsert(st.disk, id, name, now))
  }

  /** The check-in write, keeping the cached table in step with the file. */
  function CheckInStore(st: Store, id: string, name: string, now: int): (out: Store)
    requires StoreValid(st)
    ensures StoreValid(out)
    ensures out.onDisk == st.onDisk && out.lastUpdate == st.lastUpdate
    ensures out.disk == CheckInUpsert(st.disk, id, name, now)
  {
    var s := CheckInUpsert(st.disk, id, name, now);
    Store(st.onDisk, s, if st.cache.Some? then Some(s) else None, st.lastUpdate)
  }

  /** As written, saving after a reset puts back the table of the last detection update. */
  lemma SaveAfterResetRestoresStaleTable(st: Store)
    requires st.cache.Some? && st.cache.value.rows != []
    ensures ResetAsWritten(st).disk.rows == []
    ensures Save(ResetAsWritten(st)).disk == st.cache.value
    ensures Save(ResetAsWritten(st)).disk.rows != []
  {
  }

  /** As written, saving after a GUI check-in drops the row the check-in appended. */
  lemma SaveAfterCheckInDropsCheckIn(st: Store, id: string, name: string, now: int)
    requires StoreValid(st) && Coherent(st) && st.cache.Some?
    requires !HasStudent(st.disk.rows, id)
    ensures HasStudent(CheckInStoreAsWritten(st, id, name, now).disk.rows, id)
    ensures !HasStudent(Save(CheckInStoreAsWritten(st, id, name, now)).disk.rows, id)
  {
    var s := CheckInStoreAsWritten(st, id, name, now).disk;
    assert s.rows[|s.rows| - 1].studentId == id;
  }

  /** Every operation of the corrected GUI keeps the cache coherent with the file. */
  lemma CoherenceIsKept(st: Store, id: string, name: string, now: int, e: EventSettings)
    requires StoreValid(st) && Coherent(st)
    ensures Coherent(Detect(st, id, name, now, e))
    ensures Coherent(Reset(st))
    ensures Coherent(CheckInStore(st, id, name, now))
    ensures Coherent(Save(st))
  {
  }

  /** With a coherent cache, saving never changes the file. */
  lemma SaveIsHarmless(st: Store)
    requires Coherent(st)
    ensures Save(st).disk == st.disk && (st.cache.Some? ==> Save(st).onDisk == st.onDisk)
  {
  }

  /** A reset survives the save at the end of a monitoring session, and so does a check-in. */
  lemma ResetAndCheckInSurviveSave(st: Store, id: string, name: string, now: int)
    requires StoreValid(st) && Coherent(st)
    ensures Save(Reset(st)).disk == FreshSheet()
    ensures Save(CheckInStore(st, id, name, now)).disk == CheckInUpsert(st.disk, id, name, now)
  {
    CoherenceIsKept(st, id, name, now, EventSettings(Unparsable, "", ""));
  }

  // ---- The GUI check-in ----

  /** A row of students.csv; its student_id column holds integers. */
  datatype RegisteredStudent = RegisteredStudent(number: int, name: string)

  const EnterIdMessage: string := "Please enter a student ID"
  const NotFoundMessage: string := "Student ID not found"
  const CameraOffMessage: string := "Please start the camera first"
  const CameraNotReadyMessage: string := "Camera is not properly initialized"
  const CaptureFailedMessage: string := "Could not capture image from camera"
  const NoFaceDataMessage: string := "No face data found for this student. Please register first."
  const NoFaceMessage: string := "No face detected in camera"
  const MismatchMessage: string := "Face does not match registered student"
  const FailedMessage: string := "Check-in failed"
  const SuccessMessage: string := "Check-in successful!"

  /**
   * `students_df[students_df['student_id'] == int(student_id)]`: every register row with that
   * number, in register order, so that `.iloc[0]` is the first of them.
   */
  function RegisterLookup(registry: seq<RegisteredStudent>, number: int): (found: seq<RegisteredStudent>)
    ensures Subsequence(found, registry)
    ensures forall i | 0 <= i < |found| :: found[i].number == number
    ensures forall s :: multiset(found)[s] == if s.number == number then multiset(registry)[s] else 0
    ensures found == [] <==> forall i | 0 <= i < |registry| :: registry[i].number != number
    ensures forall k | 0 <= k < |registry| && registry[k].number == number && (forall j | 0 <= j < k :: registry[j].number != number) ::
              found != [] && found[0] == registry[k]
  {
    var keep := (s: RegisteredStudent) => s.number == number;
    FilterCounts(registry, keep);
    FilterFirst(registry, keep);
    var found := Filter(registry, keep);
    assert found != [] ==> multiset(found)[found[0]] > 0;
    assert forall i | 0 <= i < |registry| :: multiset(registry)[registry[i]] > 0;
    found
  }

  /** What the check-in thread is given: the typed id, the register, the camera and the faces directory. */
  datatype CheckInInputs<F, E> = CheckInInputs(
    idText: string,
    registry: seq<RegisteredStudent>,
    cameraActive: bool,
    cameraOpen: bool,
    frame: Option<F>,
    encodings: map<string, E>)

  datatype CheckInVerdict = Rejected(message: string) | Accepted(name: string)

  /**
   * The checks of `process_check_in_thread`, in order. A non-integer id makes int() raise,
   * and a missing attendance file makes read_excel raise; both end in the generic failure.
   */
  function CheckInDecision<F, E>(inp: CheckInInputs<F, E>, encodeFaces: F -> seq<E>, sameFace: (E, E) -> bool,
                                 onDisk: bool): (v: CheckInVerdict)
    ensures inp.idText == "" ==> v == Rejected(EnterIdMessage)
    ensures v.Accepted? ==> && ParseInt(inp.idText).Some?
                            && RegisterLookup(inp.registry, ParseInt(inp.idText).value) != []
                            && v.name == RegisterLookup(inp.registry, ParseInt(inp.idText).value)[0].name
  {
    if inp.idText == "" then Rejected(EnterIdMessage)
    else if ParseInt(inp.idText).None? then Rejected(FailedMessage)
    else if RegisterLookup(inp.registry, ParseInt(inp.idText).value) == [] then Rejected(NotFoundMessage)
    else if !inp.cameraActive then Rejected(CameraOffMessage)
    else if !inp.cameraOpen then Rejected(CameraNotReadyMessage)
    else if inp.frame.None? then Rejected(CaptureFailedMessage)
    else if inp.idText !in inp.encodings then Rejected(NoFaceDataMessage)
    else if encodeFaces(inp.frame.value) == [] then Rejected(NoFaceMessage)
    else if !sameFace(inp.encodings[inp.idText], encodeFaces(inp.frame.value)[0]) then Rejected(MismatchMessage)
    else if !onDisk then Rejected(FailedMessage)
    else Accepted(RegisterLookup(inp.registry, ParseInt(inp.idText).value)[0].name)
  }

  /** A check-in is accepted exactly when every check passes, and then with the register's name. */
  lemma CheckInAcceptedIff<F, E>(inp: CheckInInputs<F, E>, encodeFaces: F -> seq<E>, sameFace: (E, E) -> bool, onDisk: bool)
    ensures CheckInDecision(inp, encodeFaces, sameFace, onDisk).Accepted? <==>
              && inp.idText != "" && ParseInt(inp.idText).Some?
              && (exists i | 0 <= i < |inp.registry| :: inp.registry[i].number == ParseInt(inp.idText).value)
              && inp.cameraActive && inp.cameraOpen && inp.frame.Some? && inp.idText in inp.encodings
              && encodeFaces(inp.frame.value) != []
              && sameFace(inp.encodings[inp.idText], encodeFaces(inp.frame.value)[0])
              && onDisk
    ensures CheckInDecision(inp, encodeFaces, sameFace, onDisk).Accepted? ==>
              exists i | 0 <= i < |inp.registry| ::
                && inp.registry[i].number == ParseInt(inp.idText).value
                && CheckInDecision(inp, encodeFaces, sameFace, onDisk).name == inp.registry[i].name
  {
    if inp.idText != "" && ParseInt(inp.idText).Some? {
      RegisterHit(inp.registry, ParseInt(inp.idText).value);
    }
  }

  /** A non-empty register lookup starts with a register row of that number. */
  lemma RegisterHit(registry: seq<RegisteredStudent>, number: int)
    ensures RegisterLookup(registry, number) != [] <==> exists i | 0 <= i < |registry| :: registry[i].number == number
    ensures RegisterLookup(registry, number) != [] ==>
              exists i | 0 <= i < |registry| :: registry[i].number == number && registry[i] == RegisterLookup(registry, number)[0]
  {
    var found := RegisterLookup(registry, number);
    if found != [] {
      assert found[0] in found;
      var i :| 0 <= i < |registry| && registry[i] == found[0];
    }
  }

  /** An unknown student is turned away before the camera is looked at, whatever state it is in. */
  lemma UnknownStudentBeforeCamera<F, E>(inp: CheckInInputs<F, E>, encodeFaces: F -> seq<E>, sameFace: (E, E) -> bool,
                                         onDisk: bool, cameraActive: bool, cameraOpen: bool, frame: Option<F>)
    requires inp.idText != "" && ParseInt(inp.idText).Some?
    requires forall i | 0 <= i < |inp.registry| :: inp.registry[i].number != ParseInt(inp.idText).value
    ensures CheckInDecision(inp.(cameraActive := cameraActive, cameraOpen := cameraOpen, frame := frame),
                            encodeFaces, sameFace, onDisk) == Rejected(NotFoundMessage)
  {
  }

  class AttendanceGui<F, E> {
    const file: AttendanceFile
    /** self.attendance_df, set by the first detection update. */
    var cache: Option<Sheet>
    var lastUpdate: Option<int>
    /** The date, start and end entries of the reports tab. */
    var settings: EventSettings
    /**
     * frame_count of update_camera_feed and of monitor_faces. The program keeps each in a local
     * that starts at 0 whenever its loop starts; here StartFeed and StartRecognition reset them.
     */
    var feedFrames: int
    var recognitionFrames: int
    const encodeFaces: F -> seq<E>
    /** compare_faces with tolerance 0.6, registered encoding first. */
    const sameFace: (E, E) -> bool

    ghost function State(): Store
      reads this, file
    {
      Store(file.onDisk, file.sheet, cache, lastUpdate)
    }

    ghost predicate Valid()
      reads this, file
    {
      file.Valid() && StoreValid(State())
    }

    /** Start-up: a missing attendance file is created with the six columns and no rows. */
    constructor (file: AttendanceFile, today: int, encodeFaces: F -> seq<E>, sameFace: (E, E) -> bool)
      requires file.Valid()
      modifies file
      ensures Valid()
      ensures this.file == file && file.onDisk
      ensures file.sheet == if old(file.onDisk) then old(file.sheet) else FreshSheet()
      ensures cache.None? && lastUpdate.None? && feedFrames == 0 && recognitionFrames == 0
      ensures settings == EventSettings(OnDay(DayStart(today)), DefaultStartText, DefaultEndText)
    {
      this.file := file;
      cache := None;
      lastUpdate := None;
      settings := EventSettings(OnDay(DayStart(today)), DefaultStartText, DefaultEndText);
      feedFrames := 0;
      recognitionFrames := 0;
      this.encodeFaces := encodeFaces;
      this.sameFace := sameFace;
      new;
      if !file.onDisk {
        file.sheet := FreshSheet();
        file.onDisk := true;
      }
    }

    /** `update_attendance` for one recognised student at `now`. */
    method UpdateAttendance(id: string, name: string, now: int)
      requires Valid()
      modifies this, file
      ensures Valid()
      ensures State() == Detect(old(State()), id, name, now, settings)
      ensures settings == old(settings) && feedFrames == old(feedFrames) && recognitionFrames == old(recognitionFrames)
    {
      if lastUpdate.Some? && now - lastUpdate.value < UpdateInterval {
        return;
      }
      if !file.onDisk {
        return;
      }
      var w := ResolveWindow(settings, now);
      var s := DetectionUpsert(file.sheet, id, name, now, w);
      file.sheet := s;
      cache := Some(s);
      lastUpdate := Some(now);
    }

    /** The per-face part of one recognition pass of `monitor_faces`; `faces` holds each face's gallery scores. */
    method ProcessFaces(faces: seq<seq<Candidate>>, now: int)
      requires Valid()
      modifies this, file
      ensures Valid()
      ensures State() == ApplyDetections(old(State()), FrameDetections(faces), now, settings)
      ensures settings == old(settings) && feedFrames == old(feedFrames) && recognitionFrames == old(recognitionFrames)
    {
      var i := 0;
      while i < |faces|
        invariant 0 <= i <= |faces|
        invariant Valid()
        invariant settings == old(settings) && feedFrames == old(feedFrames) && recognitionFrames == old(recognitionFrames)
        invariant ApplyDetections(State(), FrameDetections(faces[i..]), now, settings)
                  == ApplyDetections(old(State()), FrameDetections(faces), now, settings)
      {
        ghost var before := State();
        ProcessFace(faces[i], now);
        assert faces[i..][1..] == faces[i + 1..];
        ApplyDetectionsAppend(before, Detected(Scan(faces[i])), FrameDetections(faces[i + 1..]), now, settings);
        i := i + 1;
      }
    }

    /** One face of a recognition pass: the best-match scan, then an update if a student was named. */
    method ProcessFace(candidates: seq<Candidate>, now: int)
      requires Valid()
      modifies this, file
      ensures Valid()
      ensures State() == ApplyDetections(old(State()), Detected(Scan(candidates)), now, settings)
      ensures settings == old(settings) && feedFrames == old(feedFrames) && recognitionFrames == old(recognitionFrames)
    {
      var m := BestMatch(candidates);
      if m.studentId.Some? && m.studentId.value != "" {
        UpdateAttendance(m.studentId.value, m.name, now);
      }
    }

    /** One frame handed to `monitor_faces`: only every RecognitionSkip-th is processed. */
    method RecognitionTick(faces: seq<seq<Candidate>>, now: int)
      requires Valid()
      modifies this, file
      ensures Valid()
      ensures recognitionFrames == old(recognitionFrames) + 1 && feedFrames == old(feedFrames)
      ensures State() == if Recognises(recognitionFrames, RecognitionSkip)
                         then ApplyDetections(old(State()), FrameDetections(faces), now, settings)
                         else old(State())
    {
      recognitionFrames := recognitionFrames + 1;
      if recognitionFrames % RecognitionSkip != 0 {
        return;
      }
      ProcessFaces(faces, now);
    }

    /** The start of the `monitor_faces` loop: its frame counter restarts at 0. */
    method StartRecognition()
      modifies this`recognitionFrames
      ensures recognitionFrames == 0
    {
      recognitionFrames := 0;
    }

    /** The start of the `update_camera_feed` loop: its frame counter restarts at 0. */
    method StartFeed()
      modifies this`feedFrames
      ensures feedFrames == 0
    {
      feedFrames := 0;
    }

    /** One frame read by `update_camera_feed`; `shown` is whether it is stored and displayed. */
    method FeedTick() returns (shown: bool)
      modifies this`feedFrames
      ensures feedFrames == old(feedFrames) + 1
      ensures shown <==> Recognises(feedFrames, FeedSkip)
    {
      feedFrames := feedFrames + 1;
      shown := feedFrames % FeedSkip == 0;
    }

    /** `save_attendance_data`, called when monitoring stops: the cached table overwrites the file. */
    method SaveAttendanceData()
      requires Valid()
      modifies file
      ensures Valid()
      ensures State() == Save(old(State()))
    {
      if cache.Some? {
        file.sheet := cache.value;
        file.onDisk := true;
      }
    }

    /** `reset_logs`; `confirmed` is the answer to the yes/no dialog. The cached table is not touched. */
    method ResetLogs(confirmed: bool)
      requires Valid()
      modifies this, file
      ensures Valid()
      ensures State() == if confirmed then ResetAsWritten(old(State())) else old(State())
      ensures settings == old(settings) && feedFrames == old(feedFrames) && recognitionFrames == old(recognitionFrames)
    {
      if !confirmed {
        return;
      }
      file.sheet := FreshSheet();
      file.onDisk := true;
    }

    /** `process_check_in_thread`: the checks in order, then the check-in write, which bypasses the cached table. */
    method ProcessCheckInThread(inp: CheckInInputs<F, E>, now: int) returns (message: string)
      requires Valid()
      modifies this, file
      ensures Valid()
      ensures var v := CheckInDecision(inp, encodeFaces, sameFace, old(file.onDisk));
              && message == (if v.Accepted? then SuccessMessage else v.message)
              && State() == if v.Accepted? then CheckInStoreAsWritten(old(State()), inp.idText, v.name, now) else old(State())
      ensures settings == old(settings) && feedFrames == old(feedFrames) && recognitionFrames == old(recognitionFrames)
    {
      if inp.idText == "" {
        return EnterIdMessage;
      }
      var number := ParseInt(inp.idText);
      if number.None? {
        return FailedMessage;
      }
      var student := RegisterLookup(inp.registry, number.value);
      if student == [] {
        return NotFoundMessage;
      }
      if !inp.cameraActive {
        return CameraOffMessage;
      }
      if !inp.cameraOpen {
        return CameraNotReadyMessage;
      }
      if inp.frame.None? {
        return CaptureFailedMessage;
      }
      if inp.idText !in inp.encodings {
        return NoFaceDataMessage;
      }
      var faces := encodeFaces(inp.frame.value);
      if faces == [] {
        return NoFaceMessage;
      }
      if !sameFace(inp.encodings[inp.idText], faces[0]) {
        return MismatchMessage;
      }
      if !file.onDisk {
        return FailedMessage;
      }
      var s := CheckInUpsert(file.sheet, inp.idText, student[0].name, now);
      file.sheet := s;
      return SuccessMessage;
    }
  }
}
