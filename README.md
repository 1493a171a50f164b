# Attendance checker — a Dafny model of the attendance bookkeeping

The attendance checker keeps a table of students (`attendance.xlsx`, keyed by
`student_id`). Three programs write to it:

- the Tkinter dashboard (`gui.py`) writes a throttled update each time a face is
  recognised, and also handles check-ins, resets and reports;
- the multi-camera monitor (`monitor.py`) stamps `last_seen_time` for the students it
  recognises;
- the RFID kiosk (`check_in.py`) records check-ins.

This project models the bookkeeping between face recognition and that table. It also
proves what each program promises about the table.

The modules follow the programs:

- `Common`: the option type and the day arithmetic on whole-second timestamps.
- `ClockText`: the `HH:MM` parse of the event times. It uses `str.split(':')`, Python
  `int()` on ASCII digits with an optional sign, and the hour and minute range check of
  `datetime.replace`.
- `AttendanceStatus`: `calculate_attendance_status`, meaning ABSENT, LATE / PRESENT, the
  LEFT_EARLY override and the 09:00–17:00 fallback window.
- `Ledger`: the table as a `Sheet`, which is a set of column names plus a sequence of
  `Record`s.
  - Upserts read `df.loc[mask] = row` as replacing every row of the student with the
    row, aligned on the table's columns (an assumption about pandas, see "## Left out"),
    and `pd.concat` as appending one row and unioning the columns.
  - Three writers use them: the detection upsert, the check-in upsert and the last-seen
    stamp.
- `Matching`: the best-match scan of `monitor_faces` (strictly above 60, strict `>`, so
  the earlier candidate wins a tie) and the first-true selection of `_monitor_loop`. Both
  are loops proved against a reference function.
- `Camera`: `CameraStream`'s one-slot queue, its capture loop and `stop`.
- `Monitor`: the `MonitoringSystem` class.
  - Configuration defaults and the camera dictionary keyed by name.
  - One pass of `_monitor_loop`: the frame-skip test, reading every camera, first-match
    recognition, the last-seen stamp and the log-flush schedule.
  - `stop`.
- `CheckIn`: the `CheckInSystem` class. It covers the order of `process_check_in`'s early
  returns and the log update of `_update_attendance_log`.
- `Gui`: the `AttendanceGui` class.
  - The throttled `update_attendance` and the per-face loop of `monitor_faces`.
  - `process_check_in_thread` with its messages in order.
  - `reset_logs` and `save_attendance_data`.
  - The frame-skip counters of the camera feed and of recognition.
- `Report`: `refresh_report`'s column backfill, date and status filters and status
  counts, and `get_status_badge`.

Timestamps are whole seconds, and `total_time_present` is a number of seconds. The
recognition library is given as inputs:

- an `encodeFaces` function from a frame to the encodings of its faces;
- a `sameFace` predicate for one `compare_faces` entry;
- the per-candidate confidences of the dashboard.

The camera's device reads are likewise given as a sequence of results.

The classes model the programs as written, including the three defects listed under
"## Findings". Each corrected behaviour is a separate function on values (`Gui.Reset`,
`Gui.CheckInStore`, `CheckIn.Lookup`), and the properties the authors evidently intended
are proved about those.

## Model

| member | source | states |
|---|---|---|
| Common.Filter | gui.py:869-875 | boolean-mask selection keeps exactly the rows that pass, in their order |
| Common.FilterCounts | gui.py:869-875 | a selected row occurs as often as in the table, a dropped one not at all |
| Common.FilterFirst | gui.py:837 | the first selected row is the table's first row that passes |
| Common.FilterTwice | gui.py:869-875 | two selections one after the other are one selection on both conditions |
| ClockText.Split | gui.py:514-515 | the pieces of `str.split(':')` contain no separator, there is at least one, and joining them with the separator gives back the text |
| ClockText.ParseInt | gui.py:514-515 | `int()` accepts exactly a non-empty run of ASCII digits, alone or after one `+` or `-`, and gives its signed decimal value |
| ClockText.ClockFields | gui.py:514-515 | a time has fields exactly when it splits at `:` into two parts that `int()` both accepts, and they are then those two values |
| ClockText.ParseClock | gui.py:514-517 | a time is accepted exactly when its two fields are integers with the hour in 0..23 and the minute in 0..59, and it is then that hour and minute |
| ClockText.ParseFormatRoundTrip | gui.py:514-517 | every valid time written as two-digit `HH:MM` parses back to itself |
| ClockText.UnpaddedClockText | gui.py:514-517 | "9:5" is accepted as 09:05 |
| ClockText.SignedClockText | gui.py:514-517 | "+09:-0" is accepted as 09:00, since `int()` takes a sign and leading zeros |
| ClockText.RejectedMinute | gui.py:516-517 | "9:60" is rejected by the minute range check |
| ClockText.RejectedFieldCounts | gui.py:514-515 | "9" and "9:00:00" are rejected, since the unpacking needs exactly two fields |
| AttendanceStatus.StatusNameInjective | gui.py:526-536 | the four status texts are distinct, so the status column determines the status |
| AttendanceStatus.ResolveWindow | gui.py:512-521 | the event bounds are NaT exactly when the date is empty (NaT) and both times are two integer fields; an unparsable date gives 09:00–17:00 of the current day |
| AttendanceStatus.StatusIn | gui.py:523-536 | whatever the window, ABSENT exactly when there is no check-in; against NaT bounds never LATE and never LEFT_EARLY |
| AttendanceStatus.CalculateAttendanceStatus | gui.py:509-537 | ABSENT exactly when there is no check-in; when the bounds are NaT, PRESENT exactly when there is one |
| AttendanceStatus.ComputeStatus | gui.py:524-536 | ABSENT exactly when there is no check-in; LEFT_EARLY exactly when checked in and last seen more than 600 s before the end |
| AttendanceStatus.LatenessInSeconds | gui.py:523-531 | without an early leave, LATE exactly when check-in is more than 15 minutes after the start, PRESENT when at most 15 |
| AttendanceStatus.LatenessBoundary | gui.py:528-531 | exactly 15 minutes after the start is PRESENT, 16 minutes is LATE |
| AttendanceStatus.EarlyLeaveBoundary | gui.py:533-536 | last seen 600 s before the end is not LEFT_EARLY, 601 s before is |
| AttendanceStatus.NeverLeftEarlyNearEnd | gui.py:533-536 | last seen at or after the end, or within 600 s of it, never yields LEFT_EARLY |
| AttendanceStatus.LeftEarlyOverridesLate | gui.py:528-536 | a late arrival who leaves early is LEFT_EARLY, not LATE |
| AttendanceStatus.FallbackWindow | gui.py:512-521 | an unparsable date, a time that is not two integer fields, or (on a real date) an hour or minute out of range gives the window 09:00–17:00 of the current day |
| AttendanceStatus.ParsedWindow | gui.py:513-517 | parsable event fields give the typed times on the typed date with seconds zero |
| AttendanceStatus.UndatedEventIsPresent | gui.py:512-536 | with an empty date and two integer-field times, any check-in is PRESENT and no check-in ABSENT, whatever the times and the last-seen time |
| AttendanceStatus.EmptyDateHidesLateness | gui.py:512-536 | a 15:00 check-in against 14:00–17:00 is LATE on a real date and PRESENT when the date field is empty |
| Ledger.EmptySheet | check_in.py:101-104 | a fresh table has the given header and no rows |
| Ledger.AttendanceFile.constructor | check_in.py:101-104 | the attendance file as found: present with a well-formed table, or missing |
| Ledger.Project | gui.py:492-493 | a row stored under a header keeps its base cells, and its cells for absent columns are empty |
| Ledger.CountOfUnique | check_in.py:114-117 | with unique ids a student has at most one row, and exactly one when present |
| Ledger.FirstIndexOf | gui.py:470-473 | `.iloc[0]` of the student's rows: the first row with that id, if any |
| Ledger.ReplaceRows | gui.py:492-493 | `df.loc[df.student_id == id] = row` sets every row of the student to the row and leaves the others alone |
| Ledger.Upsert | check_in.py:114-117 | after the upsert the student is present; a known student keeps the header and the row count, and only its own rows change, each staying that student's; an unknown one is appended as the last row with the columns unioned; other rows are unchanged |
| Ledger.UpsertKeepsUnique | check_in.py:114-117 | the upsert keeps one row per student, and the student has exactly one row afterwards |
| Ledger.SameExceptForKeepsUnique | check_in.py:114-115 | replacing a student's rows in place keeps ids unique and the set of students present |
| Ledger.UpsertWellFormed | gui.py:492-496 | the upsert keeps every row's cells within the table's columns |
| Ledger.DetectionUpsert | gui.py:466-498 | a known student keeps the check-in of its first row, gets last seen = now, total = now − check-in and the recomputed status, and only its own rows change; an unknown one is appended with check-in = last seen = now and total 0; other rows are unchanged |
| Ledger.DetectionKeepsCheckIn | gui.py:469-498 | a student with one row keeps that row, at the same position and with the same id, keeps its check-in, is stamped last seen = now and still has exactly one row |
| Ledger.CheckInUpsert | check_in.py:99-119 | the check-in row has check-in = last seen = the given time and empty status and total; a known student's rows are overwritten in place and stay that student's; an unknown student gets exactly one appended row; other rows are unchanged |
| Ledger.SetLastSeenSpec | monitor.py:168-176 | the stamp changes only `last_seen_time` of the student's rows, and an unknown student changes nothing |
| Ledger.SetLastSeen | monitor.py:168-177 | the stamp keeps the number of rows (which rows change is stated by Ledger.SetLastSeenSpec) |
| Ledger.MarkSeenStampsRecognised | monitor.py:152-161 | a series of stamps leaves every row of a recognised student with last seen = t and every other row unchanged |
| Ledger.MarkSeenAppend | monitor.py:137-161 | stamping one batch of students and then another is the same as stamping both batches together |
| Ledger.MarkSeenSnoc | monitor.py:159-161 | one more recognised student adds one more stamp |
| Ledger.SetLastSeenWellFormed | monitor.py:172-174 | the stamp keeps the table well formed |
| Ledger.MarkSeenWellFormed | monitor.py:137-161 | a series of stamps keeps the table well formed |
| Matching.ScanFindsBest | gui.py:583-593 | the scan yields the unique strictly-best candidate above 60 with the earliest index on ties, or Unknown/None/0 when no candidate exceeds 60 |
| Matching.Consider | gui.py:589-593 | one step never lowers the confidence, and changes the result only to a candidate above 60 |
| Matching.Scan | gui.py:583-593 | the scan yields the initial None/"Unknown"/0 or some candidate above 60 |
| Matching.BestIsUnique | gui.py:589-593 | only one position can be the best match |
| Matching.BestMatch | gui.py:577-593 | the loop computes the scan: the best accepted candidate, or student None, name "Unknown", confidence 0 |
| Matching.BelowThresholdIsDiscarded | gui.py:589 | a 55 % candidate is ignored in favour of a 70 % one |
| Matching.TieKeepsEarlier | gui.py:590-593 | of two candidates with equal confidence the first is kept |
| Matching.FirstTrue | monitor.py:159-160 | `matches.index(True)`: the first true position, or none when all are false |
| Matching.FirstMatch | monitor.py:159-160 | the loop finds the first true comparison, or none |
| Camera.FirstFailure | monitor.py:34-37 | the position of the first failed device read, all reads before it succeed |
| Camera.CameraStream.Put | monitor.py:39-44 | a new frame replaces any unread one, so the queue holds exactly the newest frame |
| Camera.CameraStream.Read | monitor.py:46-47 | read returns the waiting frame, or None when the queue is empty, and leaves the queue empty |
| Camera.CameraStream.Stop | monitor.py:49-51 | stop sets the stopped flag and releases the device |
| Camera.CameraStream.Update | monitor.py:29-44 | the capture loop leaves the last frame read before the first failed read in the queue, stops exactly when a read fails, and does nothing once stopped |
| Camera.CameraStream.constructor | monitor.py:14-21 | a new stream has an empty queue, is not stopped and has not released its device |
| Monitor.LoadConfig | monitor.py:57-80 | without a configuration file the defaults are one camera (source 0, "Main Camera", 640×480, 30 fps), skip_frames 3, recognition_threshold 0.6 and update_interval 10 |
| Monitor.LoadedIds | monitor.py:110-117 | at most one known student per file name |
| Monitor.LoadedIdsAreEncodings | monitor.py:110-117 | every `<id>.npy` file yields known student `<id>`, and every known student comes from such a file |
| Monitor.FlushOnlyWhenRecognising | monitor.py:131-135 | every iteration the flush schedule selects is also one the frame-skip test lets through |
| Monitor.Comparisons | monitor.py:153-157 | one comparison per known student, in `known_face_ids` order |
| Monitor.FaceId | monitor.py:153-161 | a face is attributed to the first known student whose comparison is true, and to nobody when none is |
| Monitor.FaceIdsAreMatches | monitor.py:152-161 | every student stamped for a frame was matched by one of its faces |
| Monitor.NameIndex | monitor.py:108 | the position of a camera name already in the dictionary, or the end when the name is new |
| Monitor.SetupCameras | monitor.py:99-108 | each configured name once, in the order names first appear; each name holds the stream made for the last entry with that name (a repeated name keeps its first position and gets the later stream); the streams are distinct, fresh, empty and running |
| Monitor.MonitoringSystem.constructor | monitor.py:54-118 | the configuration in use, one fresh stream per distinct camera name with the names in order of first appearance, the known ids from the face files, a zero frame count |
| Monitor.MonitoringSystem.UpdateLastSeen | monitor.py:168-176 | with the file present the student's rows get last seen = now; a missing file changes nothing |
| Monitor.MonitoringSystem.WriteAttendanceLog | monitor.py:178-184 | the log is rewritten exactly when the file exists |
| Monitor.MonitoringSystem.RecogniseFace | monitor.py:152-161 | one face stamps the first matching student and nothing else |
| Monitor.MonitoringSystem.RecogniseFaces | monitor.py:143-161 | the faces of a frame stamp the students they are attributed to, in order |
| Monitor.MonitoringSystem.ScanCamera | monitor.py:139-161 | one camera's waiting frame is taken out of its queue and its faces are stamped |
| Monitor.MonitoringSystem.ScanCameras | monitor.py:138-161 | every queue is emptied and the table is stamped for all students recognised in the frames that were waiting |
| Monitor.MonitoringSystem.MonitorIteration | monitor.py:130-166 | the frame count increases by one; recognition runs exactly when it is a multiple of skip_frames; the log is flushed exactly when it is a multiple of skip_frames × update_interval; a zero divisor ends the loop |
| Monitor.MonitoringSystem.Stop | monitor.py:186-193 | the monitor is stopped, every camera is stopped and released, and the log is written once more |
| CheckIn.Lookup | check_in.py:70-71 | (corrected, see Findings) the register rows with the id, in register order with duplicates kept; none exactly when no row has the id; the first is the first matching row |
| CheckIn.LookupAsWritten | check_in.py:70-71 | as written: a register whose ids are all integers finds nobody for any typed text; otherwise the text lookup |
| CheckIn.KioskRejectsRegisteredStudent | check_in.py:70-72 | registered student 1 is found by the intended lookup and turned away by the lookup as written |
| CheckIn.CheckInSystem.constructor | check_in.py:12-30 | the kiosk starts with the register, camera reads, face images, encodings and attendance file it is given |
| CheckIn.StartingSheet | check_in.py:101-104 | a missing attendance file starts from an empty table with student_id, name, check_in_time and last_seen_time |
| CheckIn.CheckInSystem.CaptureFace | check_in.py:60-65 | one camera read; a failed read yields no frame |
| CheckIn.CheckInSystem.UpdateAttendanceLog | check_in.py:99-119 | the file is written with the check-in upsert of the file's table, or of the empty four-column table |
| CheckIn.CheckInSystem.ProcessCheckIn | check_in.py:67-97 | as written, with the lookup that compares the text id against the register: no match returns "Student ID not found" before any capture or write; then "Failed to capture image", then "No face detected"; success saves image and encoding, logs check-in = last seen = now and returns true with "Check-in successful" |
| CheckIn.CheckInKeepsUnique | check_in.py:114-117 | a check-in keeps at most one row per student |
| Gui.Detect | gui.py:458-507 | a detection within 120 s of the last write, or with no file, changes nothing; otherwise the file's table becomes the detection upsert of it (the student's row with the recomputed check-in, last seen, status and total), that table is cached and last_update_time is set to now |
| Gui.ThrottleIsGlobal | gui.py:463-465 | while the throttle holds no detection writes, whichever student it is for |
| Gui.AtMostOneUpdatePerInterval | gui.py:463-500 | after a detection writes at t, every detection before t + 120 s is dropped |
| Gui.DetectionOfKnownStudent | gui.py:469-498 | a detected student with one row keeps that row, at the same position and with the same id, keeps its check-in, is stamped last seen = now and still has exactly one row |
| Gui.Detected | gui.py:595-599 | a face counts as recognised exactly when the scan produced a non-empty student id |
| Gui.OneUpdatePerFrame | gui.py:575-599 | within one pass only the first recognised face can write; the throttle drops the rest |
| Gui.ApplyDetectionsAppend | gui.py:575-599 | the detections of two groups of faces applied one group after the other equal those of all the faces in order |
| Gui.ThrottledFor | gui.py:463-465 | once throttled, any series of detections changes nothing |
| Gui.FreshSheet | gui.py:446-450 | the reset table has the six columns and no rows |
| Gui.Save | gui.py:432-438 | a save writes the cached table to the file when there is one and otherwise changes nothing; the cache and last_update_time stay |
| Gui.ResetAsWritten | gui.py:440-456 | as written, a reset leaves the six-column empty table in the file and keeps the stale cache and last_update_time |
| Gui.Reset | gui.py:440-456 | (corrected, see Findings) a reset leaves the six-column empty table in the file and in the cache (when there is a cache; none stays none) and keeps last_update_time |
| Gui.CheckInStore | gui.py:833-846 | (corrected, see Findings) the check-in write stores the check-in upsert of the file's table in the file and in the cache |
| Gui.CheckInStoreAsWritten | gui.py:833-846 | as written, the check-in writes its upsert to the file and leaves the cache and last_update_time as they were |
| Gui.SaveAfterResetRestoresStaleTable | gui.py:414-450 | as written, the save at the end of monitoring puts back the table the reset emptied |
| Gui.SaveAfterCheckInDropsCheckIn | gui.py:414-438 | as written, the save at the end of monitoring drops a row the GUI check-in appended |
| Gui.CoherenceIsKept | gui.py:432-507 | (corrected, see Findings) with the corrected reset and check-in, detection, reset, check-in and save all keep the cached table equal to the file's |
| Gui.SaveIsHarmless | gui.py:432-438 | (corrected, see Findings) with a coherent cache, saving never changes the file |
| Gui.ResetAndCheckInSurviveSave | gui.py:414-456 | (corrected, see Findings) a reset or a check-in is still in the file after the save at the end of monitoring |
| Gui.RegisterLookup | gui.py:803-805 | the students.csv rows with the integer id, in register order with duplicates kept; none exactly when no row has it; the first is the first matching row (`.iloc[0]`) |
| Gui.CheckInDecision | gui.py:797-852 | an empty id gives "Please enter a student ID"; an accepted check-in carries the name of the first register row with the id |
| Gui.CheckInAcceptedIff | gui.py:797-852 | a GUI check-in is written exactly when every check passes, with the register's name |
| Gui.UnknownStudentBeforeCamera | gui.py:804-810 | an unknown id gives "Student ID not found" whatever state the camera is in |
| Gui.AttendanceGui.constructor | gui.py:97-102 | a missing attendance file is created with the six columns and no rows; event fields default to today, "14:00" and "17:00" |
| Gui.AttendanceGui.UpdateAttendance | gui.py:458-507 | the GUI state after `update_attendance` is the detection update of the state before |
| Gui.AttendanceGui.ProcessFaces | gui.py:575-599 | the faces of one pass apply their detections in order, each face scanned with the best-match loop |
| Gui.AttendanceGui.ProcessFace | gui.py:577-599 | one face is scanned with the best-match loop and, when it names a student, applies that detection |
| Gui.AttendanceGui.RecognitionTick | gui.py:553-557 | the recognition counter increases by one and only every 3rd frame is processed |
| Gui.AttendanceGui.StartRecognition | gui.py:539-541 | the recognition frame counter restarts at 0 when `monitor_faces` starts |
| Gui.AttendanceGui.StartFeed | gui.py:332-334 | the feed frame counter restarts at 0 when `update_camera_feed` starts |
| Gui.AttendanceGui.FeedTick | gui.py:346-348 | the feed counter increases by one and only every 2nd frame is shown |
| Gui.AttendanceGui.SaveAttendanceData | gui.py:432-438 | the save writes the cached table, when there is one, to the file and changes nothing else |
| Gui.AttendanceGui.ResetLogs | gui.py:440-456 | as written: a confirmed reset writes the empty six-column table to the file and leaves the cached table as it was; an unconfirmed one changes nothing |
| Gui.AttendanceGui.ProcessCheckInThread | gui.py:797-852 | as written: the message is that of the first failing check, or success, in which case the check-in row is written to the file and not to the cached table |
| Report.Backfill | gui.py:860-868 | a table without a status column reads as all ABSENT; no other cell changes |
| Report.FilterByDate | gui.py:869-872 | with a date selected, exactly the rows checked in on that date, in their order and with duplicates kept; an empty date keeps every row |
| Report.FilterByStatus | gui.py:873-875 | with a status selected, exactly the rows with that status, in their order and with duplicates kept; ALL keeps every row |
| Report.StatusCounts | gui.py:876-879 | the four statistics are the counts of PRESENT, LATE, LEFT_EARLY and ABSENT, with an empty status counted as ABSENT |
| Report.CountsNeverExceedRows | gui.py:876-879 | the four statistics never add up to more than the rows shown |
| Report.CountsCoverKnownStatuses | gui.py:876-879 | when every row has one of the four statuses or none, the statistics add up to the rows shown |
| Report.FilteredRowsCountUnderSelection | gui.py:873-879 | rows all carrying one status are all counted under it and none under another |
| Report.RefreshReport | gui.py:854-879 | the shown rows are exactly the backfilled rows that pass both filters, in table order with duplicates kept, and the counts are those of the shown rows; no filter shows every row; a missing file gives no report |
| Report.FilteredReportCounts | gui.py:873-879 | a report filtered on one of the four statuses counts all its rows under that status and none under the others |
| Report.GetStatusBadge | gui.py:931-943 | an empty, null or "nan" status shows as PRESENT; the badge text is the status padded by two spaces; the colour comes from the fixed table |
| Report.UnknownStatusIsGrey | gui.py:935-942 | every status other than PRESENT, LATE and LEFT_EARLY, ABSENT included, is grey |
| Report.EmptyStatusShownPresentCountedAbsent | gui.py:876-943 | an empty status cell is shown with a PRESENT badge but counted as ABSENT |

## Left out

- The Tkinter interface: layout, notifications, dialogs, image display, and the boxes and
  labels drawn on frames with their confidence colours.
- Threads, locks, events and joins. Each background loop is modelled one pass at a time
  (`MonitorIteration`, `RecognitionTick`, `FeedTick`, `Update`). The monitor, the dashboard
  and the kiosk writing the same file at the same time is not modelled.
- OpenCV capture and `face_recognition`. Detection, encoding, distance and `compare_faces`
  are the inputs `encodeFaces` and `sameFace`, plus the dashboard's confidences. The
  dashboard's half-size resize is part of those inputs.
- Excel and CSV input and output.
  - The attendance file is an object holding its table.
  - Failures other than a missing file are not modelled.
  - So are the types pandas infers when reading, with two exceptions. The dashboard's
    students.csv ids are integers. The kiosk's register is read with integer ids when every
    id is an integer text (`CheckIn.NumericIds`). Everywhere else ids are text, including
    ids read back from the attendance file.
  - Writing the default configuration file is not modelled.
- Dates: `pd.to_datetime` of the event date is the input `EventSettings.date`. It is a
  day (`OnDay`), NaT for an empty field (`NotADate`), or a text that does not parse
  (`Unparsable`). Which texts parse, and to which day, is not modelled. The
  `strftime('%Y-%m-%d')` label of the report's date filter is the input `dateLabel`.
- Ledger.ReplaceRows: the reading of `df.loc[mask] = row` with a dict row, as aligned on the
  table's columns, is an unverified assumption about pandas. If pandas aligns the dict on
  the selected row labels instead, the assignment raises on a mixed-type table, and the
  detection and check-in updates of a known student (gui.py:493, gui.py:842,
  check_in.py:115) would change nothing. `Ledger.Upsert`, `Ledger.DetectionUpsert` and
  `Ledger.CheckInUpsert` rest on the same assumption.
- Ledger.DetectionUpsert: a known student whose check-in cell is empty gets an empty total,
  where gui.py:481 writes the text "NaT". Totals are whole seconds here, and the text form
  of a duration is not modelled.
- CheckIn.NumericIds: pandas' other inferences for the register (floats, missing cells,
  surrounding spaces) are not modelled.
- CheckIn.Lookup: states the intended comparison of the entered id with the register's ids
  as text. The kiosk as written is `CheckIn.LookupAsWritten` (see "## Findings").
- Gui.CoherenceIsKept: holds for the corrected `Gui.Reset` and `Gui.CheckInStore` only.
  The program as written breaks it, and the GUI class models the program as written (see
  "## Findings").
- Gui.SaveIsHarmless and Gui.ResetAndCheckInSurviveSave: likewise, they hold for the
  corrected behaviour only.
- Monitor.MonitoringSystem.constructor: does not restate which entry's stream each camera
  name holds. `Monitor.SetupCameras` states it.
- `ClockText.ParseInt`: the surrounding whitespace, underscores and non-ASCII digits that
  Python's `int()` also accepts are not accepted.
- `Gui.AttendanceGui.ProcessFaces`: one `now` serves every face of a pass, where the
  program reads the clock again for each update. `Gui.OneUpdatePerFrame` relies on this.
- `Monitor.MonitoringSystem.MonitorIteration`: one `now` serves every stamp of a pass.
  `WriteAttendanceLog` only counts the rewrites, which do not change the table.
- `Camera.CameraStream.Update`: the device reads are a finite sequence of results. The
  race between `empty()` and `get_nowait()` is not modelled.
- Student registration and face capture (`register_student`, `capture_face_thread`),
  `load_known_faces`, `mock_rfid_scan`, `start_camera`/`stop_camera` and
  `quit_application`.
- The kiosk's RFID reader (`read_rfid`, `_setup_rfid`, `close`). sheets_sync.py and
  main.py are not part of this model.
- `STATUS_THRESHOLDS` also lists PRESENT 0 and LEFT_EARLY 30 minutes. The rule never reads
  them: the early-leave margin is the 600 s written into the rule.

## Findings

| source | as written | input that shows it | evidently intended | confidence | as-written member | corrected member |
|---|---|---|---|---|---|---|
| gui.py:414, 432-456 | `save_attendance_data` (run when monitoring stops) writes `self.attendance_df`, the table cached by the last `update_attendance`. `reset_logs` writes an empty table to the file but leaves that cache alone | a detection writes a row for student 1; Reset Logs is confirmed; monitoring is stopped: the file holds student 1's row again | the save at the end of monitoring keeps the file as the reset left it | medium, not executed | Gui.ResetAsWritten, Gui.SaveAfterResetRestoresStaleTable | Gui.Reset, Gui.ResetAndCheckInSurviveSave |
| gui.py:414, 432-438, 833-846 | `process_check_in_thread` writes the check-in to the file but not to the cached table | a detection writes a row for student 1; student 2 checks in at the dashboard; monitoring is stopped within two minutes: student 2's row is gone from the file | the save at the end of monitoring keeps the check-in | medium, not executed | Gui.CheckInStoreAsWritten, Gui.SaveAfterCheckInDropsCheckIn | Gui.CheckInStore, Gui.ResetAndCheckInSurviveSave |
| check_in.py:23, 53, 70-72 | `pd.read_csv` reads an all-numeric `student_id` column as integers, and `process_check_in` compares that column with the text returned by `input()` or by the reader, so nothing matches | a register holding student 1; "1" is entered: "Student ID not found" | the entered id is matched against the register's ids | medium, not executed | CheckIn.LookupAsWritten, CheckIn.KioskRejectsRegisteredStudent | CheckIn.Lookup |
