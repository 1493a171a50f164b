/**
 * MonitoringSystem of monitor.py: configuration defaults, the frame-skip and log-flush
 * schedule of the monitoring loop, first-match recognition and the last-seen update.
 */
module Monitor {
  import opened Common
  import opened Ledger
  import opened Matching
  import opened Camera

  datatype CameraConfig = CameraConfig(source: int, name: string, width: int, height: int, fps: int)

  /** monitoring_cameras, processing.skip_frames, processing.recognition_threshold, logging.update_interval. */
  datatype Config = Config(cameras: seq<CameraConfig>, skipFrames: int, recognitionThreshold: real, updateInterval: int)

  const DefaultConfig: Config := Config([CameraConfig(0, "Main Camera", 640, 480, 30)], 3, 0.6, 10)

  /** The configuration read from camera_config.json, or the defaults when there is no such file. */
  function LoadConfig(file: Option<Config>): (c: Config)
    ensures file.Some? ==> c == file.value
    ensures file.None? ==> c.skipFrames == 3 && c.recognitionThreshold == 0.6 && c.updateInterval == 10
    ensures file.None? ==> c.cameras == [CameraConfig(0, "Main Camera", 640, 480, 30)]
  {
    if file.Some? then file.value else DefaultConfig
  }

  const EncodingSuffix: string := ".npy"

  predicate EndsWith(s: string, suffix: string) {
    |suffix| <= |s| && s[|s| - |suffix|..] == suffix
  }

  /** `_load_face_encodings`: one known student per `<id>.npy` file, in directory-listing order. */
  function LoadedIds(fileNames: seq<string>): (ids: seq<string>)
    ensures |ids| <= |fileNames|
  {
    if fileNames == [] then []
    else
      var f := fileNames[|fileNames| - 1];
      var init := LoadedIds(fileNames[..|fileNames| - 1]);
      if EndsWith(f, EncodingSuffix) then init + [f[..|f| - 4]] else init
  }

  /** Every `<id>.npy` file yields known student `<id>`, and every known student comes from one. */
  lemma {:induction false} LoadedIdsAreEncodings(fileNames: seq<string>)
    ensures forall id | id in LoadedIds(fileNames) :: id + EncodingSuffix in fileNames
    ensures forall f | f in fileNames && EndsWith(f, EncodingSuffix) :: f[..|f| - 4] in LoadedIds(fileNames)
  {
    if fileNames != [] {
      var n := |fileNames| - 1;
      var f := fileNames[n];
      LoadedIdsAreEncodings(fileNames[..n]);
      assert fileNames == fileNames[..n] + [f];
      if EndsWith(f, EncodingSuffix) {
        assert f[..|f| - 4] + EncodingSuffix == f;
      }
    }
  }

  /**
   * Iteration `frameCount` runs recognition. Python's % has the sign of the divisor and
   * Dafny's is never negative, but both are zero exactly on multiples, which is all the
   * loop asks.
   */
  predicate Recognises(frameCount: int, skipFrames: int)
    requires skipFrames != 0
  {
    frameCount % skipFrames == 0
  }

  /** Iteration `frameCount` writes the attendance log. */
  predicate Flushes(frameCount: int, skipFrames: int, updateInterval: int)
    requires skipFrames * updateInterval != 0
  {
    frameCount % (skipFrames * updateInterval) == 0
  }

  /**
   * The flush test sits after the skip test in the loop body, yet it never goes unseen:
   * every iteration the flush schedule selects is one the skip schedule lets through.
   */
  lemma FlushOnlyWhenRecognising(frameCount: int, skipFrames: int, updateInterval: int)
    requires skipFrames != 0 && updateInterval != 0
    requires Flushes(frameCount, skipFrames, updateInterval)
    ensures Recognises(frameCount, skipFrames)
  {
    var q := frameCount / (skipFrames * updateInterval);
    assert frameCount == q * (skipFrames * updateInterval);
    var m := q * updateInterval;
    assert frameCount == m * skipFrames;
    // The remainder r is a multiple t * skipFrames, yet smaller than |skipFrames|: t must be zero.
    var r := frameCount % skipFrames;
    var t := m - frameCount / skipFrames;
    assert t * skipFrames == r by {
      assert frameCount == (frameCount / skipFrames) * skipFrames + r;
    }
    var a := if t < 0 then -t else t;
    var b := if skipFrames < 0 then -skipFrames else skipFrames;
    assert a * b == (a - 1) * b + b;
    assert a >= 1 ==> (a - 1) * b >= 0;
    assert a * b == t * skipFrames || a * b == -(t * skipFrames);
  }

  /** compare_faces against the gallery in known_face_ids order. */
  function Comparisons<E>(knownIds: seq<string>, probe: E, sameFace: (string, E) -> bool): (m: seq<bool>)
    ensures |m| == |knownIds|
    ensures forall i | 0 <= i < |knownIds| :: m[i] == sameFace(knownIds[i], probe)
  {
    seq(|knownIds|, i requires 0 <= i < |knownIds| => sameFace(knownIds[i], probe))
  }

  /** The student a face is attributed to: the first known id whose comparison is true. */
  function FaceId<E>(knownIds: seq<string>, probe: E, sameFace: (string, E) -> bool): (r: Option<string>)
    ensures r.None? <==> forall i | 0 <= i < |knownIds| :: !sameFace(knownIds[i], probe)
    ensures r.Some? ==> exists k | 0 <= k < |knownIds| ::
              && r.value == knownIds[k] && sameFace(knownIds[k], probe)
              && forall j | 0 <= j < k :: !sameFace(knownIds[j], probe)
  {
    var m := Comparisons(knownIds, probe, sameFace);
    match FirstTrue(m)
    case None => None
    case Some(k) => Some(knownIds[k])
  }

  /** The students recognised among the faces of one frame, in face order. */
  function FaceIds<E>(knownIds: seq<string>, faces: seq<E>, sameFace: (string, E) -> bool): seq<string> {
    if faces == [] then []
    else FaceIds(knownIds, faces[..|faces| - 1], sameFace) + Listed(FaceId(knownIds, faces[|faces| - 1], sameFace))
  }

  /** The students recognised in one queue read: none when the queue was empty. */
  function SlotIds<F, E>(knownIds: seq<string>, frame: Option<F>, encodeFaces: F -> seq<E>,
                         sameFace: (string, E) -> bool): seq<string>
  {
    if frame.Some? then FaceIds(knownIds, encodeFaces(frame.value), sameFace) else []
  }

  /** The students recognised in the frames read from the cameras, camera by camera. */
  function FrameIds<F, E>(knownIds: seq<string>, frames: seq<Option<F>>, encodeFaces: F -> seq<E>,
                          sameFace: (string, E) -> bool): seq<string>
  {
    if frames == [] then []
    else FrameIds(knownIds, frames[..|frames| - 1], encodeFaces, sameFace)
         + SlotIds(knownIds, frames[|frames| - 1], encodeFaces, sameFace)
  }

  /** Reading one more camera stamps the students of its frame after those of the earlier ones. */
  lemma FrameIdsStep<F, E>(rows: seq<Record>, knownIds: seq<string>, frames: seq<Option<F>>, i: nat,
                           encodeFaces: F -> seq<E>, sameFace: (string, E) -> bool, now: int)
    requires i < |frames|
    ensures MarkSeen(rows, FrameIds(knownIds, frames[..i + 1], encodeFaces, sameFace), now)
            == MarkSeen(MarkSeen(rows, FrameIds(knownIds, frames[..i], encodeFaces, sameFace), now),
                        SlotIds(knownIds, frames[i], encodeFaces, sameFace), now)
  {
    assert frames[..i + 1][..i] == frames[..i];
    MarkSeenAppend(rows, FrameIds(knownIds, frames[..i], encodeFaces, sameFace),
                   SlotIds(knownIds, frames[i], encodeFaces, sameFace), now);
  }

  lemma FaceIdsStep<E>(knownIds: seq<string>, faces: seq<E>, f: nat, sameFace: (string, E) -> bool)
    requires f < |faces|
    ensures FaceIds(knownIds, faces[..f + 1], sameFace)
            == FaceIds(knownIds, faces[..f], sameFace) + Listed(FaceId(knownIds, faces[f], sameFace))
  {
    assert faces[..f + 1][..f] == faces[..f];
  }

  /** Every student FaceIds reports was matched by some face. */
  lemma {:induction false} FaceIdsAreMatches<E>(knownIds: seq<string>, faces: seq<E>, sameFace: (string, E) -> bool)
    ensures forall x | x in FaceIds(knownIds, faces, sameFace) ::
              x in knownIds && exists f | 0 <= f < |faces| :: sameFace(x, faces[f])
  {
    if faces != [] {
      var n := |faces| - 1;
      FaceIdsAreMatches(knownIds, faces[..n], sameFace);
      forall x | x in FaceIds(knownIds, faces, sameFace)
        ensures x in knownIds && exists f | 0 <= f < |faces| :: sameFace(x, faces[f])
      {
        if x in FaceIds(knownIds, faces[..n], sameFace) {
          var f :| 0 <= f < n && sameFace(x, faces[..n][f]);
          assert sameFace(x, faces[f]);
        } else {
          assert Listed(FaceId(knownIds, faces[n], sameFace)) == [x];
        }
      }
    }
  }

  /** The position of `name` among the camera names so far, or |names| when it is new. */
  method NameIndex(names: seq<string>, name: string) returns (at: nat)
    ensures at <= |names|
    ensures at < |names| ==> names[at] == name
    ensures forall i | 0 <= i < at :: names[i] != name
  {
    at := 0;
    while at < |names| && names[at] != name
      invariant 0 <= at <= |names|
      invariant forall i | 0 <= i < at :: names[i] != name
    {
      at := at + 1;
    }
  }

  /** The position of the first camera entry named `n`, or |configs| when there is none. */
  function FirstNamed(configs: seq<CameraConfig>, n: string): (k: nat)
    ensures k <= |configs|
    ensures k < |configs| ==> configs[k].name == n
    ensures forall j | 0 <= j < k :: configs[j].name != n
  {
    if configs == [] then 0
    else if configs[0].name == n then 0
    else 1 + FirstNamed(configs[1..], n)
  }

  /** The position of the last camera entry named `n`, or -1 when there is none. */
  function LastNamed(configs: seq<CameraConfig>, n: string): (k: int)
    ensures -1 <= k < |configs|
    ensures k >= 0 ==> configs[k].name == n
    ensures forall j | k < j < |configs| :: configs[j].name != n
  {
    if configs == [] then -1
    else if configs[|configs| - 1].name == n then |configs| - 1
    else LastNamed(configs[..|configs| - 1], n)
  }

  /**
   * The keys of the camera dictionary: each configured name once, in the order in which
   * the names first appear among the entries.
   */
  ghost predicate NamesInOrder(configs: seq<CameraConfig>, names: seq<string>) {
    && (forall i, j | 0 <= i < j < |names| :: names[i] != names[j])
    && (forall n :: n in names <==> exists c | 0 <= c < |configs| :: configs[c].name == n)
    && (forall i, j | 0 <= i < j < |names| :: FirstNamed(configs, names[i]) < FirstNamed(configs, names[j]))
  }

  /**
   * The values of the camera dictionary: under each name, the stream made for the last entry
   * of that name (`made` holds the stream made for each entry, in order).
   */
  ghost predicate HoldsLast<S>(configs: seq<CameraConfig>, names: seq<string>, streams: seq<S>, made: seq<S>) {
    && |streams| == |names| && |made| == |configs|
    && forall i | 0 <= i < |names| ::
         0 <= LastNamed(configs, names[i]) && streams[i] == made[LastNamed(configs, names[i])]
  }

  /**
   * `_setup_cameras`: one stream per configured camera, stored in a dictionary keyed by name.
   * The names keep the order in which they first appear; a later camera with a name already
   * used replaces the earlier stream in its original position.
   */
  method SetupCameras<F>(configs: seq<CameraConfig>)
    returns (names: seq<string>, streams: seq<CameraStream<F>>, ghost made: seq<CameraStream<F>>)
    ensures NamesInOrder(configs, names)
    ensures HoldsLast(configs, names, streams, made)
    ensures forall i, j | 0 <= i < j < |streams| :: streams[i] != streams[j]
    ensures forall i | 0 <= i < |streams| ::
              fresh(streams[i]) && streams[i].Valid() && streams[i].slot == None && !streams[i].stopped
  {
    names := [];
    streams := [];
    made := [];
    var c := 0;
    while c < |configs|
      invariant 0 <= c <= |configs|
      invariant NamesInOrder(configs[..c], names)
      invariant HoldsLast(configs[..c], names, streams, made)
      invariant forall i, j | 0 <= i < j < |streams| :: streams[i] != streams[j]
      invariant forall i | 0 <= i < |streams| ::
                  fresh(streams[i]) && streams[i].Valid() && streams[i].slot == None && !streams[i].stopped
    {
      var stream := new CameraStream<F>();
      var at := NameIndex(names, configs[c].name);
      NamesStep(configs, c, names, at);
      LastStep(configs, c, names, streams, made, at, stream);
      if at < |names| {
        streams := streams[at := stream];
      } else {
        names := names + [configs[c].name];
        streams := streams + [stream];
      }
      made := made + [stream];
      c := c + 1;
    }
    assert configs[..c] == configs;
  }

  /** One more camera entry: a known name keeps its place, a new one goes last. */
  lemma NamesStep(configs: seq<CameraConfig>, c: nat, names: seq<string>, at: nat)
    requires c < |configs| && NamesInOrder(configs[..c], names)
    requires at <= |names| && (at < |names| ==> names[at] == configs[c].name)
    requires forall i | 0 <= i < at :: names[i] != configs[c].name
    ensures at < |names| ==> NamesInOrder(configs[..c + 1], names)
    ensures at == |names| ==> NamesInOrder(configs[..c + 1], names + [configs[c].name])
  {
    var n := configs[c].name;
    var p := configs[..c + 1];
    assert p[..|p| - 1] == configs[..c];
    if at == |names| {
      var names' := names + [n];
      NamesOfLongerPrefix(p, names, names');
      NamedInLongerPrefix(configs, c, names);
      forall i, j | 0 <= i < j < |names'| ensures FirstNamed(p, names'[i]) < FirstNamed(p, names'[j]) {
        assert names'[i] == names[i] && names[i] in names;
        if j == |names| {
          assert names'[j] == n && FirstNamed(p, n) == c;
        } else {
          assert names'[j] == names[j] && names[j] in names;
        }
      }
    } else {
      NamesOfLongerPrefix(p, names, names);
      NamedInLongerPrefix(configs, c, names);
    }
  }

  /** The names among a longer run of entries: those of the shorter run and the new entry's. */
  lemma NamesOfLongerPrefix(p: seq<CameraConfig>, names: seq<string>, more: seq<string>)
    requires p != [] && NamesInOrder(p[..|p| - 1], names)
    requires forall m :: m in more <==> m in names || m == p[|p| - 1].name
    ensures forall m :: m in more <==> exists d | 0 <= d < |p| :: p[d].name == m
  {
    var q := p[..|p| - 1];
    forall m ensures m in more <==> exists d | 0 <= d < |p| :: p[d].name == m {
      if m == p[|p| - 1].name {
        assert p[|p| - 1].name == m;
      } else if m in names {
        var d :| 0 <= d < |q| && q[d].name == m;
        assert p[d].name == m;
      } else {
        forall d | 0 <= d < |p| ensures p[d].name != m {
          if d < |q| { assert q[d] == p[d]; }
        }
      }
    }
  }

  /** One more camera entry: its stream goes under its name, every other name keeps its stream. */
  lemma LastStep<S>(configs: seq<CameraConfig>, c: nat, names: seq<string>, streams: seq<S>, made: seq<S>,
                    at: nat, stream: S)
    requires c < |configs| && NamesInOrder(configs[..c], names) && HoldsLast(configs[..c], names, streams, made)
    requires at <= |names| && (at < |names| ==> names[at] == configs[c].name)
    requires forall i | 0 <= i < at :: names[i] != configs[c].name
    ensures at < |names| ==> HoldsLast(configs[..c + 1], names, streams[at := stream], made + [stream])
    ensures at == |names| ==> HoldsLast(configs[..c + 1], names + [configs[c].name], streams + [stream], made + [stream])
  {
    NamedInLongerPrefix(configs, c, names);
    var n := configs[c].name;
    if at == |names| {
      var names', streams' := names + [n], streams + [stream];
      forall i | 0 <= i < |names'|
        ensures 0 <= LastNamed(configs[..c + 1], names'[i]) && streams'[i] == (made + [stream])[LastNamed(configs[..c + 1], names'[i])]
      {
        if i < |names| { assert names'[i] == names[i] != n; }
      }
    } else {
      var streams' := streams[at := stream];
      forall i | 0 <= i < |names|
        ensures 0 <= LastNamed(configs[..c + 1], names[i]) && streams'[i] == (made + [stream])[LastNamed(configs[..c + 1], names[i])]
      {
        if i != at { assert names[i] != n; }
      }
    }
  }

  /** One more camera entry moves no name's first position and only its own name's last one. */
  lemma NamedInLongerPrefix(configs: seq<CameraConfig>, c: nat, names: seq<string>)
    requires c < |configs|
    requires forall n :: n in names <==> exists d | 0 <= d < c :: configs[..c][d].name == n
    ensures forall n | n in names :: FirstNamed(configs[..c + 1], n) == FirstNamed(configs[..c], n) < c
    ensures configs[c].name !in names ==> FirstNamed(configs[..c + 1], configs[c].name) == c
    ensures forall n :: LastNamed(configs[..c + 1], n) == if n == configs[c].name then c else LastNamed(configs[..c], n)
  {
    assert configs[..c + 1][..c] == configs[..c];
    forall n | n in names
      ensures FirstNamed(configs[..c + 1], n) == FirstNamed(configs[..c], n) < c
    {
      var d :| 0 <= d < c && configs[..c][d].name == n;
      assert configs[..c + 1][d].name == n;
    }
  }

  class MonitoringSystem<F, E> {
    const config: Config
    /** The keys of self.cameras, in insertion order. */
    const cameraNames: seq<string>
    /** The values of self.cameras: the stream for each name. */
    const cameras: seq<CameraStream<F>>
    /** known_face_ids, in the order the encodings were loaded. */
    const knownIds: seq<string>
    const file: AttendanceFile
    /** face_locations followed by face_encodings. */
    const encodeFaces: F -> seq<E>
    /** One compare_faces entry: does the probe match the stored encoding of this student. */
    const sameFace: (string, E) -> bool
    var frameCount: int
    var stopped: bool
    /** Number of times the attendance log was written back. */
    var flushes: nat

    ghost predicate Valid()
      reads file, cameras
    {
      && file.Valid()
      && (forall i, j | 0 <= i < j < |cameras| :: cameras[i] != cameras[j])
      && (forall i | 0 <= i < |cameras| :: cameras[i].Valid())
    }

    /** The frames waiting in the cameras' queues. */
    ghost function Frames(): seq<Option<F>>
      reads cameras
    {
      seq(|cameras|, i requires 0 <= i < |cameras| reads cameras => cameras[i].slot)
    }

    /** Set-up from an optional configuration file and the listing of the faces directory. */
    constructor (configFile: Option<Config>, faceFiles: seq<string>, file: AttendanceFile,
                 encodeFaces: F -> seq<E>, sameFace: (string, E) -> bool)
      requires file.Valid()
      ensures Valid()
      ensures config == LoadConfig(configFile) && frameCount == 0 && !stopped && flushes == 0
      ensures knownIds == LoadedIds(faceFiles) && this.file == file
      ensures |cameraNames| == |cameras| && NamesInOrder(config.cameras, cameraNames)
      ensures forall i | 0 <= i < |cameras| :: fresh(cameras[i]) && cameras[i].slot == None && !cameras[i].stopped
    {
      var cfg := LoadConfig(configFile);
      config := cfg;
      knownIds := LoadedIds(faceFiles);
      this.file := file;
      this.encodeFaces := encodeFaces;
      this.sameFace := sameFace;
      frameCount := 0;
      stopped := false;
      flushes := 0;
      var names, streams, made := SetupCameras<F>(cfg.cameras);
      cameraNames := names;
      cameras := streams;
    }

    /** `_update_last_seen`: stamp the student's rows; a missing file or unknown student changes nothing. */
    method UpdateLastSeen(studentId: string, now: int)
      requires Valid()
      modifies file
      ensures Valid()
      ensures file.onDisk == old(file.onDisk)
      ensures file.sheet == if old(file.onDisk)
                            then Sheet(old(file.sheet).columns, SetLastSeen(old(file.sheet).rows, studentId, now))
                            else old(file.sheet)
    {
      if !file.onDisk {
        return;
      }
      if HasStudent(file.sheet.rows, studentId) {
        SetLastSeenWellFormed(file.sheet, studentId, now);
        file.sheet := Sheet(file.sheet.columns, SetLastSeen(file.sheet.rows, studentId, now));
      } else {
        SetLastSeenSpec(file.sheet.rows, studentId, now);
      }
    }

    /** `_write_attendance_log`: read the table and write it back unchanged. */
    method WriteAttendanceLog()
      modifies this`flushes
      ensures flushes == old(flushes) + (if file.onDisk then 1 else 0)
    {
      if file.onDisk {
        flushes := flushes + 1;
      }
    }

    /** One face of a frame: compare it with the gallery and stamp the first student it matches. */
    method RecogniseFace(probe: E, now: int)
      requires Valid()
      modifies file
      ensures Valid()
      ensures file.onDisk == old(file.onDisk) && file.sheet.columns == old(file.sheet).columns
      ensures !file.onDisk ==> file.sheet == old(file.sheet)
      ensures file.onDisk ==> file.sheet.rows == MarkSeen(old(file.sheet).rows, Listed(FaceId(knownIds, probe, sameFace)), now)
    {
      var matches := Comparisons(knownIds, probe, sameFace);
      var k := FirstMatch(matches);
      if k.Some? {
        var id := knownIds[k.value];
        assert Listed(FaceId(knownIds, probe, sameFace)) == [] + [id];
        UpdateLastSeen(id, now);
      }
    }

    /** The inner loop of `_monitor_loop` over the faces of one frame. */
    method RecogniseFaces(faces: seq<E>, now: int)
      requires Valid()
      modifies file
      ensures Valid()
      ensures file.onDisk == old(file.onDisk) && file.sheet.columns == old(file.sheet).columns
      ensures !file.onDisk ==> file.sheet == old(file.sheet)
      ensures file.onDisk ==> file.sheet.rows == MarkSeen(old(file.sheet).rows, FaceIds(knownIds, faces, sameFace), now)
    {
      ghost var rows0 := file.sheet.rows;
      var f := 0;
      while f < |faces|
        invariant 0 <= f <= |faces|
        invariant Valid()
        invariant file.onDisk == old(file.onDisk) && file.sheet.columns == old(file.sheet).columns
        invariant !file.onDisk ==> file.sheet == old(file.sheet)
        invariant file.onDisk ==> file.sheet.rows == MarkSeen(rows0, FaceIds(knownIds, faces[..f], sameFace), now)
      {
        RecogniseFace(faces[f], now);
        FaceIdsStep(knownIds, faces, f, sameFace);
        MarkSeenAppend(rows0, FaceIds(knownIds, faces[..f], sameFace), Listed(FaceId(knownIds, faces[f], sameFace)), now);
        f := f + 1;
      }
      assert faces[..f] == faces;
    }

    /** Read one camera's queue and match the faces of the frame found there, if any. */
    method ScanCamera(c: nat, now: int)
      requires Valid() && c < |cameras|
      modifies file, cameras[c]
      ensures Valid()
      ensures cameras[c].slot == None
      ensures cameras[c].stopped == old(cameras[c].stopped) && cameras[c].released == old(cameras[c].released)
      ensures file.onDisk == old(file.onDisk) && file.sheet.columns == old(file.sheet).columns
      ensures !file.onDisk ==> file.sheet == old(file.sheet)
      ensures file.onDisk ==>
                file.sheet.rows == MarkSeen(old(file.sheet).rows, SlotIds(knownIds, old(cameras[c].slot), encodeFaces, sameFace), now)
    {
      var frame := cameras[c].Read();
      if frame.Some? {
        var faces := encodeFaces(frame.value);
        RecogniseFaces(faces, now);
      }
    }

    /** The recognition part of `_monitor_loop`: read every camera's queue and match the faces found. */
    method ScanCameras(now: int)
      requires Valid()
      modifies file, cameras
      ensures Valid()
      ensures forall i | 0 <= i < |cameras| ::
                && cameras[i].slot == None
                && cameras[i].stopped == old(cameras[i].stopped) && cameras[i].released == old(cameras[i].released)
      ensures file.onDisk == old(file.onDisk) && file.sheet.columns == old(file.sheet).columns
      ensures !file.onDisk ==> file.sheet == old(file.sheet)
      ensures file.onDisk ==>
                file.sheet.rows == MarkSeen(old(file.sheet).rows, FrameIds(knownIds, old(Frames()), encodeFaces, sameFace), now)
    {
      ghost var frames := Frames();
      ghost var rows0 := file.sheet.rows;
      var i := 0;
      while i < |cameras|
        invariant 0 <= i <= |cameras|
        invariant Valid()
        invariant forall j | 0 <= j < i :: cameras[j].slot == None
        invariant forall j | i <= j < |cameras| :: cameras[j].slot == frames[j]
        invariant forall j | 0 <= j < |cameras| ::
                    cameras[j].stopped == old(cameras[j].stopped) && cameras[j].released == old(cameras[j].released)
        invariant file.onDisk == old(file.onDisk) && file.sheet.columns == old(file.sheet).columns
        invariant !file.onDisk ==> file.sheet == old(file.sheet)
        invariant file.onDisk ==> file.sheet.rows == MarkSeen(rows0, FrameIds(knownIds, frames[..i], encodeFaces, sameFace), now)
      {
        ScanCamera(i, now);
        FrameIdsStep(rows0, knownIds, frames, i, encodeFaces, sameFace, now);
        i := i + 1;
      }
      assert frames[..i] == frames;
    }

    /**
     * One pass of `_monitor_loop`, with `now` standing for datetime.now(). `alive` is false when
     * the pass raised ZeroDivisionError, which ends the monitoring thread.
     */
    method MonitorIteration(now: int) returns (alive: bool)
      requires Valid()
      modifies this, file, cameras
      ensures Valid()
      ensures frameCount == old(frameCount) + 1 && stopped == old(stopped)
      ensures forall i | 0 <= i < |cameras| ::
                cameras[i].stopped == old(cameras[i].stopped) && cameras[i].released == old(cameras[i].released)
      ensures file.onDisk == old(file.onDisk) && file.sheet.columns == old(file.sheet).columns
      ensures !file.onDisk ==> file.sheet == old(file.sheet)
      ensures config.skipFrames == 0 ==> !alive
      ensures config.skipFrames == 0 || !Recognises(frameCount, config.skipFrames) ==>
                Frames() == old(Frames()) && flushes == old(flushes) && file.sheet == old(file.sheet)
      ensures config.skipFrames != 0 && !Recognises(frameCount, config.skipFrames) ==> alive
      ensures config.skipFrames != 0 && Recognises(frameCount, config.skipFrames) ==>
                && (forall i | 0 <= i < |cameras| :: cameras[i].slot == None)
                && (file.onDisk ==> file.sheet.rows
                                    == MarkSeen(old(file.sheet).rows, FrameIds(knownIds, old(Frames()), encodeFaces, sameFace), now))
                && alive == (config.skipFrames * config.updateInterval != 0)
                && flushes == old(flushes) +
                     (if alive && Flushes(frameCount, config.skipFrames, config.updateInterval) && file.onDisk then 1 else 0)
    {
      frameCount := frameCount + 1;
      var skip := config.skipFrames;
      if skip == 0 {
        alive := false;
        return;
      }
      if frameCount % skip != 0 {
        alive := true;
        return;
      }
      ScanCameras(now);
      var period := skip * config.updateInterval;
      if period == 0 {
        alive := false;
        return;
      }
      if frameCount % period == 0 {
        WriteAttendanceLog();
      }
      alive := true;
    }

    /** `stop`: flag the loop, stop every camera, write the log one last time. */
    method Stop()
      requires Valid()
      modifies this, cameras
      ensures Valid()
      ensures stopped
      ensures forall i | 0 <= i < |cameras| :: cameras[i].stopped && cameras[i].released
      ensures flushes == old(flushes) + (if file.onDisk then 1 else 0)
    {
      stopped := true;
      var i := 0;
      while i < |cameras|
        invariant 0 <= i <= |cameras|
        invariant Valid() && stopped && flushes == old(flushes)
        invariant forall j | 0 <= j < i :: cameras[j].stopped && cameras[j].released
      {
        cameras[i].Stop();
        i := i + 1;
      }
      WriteAttendanceLog();
    }
  }
}
