/**
 * Choosing a student for one detected face: the GUI's best-confidence scan over the
 * gallery, and monitor.py's first matching gallery entry.
 */
module Matching {
  import opened Common

  /** One gallery entry scored against a face: confidence = (1 - distance) * 100. */
  datatype Candidate = Candidate(studentId: string, name: string, confidence: real)

  /** The scan's running result: student_id (None before any match), name and confidence. */
  datatype Match = Match(studentId: Option<string>, name: string, confidence: real)

  /** Only scores strictly above 60 are accepted. */
  const ConfidenceThreshold: real := 60.0

  /** The initial state of the scan: `None`, "Unknown", 0. */
  const NoMatch: Match := Match(None, "Unknown", 0.0)

  /** One step of the scan: a candidate above the threshold that beats the best so far takes over. */
  function Consider(m: Match, c: Candidate): (r: Match)
    ensures r.confidence >= m.confidence
    ensures r != m ==> c.confidence > ConfidenceThreshold && r == Match(Some(c.studentId), c.name, c.confidence)
  {
    if c.confidence > ConfidenceThreshold && c.confidence > m.confidence then
      Match(Some(c.studentId), c.name, c.confidence)
    else m
  }

  /** The scan over the gallery in its iteration order. */
  function Scan(cs: seq<Candidate>): (r: Match)
    ensures r == NoMatch || exists k | 0 <= k < |cs| ::
              cs[k].confidence > ConfidenceThreshold && r == Match(Some(cs[k].studentId), cs[k].name, cs[k].confidence)
  {
    if cs == [] then NoMatch else Consider(Scan(cs[..|cs| - 1]), cs[|cs| - 1])
  }

  /** Position k holds the highest accepted confidence, and no earlier candidate ties it. */
  ghost predicate IsBest(cs: seq<Candidate>, k: int) {
    && 0 <= k < |cs|
    && cs[k].confidence > ConfidenceThreshold
    && (forall j | 0 <= j < |cs| && cs[j].confidence > ConfidenceThreshold :: cs[j].confidence <= cs[k].confidence)
    && (forall j | 0 <= j < k :: cs[j].confidence < cs[k].confidence)
  }

  ghost predicate NoneAccepted(cs: seq<Candidate>) {
    forall j | 0 <= j < |cs| :: cs[j].confidence <= ConfidenceThreshold
  }

  /** A new candidate that beats the best so far becomes the best. */
  lemma BestAfterTakeover(cs: seq<Candidate>, k: int)
    requires |cs| > 0
    requires IsBest(cs[..|cs| - 1], k) || (k == -1 && NoneAccepted(cs[..|cs| - 1]))
    requires cs[|cs| - 1].confidence > ConfidenceThreshold
    requires k >= 0 ==> cs[|cs| - 1].confidence > cs[k].confidence
    ensures IsBest(cs, |cs| - 1)
  {
    var n := |cs| - 1;
    forall j | 0 <= j < n ensures cs[j].confidence < cs[n].confidence {
      assert cs[..n][j] == cs[j];
    }
  }

  /** A new candidate that does not beat the best so far leaves it the best. */
  lemma BestAfterNoTakeover(cs: seq<Candidate>, k: int)
    requires |cs| > 0
    requires IsBest(cs[..|cs| - 1], k)
    requires !(cs[|cs| - 1].confidence > ConfidenceThreshold && cs[|cs| - 1].confidence > cs[k].confidence)
    ensures IsBest(cs, k)
  {
    var n := |cs| - 1;
    forall j | 0 <= j < n ensures cs[j] == cs[..n][j] {
    }
  }

  /** The result of the scan: the earliest maximum above 60, or Unknown with confidence 0. */
  lemma {:induction false} ScanFindsBest(cs: seq<Candidate>)
    ensures NoneAccepted(cs) ==> Scan(cs) == NoMatch
    ensures !NoneAccepted(cs) ==>
              exists k :: IsBest(cs, k) && Scan(cs) == Match(Some(cs[k].studentId), cs[k].name, cs[k].confidence)
  {
    if cs != [] {
      var n := |cs| - 1;
      var init := cs[..n];
      ScanFindsBest(init);
      var c := cs[n];
      assert Scan(cs) == Consider(Scan(init), c);
      if NoneAccepted(init) {
        if c.confidence > ConfidenceThreshold {
          BestAfterTakeover(cs, -1);
        } else {
          forall j | 0 <= j < |cs| ensures cs[j].confidence <= ConfidenceThreshold {
            if j < n { assert cs[j] == init[j]; }
          }
        }
      } else {
        var k :| IsBest(init, k) && Scan(init) == Match(Some(init[k].studentId), init[k].name, init[k].confidence);
        assert init[k] == cs[k];
        if c.confidence > ConfidenceThreshold && c.confidence > init[k].confidence {
          BestAfterTakeover(cs, k);
        } else {
          BestAfterNoTakeover(cs, k);
        }
      }
    }
  }

  /** Two positions cannot both be the earliest maximum. */
  lemma BestIsUnique(cs: seq<Candidate>, k1: int, k2: int)
    requires IsBest(cs, k1) && IsBest(cs, k2)
    ensures k1 == k2
  {
  }

  /** The best-match loop of monitor_faces over the gallery. */
  method BestMatch(cs: seq<Candidate>) returns (m: Match)
    ensures m == Scan(cs)
    ensures NoneAccepted(cs) ==> m == NoMatch
    ensures !NoneAccepted(cs) ==>
              exists k :: IsBest(cs, k) && m == Match(Some(cs[k].studentId), cs[k].name, cs[k].confidence)
  {
    m := NoMatch;
    var i := 0;
    while i < |cs|
      invariant 0 <= i <= |cs|
      invariant m == Scan(cs[..i])
    {
      assert cs[..i + 1][..i] == cs[..i];
      var c := cs[i];
      if c.confidence > ConfidenceThreshold {
        if c.confidence > m.confidence {
          m := Match(Some(c.studentId), c.name, c.confidence);
        }
      }
      i := i + 1;
    }
    assert cs[..i] == cs;
    ScanFindsBest(cs);
  }

  /** `matches.index(True)` guarded by `True in matches`. */
  function FirstTrue(matches: seq<bool>): (k: Option<nat>)
    ensures k.None? <==> forall i | 0 <= i < |matches| :: !matches[i]
    ensures k.Some? ==> k.value < |matches| && matches[k.value] && forall i | 0 <= i < k.value :: !matches[i]
  {
    if matches == [] then None
    else if matches[0] then Some(0)
    else match FirstTrue(matches[1..]) {
      case None => None
      case Some(k) => Some(k + 1)
    }
  }

  /** The scan of `True in matches` and `matches.index(True)`. */
  method FirstMatch(matches: seq<bool>) returns (k: Option<nat>)
    ensures k == FirstTrue(matches)
    ensures k.Some? ==> k.value < |matches| && matches[k.value] && forall i | 0 <= i < k.value :: !matches[i]
    ensures k.None? ==> forall i | 0 <= i < |matches| :: !matches[i]
  {
    var i := 0;
    while i < |matches|
      invariant 0 <= i <= |matches|
      invariant forall j | 0 <= j < i :: !matches[j]
    {
      if matches[i] {
        k := Some(i);
        return;
      }
      i := i + 1;
    }
    k := None;
  }

  /** A face scored 55 against one student and 70 against another is matched with the 70. */
  lemma BelowThresholdIsDiscarded(a: string, b: string)
    ensures Scan([Candidate(a, "A", 55.0)]) == NoMatch
    ensures Scan([Candidate(a, "A", 55.0), Candidate(b, "B", 70.0)]) == Match(Some(b), "B", 70.0)
  {
    assert [Candidate(a, "A", 55.0), Candidate(b, "B", 70.0)][..1] == [Candidate(a, "A", 55.0)];
    assert [Candidate(a, "A", 55.0)][..0] == [];
  }

  /** On a tie the earlier gallery entry is kept. */
  lemma TieKeepsEarlier(a: string, b: string)
    ensures Scan([Candidate(a, "A", 75.0), Candidate(b, "B", 75.0)]) == Match(Some(a), "A", 75.0)
  {
    assert [Candidate(a, "A", 75.0), Candidate(b, "B", 75.0)][..1] == [Candidate(a, "A", 75.0)];
    assert [Candidate(a, "A", 75.0)][..0] == [];
    assert Scan([Candidate(a, "A", 75.0)]) == Match(Some(a), "A", 75.0);
  }
}
