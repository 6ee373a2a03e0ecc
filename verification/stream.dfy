/** The recognition loop of `video_stream` (app.py:69-118): read frames, analyse
    every fifth successful read, label each detected face, and end the stream on
    the first recognized face whose attendance is not yet marked today, after
    writing the mark and releasing the camera.

    The camera's feed, the faces the vision library detects in a frame (each as
    its distance to every gallery entry) and the clock are inputs. A yielded
    multipart chunk is kept only as the labels drawn on its frame. */
module Stream {
  import opened Clock
  import opened Ledger
  import opened Matching

  /** A captured frame: one distance vector per detected face, and the clock
      reading the attendance check and mark use for it. */
  datatype Frame = Frame(faces: seq<seq<real>>, now: DateTime)

  /** One `video_capture.read()`: no frame, or a frame. */
  datatype Read = Failed | Captured(frame: Frame)

  /** One part of the multipart response; the JPEG bytes are not modelled, only
      the labels drawn on the frame. */
  datatype Chunk = Chunk(labels: seq<string>)

  /** How the stream ends: the reads ran out with the stream still live,
      attendance was taken (camera released), or the ledger check raised. */
  datatype End = StillStreaming | AttendanceTaken(name: string, at: DateTime) | LedgerRowTooShort(row: nat)

  /** What the face loop makes of one analysed frame. */
  datatype FrameOutcome = Annotated(labels: seq<string>) | Taken(name: string) | Broken(row: nat)

  /** What a whole stream produces: the chunks yielded, how it ended, and the ledger afterwards. */
  datatype Session = Session(chunks: seq<Chunk>, end: End, ledger: LedgerFile)

  /** Only every this-many-th successful read is analysed and yielded. */
  const AnalysisPeriod: nat := 5

  /** Each face has one distance per gallery name, and the clock reading is a real one. */
  predicate FrameFits(fr: Frame, names: seq<string>) {
    Valid(fr.now) && forall j :: 0 <= j < |fr.faces| ==> |fr.faces[j]| == |names|
  }

  predicate FramesFit(frames: seq<Frame>, names: seq<string>) {
    forall k :: 0 <= k < |frames| ==> FrameFits(frames[k], names)
  }

  predicate ReadsFit(feed: seq<Read>, names: seq<string>) {
    forall k :: 0 <= k < |feed| && feed[k].Captured? ==> FrameFits(feed[k].frame, names)
  }

  /** What the loop does with one detected face (app.py:92-107): label it and
      move on, stop the stream on it, or fail in the ledger check. */
  datatype FaceDecision = Pass(caption: string) | Stop(name: string) | Fail(row: nat)

  function Decide(distances: seq<real>, names: seq<string>, f: LedgerFile, now: DateTime): FaceDecision
    requires |distances| == |names| && Valid(now)
  {
    var v := Classify(distances, names);
    match v
    case Unknown => Pass(Label(v))
    case Recognized(name) =>
      match CheckMarked(f, name, now)
      case NotMarked => Stop(name)
      case RowTooShort(row) => Fail(row)
      case Marked => Pass(Label(v))
  }

  /** The three outcomes for one face: it stops the stream exactly when it is
      recognized and not yet marked; it fails only on a ledger row the check
      trips over; and otherwise (unknown, or already marked) it is labelled and
      passed, which writes nothing. */
  lemma DecideCases(distances: seq<real>, names: seq<string>, f: LedgerFile, now: DateTime)
    requires |distances| == |names| && Valid(now)
    ensures var d, v := Decide(distances, names, f, now), Classify(distances, names);
      (d.Stop? <==> NeedsMark(distances, names, f, now)) &&
      (d.Stop? ==> d.name == v.name) &&
      (d.Fail? <==> v.Recognized? && CheckMarked(f, v.name, now).RowTooShort?) &&
      (d.Fail? ==> CheckMarked(f, v.name, now) == RowTooShort(d.row)) &&
      (d.Pass? <==> v.Unknown? || CheckMarked(f, v.name, now) == Marked) &&
      (d.Pass? ==> d.caption == Label(v))
  {
  }

  /** A face that stops the stream: recognized, and not yet marked today. */
  predicate NeedsMark(distances: seq<real>, names: seq<string>, f: LedgerFile, now: DateTime)
    requires |distances| == |names| && Valid(now)
  {
    var v := Classify(distances, names);
    v.Recognized? && CheckMarked(f, v.name, now) == NotMarked
  }

  function Extend(labels: seq<string>, o: FrameOutcome): FrameOutcome {
    if o.Annotated? then Annotated(labels + o.labels) else o
  }

  lemma ExtendAppend(labels: seq<string>, caption: string, o: FrameOutcome)
    ensures Extend(labels, Extend([caption], o)) == Extend(labels + [caption], o)
  {
    if o.Annotated? {
      assert labels + ([caption] + o.labels) == (labels + [caption]) + o.labels;
    }
  }

  /** The face loop of one analysed frame, from face `j` on (app.py:91-111). */
  function ProcessFaces(fr: Frame, j: nat, names: seq<string>, f: LedgerFile): FrameOutcome
    requires j <= |fr.faces| && FrameFits(fr, names)
    decreases |fr.faces| - j
  {
    if j == |fr.faces| then Annotated([])
    else
      match Decide(fr.faces[j], names, f, fr.now)
      case Pass(caption) => Extend([caption], ProcessFaces(fr, j + 1, names, f))
      case Stop(name) => Taken(name)
      case Fail(row) => Broken(row)
  }

  /** One step of the face loop, with the labels gathered so far. */
  lemma ProcessFacesStep(fr: Frame, j: nat, names: seq<string>, f: LedgerFile, labels: seq<string>)
    requires j < |fr.faces| && FrameFits(fr, names)
    ensures var d := Decide(fr.faces[j], names, f, fr.now);
      Extend(labels, ProcessFaces(fr, j, names, f)) ==
        if d.Pass? then Extend(labels + [d.caption], ProcessFaces(fr, j + 1, names, f))
        else if d.Stop? then Taken(d.name) else Broken(d.row)
  {
    var d := Decide(fr.faces[j], names, f, fr.now);
    if d.Pass? {
      ExtendAppend(labels, d.caption, ProcessFaces(fr, j + 1, names, f));
    }
  }

  /** Every face from `j` up to (not including) `k` is labelled and passed. */
  predicate PassesBefore(fr: Frame, j: nat, k: nat, names: seq<string>, f: LedgerFile)
    requires j <= k <= |fr.faces| && FrameFits(fr, names)
  {
    forall m :: j <= m < k ==> Decide(fr.faces[m], names, f, fr.now).Pass?
  }

  /** The face decision a frame outcome other than Annotated ends on. */
  function Ending(o: FrameOutcome): FaceDecision
    requires !o.Annotated?
  {
    if o.Taken? then Stop(o.name) else Fail(o.row)
  }

  /** A frame comes out annotated exactly when every face passes, and then with
      one label per face, in face order. */
  lemma {:induction false} ProcessFacesAnnotated(fr: Frame, j: nat, names: seq<string>, f: LedgerFile)
    requires j <= |fr.faces| && FrameFits(fr, names)
    decreases |fr.faces| - j
    ensures ProcessFaces(fr, j, names, f).Annotated? <==> PassesBefore(fr, j, |fr.faces|, names, f)
    ensures var o := ProcessFaces(fr, j, names, f);
      o.Annotated? ==>
        |o.labels| == |fr.faces| - j &&
        forall k :: j <= k < |fr.faces| ==> Decide(fr.faces[k], names, f, fr.now) == Pass(o.labels[k - j])
  {
    if j < |fr.faces| {
      var d := Decide(fr.faces[j], names, f, fr.now);
      if d.Pass? {
        ProcessFacesAnnotated(fr, j + 1, names, f);
        var rest := ProcessFaces(fr, j + 1, names, f);
        assert ProcessFaces(fr, j, names, f) == Extend([d.caption], rest);
        if rest.Annotated? {
          var ls := [d.caption] + rest.labels;
          forall k | j <= k < |fr.faces|
            ensures Decide(fr.faces[k], names, f, fr.now) == Pass(ls[k - j])
          {
            if k > j {
              assert ls[k - j] == rest.labels[k - (j + 1)];
            }
          }
        }
      }
    }
  }

  /** Otherwise the faces are visited in order and the first face that does not
      pass ends the frame: every face before it passed. */
  lemma {:induction false} ProcessFacesFirstStop(fr: Frame, j: nat, names: seq<string>, f: LedgerFile)
    requires j <= |fr.faces| && FrameFits(fr, names)
    decreases |fr.faces| - j
    ensures var o := ProcessFaces(fr, j, names, f);
      !o.Annotated? ==>
        exists k :: j <= k < |fr.faces| && PassesBefore(fr, j, k, names, f) &&
          Decide(fr.faces[k], names, f, fr.now) == Ending(o)
  {
    if j < |fr.faces| {
      var o := ProcessFaces(fr, j, names, f);
      var d := Decide(fr.faces[j], names, f, fr.now);
      if d.Pass? {
        ProcessFacesFirstStop(fr, j + 1, names, f);
        var rest := ProcessFaces(fr, j + 1, names, f);
        assert o == Extend([d.caption], rest);
        if !o.Annotated? {
          var k :| j + 1 <= k < |fr.faces| && PassesBefore(fr, j + 1, k, names, f) &&
            Decide(fr.faces[k], names, f, fr.now) == Ending(rest);
          assert PassesBefore(fr, j, k, names, f);
        }
      } else {
        assert PassesBefore(fr, j, j, names, f);
      }
    }
  }

  /** The stream over the frames that are analysed, one after the other, against
      the ledger as it was when the stream began. */
  function RunFrames(frames: seq<Frame>, names: seq<string>, f: LedgerFile): Session
    requires FramesFit(frames, names)
  {
    if frames == [] then Session([], StillStreaming, f)
    else
      var fr := frames[0];
      match ProcessFaces(fr, 0, names, f)
      case Annotated(labels) =>
        var rest := RunFrames(frames[1..], names, f);
        Session([Chunk(labels)] + rest.chunks, rest.end, rest.ledger)
      case Taken(name) => Session([], AttendanceTaken(name, fr.now), AfterMark(f, name, fr.now))
      case Broken(row) => Session([], LedgerRowTooShort(row), f)
  }

  /** Every frame before the stop is yielded, annotated; the frame that stops the
      stream is not yielded; and the only write is the one mark that stops it. */
  lemma {:induction false} RunFramesSpec(frames: seq<Frame>, names: seq<string>, f: LedgerFile)
    requires FramesFit(frames, names)
    ensures var s := RunFrames(frames, names, f);
      |s.chunks| <= |frames| &&
      (forall k :: 0 <= k < |s.chunks| ==>
        ProcessFaces(frames[k], 0, names, f) == Annotated(s.chunks[k].labels)) &&
      (s.end.StillStreaming? ==> |s.chunks| == |frames| && s.ledger == f) &&
      (s.end.AttendanceTaken? ==>
        |s.chunks| < |frames| &&
        ProcessFaces(frames[|s.chunks|], 0, names, f) == Taken(s.end.name) &&
        s.end.at == frames[|s.chunks|].now && s.ledger == AfterMark(f, s.end.name, s.end.at)) &&
      (s.end.LedgerRowTooShort? ==>
        |s.chunks| < |frames| &&
        ProcessFaces(frames[|s.chunks|], 0, names, f) == Broken(s.end.row) && s.ledger == f)
  {
    if frames != [] {
      var rest := frames[1..];
      assert FramesFit(rest, names) by {
        assert forall k :: 0 <= k < |rest| ==> rest[k] == frames[k + 1];
      }
      if ProcessFaces(frames[0], 0, names, f).Annotated? {
        RunFramesSpec(rest, names, f);
        var s, r := RunFrames(frames, names, f), RunFrames(rest, names, f);
        assert s.chunks == [Chunk(ProcessFaces(frames[0], 0, names, f).labels)] + r.chunks;
        forall k | 0 <= k < |s.chunks|
          ensures ProcessFaces(frames[k], 0, names, f) == Annotated(s.chunks[k].labels)
        {
          if k > 0 {
            assert s.chunks[k] == r.chunks[k - 1] && frames[k] == rest[k - 1];
          }
        }
        if !s.end.StillStreaming? {
          assert frames[|s.chunks|] == rest[|r.chunks|];
        }
      }
    }
  }

  /** The frames of the successful reads, in order. */
  function Captures(feed: seq<Read>): seq<Frame> {
    if feed == [] then []
    else (if feed[0].Captured? then [feed[0].frame] else []) + Captures(feed[1..])
  }

  /** The frames the counter lets through when it stands `phase` steps past a
      multiple of AnalysisPeriod. */
  function Sample(frames: seq<Frame>, phase: nat): seq<Frame>
    requires phase < AnalysisPeriod
  {
    if frames == [] then []
    else if phase == AnalysisPeriod - 1 then [frames[0]] + Sample(frames[1..], 0)
    else Sample(frames[1..], phase + 1)
  }

  function Yield(chunks: seq<Chunk>, s: Session): Session {
    Session(chunks + s.chunks, s.end, s.ledger)
  }

  /** The loop of `video_stream` from read `i` on, with `count` successful reads
      counted so far. */
  function StreamFrom(feed: seq<Read>, i: nat, count: nat, names: seq<string>, f: LedgerFile): Session
    requires i <= |feed| && ReadsFit(feed, names)
    decreases |feed| - i
  {
    if i == |feed| then Session([], StillStreaming, f)
    else match feed[i]
      case Failed => StreamFrom(feed, i + 1, count, names, f)
      case Captured(fr) =>
        if (count + 1) % AnalysisPeriod != 0 then StreamFrom(feed, i + 1, count + 1, names, f)
        else match ProcessFaces(fr, 0, names, f)
          case Annotated(labels) => Yield([Chunk(labels)], StreamFrom(feed, i + 1, count + 1, names, f))
          case Taken(name) => Session([], AttendanceTaken(name, fr.now), AfterMark(f, name, fr.now))
          case Broken(row) => Session([], LedgerRowTooShort(row), f)
  }

  lemma {:induction false} CapturesFit(feed: seq<Read>, names: seq<string>)
    requires ReadsFit(feed, names)
    ensures FramesFit(Captures(feed), names)
  {
    if feed != [] {
      var rest := feed[1..];
      assert forall k :: 0 <= k < |rest| ==> rest[k] == feed[k + 1];
      CapturesFit(rest, names);
    }
  }

  lemma {:induction false} SampleFits(frames: seq<Frame>, phase: nat, names: seq<string>)
    requires phase < AnalysisPeriod && FramesFit(frames, names)
    ensures FramesFit(Sample(frames, phase), names)
  {
    if frames != [] {
      var rest := frames[1..];
      assert forall k :: 0 <= k < |rest| ==> rest[k] == frames[k + 1];
      SampleFits(rest, if phase == AnalysisPeriod - 1 then 0 else phase + 1, names);
    }
  }

  /** With the counter `phase` steps past a multiple of five, the frames let
      through are those at positions 4 - phase, 9 - phase, 14 - phase, ... */
  lemma {:induction false} SampleEveryFifth(frames: seq<Frame>, phase: nat)
    requires phase < AnalysisPeriod
    ensures |Sample(frames, phase)| == (|frames| + phase) / AnalysisPeriod
    ensures forall k :: 0 <= k < |Sample(frames, phase)| ==>
      AnalysisPeriod * k + (AnalysisPeriod - 1 - phase) < |frames| &&
      Sample(frames, phase)[k] == frames[AnalysisPeriod * k + (AnalysisPeriod - 1 - phase)]
  {
    if frames != [] {
      var rest, s := frames[1..], Sample(frames, phase);
      var next := if phase == 4 then 0 else phase + 1;
      SampleEveryFifth(rest, next);
      var t := Sample(rest, next);
      if phase == 4 {
        assert s == [frames[0]] + t;
        assert (|frames| + 4) / 5 == 1 + (|rest| + 0) / 5;
      } else {
        assert s == t;
        assert |frames| + phase == |rest| + next;
      }
      forall k | 0 <= k < |s|
        ensures 5 * k + (4 - phase) < |frames| && s[k] == frames[5 * k + (4 - phase)]
      {
        if phase == 4 {
          if k > 0 {
            assert s[k] == t[k - 1];
            assert 5 * (k - 1) + 4 + 1 == 5 * k;
          }
        } else {
          assert s[k] == t[k];
          assert 5 * k + (4 - next) + 1 == 5 * k + (4 - phase);
        }
      }
    }
  }

  /** The frames the counter, standing at `count`, lets through among the
      successful reads from read `i` on. */
  function Sampled(feed: seq<Read>, i: nat, count: nat): seq<Frame>
    requires i <= |feed|
  {
    Sample(Captures(feed[i..]), count % AnalysisPeriod)
  }

  lemma SampledFits(feed: seq<Read>, i: nat, count: nat, names: seq<string>)
    requires i <= |feed| && ReadsFit(feed, names)
    ensures FramesFit(Sampled(feed, i, count), names)
  {
    var rest := feed[i..];
    assert ReadsFit(rest, names) by {
      assert forall k :: 0 <= k < |rest| ==> rest[k] == feed[i + k];
    }
    CapturesFit(rest, names);
    SampleFits(Captures(rest), count % AnalysisPeriod, names);
  }

  /** One read: a failed one is skipped without counting, a successful one moves
      the counter, and it is let through when the counter reaches a multiple of five. */
  lemma SampledStep(feed: seq<Read>, i: nat, count: nat)
    requires i < |feed|
    ensures feed[i].Failed? ==> Sampled(feed, i, count) == Sampled(feed, i + 1, count)
    ensures feed[i].Captured? && (count + 1) % AnalysisPeriod != 0 ==>
      Sampled(feed, i, count) == Sampled(feed, i + 1, count + 1)
    ensures feed[i].Captured? && (count + 1) % AnalysisPeriod == 0 ==>
      Sampled(feed, i, count) == [feed[i].frame] + Sampled(feed, i + 1, count + 1)
  {
    var rest := feed[i..];
    assert rest[1..] == feed[i + 1..];
    var caps := Captures(feed[i + 1..]);
    var phase := count % AnalysisPeriod;
    if feed[i].Captured? {
      assert Captures(rest) == [feed[i].frame] + caps;
      assert (count + 1) % AnalysisPeriod == if phase == AnalysisPeriod - 1 then 0 else phase + 1;
      assert ([feed[i].frame] + caps)[1..] == caps;
    } else {
      assert Captures(rest) == caps;
    }
  }

  /** Failed reads do not move the counter: the loop from read `i` behaves as the
      run over the frames that the counter, standing at `count`, lets through
      among the remaining successful reads. */
  lemma {:induction false} StreamIsSampledRun(feed: seq<Read>, i: nat, count: nat, names: seq<string>, f: LedgerFile)
    requires i <= |feed| && ReadsFit(feed, names)
    ensures FramesFit(Sampled(feed, i, count), names)
    ensures StreamFrom(feed, i, count, names, f) == RunFrames(Sampled(feed, i, count), names, f)
    decreases |feed| - i
  {
    SampledFits(feed, i, count, names);
    if i < |feed| {
      var count' := if feed[i].Captured? then count + 1 else count;
      StreamIsSampledRun(feed, i + 1, count', names, f);
      SampledStep(feed, i, count);
      if feed[i].Captured? && (count + 1) % AnalysisPeriod == 0 {
        assert Sampled(feed, i, count)[1..] == Sampled(feed, i + 1, count');
      }
    }
  }

  /** Frame by frame: with a well-formed ledger, the face loop never fails, and
      it ends the stream exactly when some face in the frame is recognized and not
      yet marked. */
  lemma FrameTakenIff(fr: Frame, names: seq<string>, f: LedgerFile)
    requires FrameFits(fr, names) && WellFormed(f)
    ensures !ProcessFaces(fr, 0, names, f).Broken?
    ensures ProcessFaces(fr, 0, names, f).Taken? <==>
      exists j :: 0 <= j < |fr.faces| && NeedsMark(fr.faces[j], names, f, fr.now)
  {
    var o := ProcessFaces(fr, 0, names, f);
    ProcessFacesAnnotated(fr, 0, names, f);
    ProcessFacesFirstStop(fr, 0, names, f);
    if !o.Annotated? {
      var k :| 0 <= k < |fr.faces| && PassesBefore(fr, 0, k, names, f) &&
        Decide(fr.faces[k], names, f, fr.now) == Ending(o);
      DecideCases(fr.faces[k], names, f, fr.now);
      if o.Broken? {
        CheckMarkedExists(f, Classify(fr.faces[k], names).name, fr.now);
      }
    }
    if j :| 0 <= j < |fr.faces| && NeedsMark(fr.faces[j], names, f, fr.now) {
      DecideCases(fr.faces[j], names, f, fr.now);
    }
  }

  /** With a well-formed ledger, a run over analysed frames ends with attendance
      taken exactly when some face in some analysed frame is recognized and not
      yet marked, and it never ends on a ledger error. */
  lemma RunStopsIffUnmarkedMatch(frames: seq<Frame>, names: seq<string>, f: LedgerFile)
    requires FramesFit(frames, names) && WellFormed(f)
    ensures !RunFrames(frames, names, f).end.LedgerRowTooShort?
    ensures RunFrames(frames, names, f).end.AttendanceTaken? <==>
      exists k, j :: 0 <= k < |frames| && 0 <= j < |frames[k].faces| &&
        NeedsMark(frames[k].faces[j], names, f, frames[k].now)
  {
    var s := RunFrames(frames, names, f);
    RunFramesSpec(frames, names, f);
    var n := |s.chunks|;
    if !s.end.StillStreaming? {
      FrameTakenIff(frames[n], names, f);
    }
    if k, j :| 0 <= k < |frames| && 0 <= j < |frames[k].faces| &&
               NeedsMark(frames[k].faces[j], names, f, frames[k].now) {
      FrameTakenIff(frames[k], names, f);
    }
  }

  /** The frames the loop analyses and may yield: among the successful reads,
      the 5th, 10th, 15th, ... */
  function AnalysedFrames(feed: seq<Read>): seq<Frame> {
    Sample(Captures(feed), 0)
  }

  lemma AnalysedFramesAreEveryFifth(feed: seq<Read>)
    ensures |AnalysedFrames(feed)| == |Captures(feed)| / AnalysisPeriod
    ensures forall k :: 0 <= k < |AnalysedFrames(feed)| ==>
      AnalysisPeriod * k + 4 < |Captures(feed)| &&
      AnalysedFrames(feed)[k] == Captures(feed)[AnalysisPeriod * k + 4]
  {
    SampleEveryFifth(Captures(feed), 0);
  }

  /** The whole loop is the run over the analysed frames: failed reads are
      ignored and only every fifth successful read is analysed and yielded. */
  lemma StreamIsRunOverAnalysedFrames(feed: seq<Read>, names: seq<string>, f: LedgerFile)
    requires ReadsFit(feed, names)
    ensures FramesFit(AnalysedFrames(feed), names)
    ensures StreamFrom(feed, 0, 0, names, f) == RunFrames(AnalysedFrames(feed), names, f)
  {
    assert feed[0..] == feed;
    assert Sampled(feed, 0, 0) == AnalysedFrames(feed);
    StreamIsSampledRun(feed, 0, 0, names, f);
  }

  /** Stated on the whole loop: with a well-formed ledger, the stream stops with
      attendance taken exactly when some analysed frame holds a recognized face
      not yet marked on that frame's day, and it never fails. */
  lemma StreamStopsIffUnmarkedMatch(feed: seq<Read>, names: seq<string>, f: LedgerFile)
    requires ReadsFit(feed, names) && WellFormed(f)
    ensures FramesFit(AnalysedFrames(feed), names)
    ensures !StreamFrom(feed, 0, 0, names, f).end.LedgerRowTooShort?
    ensures StreamFrom(feed, 0, 0, names, f).end.AttendanceTaken? <==>
      exists k, j :: 0 <= k < |AnalysedFrames(feed)| && 0 <= j < |AnalysedFrames(feed)[k].faces| &&
        NeedsMark(AnalysedFrames(feed)[k].faces[j], names, f, AnalysedFrames(feed)[k].now)
  {
    StreamIsRunOverAnalysedFrames(feed, names, f);
    RunStopsIffUnmarkedMatch(AnalysedFrames(feed), names, f);
  }

  /** A stream only writes after the check said NotMarked, so it keeps the ledger
      at one row per person per day, and keeps it well formed. */
  lemma RunKeepsLedgerInvariants(frames: seq<Frame>, names: seq<string>, f: LedgerFile)
    requires FramesFit(frames, names)
    ensures OncePerDay(f) ==> OncePerDay(RunFrames(frames, names, f).ledger)
    ensures WellFormed(f) ==> WellFormed(RunFrames(frames, names, f).ledger)
  {
    var s := RunFrames(frames, names, f);
    RunFramesSpec(frames, names, f);
    if s.end.AttendanceTaken? {
      var fr := frames[|s.chunks|];
      ProcessFacesFirstStop(fr, 0, names, f);
      assert Ending(ProcessFaces(fr, 0, names, f)) == Stop(s.end.name);
      var k :| 0 <= k < |fr.faces| && Decide(fr.faces[k], names, f, fr.now) == Stop(s.end.name);
      assert CheckMarked(f, s.end.name, s.end.at) == NotMarked;
      if OncePerDay(f) {
        GuardedMarkKeepsOncePerDay(f, s.end.name, s.end.at);
      }
      if WellFormed(f) {
        MarkKeepsWellFormed(f, s.end.name, s.end.at);
      }
    }
  }

  /** Once per day: after a stream takes attendance for a person, a face
      recognized as that person later the same day is labelled and passed, never
      marked again. */
  lemma NoSecondMarkSameDay(frames: seq<Frame>, names: seq<string>, f: LedgerFile,
                            distances: seq<real>, later: DateTime)
    requires FramesFit(frames, names)
    requires RunFrames(frames, names, f).end.AttendanceTaken?
    requires Valid(later) && later.date == RunFrames(frames, names, f).end.at.date
    requires |distances| == |names|
    requires Classify(distances, names) == Recognized(RunFrames(frames, names, f).end.name)
    ensures Decide(distances, names, RunFrames(frames, names, f).ledger, later) ==
      Pass(RunFrames(frames, names, f).end.name)
  {
    var s := RunFrames(frames, names, f);
    RunFramesSpec(frames, names, f);
    var fr := frames[|s.chunks|];
    ProcessFacesFirstStop(fr, 0, names, f);
    var name, at := s.end.name, s.end.at;
    assert Ending(ProcessFaces(fr, 0, names, f)) == Stop(name);
    var k :| 0 <= k < |fr.faces| && Decide(fr.faces[k], names, f, fr.now) == Stop(name);
    assert CheckMarked(f, name, at) == NotMarked;
    assert CheckMarked(f, name, later) == CheckMarked(f, name, at);
    MarkedAfterMark(f, name, at, name, later);
  }

  /** The camera device the loop owns. */
  class Camera {
    /** The reads the device will deliver, in order. */
    var pending: seq<Read>
    var released: bool

    constructor (feed: seq<Read>)
      ensures pending == feed && !released
    {
      pending := feed;
      released := false;
    }

    method Read() returns (r: Read)
      requires pending != []
      modifies this
      ensures r == old(pending)[0] && pending == old(pending)[1..] && released == old(released)
    {
      r := pending[0];
      pending := pending[1..];
    }

    method Release()
      modifies this
      ensures released && pending == old(pending)
    {
      released := true;
    }
  }

  /** The face loop of one analysed frame (app.py:91-111): label each face in
      order; the first recognized face not yet marked today, or a ledger row the
      check trips over, ends the loop. The mark and the release that follow a
      Taken outcome are left to the caller. */
  method AnalyseFaces(log: AttendanceLog, frame: Frame, names: seq<string>) returns (outcome: FrameOutcome)
    requires FrameFits(frame, names)
    ensures outcome == ProcessFaces(frame, 0, names, log.file)
  {
    ghost var f := log.file;
    var labels: seq<string> := [];
    var j := 0;
    while j < |frame.faces|
      invariant 0 <= j <= |frame.faces|
      invariant ProcessFaces(frame, 0, names, f) == Extend(labels, ProcessFaces(frame, j, names, f))
    {
      ProcessFacesStep(frame, j, names, f, labels);
      var verdict := Classify(frame.faces[j], names);
      if verdict.Recognized? {
        var status := log.IsAttendanceMarked(verdict.name, frame.now);
        if status.NotMarked? {
          return Taken(verdict.name);
        }
        if status.RowTooShort? {
          return Broken(status.row);
        }
      }
      labels := labels + [Label(verdict)];
      j := j + 1;
    }
    return Annotated(labels);
  }

  /** `video_stream`, run until the camera's reads run out: returns the chunks
      yielded and how the stream ended. The camera is released exactly when
      attendance is taken, and the ledger changes only by that one mark. */
  method VideoStream(camera: Camera, log: AttendanceLog, names: seq<string>) returns (chunks: seq<Chunk>, end: End)
    requires !camera.released && ReadsFit(camera.pending, names)
    modifies camera, log
    ensures Session(chunks, end, log.file) == StreamFrom(old(camera.pending), 0, 0, names, old(log.file))
    ensures camera.released <==> end.AttendanceTaken?
    ensures |camera.pending| <= |old(camera.pending)|
    ensures camera.pending == old(camera.pending)[|old(camera.pending)| - |camera.pending|..]
    ensures end.StillStreaming? ==> camera.pending == []
  {
    ghost var feed := camera.pending;
    ghost var f := log.file;
    ghost var i := 0;
    var frameCount := 0;
    chunks := [];
    while camera.pending != []
      invariant 0 <= i <= |feed| && camera.pending == feed[i..]
      invariant !camera.released && log.file == f
      invariant StreamFrom(feed, 0, 0, names, f) == Yield(chunks, StreamFrom(feed, i, frameCount, names, f))
      decreases |camera.pending|
    {
      ghost var rest := StreamFrom(feed, i, frameCount, names, f);
      var read := camera.Read();
      assert read == feed[i];
      i := i + 1;
      if read.Failed? {
        assert rest == StreamFrom(feed, i, frameCount, names, f);
        continue;
      }
      frameCount := frameCount + 1;
      if frameCount % AnalysisPeriod != 0 {
        assert rest == StreamFrom(feed, i, frameCount, names, f);
        continue;
      }
      var frame := read.frame;
      assert FrameFits(frame, names);
      var outcome := AnalyseFaces(log, frame, names);
      match outcome
      case Taken(name) =>
        log.MarkAttendance(name, frame.now);
        camera.Release();
        end := AttendanceTaken(name, frame.now);
        return;
      case Broken(row) =>
        end := LedgerRowTooShort(row);
        return;
      case Annotated(labels) =>
        chunks := chunks + [Chunk(labels)];
    }
    end := StillStreaming;
  }
}
