/**
 * The main loop of `readers/StreamToTCP.py`: each turn reads one line from
 * each serial port, decodes the first line as a GPS report and/or a tracker
 * health report (only when it carries this tracker's ID), decodes the second
 * line as a Raven altimeter report, and sends every packed frame over the
 * socket. A decoder that raises ends the loop, and with it the program.
 *
 * The serial ports and the socket are replaced by a finite feed of line pairs
 * and the list of frames sent.
 */
module MainLoop {
  import opened Text
  import opened Frames
  import opened StreamToTcp

  const GpsMarker := "@ GPS_STAT"
  const TrkMarker := "@ RX_NOMTK"

  /** How one turn of the loop ends: normally, by `continue`, or by an exception. */
  datatype Status = Completed | Skipped | Crashed

  /** The frames one turn sends, in order, and how the turn ends. */
  datatype Step = Step(sent: seq<Frame>, status: Status)

  /** Frames sent over a whole run, and whether the run ended with an exception. */
  datatype Session = Session(sent: seq<Frame>, crashed: bool)

  /** `if binary_payload != 0: conn.sendall(binary_payload)`, with a raised exception ending the turn. */
  function Emit(st: Step, o: Outcome): (r: Step)
    ensures st.status != Completed ==> r == st
    ensures st.status == Completed ==> r.sent == st.sent + (if o.Packed? then [o.frame] else [])
    ensures st.status == Completed ==> (r.status == Crashed <==> o.Fault?)
    ensures r.status != Skipped || st.status == Skipped
  {
    if st.status != Completed then st
    else match o
      case Packed(f) => Step(st.sent + [f], Completed)
      case Rejected => st
      case Fault => Step(st.sent, Crashed)
  }

  /** Whether the line from the first port names this tracker: the loop skips a tracker report that does not. */
  predicate ForeignReport(line1: string) {
    (Contains(line1, GpsMarker) || Contains(line1, TrkMarker)) && !Contains(line1, GpsId)
  }

  /**
   * The GPS decoder's verdict on the first line, `Rejected` when the line
   * lacks `@ GPS_STAT` or `TRK`. On a foreign report the loop never calls the
   * decoder; `Turn` then discards this verdict.
   */
  function GpsPart(line1: string): (r: Outcome)
    ensures r.Packed? ==> r.frame.tag == 12 && WellLaid(r.frame)
    ensures !r.Rejected? ==> Contains(line1, GpsMarker) && Contains(line1, "TRK")
    ensures Contains(line1, GpsMarker) && Contains(line1, "TRK") ==> Contains(line1, "GPS_STAT") && r == DecodeGps(line1)
  {
    if Contains(line1, GpsMarker) && Contains(line1, "TRK") then
      ContainsSuffix(line1, GpsMarker, 2);
      DecodeGps(line1)
    else Rejected
  }

  /**
   * The tracker-health decoder's verdict on the first line, `Rejected` when
   * the line lacks `@ RX_NOMTK`. On a foreign report the loop never calls the
   * decoder; `Turn` then discards this verdict.
   */
  function TrkPart(line1: string): (r: Outcome)
    ensures r.Packed? ==> r.frame.tag == 13 && WellLaid(r.frame)
    ensures !r.Rejected? ==> Contains(line1, TrkMarker)
    ensures Contains(line1, TrkMarker) ==> Contains(line1, "RX_NOMTK") && r == DecodeTrk(line1)
  {
    if Contains(line1, TrkMarker) then
      ContainsSuffix(line1, TrkMarker, 2);
      DecodeTrk(line1)
    else Rejected
  }

  /**
   * The Raven decoder's verdict on the second line, `Rejected` when the line
   * lacks `RAV`. After a foreign report the loop never calls the decoder;
   * `Turn` then discards this verdict.
   */
  function RavPart(line2: string): (r: Outcome)
    ensures r.Packed? ==> r.frame.tag == 14 && WellLaid(r.frame)
    ensures !r.Rejected? ==> Contains(line2, "RAV")
    ensures Contains(line2, "RAV") ==> r == DecodeRav(line2)
  {
    if Contains(line2, "RAV") then DecodeRav(line2) else Rejected
  }

  /**
   * A turn given whether it is skipped and the three verdicts in the order
   * the loop obtains them: the packed frames are sent in that order, and the
   * first fault ends the turn.
   */
  function Turn(skip: bool, gps: Outcome, trk: Outcome, rav: Outcome): (st: Step)
    ensures st.status == Skipped <==> skip
    ensures st.status == Skipped ==> st.sent == []
    ensures st.status == Crashed <==> !skip && (gps.Fault? || trk.Fault? || rav.Fault?)
    ensures st.status == Completed ==> st.sent == Packed3(gps, trk, rav)
    ensures st.status == Crashed ==> st.sent == CrashPrefix(gps, trk, rav)
  {
    if skip then Step([], Skipped)
    else Emit(Emit(Emit(Step([], Completed), gps), trk), rav)
  }

  /**
   * A turn sends at most one frame per verdict, each the frame its decoder
   * packed, in the order GPS, tracker health, Raven.
   */
  lemma TurnOrder(skip: bool, gps: Outcome, trk: Outcome, rav: Outcome)
    requires gps.Packed? ==> gps.frame.tag == 12
    requires trk.Packed? ==> trk.frame.tag == 13
    requires rav.Packed? ==> rav.frame.tag == 14
    ensures var st := Turn(skip, gps, trk, rav);
      && |st.sent| <= 3
      && (forall f <- st.sent :: (f.tag == 12 && gps == Packed(f)) || (f.tag == 13 && trk == Packed(f)) || (f.tag == 14 && rav == Packed(f)))
      && (forall i, j | 0 <= i < j < |st.sent| :: st.sent[i].tag < st.sent[j].tag)
  {
    Packed3Order(gps, trk, rav);
    Packed3Order(gps, trk, Rejected);
    Packed3Order(gps, Rejected, Rejected);
  }

  /** The frames among three verdicts. */
  function Packed3(a: Outcome, b: Outcome, c: Outcome): seq<Frame> {
    (if a.Packed? then [a.frame] else []) + (if b.Packed? then [b.frame] else []) + (if c.Packed? then [c.frame] else [])
  }

  /** The frames among three verdicts come one per verdict, in the order of their tags. */
  lemma Packed3Order(a: Outcome, b: Outcome, c: Outcome)
    requires a.Packed? ==> a.frame.tag == 12
    requires b.Packed? ==> b.frame.tag == 13
    requires c.Packed? ==> c.frame.tag == 14
    ensures |Packed3(a, b, c)| <= 3
    ensures forall f <- Packed3(a, b, c) :: (f.tag == 12 && a == Packed(f)) || (f.tag == 13 && b == Packed(f)) || (f.tag == 14 && c == Packed(f))
    ensures forall i, j | 0 <= i < j < |Packed3(a, b, c)| :: Packed3(a, b, c)[i].tag < Packed3(a, b, c)[j].tag
  {
  }

  /** The frames already sent when the first faulting verdict among three raises. */
  function CrashPrefix(a: Outcome, b: Outcome, c: Outcome): seq<Frame> {
    if a.Fault? then [] else if b.Fault? then Packed3(a, Rejected, Rejected) else Packed3(a, b, Rejected)
  }

  /**
   * One turn of the loop on the two lines read. At most one frame of each
   * kind is sent, GPS first, then tracker health, then Raven, each the
   * verdict of its decoder; a tracker report without this tracker's ID skips
   * the whole turn, Raven line included; the turn crashes exactly when a
   * decoder it calls raises.
   */
  function Iteration(line1: string, line2: string): (st: Step)
    ensures st.status == Skipped <==> ForeignReport(line1)
    ensures st.status == Skipped ==> st.sent == []
    ensures st.status == Crashed <==> !ForeignReport(line1) && (GpsPart(line1).Fault? || TrkPart(line1).Fault? || RavPart(line2).Fault?)
    ensures st.status == Completed ==> st.sent == Packed3(GpsPart(line1), TrkPart(line1), RavPart(line2))
    ensures st.status == Crashed ==> st.sent == CrashPrefix(GpsPart(line1), TrkPart(line1), RavPart(line2))
    ensures |st.sent| <= 3
    ensures forall i, j | 0 <= i < j < |st.sent| :: st.sent[i].tag < st.sent[j].tag
    ensures forall f <- st.sent ::
      (f.tag == 12 && GpsPart(line1) == Packed(f)) || (f.tag == 13 && TrkPart(line1) == Packed(f)) || (f.tag == 14 && RavPart(line2) == Packed(f))
  {
    TurnOrder(ForeignReport(line1), GpsPart(line1), TrkPart(line1), RavPart(line2));
    Turn(ForeignReport(line1), GpsPart(line1), TrkPart(line1), RavPart(line2))
  }

  /**
   * Every frame a turn sends has the layout of its tag, and comes from a line
   * that carries that decoder's marker.
   */
  lemma IterationSources(line1: string, line2: string)
    ensures forall f <- Iteration(line1, line2).sent :: WellLaid(f)
    ensures forall f <- Iteration(line1, line2).sent :: f.tag == 12 ==> Contains(line1, GpsMarker) && Contains(line1, "TRK")
    ensures forall f <- Iteration(line1, line2).sent :: f.tag == 13 ==> Contains(line1, TrkMarker)
    ensures forall f <- Iteration(line1, line2).sent :: f.tag == 14 ==> Contains(line2, "RAV")
  {
    var gps, trk, rav := GpsPart(line1), TrkPart(line1), RavPart(line2);
    forall f <- Iteration(line1, line2).sent
      ensures WellLaid(f)
      ensures f.tag == 12 ==> Contains(line1, GpsMarker) && Contains(line1, "TRK")
      ensures f.tag == 13 ==> Contains(line1, TrkMarker)
      ensures f.tag == 14 ==> Contains(line2, "RAV")
    {
      if f.tag == 12 {
        assert gps == Packed(f);
      } else if f.tag == 13 {
        assert trk == Packed(f);
      } else {
        assert rav == Packed(f);
      }
    }
  }

  /** The turn each pair of lines would give, were the loop to reach it. */
  function Turns(feed: seq<(string, string)>): (ts: seq<Step>)
    ensures |ts| == |feed|
    ensures forall k | 0 <= k < |feed| :: ts[k] == Iteration(feed[k].0, feed[k].1)
  {
    seq(|feed|, k requires 0 <= k < |feed| => Iteration(feed[k].0, feed[k].1))
  }

  /** Turns taken in order: their frames accumulate, and the first crash ends the run. */
  function Replay(ts: seq<Step>): (s: Session)
    decreases |ts|
  {
    if ts == [] then Session([], false)
    else
      var prev := Replay(ts[..|ts| - 1]);
      if prev.crashed then prev
      else Session(prev.sent + ts[|ts| - 1].sent, ts[|ts| - 1].status == Crashed)
  }

  /** The loop run over a finite feed of line pairs. */
  function Transcript(feed: seq<(string, string)>): Session {
    Replay(Turns(feed))
  }

  /** One more turn of a run that has not crashed appends that turn's frames. */
  lemma ReplayStep(ts: seq<Step>, i: nat)
    requires i < |ts| && !Replay(ts[..i]).crashed
    ensures Replay(ts[..i + 1]) == Session(Replay(ts[..i]).sent + ts[i].sent, ts[i].status == Crashed)
  {
    assert ts[..i + 1][..i] == ts[..i];
  }

  /** Once a run has crashed, later turns change nothing. */
  lemma {:induction false} CrashIsFinal(ts: seq<Step>, more: seq<Step>)
    requires Replay(ts).crashed
    ensures Replay(ts + more) == Replay(ts)
    decreases |more|
  {
    if more != [] {
      CrashIsFinal(ts, more[..|more| - 1]);
      assert (ts + more)[..|ts + more| - 1] == ts + more[..|more| - 1];
    } else {
      assert ts + more == ts;
    }
  }

  /** A run that has crashed, or has used up its turns, is over. */
  lemma ReplayStops(ts: seq<Step>, i: nat)
    requires i <= |ts| && (i == |ts| || Replay(ts[..i]).crashed)
    ensures Replay(ts) == Replay(ts[..i])
  {
    if i < |ts| {
      CrashIsFinal(ts[..i], ts[i..]);
      assert ts[..i] + ts[i..] == ts;
    } else {
      assert ts[..i] == ts;
    }
  }

  /** More turns only add frames: what was sent stays sent, in order, and a crash stays a crash. */
  lemma {:induction false} ReplayGrows(ts: seq<Step>, more: seq<Step>)
    ensures Replay(ts).sent <= Replay(ts + more).sent
    ensures Replay(ts).crashed ==> Replay(ts + more).crashed
    decreases |more|
  {
    if more != [] {
      ReplayGrows(ts, more[..|more| - 1]);
      assert (ts + more)[..|ts + more| - 1] == ts + more[..|more| - 1];
    } else {
      assert ts + more == ts;
    }
  }

  /** A run sends only frames its turns send. */
  lemma {:induction false} ReplayFrames(ts: seq<Step>)
    ensures forall f <- Replay(ts).sent :: exists k | 0 <= k < |ts| :: f in ts[k].sent
    decreases |ts|
  {
    if ts != [] {
      var init := ts[..|ts| - 1];
      ReplayFrames(init);
      forall f <- Replay(ts).sent ensures exists k | 0 <= k < |ts| :: f in ts[k].sent {
        if f in Replay(init).sent {
          var k :| 0 <= k < |init| && f in init[k].sent;
          assert ts[k] == init[k];
        } else {
          assert f in ts[|ts| - 1].sent;
        }
      }
    }
  }

  /** Turns of at most three frames each give a run of at most three frames per turn. */
  lemma {:induction false} ReplayBound(ts: seq<Step>)
    requires forall k | 0 <= k < |ts| :: |ts[k].sent| <= 3
    ensures |Replay(ts).sent| <= 3 * |ts|
    decreases |ts|
  {
    if ts != [] {
      ReplayBound(ts[..|ts| - 1]);
    }
  }

  /** Every frame a run sends has one of the three layouts, and each turn adds at most three. */
  lemma TranscriptWellLaid(feed: seq<(string, string)>)
    ensures forall f <- Transcript(feed).sent :: WellLaid(f)
    ensures |Transcript(feed).sent| <= 3 * |feed|
  {
    var ts := Turns(feed);
    ReplayFrames(ts);
    ReplayBound(ts);
    forall k | 0 <= k < |ts| ensures forall f <- ts[k].sent :: WellLaid(f) {
      IterationSources(feed[k].0, feed[k].1);
    }
  }

  /**
   * The body of the loop on the two lines read, statement by statement:
   * `continue` becomes a `Skipped` turn and a raised exception a `Crashed` one.
   */
  method Serve(data1: string, data2: string) returns (sent: seq<Frame>, status: Status)
    ensures Step(sent, status) == Iteration(data1, data2)
  {
    ghost var gps, trk, rav := GpsPart(data1), TrkPart(data1), RavPart(data2);
    ghost var skip := ForeignReport(data1);
    assert Iteration(data1, data2) == Turn(skip, gps, trk, rav);
    sent := [];
    var data := data1;
    if Contains(data, GpsMarker) {
      if !Contains(data, GpsId) {
        return [], Skipped;
      }
      if Contains(data, "TRK") {
        ContainsSuffix(data, GpsMarker, 2);
        var payload := DecodeGps(data);
        assert payload == gps;
        if payload.Fault? {
          return sent, Crashed;
        }
        if payload.Packed? {
          sent := sent + [payload.frame];
        }
      }
    }
    assert !skip || Contains(data, TrkMarker);
    assert Emit(Step([], Completed), gps) == Step(sent, Completed);
    if Contains(data, TrkMarker) {
      if !Contains(data, GpsId) {
        return sent, Skipped;
      }
      ContainsSuffix(data, TrkMarker, 2);
      var payload := DecodeTrk(data);
      assert payload == trk;
      if payload.Fault? {
        return sent, Crashed;
      }
      if payload.Packed? {
        sent := sent + [payload.frame];
      }
    }
    assert !skip;
    assert Emit(Emit(Step([], Completed), gps), trk) == Step(sent, Completed);
    data := data2;
    if Contains(data, "RAV") {
      var payload := DecodeRav(data);
      assert payload == rav;
      if payload.Fault? {
        return sent, Crashed;
      }
      if payload.Packed? {
        sent := sent + [payload.frame];
      }
    }
    status := Completed;
  }

  /**
   * The loop over a finite feed of line pairs: it stops early exactly when a
   * decoder raises, and sends only well-laid frames.
   */
  method Run(feed: seq<(string, string)>) returns (sent: seq<Frame>, crashed: bool)
    ensures Session(sent, crashed) == Transcript(feed)
    ensures forall f <- sent :: WellLaid(f)
  {
    ghost var ts := Turns(feed);
    sent, crashed := [], false;
    var i := 0;
    while i < |feed| && !crashed
      invariant 0 <= i <= |feed|
      invariant Session(sent, crashed) == Replay(ts[..i])
    {
      ReplayStep(ts, i);
      var frames, status := Serve(feed[i].0, feed[i].1);
      sent := sent + frames;
      crashed := status == Crashed;
      i := i + 1;
    }
    ReplayStops(ts, i);
    TranscriptWellLaid(feed);
  }
}
