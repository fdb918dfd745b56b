/**
 * What happens around the gate: access units waiting for their picture, the
 * decoder's answers, and which of them may be reported as decoded.
 */
module H264Session {
  import opened Serial
  import opened GateLog
  import opened H264Gate
  import opened FrameAcks

  datatype Outcome = Decoded | NotOutput | DecodeError | NoDecoderOutcome

  // ------------------------------------------------------- pending pictures

  const MAX_PENDING: nat := 16

  function SeqsOf(answers: seq<(nat, Outcome)>): (r: seq<nat>)
    ensures |r| == |answers| && forall i :: 0 <= i < |r| ==> r[i] == answers[i].0
  {
    seq(|answers|, i requires 0 <= i < |answers| => answers[i].0)
  }

  function NotOutputs(seqs: seq<nat>): (r: seq<(nat, Outcome)>)
    ensures |r| == |seqs| && forall i :: 0 <= i < |r| ==> r[i] == (seqs[i], NotOutput)
    ensures SeqsOf(r) == seqs
  {
    seq(|seqs|, i requires 0 <= i < |seqs| => (seqs[i], NotOutput))
  }

  lemma AnswersJoin(a: seq<(nat, Outcome)>, b: seq<(nat, Outcome)>)
    ensures SeqsOf(a + b) == SeqsOf(a) + SeqsOf(b)
  {
  }

  /** Access units fed to the decoder and not yet answered, oldest first. */
  class PendingFrames {
    var fifo: seq<nat>

    /** Everything ever fed, and every answer given, in order. */
    ghost var fedLog: seq<nat>
    ghost var answers: seq<(nat, Outcome)>

    /** Answers, then the FIFO, are the feed history: in order, each once. */
    ghost predicate Valid()
      reads this
    {
      SeqsOf(answers) + fifo == fedLog && |fifo| <= MAX_PENDING
    }

    constructor ()
      ensures Valid() && fedLog == [] && answers == []
    {
      fifo, fedLog, answers := [], [], [];
    }

    method Fed(seq': nat) returns (evicted: Option<(nat, Outcome)>)
      requires Valid()
      modifies this
      ensures Valid() && fedLog == old(fedLog) + [seq']
      ensures answers == old(answers) + if evicted.Some? then [evicted.value] else []
      ensures evicted == if |old(fifo)| >= MAX_PENDING then Some((old(fifo)[0], NotOutput)) else None
    {
      evicted := None;
      if |fifo| >= MAX_PENDING {
        evicted := Some((fifo[0], NotOutput));
        AnswersJoin(answers, [(fifo[0], NotOutput)]);
        answers := answers + [(fifo[0], NotOutput)];
        fifo := fifo[1..];
      }
      fifo := fifo + [seq'];
      fedLog := fedLog + [seq'];
    }

    /** First position of `seq'` in the FIFO, or its length. */
    method Position(seq': nat) returns (at: nat)
      ensures at <= |fifo| && seq' !in fifo[..at] && (at < |fifo| ==> fifo[at] == seq')
    {
      at := 0;
      while at < |fifo| && fifo[at] != seq'
        invariant at <= |fifo| && seq' !in fifo[..at]
      {
        at := at + 1;
      }
    }

    /**
     * A picture tagged `pts` came out: older units are refused, this one is
     * decoded; an unknown tag answers nothing.
     */
    method Output(pts: Option<int>) returns (r: seq<(nat, Outcome)>)
      requires Valid()
      modifies this`fifo, this`answers
      ensures Valid() && answers == old(answers) + r
      ensures if pts.Some? && 0 <= pts.value < MOD32 && pts.value in old(fifo)
        then && r != [] && r[|r| - 1] == (pts.value, Decoded)
             && forall i :: 0 <= i < |r| - 1 ==> r[i].1 == NotOutput && r[i].0 != pts.value
        else r == []
    {
      r := [];
      if pts.Some? && 0 <= pts.value < MOD32 {
        var at := Position(pts.value);
        if at < |fifo| {
          ghost var before := fifo;
          assert before == before[..at] + [before[at]] + before[at + 1..];
          var own := [(pts.value, Decoded)];
          r := NotOutputs(fifo[..at]) + own;
          AnswersJoin(NotOutputs(before[..at]), own);
          AnswersJoin(answers, r);
          assert SeqsOf(own) == [before[at]];
          fifo := fifo[at + 1..];
          answers := answers + r;
        }
      }
    }

    /** The decoder was reset or failed: nothing pending will produce a picture. */
    method RefuseAll() returns (r: seq<(nat, Outcome)>)
      requires Valid()
      modifies this`fifo, this`answers
      ensures Valid() && answers == old(answers) + r && fifo == []
      ensures |r| == |old(fifo)| && forall i :: 0 <= i < |r| ==> r[i] == (old(fifo)[i], NotOutput)
    {
      r := NotOutputs(fifo);
      AnswersJoin(answers, r);
      fifo := [];
      answers := answers + r;
    }
  }

  // ------------------------------------------------------------- the session

  /** Fed numbers increase, the gate's newest is the last of them, and the boundary is one of them. */
  ghost predicate FeedsOk(fedNumbers: seq<int>, lastFed: Option<nat>, epochStart: Option<nat>, epochIndex: nat) {
    && (forall i, j :: 0 <= i < j < |fedNumbers| ==> fedNumbers[i] < fedNumbers[j])
    && lastFed == (if fedNumbers == [] then None else Some(Wrap31(fedNumbers[|fedNumbers| - 1])))
    && (epochStart.None? ==> epochIndex == 0)
    && (epochStart.Some? ==> epochIndex < |fedNumbers| && epochStart.value == Wrap31(fedNumbers[epochIndex]))
  }

  ghost predicate TaintedBy(broken: bool, fedNumbers: seq<int>, epochIndex: nat, n: int) {
    broken || exists k :: 0 <= k < epochIndex && k < |fedNumbers| && fedNumbers[k] == n
  }

  /** Within half a turn, so that the serial comparison with `m` is the true order. */
  predicate Near(n: int, m: int) { -HALF31 <= n - m < HALF31 }

  /** One more frame, newer than the last by serial comparison, possibly the one that ends a failure. */
  lemma FeedsExtend(
    fedNumbers: seq<int>, lastFed: Option<nat>, epochStart: Option<nat>, epochIndex: nat, n: int, boundary: bool)
    requires FeedsOk(fedNumbers, lastFed, epochStart, epochIndex)
    requires fedNumbers != [] ==> Near(n, fedNumbers[|fedNumbers| - 1])
    requires lastFed.Some? ==> IsNewer(Wrap31(n), lastFed.value)
    ensures FeedsOk(fedNumbers + [n], Some(Wrap31(n)), if boundary then Some(Wrap31(n)) else epochStart,
                    if boundary then |fedNumbers| else epochIndex)
  {
    hide IsNewer, Wrap31;
    if fedNumbers != [] { NewerIffTrueOrder(n, fedNumbers[|fedNumbers| - 1]); }
  }

  /** What the gate compares is the true order of the numbers. */
  lemma NewestIsLast(fedNumbers: seq<int>, lastFed: Option<nat>, epochStart: Option<nat>, epochIndex: nat, n: int)
    requires FeedsOk(fedNumbers, lastFed, epochStart, epochIndex)
    requires fedNumbers != [] ==> Near(n, fedNumbers[|fedNumbers| - 1])
    ensures lastFed.Some? <==> fedNumbers != []
    ensures fedNumbers != [] ==> (IsNewer(Wrap31(n), lastFed.value) <==> n > fedNumbers[|fedNumbers| - 1])
  {
    hide IsNewer, Wrap31;
    if fedNumbers != [] { NewerIffTrueOrder(n, fedNumbers[|fedNumbers| - 1]); }
  }

  lemma FedBefore(fedNumbers: seq<int>, lastFed: Option<nat>, epochStart: Option<nat>, epochIndex: nat, n: int)
    requires FeedsOk(fedNumbers, lastFed, epochStart, epochIndex) && n in fedNumbers
    ensures TaintedBy(false, fedNumbers, epochIndex, n) <==> epochStart.Some? && n < fedNumbers[epochIndex]
  {
    var k :| 0 <= k < |fedNumbers| && fedNumbers[k] == n;
  }

  /**
   * The serial boundary test tells the frames fed before the boundary from those fed
   * since exactly when the frame lies on the near side of the boundary.
   */
  lemma BoundaryTest(fedNumbers: seq<int>, lastFed: Option<nat>, epochStart: Option<nat>, epochIndex: nat, n: int)
    requires FeedsOk(fedNumbers, lastFed, epochStart, epochIndex) && n in fedNumbers && epochStart.Some?
    ensures (IsNewer(epochStart.value, Wrap31(n)) <==> TaintedBy(false, fedNumbers, epochIndex, n))
       <==> NearSide(fedNumbers[epochIndex] - n)
  {
    hide IsNewer, Wrap31, NearSide, TaintedBy;
    FedBefore(fedNumbers, lastFed, epochStart, epochIndex, n);
    NewerIffNearSide(fedNumbers[epochIndex], n);
  }

  /** The numbers as the wire carries them. */
  function Wrapped(numbers: seq<int>): (r: seq<nat>)
    ensures |r| == |numbers|
  {
    seq(|numbers|, i requires 0 <= i < |numbers| => Wrap31(numbers[i]) as nat)
  }

  lemma WrappedGrows(numbers: seq<int>, n: int)
    ensures Wrapped(numbers + [n]) == Wrapped(numbers) + [Wrap31(n)]
  {
  }

  /**
   * Gate, ack window and the decoder-health flags together. The true number of a frame
   * lies within half a turn of the last fed and of the newest recorded one.
   */
  class Session {
    const gate: H264Gate
    const acks: FrameAckWindow
    /** The decoder failed and no frame has been fed with a decoder reset since. */
    var decoderBroken: bool
    /** The frame whose feed ended the last failure. */
    var epochStart: Option<nat>
    /** Reset requests sent. */
    var requests: seq<(Reason, nat)>

    /** True numbers of the frames fed, in order; the first `epochIndex` of them were fed before `epochStart`. */
    ghost var fedNumbers: seq<int>
    ghost var epochIndex: nat

    ghost predicate Valid()
      reads this, gate, acks
    {
      && gate.Valid() && acks.Valid() && gate.request == None
      && FeedsOk(fedNumbers, gate.lastFed, epochStart, epochIndex)
      && FedList(gate.log, true) == Wrapped(fedNumbers)
    }

    /** Frame `n` was fed to a decoder that failed before the last reset, or has failed since. */
    ghost predicate Tainted(n: int)
      reads this
    {
      TaintedBy(decoderBroken, fedNumbers, epochIndex, n)
    }

    /** What the code takes for an answer of a healthy decoder. */
    predicate Trusts(seq': u32)
      reads this
    {
      !decoderBroken && !(epochStart.Some? && IsNewer(epochStart.value, seq'))
    }

    /** The boundary, if one is compared with, lies on the near side of the frame. */
    ghost predicate BoundaryNear(n: int)
      requires epochStart.Some? ==> epochIndex < |fedNumbers|
      reads this
    {
      decoderBroken || epochStart.None? || NearSide(fedNumbers[epochIndex] - n)
    }

    ghost predicate Recordable(n: int)
      reads this, acks
    {
      acks.newest.Some? ==> Near(n, acks.trueNewest)
    }

    constructor ()
      ensures Valid() && fresh(gate) && fresh(acks) && fedNumbers == [] && !decoderBroken && epochIndex == 0
      ensures epochStart == None && acks.newest == None && acks.decodedEver == {}
    {
      gate := new H264Gate();
      acks := new FrameAckWindow();
      decoderBroken, epochStart, requests := false, None, [];
      fedNumbers, epochIndex := [], 0;
    }

    method AfterGate()
      requires gate.Valid()
      modifies this`requests, gate`request
      ensures gate.Valid() && gate.request == None
      ensures requests == old(requests) + if old(gate.request).Some? then [old(gate.request).value] else []
    {
      var r := gate.TakeRequest();
      if r.Some? { requests := requests + [r.value]; }
    }

    /** A completed access unit `n` goes through the gate. */
    method FinishFrame(h: Header, now: nat, ghost n: int) returns (v: Verdict)
      requires Valid() && h.frameSeq == Wrap31(n) && Recordable(n)
      requires fedNumbers != [] ==> Near(n, fedNumbers[|fedNumbers| - 1])
      modifies this, gate, acks
      ensures Valid()
      ensures v.Feed? <==>
        && (old(fedNumbers) != [] ==> n > old(fedNumbers)[|old(fedNumbers)| - 1])
        && (h.keyframe || Decodable(old(gate.log), h))
      ensures acks.decodedEver == old(acks.decodedEver)
      ensures fedNumbers == old(fedNumbers) + if v.Feed? then [n] else []
      ensures decoderBroken == (old(decoderBroken) && !(v.Feed? && h.keyframe))
      ensures epochIndex == if v.Feed? && h.keyframe && old(decoderBroken) then |old(fedNumbers)| else old(epochIndex)
      ensures epochStart == if v.Feed? && h.keyframe && old(decoderBroken) then Some(h.frameSeq) else old(epochStart)
      ensures v.Feed? ==>
        && acks.recordedEver == old(acks.recordedEver)
        && acks.newest == old(acks.newest) && acks.trueNewest == old(acks.trueNewest)
      ensures v.Refuse? ==>
        acks.recordedEver
        == old(acks.recordedEver)
           + if v.cause == StaleFrame && h.frameSeq in Recent(Wrapped(old(fedNumbers)), 128) then {} else {n}
      ensures v.Refuse? ==> (v.cause == StaleFrame <==>
        old(fedNumbers) != [] && n <= old(fedNumbers)[|old(fedNumbers)| - 1])
      ensures requests == old(requests) +
        if v == Refuse(NoReference) && MayAsk(old(gate.log) + [Offered(h)] + [Refused(NoReference, now)], now)
        then [(GateReset, h.frameSeq)] else []
    {
      hide Safe, IsNewer, ReferencesOk, PacingOk, RefusalsOk, Decodable, MasksAgree, FeedsOk, BadSlots, MayAsk;
      hide Wrap31, FrameAckWindow.Valid, H264Gate.Valid, Wrapped, FedList, LastFed, Recent;
      NewestIsLast(fedNumbers, gate.lastFed, epochStart, epochIndex, n);
      GateFacts();
      WrappedGrows(fedNumbers, n);
      ghost var lastFed := gate.lastFed;
      v := gate.OnFrame(h, now);
      match v {
        case Refuse(cause) =>
          GateFacts();
          var copy := cause == StaleFrame && gate.WasFed(h.frameSeq);
          if !copy { acks.Record(h.frameSeq, false, now, n); }
        case Feed(resetDecoder) =>
          FeedsExtend(fedNumbers, lastFed, epochStart, epochIndex, n, resetDecoder && decoderBroken);
          if resetDecoder {
            if decoderBroken {
              epochStart := Some(h.frameSeq);
              epochIndex := |fedNumbers|;
            }
            decoderBroken := false;
          }
          fedNumbers := fedNumbers + [n];
      }
      AfterGate();
    }

    /**
     * The decoder's answer for frame `n`. A frame answered decoded is recorded decoded
     * exactly when the code trusts the answer. Of a fed frame that is the truth (never
     * fed to a decoder that had failed) exactly when the boundary lies on its near side.
     */
    method H264Result(seq': nat, outcome: Outcome, now: nat, ghost n: int)
      requires Valid() && seq' == Wrap31(n) && Recordable(n)
      modifies this, gate, acks
      ensures Valid() && fedNumbers == old(fedNumbers) && epochIndex == old(epochIndex) && epochStart == old(epochStart)
      ensures acks.recordedEver == old(acks.recordedEver) + {n}
      ensures acks.newest.Some?
      ensures acks.trueNewest == if old(acks.newest).None? || n > old(acks.trueNewest) then n else old(acks.trueNewest)
      ensures acks.decodedEver == old(acks.decodedEver) + if outcome == Decoded && old(Trusts(seq')) then {n} else {}
      ensures epochStart.Some? ==> epochIndex < |fedNumbers|
      ensures n in fedNumbers ==> (old(Trusts(seq') <==> !Tainted(n)) <==> old(BoundaryNear(n)))
      ensures decoderBroken == (old(decoderBroken) || outcome == DecodeError || outcome == NoDecoderOutcome)
      ensures requests == old(requests) +
        if outcome == DecodeError && SpacedFrom(old(gate.log), DecoderFailure, now) then [(DecoderFailure, seq')]
        else if outcome == NoDecoderOutcome && NeverRequested(old(gate.log), NoDecoder) then [(NoDecoder, seq')] else []
    {
      hide Safe, IsNewer, ReferencesOk, PacingOk, RefusalsOk, MasksAgree, NeedsIdr, LastFed, FeedsOk, TaintedBy, Wrap31;
      hide NearSide, FrameAckWindow.Valid, H264Gate.Valid, Tainted, Trusts, BoundaryNear, SpacedFrom, NeverRequested;
      hide FedList, Wrapped;
      TrustIffNear(seq', n);
      var trusted := Trusts(seq');
      acks.Record(seq', outcome == Decoded && trusted, now, n);
      if outcome == DecodeError { Fail(DecoderFailed, seq', now); }
      if outcome == NoDecoderOutcome { Fail(NoDecoderFound, seq', now); }
      AfterGate();
    }

    /** The decoder failed: the gate forgets its references and may ask for an IDR. */
    method Fail(why: ResetCause, seq': nat, now: nat)
      requires gate.Valid() && why != IdrReceived && gate.request == None
      modifies this`decoderBroken, gate
      ensures gate.Valid() && gate.lastFed == old(gate.lastFed) && decoderBroken
      ensures FedList(gate.log, true) == FedList(old(gate.log), true)
      ensures gate.request == if why == DecoderFailed && SpacedFrom(old(gate.log), DecoderFailure, now)
                              then Some((DecoderFailure, seq'))
                              else if why == NoDecoderFound && NeverRequested(old(gate.log), NoDecoder)
                              then Some((NoDecoder, seq')) else None
    {
      hide H264Gate.Valid, NeedsIdr, LastFed, FedList, SpacedFrom, NeverRequested;
      decoderBroken := true;
      gate.Reset(why, seq', now);
    }

    /** What the gate remembers, by its log. */
    lemma GateFacts()
      requires gate.Valid()
      ensures gate.lastFed == LastFed(gate.log) && gate.fed == Recent(FedList(gate.log, true), 128)
    {
      hide Safe, PacingOk, RefusalsOk;
    }

    lemma TrustIffNear(seq': u32, n: int)
      requires FeedsOk(fedNumbers, gate.lastFed, epochStart, epochIndex) && seq' == Wrap31(n)
      ensures epochStart.Some? ==> epochIndex < |fedNumbers|
      ensures n in fedNumbers ==> ((Trusts(seq') <==> !Tainted(n)) <==> BoundaryNear(n))
    {
      hide IsNewer, Wrap31, NearSide;
      if n in fedNumbers {
        FedBefore(fedNumbers, gate.lastFed, epochStart, epochIndex, n);
        if epochStart.Some? { BoundaryTest(fedNumbers, gate.lastFed, epochStart, epochIndex, n); }
      }
    }
  }

  // --------------------------------------------------- beyond half a turn

  /** An IDR that names its own number. */
  function Idr(n: int): Header { Header(Wrap31(n), true, false, false, false, false, 0, REF_FRAME_NONE) }

  lemma FarApart()
    ensures !IsNewer(HALF31, 0) && IsNewer(1, HALF31 + 2)
  {
  }

  /**
   * Frames 0 and 1 are fed, the decoder fails on 1, and the next IDR is numbered 2^30.
   * The late answer for 0 then counts as a healthy decoder's: it is recorded decoded.
   */
  method FailedFrameCredited(now: nat) returns (s: Session)
    ensures s.fedNumbers == [0, 1, HALF31] && s.epochIndex == 2 && s.Tainted(0) && 0 in s.acks.decodedEver
  {
    hide Session.Valid, IsNewer;
    s := new Session();
    var v0 := s.FinishFrame(Idr(0), now, 0);
    var v1 := s.FinishFrame(Idr(1), now, 1);
    s.H264Result(1, DecodeError, now, 1);
    var v2 := s.FinishFrame(Idr(HALF31), now, HALF31);
    assert s.Trusts(0) by { FarApart(); }
    s.H264Result(0, Decoded, now, 0);
  }

  /** The decoder fails on frame 0 and the IDR numbered 1 restarts it. */
  method Restarted(now: nat) returns (s: Session)
    ensures s.Valid() && fresh(s) && fresh(s.gate) && fresh(s.acks)
    ensures s.fedNumbers == [0, 1] && !s.decoderBroken && s.epochIndex == 1 && s.epochStart == Some(1)
    ensures s.acks.newest.Some? && s.acks.trueNewest == 0 && s.acks.decodedEver == {}
  {
    hide Session.Valid, IsNewer;
    s := new Session();
    var v0 := s.FinishFrame(Idr(0), now, 0);
    s.H264Result(0, DecodeError, now, 0);
    var v1 := s.FinishFrame(Idr(1), now, 1);
  }

  /**
   * The decoder fails on 0 and the IDR numbered 1 restarts it. The boundary is never
   * cleared: frame 2^30 + 2, decoded long after, is recorded refused.
   */
  method GoodFrameRefused(now: nat) returns (s: Session)
    ensures s.fedNumbers == [0, 1, HALF31 - 1, HALF31 + 2] && s.epochIndex == 1 && !s.Tainted(HALF31 + 2)
    ensures HALF31 + 2 in s.acks.recordedEver && HALF31 + 2 !in s.acks.decodedEver
  {
    hide Session.Valid, IsNewer;
    s := Restarted(now);
    var v2 := s.FinishFrame(Idr(HALF31 - 1), now, HALF31 - 1);
    s.H264Result(HALF31 - 1, Decoded, now, HALF31 - 1);
    var v3 := s.FinishFrame(Idr(HALF31 + 2), now, HALF31 + 2);
    assert !s.Trusts(HALF31 + 2) by { FarApart(); }
    s.H264Result(HALF31 + 2, Decoded, now, HALF31 + 2);
  }
}
