/**
 * The H.264 reference gate: which completed access units reach the decoder.
 *
 * A frame is fed if it is newer than the newest fed one and is an IDR or
 * predicts from a picture the client holds. The gate asks for an IDR when it
 * cannot go on, at a limited rate.
 */
module H264Gate {
  import opened Serial
  import opened GateLog

  const GOOD_CAP: nat := 128
  const FED_CAP: nat := 128

  datatype Verdict = Feed(resetDecoder: bool) | Refuse(cause: RefuseCause)

  /** Append, keeping the newest `cap`. */
  function PushCapped(s: seq<nat>, x: nat, cap: nat): (r: seq<nat>)
    ensures forall y :: y in r ==> y in s || y == x
  {
    var t := s + [x];
    if |t| > cap then t[1..] else t
  }

  /** Pushing onto the last `cap` of a list gives the last `cap` of the longer list. */
  lemma PushRecent(s: seq<nat>, x: nat, cap: nat)
    requires cap > 0
    ensures PushCapped(Recent(s, cap), x, cap) == Recent(s + [x], cap)
  {
  }

  /** `now.saturating_sub(last) >= interval`, or nothing yet. */
  predicate Due(last: Option<nat>, now: nat) {
    last.Some? ==> now >= last.value + RESET_REQUEST_MIN_INTERVAL_US
  }

  /**
   * The references the gate holds are the log's: the newest reference picture and the
   * slots, all fed since the last reset, and the last 128 frames fed; it waits for an IDR when the log says so.
   */
  ghost predicate ReferencesOk(
    good: seq<nat>, lt: seq<Option<nat>>, newestRef: Option<nat>, lastFed: Option<nat>,
    waiting: bool, resetPending: bool, log: Log)
  {
    && lt == Slots(log) && newestRef == NewestRef(log) && good == Recent(FedList(log, false), GOOD_CAP)
    && (forall i :: 0 <= i < LT_SLOTS && lt[i].Some? ==> lt[i].value in RefsSince(log))
    && (newestRef.Some? ==> newestRef.value in RefsSince(log))
    && lastFed == LastFed(log)
    && (resetPending <==> NeedsIdr(log))
    && (waiting <==> Waits(log))
    && (NeedsIdr(log) ==> Waits(log) && FedList(log, false) == [] && RefsSince(log) == {})
  }

  /** The pacing clocks cover every request made. */
  ghost predicate PacingOk(lastRequest: Option<nat>, lastFailure: Option<nat>, noDecoder: bool, log: Log) {
    && (forall i :: 0 <= i < |log| && log[i].Requested? && log[i].reason == DecoderFailure ==>
          lastFailure.Some? && log[i].at <= lastFailure.value)
    && (!noDecoder ==> forall i :: 0 <= i < |log| && log[i].Requested? && log[i].reason == GateReset ==>
          lastRequest.Some? && log[i].at <= lastRequest.value)
    && (noDecoder <==> !NeverRequested(log, NoDecoder))
    && lastFailure == LastAt(log, DecoderFailure) && (!noDecoder ==> lastRequest == LastAt(log, GateReset))
  }

  ghost predicate RefusalsOk(refusingSince: Option<nat>, acked: bool, noDecoder: bool, log: Log) {
    && (refusingSince.Some? ==> refusingSince.value in OpenRefusals(log))
    && (!noDecoder ==> refusingSince == OpenSince(log))
    && (acked <==> AckedSeen(log))
  }

  /** An entry that is not a feed, a reset or a request moves none of the reference facts. */
  lemma QuietItem(log: Log, item: Item)
    requires item.Offered? || item.Refused?
    ensures var after, missing := log + [item], item.Refused? && item.cause == NoReference;
      && (forall ever :: FedList(after, ever) == FedList(log, ever)) && LastFed(after) == LastFed(log)
      && RefsSince(after) == RefsSince(log) && NewestRef(after) == NewestRef(log) && Slots(after) == Slots(log)
      && NeedsIdr(after) == NeedsIdr(log) && Waits(after) == (Waits(log) || missing)
      && OpenRefusals(after) == OpenRefusals(log) + (if missing then {item.at} else {})
      && OpenSince(after) == (if missing && OpenSince(log).None? then Some(item.at) else OpenSince(log))
  {
    Extends(log, item);
  }

  /** And the stream is known to plan its references as soon as an offered frame shows it. */
  lemma QuietSeen(log: Log, item: Item)
    requires item.Offered? || item.Refused?
    ensures AckedSeen(log + [item]) <==> AckedSeen(log) || (item.Offered? && AckedFeature(item.h))
  {
    var after := log + [item];
    assert after[|log|] == item && forall i :: 0 <= i < |log| ==> after[i] == log[i];
    if AckedSeen(log) {
      var i :| 0 <= i < |log| && log[i].Offered? &&
               (log[i].h.nonRef || log[i].h.markLt || log[i].h.markTarget || log[i].h.targetIsLt);
      assert after[i] == log[i];
    }
  }

  lemma RequestItem(log: Log, reason: Reason, at: nat)
    ensures var after := log + [Requested(reason, at)];
      && (forall ever :: FedList(after, ever) == FedList(log, ever)) && LastFed(after) == LastFed(log)
      && RefsSince(after) == RefsSince(log) && NewestRef(after) == NewestRef(log) && Slots(after) == Slots(log)
      && NeedsIdr(after) == NeedsIdr(log) && Waits(after) == Waits(log)
      && OpenRefusals(after) == OpenRefusals(log) && OpenSince(after) == OpenSince(log)
      && (AckedSeen(after) <==> AckedSeen(log))
  {
    Extends(log, Requested(reason, at));
    SeenKept(log, Requested(reason, at));
  }

  lemma SeenKept(log: Log, item: Item)
    requires !item.Offered?
    ensures AckedSeen(log + [item]) <==> AckedSeen(log)
  {
    var after := log + [item];
    assert after[|log|] == item && forall i :: 0 <= i < |log| ==> after[i] == log[i];
    if AckedSeen(log) {
      var i :| 0 <= i < |log| && log[i].Offered? &&
               (log[i].h.nonRef || log[i].h.markLt || log[i].h.markTarget || log[i].h.targetIsLt);
      assert after[i] == log[i];
    }
  }

  lemma ResetItem(log: Log, why: ResetCause)
    ensures var after := log + [WasReset(why)];
      && FedList(after, false) == [] && FedList(after, true) == FedList(log, true) && LastFed(after) == LastFed(log)
      && RefsSince(after) == {} && NewestRef(after) == None && Slots(after) == [None, None]
      && NeedsIdr(after) == (why != IdrReceived) && Waits(after) == (why != IdrReceived || Waits(log))
      && OpenRefusals(after) == OpenRefusals(log) && OpenSince(after) == OpenSince(log)
      && (AckedSeen(after) <==> AckedSeen(log))
  {
    Extends(log, WasReset(why));
    SeenKept(log, WasReset(why));
  }

  lemma FedItem(log: Log, h: Header, flag: bool)
    ensures var after := log + [Fed(h, flag)];
      && (forall ever :: FedList(after, ever) == FedList(log, ever) + [h.frameSeq])
      && LastFed(after) == Some(h.frameSeq)
      && RefsSince(after) == RefsSince(log) + (if IsReference(h) then {h.frameSeq} else {})
      && NewestRef(after) == (if IsReference(h) then Some(h.frameSeq) else NewestRef(log))
      && Slots(after) == (if h.keyframe then [Some(h.frameSeq), None]
                          else if BadSlots(h) then Slots(log) else MarkedSlots(Slots(log), h))
      && !NeedsIdr(after) && Waits(after) == (!h.keyframe && Waits(log))
      && OpenSince(after) == None && (AckedSeen(after) <==> AckedSeen(log))
  {
    Extends(log, Fed(h, flag));
    SeenKept(log, Fed(h, flag));
  }

  /** Pacing looks at requests alone. */
  lemma PacingKept(lastRequest: Option<nat>, lastFailure: Option<nat>, noDecoder: bool, log: Log, item: Item)
    requires PacingOk(lastRequest, lastFailure, noDecoder, log) && !item.Requested?
    ensures PacingOk(lastRequest, lastFailure, noDecoder, log + [item])
  {
    Extends(log, item);
    var after := log + [item];
    assert after[|log|] == item && forall i :: 0 <= i < |log| ==> after[i] == log[i];
    assert NeverRequested(after, NoDecoder) ==> NeverRequested(log, NoDecoder) by {
      if !NeverRequested(log, NoDecoder) {
        var i :| 0 <= i < |log| && log[i].Requested? && log[i].reason == NoDecoder;
        assert after[i] == log[i];
      }
    }
  }

  /** A request that waited out the clocks is justified, and the clocks cover it. */
  lemma PacingAfterRequest(
    lastRequest: Option<nat>, lastFailure: Option<nat>, noDecoder: bool, log: Log, reason: Reason, now: nat)
    requires PacingOk(lastRequest, lastFailure, noDecoder, log)
    requires reason == DecoderFailure ==> Due(lastFailure, now)
    requires reason == GateReset ==> Due(lastRequest, now) && Due(lastFailure, now)
    requires reason != DecoderFailure ==> !noDecoder
    ensures reason == DecoderFailure ==> SpacedFrom(log, DecoderFailure, now)
    ensures reason == GateReset ==> SpacedFrom(log, GateReset, now) && SpacedFrom(log, DecoderFailure, now)
    ensures reason != DecoderFailure ==> NeverRequested(log, NoDecoder)
    ensures PacingOk(if reason == DecoderFailure then lastRequest else Some(now),
                     if reason == DecoderFailure then Some(now) else lastFailure,
                     noDecoder || reason == NoDecoder, log + [Requested(reason, now)])
  {
    Extends(log, Requested(reason, now));
    var after := log + [Requested(reason, now)];
    assert after[|log|] == Requested(reason, now) && forall i :: 0 <= i < |log| ==> after[i] == log[i];
    assert reason != NoDecoder ==> (NeverRequested(after, NoDecoder) <==> NeverRequested(log, NoDecoder)) by {
      if !NeverRequested(log, NoDecoder) {
        var i :| 0 <= i < |log| && log[i].Requested? && log[i].reason == NoDecoder;
        assert after[i] == log[i];
      }
    }
  }

  /** The last request for a reason is in the log. */
  lemma {:induction false} LastAtWhere(log: Log, reason: Reason) returns (j: nat)
    requires LastAt(log, reason).Some?
    ensures j < |log| && log[j] == Requested(reason, LastAt(log, reason).value)
  {
    if Last(log).Requested? && Last(log).reason == reason {
      j := |log| - 1;
    } else {
      j := LastAtWhere(Before(log), reason);
    }
  }

  /** The clocks are out exactly when every request lies far enough back. */
  lemma DueIffSpaced(lastRequest: Option<nat>, lastFailure: Option<nat>, noDecoder: bool, log: Log, now: nat)
    requires PacingOk(lastRequest, lastFailure, noDecoder, log)
    ensures Due(lastFailure, now) <==> SpacedFrom(log, DecoderFailure, now)
    ensures !noDecoder ==> (Due(lastRequest, now) <==> SpacedFrom(log, GateReset, now))
    ensures noDecoder <==> !NeverRequested(log, NoDecoder)
  {
    hide LastAt;
    if lastFailure.Some? { var j := LastAtWhere(log, DecoderFailure); }
    if !noDecoder && lastRequest.Some? { var j := LastAtWhere(log, GateReset); }
  }

  /** The picture the frame predicts from is one the client holds. */
  predicate HoldsTarget(good: seq<nat>, lt: seq<Option<nat>>, newestRef: Option<nat>, waiting: bool, h: Header)
    requires |lt| == LT_SLOTS && !BadSlots(h)
  {
    if h.targetIsLt then h.refFrameSeq != REF_FRAME_NONE && lt[TargetSlot(h)] == Some(h.refFrameSeq)
    else if h.refFrameSeq == REF_FRAME_NONE then !waiting
    else h.refFrameSeq in good && newestRef == Some(h.refFrameSeq)
  }

  /** What the gate holds decides exactly as the log does. */
  lemma HoldsIffDecodable(
    good: seq<nat>, lt: seq<Option<nat>>, newestRef: Option<nat>, lastFed: Option<nat>, waiting: bool,
    pending: bool, log: Log, h: Header)
    requires ReferencesOk(good, lt, newestRef, lastFed, waiting, pending, log) && !BadSlots(h)
    ensures |lt| == LT_SLOTS && (HoldsTarget(good, lt, newestRef, waiting, h) <==> Decodable(log, h))
  {
    hide FedList, RefsSince, NewestRef, Slots, LastFed, NeedsIdr, Waits, Recent;
    TargetSlotOk(h);
  }

  lemma LtLength(
    good: seq<nat>, lt: seq<Option<nat>>, newestRef: Option<nat>, lastFed: Option<nat>, waiting: bool,
    pending: bool, log: Log)
    requires ReferencesOk(good, lt, newestRef, lastFed, waiting, pending, log)
    ensures |lt| == LT_SLOTS && lastFed == LastFed(log)
  {
  }

  lemma FeedEndsRefusals(refusingSince: Option<nat>, acked: bool, noDecoder: bool, log: Log, after: Log)
    requires RefusalsOk(refusingSince, acked, noDecoder, log)
    requires (AckedSeen(after) <==> AckedSeen(log)) && OpenSince(after) == None
    ensures RefusalsOk(None, acked, noDecoder, after)
  {
  }

  lemma AckedTracks(refusingSince: Option<nat>, acked: bool, noDecoder: bool, log: Log)
    requires RefusalsOk(refusingSince, acked, noDecoder, log)
    ensures (acked <==> AckedSeen(log)) && RefusalsOk(refusingSince, AckedSeen(log), noDecoder, log)
  {
  }

  /** A frame joins the frames ever fed exactly when it is fed. */
  lemma FedEver(log: Log, after: Log, h: Header, cause: RefuseCause, now: nat)
    ensures var offered := log + [Offered(h)];
            && (after == offered + [WasReset(IdrReceived), Fed(h, true)] || after == offered + [Fed(h, false)] ==>
                  FedList(after, true) == FedList(log, true) + [h.frameSeq])
            && (after == offered + [Refused(cause, now)] ||
                after == offered + [Refused(cause, now)] + [Requested(GateReset, now)] ==>
                  FedList(after, true) == FedList(log, true))
  {
    hide FedList, RefsSince, NewestRef, Slots, LastFed, NeedsIdr, Waits, OpenRefusals, OpenSince, AckedSeen;
    var offered := log + [Offered(h)];
    QuietItem(log, Offered(h));
    QuietItem(offered, Refused(cause, now));
    RequestItem(offered + [Refused(cause, now)], GateReset, now);
    FedItem(offered, h, false);
    ResetItem(offered, IdrReceived);
    FedItem(offered + [WasReset(IdrReceived)], h, true);
    assert offered + [WasReset(IdrReceived)] + [Fed(h, true)] == offered + [WasReset(IdrReceived), Fed(h, true)];
  }

  /** Offering a frame changes nothing about which frames can be decoded. */
  lemma OfferedDecodable(log: Log, h: Header)
    ensures Decodable(log + [Offered(h)], h) <==> Decodable(log, h)
  {
    hide FedList, RefsSince, NewestRef, Slots, LastFed, NeedsIdr, Waits, Recent, OpenRefusals, OpenSince, BadSlots;
    QuietItem(log, Offered(h));
  }

  /** Feeding an IDR is justified, and afterwards it is the only reference. */
  lemma IdrFed(lastFed: Option<nat>, log: Log, h: Header)
    requires Safe(log) && lastFed == LastFed(log) && h.keyframe
    requires lastFed.Some? ==> IsNewer(h.frameSeq, lastFed.value)
    ensures var after := log + [WasReset(IdrReceived)] + [Fed(h, true)];
      && Safe(after)
      && ReferencesOk([h.frameSeq], [Some(h.frameSeq), None], Some(h.frameSeq), Some(h.frameSeq), false, false, after)
      && (AckedSeen(after) <==> AckedSeen(log)) && OpenSince(after) == None
      && FedList(after, true) == FedList(log, true) + [h.frameSeq]
  {
    hide FedList, RefsSince, NewestRef, Slots, LastFed, AckedSeen, Safe, NeedsIdr, IsNewer, OpenSince, Waits;
    Extends(log, WasReset(IdrReceived));
    ResetItem(log, IdrReceived);
    Extends(log + [WasReset(IdrReceived)], Fed(h, true));
    FedItem(log + [WasReset(IdrReceived)], h, true);
  }

  /** Feeding a predicted frame whose target is held is justified, never resets, and keeps the references honest. */
  lemma PredictedFed(
    good: seq<nat>, lt: seq<Option<nat>>, newestRef: Option<nat>, lastFed: Option<nat>, waiting: bool, pending: bool,
    log: Log, h: Header)
    requires Safe(log) && ReferencesOk(good, lt, newestRef, lastFed, waiting, pending, log)
    requires !h.keyframe && (lastFed.Some? ==> IsNewer(h.frameSeq, lastFed.value))
    requires !BadSlots(h) && HoldsTarget(good, lt, newestRef, waiting, h)
    ensures var after := log + [Fed(h, false)];
      && Safe(after) && !pending && (AckedSeen(after) <==> AckedSeen(log)) && OpenSince(after) == None
      && FedList(after, true) == FedList(log, true) + [h.frameSeq]
      && ReferencesOk(PushCapped(good, h.frameSeq, GOOD_CAP), MarkedSlots(lt, h),
                      if h.nonRef then newestRef else Some(h.frameSeq), Some(h.frameSeq), waiting, false, after)
  {
    hide FedList, RefsSince, NewestRef, Slots, LastFed, AckedSeen, Safe, NeedsIdr, IsNewer, PushCapped, MarkedSlots;
    hide BadSlots, OpenSince, Waits, Recent, Marked;
    Extends(log, Fed(h, false));
    FedItem(log, h, false);
    PushRecent(FedList(log, false), h.frameSeq, GOOD_CAP);
    assert TargetSlot(h) < LT_SLOTS || !h.targetIsLt by { TargetSlotOk(h); }
    assert h.targetIsLt || h.refFrameSeq == REF_FRAME_NONE || newestRef == Some(h.refFrameSeq);
    MarkedAreRefs(log, lt, h);
  }

  /** A slot after a marked frame holds what it held, the frame itself or the reference it names. */
  lemma MarkedAreRefs(log: Log, lt: seq<Option<nat>>, h: Header)
    requires |lt| == LT_SLOTS && !BadSlots(h)
    requires forall i :: 0 <= i < LT_SLOTS && lt[i].Some? ==> lt[i].value in RefsSince(log)
    requires MarksTarget(h) && h.refFrameSeq != REF_FRAME_NONE ==> h.refFrameSeq in RefsSince(log)
    ensures forall i :: 0 <= i < LT_SLOTS && MarkedSlots(lt, h)[i].Some? ==>
      MarkedSlots(lt, h)[i].value in RefsSince(log) + if h.nonRef then {} else {h.frameSeq}
  {
    hide RefsSince, MarkedSlots, BadSlots;
  }

  lemma TargetSlotOk(h: Header)
    requires !BadSlots(h)
    ensures h.targetIsLt ==> TargetSlot(h) < LT_SLOTS
  {
  }

  class H264Gate {
    var good: seq<nat>
    var lt: seq<Option<nat>>
    var newestRef: Option<nat>
    var lastFed: Option<nat>
    var waitingForIdr: bool
    var ackedRefStream: bool
    var refusingSince: Option<nat>
    var fed: seq<nat>
    var lastRequest: Option<nat>
    var lastFailureRequest: Option<nat>
    var noDecoder: bool
    var request: Option<(Reason, nat)>
    var decoderResetPending: bool

    ghost var log: Log

    ghost predicate Valid()
      reads this
    {
      && Safe(log)
      && ReferencesOk(good, lt, newestRef, lastFed, waitingForIdr, decoderResetPending, log)
      && PacingOk(lastRequest, lastFailureRequest, noDecoder, log)
      && RefusalsOk(refusingSince, ackedRefStream, noDecoder, log)
      && fed == Recent(FedList(log, true), FED_CAP)
    }

    constructor ()
      ensures Valid() && log == [] && request == None && fed == [] && lastFed == None
    {
      good, lt, newestRef, lastFed, fed := [], [None, None], None, None, [];
      waitingForIdr, ackedRefStream, noDecoder, decoderResetPending := false, false, false, false;
      refusingSince, lastRequest, lastFailureRequest, request := None, None, None, None;
      log := [];
    }

    /** Log that a frame was offered; the stream is already marked if the frame marks it. */
    ghost method NoteOffered(h: Header)
      requires Safe(log) && fed == Recent(FedList(log, true), FED_CAP)
      requires ReferencesOk(good, lt, newestRef, lastFed, waitingForIdr, decoderResetPending, log)
      requires PacingOk(lastRequest, lastFailureRequest, noDecoder, log)
      requires RefusalsOk(refusingSince, AckedSeen(log), noDecoder, log)
      requires ackedRefStream <==> AckedSeen(log) || AckedFeature(h)
      modifies this`log
      ensures Valid() && log == old(log) + [Offered(h)]
    {
      hide FedList, RefsSince, NewestRef, Slots, LastFed, NeedsIdr, OpenRefusals, AckedSeen, PacingOk;
      hide Safe, OpenSince, Waits, Recent, AckedFeature;
      Extends(log, Offered(h));
      QuietItem(log, Offered(h));
      QuietSeen(log, Offered(h));
      PacingKept(lastRequest, lastFailureRequest, noDecoder, log, Offered(h));
      log := log + [Offered(h)];
    }

    /** Log a refusal and, for want of a reference, wait for an IDR and start counting. */
    method NoteRefused(cause: RefuseCause, now: nat)
      requires Valid()
      modifies this`log, this`waitingForIdr, this`refusingSince
      ensures Valid() && log == old(log) + [Refused(cause, now)]
      ensures waitingForIdr == (old(waitingForIdr) || cause == NoReference)
      ensures cause == NoReference && !noDecoder ==> refusingSince.Some?
    {
      hide FedList, RefsSince, NewestRef, Slots, LastFed, NeedsIdr, OpenRefusals, AckedSeen, PacingOk;
      hide Safe, OpenSince, Waits, Recent;
      Extends(log, Refused(cause, now));
      QuietItem(log, Refused(cause, now));
      QuietSeen(log, Refused(cause, now));
      PacingKept(lastRequest, lastFailureRequest, noDecoder, log, Refused(cause, now));
      if cause == NoReference {
        waitingForIdr := true;
        if !noDecoder && refusingSince.None? { refusingSince := Some(now); }
      }
      log := log + [Refused(cause, now)];
    }

    /** The reset request the gate wants sent, once. */
    method TakeRequest() returns (r: Option<(Reason, nat)>)
      requires Valid()
      modifies this`request
      ensures Valid() && r == old(request) && request == None
    {
      r := request;
      request := None;
    }

    /** Raise a request if its clocks allow it. */
    method PacedRequest(reason: Reason, seq': nat, now: nat)
      requires Valid() && reason != NoDecoder
      requires reason == GateReset ==> !noDecoder
      requires reason == GateReset && ackedRefStream ==>
        refusingSince.Some? && now >= refusingSince.value + ACKED_REF_STUCK_US
      modifies this`lastRequest, this`lastFailureRequest, this`request, this`log
      ensures Valid()
      ensures if old(Due(lastFailureRequest, now) && (reason == GateReset ==> Due(lastRequest, now)))
        then && request == Some((reason, seq')) && log == old(log) + [Requested(reason, now)]
             && lastRequest == (if reason == GateReset then Some(now) else old(lastRequest))
             && lastFailureRequest == (if reason == DecoderFailure then Some(now) else old(lastFailureRequest))
        else && request == old(request) && log == old(log)
             && lastRequest == old(lastRequest) && lastFailureRequest == old(lastFailureRequest)
    {
      hide FedList, RefsSince, NewestRef, Slots, LastFed, NeedsIdr, OpenRefusals, AckedSeen, NeverRequested, PacingOk;
      hide Safe, SpacedFrom, OpenSince, Waits, Recent;
      var send := Due(lastFailureRequest, now) && (reason == GateReset ==> Due(lastRequest, now));
      if send {
        PacingAfterRequest(lastRequest, lastFailureRequest, noDecoder, log, reason, now);
        Extends(log, Requested(reason, now));
        RequestItem(log, reason, now);
        if reason == DecoderFailure { lastFailureRequest := Some(now); } else { lastRequest := Some(now); }
        request := Some((reason, seq'));
        log := log + [Requested(reason, now)];
      }
    }

    /** Drop every reference; the next frame fed resets the decoder. */
    method Forget(why: ResetCause)
      requires Valid() && why != IdrReceived
      modifies this`good, this`lt, this`newestRef, this`decoderResetPending, this`waitingForIdr, this`log
      ensures Valid() && NeedsIdr(log) && good == [] && lt == [None, None] && newestRef == None && waitingForIdr
      ensures log == old(log) + [WasReset(why)]
    {
      hide FedList, RefsSince, NewestRef, Slots, LastFed, OpenRefusals, AckedSeen, NeverRequested, PacingOk, Safe;
      hide NeedsIdr, OpenSince, Waits;
      Extends(log, WasReset(why));
      ResetItem(log, why);
      PacingKept(lastRequest, lastFailureRequest, noDecoder, log, WasReset(why));
      good, lt, newestRef, decoderResetPending, waitingForIdr := [], [None, None], None, true, true;
      log := log + [WasReset(why)];
    }

    /** The stream has no decoder: said once. */
    method RequestNoDecoder(seq': nat, now: nat)
      requires Valid() && !noDecoder
      modifies this`noDecoder, this`lastRequest, this`request, this`log
      ensures Valid() && noDecoder && request == Some((NoDecoder, seq'))
      ensures log == old(log) + [Requested(NoDecoder, now)]
    {
      hide FedList, RefsSince, NewestRef, Slots, LastFed, OpenRefusals, AckedSeen, NeverRequested, PacingOk, Safe;
      hide NeedsIdr, OpenSince, Waits;
      PacingAfterRequest(lastRequest, lastFailureRequest, noDecoder, log, NoDecoder, now);
      Extends(log, Requested(NoDecoder, now));
      RequestItem(log, NoDecoder, now);
      noDecoder, lastRequest := true, Some(now);
      request := Some((NoDecoder, seq'));
      log := log + [Requested(NoDecoder, now)];
    }

    /** Forget every reference; ask for an IDR unless one is on its way or no decoder exists. */
    method Reset(why: ResetCause, seq': nat, now: nat)
      requires Valid() && why != IdrReceived
      modifies this
      ensures Valid()
      ensures NeedsIdr(log) && good == [] && lt == [None, None] && newestRef == None && waitingForIdr
      ensures lastFed == old(lastFed) && fed == old(fed) && FedList(log, true) == old(FedList(log, true))
      ensures LastFed(log) == old(LastFed(log))
      ensures var asked := if why == DecoderFailed && SpacedFrom(old(log), DecoderFailure, now)
                           then Some(DecoderFailure)
                           else if why == NoDecoderFound && NeverRequested(old(log), NoDecoder) then Some(NoDecoder)
                           else None;
        if asked.None? then log == old(log) + [WasReset(why)] && request == old(request)
        else log == old(log) + [WasReset(why), Requested(asked.value, now)] && request == Some((asked.value, seq'))
    {
      hide FedList, RefsSince, NewestRef, Slots, LastFed, NeedsIdr, Safe, ReferencesOk, PacingOk, RefusalsOk, Recent;
      hide SpacedFrom, NeverRequested, Due;
      DueIffSpaced(lastRequest, lastFailureRequest, noDecoder, log, now);
      ResetItem(log, why);
      Forget(why);
      if why == DecoderFailed {
        RequestItem(log, DecoderFailure, now);
        PacedRequest(DecoderFailure, seq', now);
      } else if why == NoDecoderFound && !noDecoder {
        RequestItem(log, NoDecoder, now);
        RequestNoDecoder(seq', now);
      }
    }

    /** Remember a frame as fed; a reset does not forget it. */
    method NoteFed(seq': nat)
      modifies this`fed, this`refusingSince
      ensures fed == PushCapped(old(fed), seq', FED_CAP) && refusingSince == None
    {
      fed := PushCapped(fed, seq', FED_CAP);
      refusingSince := None;
    }

    /** The references after an IDR. */
    method NoteIdr(seq': nat)
      modifies this`lastFed, this`good, this`newestRef, this`lt
      modifies this`fed, this`refusingSince, this`waitingForIdr, this`decoderResetPending
      ensures lastFed == Some(seq') && fed == PushCapped(old(fed), seq', FED_CAP) && refusingSince == None
      ensures good == [seq'] && lt == [Some(seq'), None] && newestRef == Some(seq') && !waitingForIdr
      ensures !decoderResetPending
    {
      hide PushCapped;
      NoteFed(seq');
      lastFed, good, newestRef, lt := Some(seq'), [seq'], Some(seq'), [Some(seq'), None];
      waitingForIdr, decoderResetPending := false, false;
    }

    /** An IDR starts over: it is the only reference, in long-term slot 0 too. */
    method FeedIdr(h: Header)
      requires Valid() && h.keyframe && (lastFed.Some? ==> IsNewer(h.frameSeq, lastFed.value))
      modifies this
      ensures Valid() && lastFed == Some(h.frameSeq) && request == old(request)
      ensures log == old(log) + [WasReset(IdrReceived), Fed(h, true)]
      ensures fed == PushCapped(old(fed), h.frameSeq, FED_CAP)
      ensures good == [h.frameSeq] && lt == [Some(h.frameSeq), None] && newestRef == Some(h.frameSeq) && !waitingForIdr
    {
      hide ReferencesOk, LastFed, RefusalsOk, AckedSeen, PacingOk, Safe, IsNewer, PushCapped, FedList, Recent;
      hide OpenSince;
      LtLength(good, lt, newestRef, lastFed, waitingForIdr, decoderResetPending, log);
      IdrFed(lastFed, log, h);
      ghost var mid := log + [WasReset(IdrReceived)];
      PacingKept(lastRequest, lastFailureRequest, noDecoder, log, WasReset(IdrReceived));
      PacingKept(lastRequest, lastFailureRequest, noDecoder, mid, Fed(h, true));
      FeedEndsRefusals(refusingSince, ackedRefStream, noDecoder, log, mid + [Fed(h, true)]);
      PushRecent(FedList(log, true), h.frameSeq, FED_CAP);
      assert mid + [Fed(h, true)] == log + [WasReset(IdrReceived), Fed(h, true)];
      NoteIdr(h.frameSeq);
      log := mid + [Fed(h, true)];
    }

    /** The long-term marks of a predicted frame: on itself, or on the picture it predicts from. */
    method MarkSlots(h: Header)
      requires |lt| == LT_SLOTS && !BadSlots(h)
      modifies this`lt
      ensures lt == MarkedSlots(old(lt), h)
    {
      if Marks(h) { lt := lt[MarkSlot(h) := Some(h.frameSeq)]; }
      if MarksTarget(h) && h.refFrameSeq != REF_FRAME_NONE { lt := lt[MarkSlot(h) := Some(h.refFrameSeq)]; }
    }

    /** The references after a predicted frame. */
    method NotePredicted(h: Header)
      requires |lt| == LT_SLOTS && !BadSlots(h)
      modifies this`lastFed, this`good, this`newestRef, this`lt, this`fed, this`refusingSince, this`decoderResetPending
      ensures lastFed == Some(h.frameSeq) && fed == PushCapped(old(fed), h.frameSeq, FED_CAP) && refusingSince == None
      ensures good == PushCapped(old(good), h.frameSeq, GOOD_CAP) && lt == MarkedSlots(old(lt), h)
      ensures newestRef == (if h.nonRef then old(newestRef) else Some(h.frameSeq)) && !decoderResetPending
    {
      hide PushCapped, MarkedSlots, BadSlots;
      NoteFed(h.frameSeq);
      lastFed := Some(h.frameSeq);
      good := PushCapped(good, h.frameSeq, GOOD_CAP);
      if !h.nonRef { newestRef := Some(h.frameSeq); }
      MarkSlots(h);
      decoderResetPending := false;
    }

    /** A predicted frame whose reference is held. */
    method FeedPredicted(h: Header) returns (resetDecoder: bool)
      requires Valid() && !h.keyframe && (lastFed.Some? ==> IsNewer(h.frameSeq, lastFed.value))
      requires !BadSlots(h) && HoldsTarget(good, lt, newestRef, waitingForIdr, h)
      modifies this
      ensures Valid() && lastFed == Some(h.frameSeq) && !resetDecoder && request == old(request)
      ensures log == old(log) + [Fed(h, false)]
      ensures fed == PushCapped(old(fed), h.frameSeq, FED_CAP)
      ensures good == PushCapped(old(good), h.frameSeq, GOOD_CAP) && waitingForIdr == old(waitingForIdr)
      ensures |old(lt)| == LT_SLOTS && lt == MarkedSlots(old(lt), h)
      ensures newestRef == if h.nonRef then old(newestRef) else Some(h.frameSeq)
    {
      hide ReferencesOk, RefusalsOk, AckedSeen, PacingOk, Safe, IsNewer, PushCapped, HoldsTarget, MarkedSlots, BadSlots;
      hide FedList, Recent, OpenSince;
      LtLength(good, lt, newestRef, lastFed, waitingForIdr, decoderResetPending, log);
      PredictedFed(good, lt, newestRef, lastFed, waitingForIdr, decoderResetPending, log, h);
      PacingKept(lastRequest, lastFailureRequest, noDecoder, log, Fed(h, false));
      FeedEndsRefusals(refusingSince, ackedRefStream, noDecoder, log, log + [Fed(h, false)]);
      PushRecent(FedList(log, true), h.frameSeq, FED_CAP);
      resetDecoder := decoderResetPending;
      NotePredicted(h);
      log := log + [Fed(h, false)];
    }

    /** Refuse a frame; one refused for want of its reference asks for an IDR exactly when that may be asked for. */
    method RefuseFrame(cause: RefuseCause, seq': nat, now: nat) returns (v: Verdict)
      requires Valid()
      modifies this
      ensures Valid() && v == Refuse(cause)
      ensures lastFed == old(lastFed)
      ensures var refused := old(log) + [Refused(cause, now)];
        if cause == NoReference && MayAsk(refused, now)
        then log == refused + [Requested(GateReset, now)] && request == Some((GateReset, seq'))
        else log == refused && request == old(request)
    {
      hide Safe, ReferencesOk, PacingOk, OpenRefusals, AckedSeen, IsNewer, OpenSince, SpacedFrom, NeverRequested;
      hide FedList, Recent, Due;
      v := Refuse(cause);
      NoteRefused(cause, now);
      if cause == NoReference {
        DueIffSpaced(lastRequest, lastFailureRequest, noDecoder, log, now);
        if !noDecoder {
          if !ackedRefStream || now >= refusingSince.value + ACKED_REF_STUCK_US {
            PacedRequest(GateReset, seq', now);
          }
        }
      }
    }

    /** A predicted frame newer than the last one fed. */
    method OnPredicted(h: Header, now: nat) returns (v: Verdict)
      requires Valid() && !h.keyframe && (lastFed.Some? ==> IsNewer(h.frameSeq, lastFed.value))
      modifies this
      ensures Valid() && v != Refuse(StaleFrame) && (v.Feed? <==> Decodable(old(log), h))
      ensures v.Feed? ==>
        !v.resetDecoder && lastFed == Some(h.frameSeq) && log == old(log) + [Fed(h, false)] && request == old(request)
      ensures v.Refuse? ==>
        lastFed == old(lastFed) && (v.cause == BadSlot <==> BadSlots(h)) &&
        var refused := old(log) + [Refused(v.cause, now)];
        if v.cause == NoReference && MayAsk(refused, now)
        then log == refused + [Requested(GateReset, now)] && request == Some((GateReset, h.frameSeq))
        else log == refused && request == old(request)
    {
      assert Decodable(log, h) ==> !BadSlots(h);
      hide Safe, ReferencesOk, PacingOk, RefusalsOk, IsNewer, HoldsTarget, BadSlots, Decodable;
      hide MarkedSlots, FedList, Recent, MayAsk, PushCapped;
      LtLength(good, lt, newestRef, lastFed, waitingForIdr, decoderResetPending, log);
      if BadSlots(h) {
        v := RefuseFrame(BadSlot, h.frameSeq, now);
      } else {
        HoldsIffDecodable(good, lt, newestRef, lastFed, waitingForIdr, decoderResetPending, log, h);
        if !HoldsTarget(good, lt, newestRef, waitingForIdr, h) {
          v := RefuseFrame(NoReference, h.frameSeq, now);
        } else {
          var resetDecoder := FeedPredicted(h);
          v := Feed(resetDecoder);
        }
      }
    }

    /** Decide one completed access unit: feed it exactly when it is newer than the last one fed and can be decoded. */
    method OnFrame(h: Header, now: nat) returns (v: Verdict)
      requires Valid()
      modifies this
      ensures Valid()
      ensures v.Feed? <==>
        && (LastFed(old(log)).Some? ==> IsNewer(h.frameSeq, LastFed(old(log)).value))
        && (h.keyframe || Decodable(old(log), h))
      ensures v.Feed? ==>
        && v.resetDecoder == h.keyframe && lastFed == Some(h.frameSeq) && request == old(request)
        && log == old(log) + [Offered(h)]
                  + if h.keyframe then [WasReset(IdrReceived), Fed(h, true)] else [Fed(h, false)]
      ensures v.Refuse? ==>
        lastFed == old(lastFed) &&
        var refused := old(log) + [Offered(h)] + [Refused(v.cause, now)];
        if v.cause == NoReference && MayAsk(refused, now)
        then log == refused + [Requested(GateReset, now)] && request == Some((GateReset, h.frameSeq))
        else log == refused && request == old(request)
      ensures FedList(log, true) == FedList(old(log), true) + if v.Feed? then [h.frameSeq] else []
      ensures v == Refuse(StaleFrame) <==> LastFed(old(log)).Some? && !IsNewer(h.frameSeq, LastFed(old(log)).value)
      ensures v.Refuse? && v.cause != StaleFrame ==> !h.keyframe && (v.cause == BadSlot <==> BadSlots(h))
    {
      hide Safe, ReferencesOk, PacingOk, RefusalsOk, IsNewer, BadSlots, AckedFeature, Decodable;
      hide AckedSeen, FedList, Recent, LastFed, MayAsk, PushCapped;
      LtLength(good, lt, newestRef, lastFed, waitingForIdr, decoderResetPending, log);
      AckedTracks(refusingSince, ackedRefStream, noDecoder, log);
      OfferedDecodable(log, h);
      if AckedFeature(h) { ackedRefStream := true; }
      NoteOffered(h);
      if lastFed.Some? && !IsNewer(h.frameSeq, lastFed.value) {
        v := RefuseFrame(StaleFrame, h.frameSeq, now);
      } else if h.keyframe {
        FeedIdr(h);
        v := Feed(true);
      } else {
        v := OnPredicted(h, now);
      }
      FedEver(old(log), log, h, if v.Refuse? then v.cause else StaleFrame, now);
    }

    /** Whether `seq'` was fed and is still remembered. */
    predicate WasFed(seq': nat)
      reads this
    {
      seq' in fed
    }
  }
}
