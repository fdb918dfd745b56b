/**
 * What the H.264 reference gate has done, and what makes each entry legitimate.
 *
 * A log entry is justified by the log before it. `Safe` says every entry is;
 * it is the safety specification of the gate over whole runs.
 */
module GateLog {
  import opened Serial

  /** `ref_frame_seq` of a frame that names no reference. */
  const REF_FRAME_NONE: nat := 0xFFFF_FFFF

  /** Reset requests are at least this far apart. */
  const RESET_REQUEST_MIN_INTERVAL_US: nat := 2_200_000
  /** How long an acked-reference stream may be refused, with nothing fed, before an IDR is asked for. */
  const ACKED_REF_STUCK_US: nat := 2_200_000

  datatype Header = Header(
    frameSeq: nat, keyframe: bool, nonRef: bool, markLt: bool, markTarget: bool, targetIsLt: bool,
    slots: nat, refFrameSeq: nat)

  /** Long-term reference slots. */
  const LT_SLOTS: nat := 2

  /** Later frames may predict from the frame. */
  predicate IsReference(h: Header) { h.keyframe || !h.nonRef }

  /** The frame uses a feature only a reference-planning server uses. */
  predicate AckedFeature(h: Header) { h.nonRef || h.markLt || h.markTarget || h.targetIsLt }

  function MarkSlot(h: Header): nat { h.slots % 4 }

  function TargetSlot(h: Header): nat { h.slots / 4 % 4 }

  /** The frame asks for its own long-term mark. */
  predicate Marks(h: Header) { h.markLt && !h.nonRef }

  /** The frame asks for a long-term mark on the short-term picture it predicts from. */
  predicate MarksTarget(h: Header) { h.markTarget && !h.nonRef && !h.targetIsLt }

  /** A slot outside the two, or both kinds of mark at once. */
  predicate BadSlots(h: Header) {
    || ((Marks(h) || MarksTarget(h)) && MarkSlot(h) >= LT_SLOTS)
    || (Marks(h) && h.markTarget)
    || (h.targetIsLt && TargetSlot(h) >= LT_SLOTS)
  }

  /** The picture a predicted frame puts in slot `i`: itself, or the picture it predicts from. */
  function Marked(h: Header, i: nat): Option<nat> {
    if i != MarkSlot(h) then None
    else if Marks(h) then Some(h.frameSeq)
    else if MarksTarget(h) && h.refFrameSeq != REF_FRAME_NONE then Some(h.refFrameSeq)
    else None
  }

  /** The two slot numbers share the low half of a byte. */
  lemma SlotNumbers(h: Header)
    ensures MarkSlot(h) < 4 && TargetSlot(h) < 4 && h.slots % 16 == MarkSlot(h) + 4 * TargetSlot(h)
  {
  }

  /** The frame would write or read long-term slot `i`. */
  predicate UsesSlot(h: Header, i: nat) {
    || (!h.nonRef && (h.markLt || (h.markTarget && !h.targetIsLt)) && i == MarkSlot(h))
    || (h.targetIsLt && i == TargetSlot(h))
  }

  /** A frame is malformed exactly when it would use a slot that is not there, or put two pictures in one. */
  lemma BadSlotsIff(h: Header)
    ensures BadSlots(h) <==> (exists i :: LT_SLOTS <= i && UsesSlot(h, i)) || (!h.nonRef && h.markLt && h.markTarget)
  {
    if (Marks(h) || MarksTarget(h)) && MarkSlot(h) >= LT_SLOTS { assert UsesSlot(h, MarkSlot(h)); }
    if h.targetIsLt && TargetSlot(h) >= LT_SLOTS { assert UsesSlot(h, TargetSlot(h)); }
  }

  /** What the long-term slots hold after a predicted frame. */
  function MarkedSlots(lt: seq<Option<nat>>, h: Header): (r: seq<Option<nat>>)
    requires |lt| == LT_SLOTS && !BadSlots(h)
    ensures |r| == LT_SLOTS
    ensures forall i :: 0 <= i < LT_SLOTS ==>
      r[i] == if Marked(h, i).Some? then Marked(h, i) else lt[i]
  {
    var own := if Marks(h) then lt[MarkSlot(h) := Some(h.frameSeq)] else lt;
    if MarksTarget(h) && h.refFrameSeq != REF_FRAME_NONE then own[MarkSlot(h) := Some(h.refFrameSeq)] else own
  }

  datatype RefuseCause = StaleFrame | NoReference | BadSlot
  datatype ResetCause = IdrReceived | Resolution | DecoderFailed | NoDecoderFound
  datatype Reason = DecoderFailure | GateReset | NoDecoder

  datatype Item =
    | Offered(h: Header)
    | Fed(h: Header, resetDecoder: bool)
    | Refused(cause: RefuseCause, at: nat)
    | WasReset(why: ResetCause)
    | Requested(reason: Reason, at: nat)

  type Log = seq<Item>

  function Last(log: Log): Item
    requires log != []
  {
    log[|log| - 1]
  }

  function Before(log: Log): Log
    requires log != []
  {
    log[..|log| - 1]
  }

  /** Frames fed since the last reset, and frames ever fed, in order. */
  function FedList(log: Log, ever: bool): seq<nat> {
    if log == [] then [] else
      match Last(log)
      case WasReset(_) => if ever then FedList(Before(log), ever) else []
      case Fed(h, _) => FedList(Before(log), ever) + [h.frameSeq]
      case _ => FedList(Before(log), ever)
  }

  /** The last `n` of them. */
  function Recent(s: seq<nat>, n: nat): seq<nat> { if |s| <= n then s else s[|s| - n..] }

  /** How many frames were fed after the newest reference picture. */
  function FedAfterRef(log: Log): nat {
    if log == [] then 0 else
      match Last(log)
      case WasReset(_) => 0
      case Fed(h, _) => if IsReference(h) then 0 else FedAfterRef(Before(log)) + 1
      case _ => FedAfterRef(Before(log))
  }

  /** A frame was refused for want of its reference, or everything was dropped, and no IDR has been fed since. */
  predicate Waits(log: Log) {
    log != [] &&
    match Last(log)
    case WasReset(why) => why != IdrReceived || Waits(Before(log))
    case Fed(h, _) => !h.keyframe && Waits(Before(log))
    case Refused(cause, _) => cause == NoReference || Waits(Before(log))
    case _ => Waits(Before(log))
  }

  /** Reference pictures fed since the last reset. */
  function RefsSince(log: Log): set<nat> {
    if log == [] then {} else
      match Last(log)
      case WasReset(_) => {}
      case Fed(h, _) => RefsSince(Before(log)) + if IsReference(h) then {h.frameSeq} else {}
      case _ => RefsSince(Before(log))
  }

  /** The newest reference picture since the last reset. */
  function NewestRef(log: Log): Option<nat> {
    if log == [] then None else
      match Last(log)
      case WasReset(_) => None
      case Fed(h, _) => if IsReference(h) then Some(h.frameSeq) else NewestRef(Before(log))
      case _ => NewestRef(Before(log))
  }

  /** What the long-term slots hold: an IDR takes slot 0, a predicted frame marks as it says. */
  function Slots(log: Log): (r: seq<Option<nat>>)
    ensures |r| == LT_SLOTS
  {
    if log == [] then [None, None] else
      match Last(log)
      case WasReset(_) => [None, None]
      case Fed(h, _) => if h.keyframe then [Some(h.frameSeq), None]
                        else if BadSlots(h) then Slots(Before(log)) else MarkedSlots(Slots(Before(log)), h)
      case _ => Slots(Before(log))
  }

  function LastFed(log: Log): Option<nat> {
    if log == [] then None else if Last(log).Fed? then Some(Last(log).h.frameSeq) else LastFed(Before(log))
  }

  /** A reset other than by an IDR, with nothing fed since. */
  predicate NeedsIdr(log: Log) {
    log != [] &&
    match Last(log)
    case WasReset(why) => why != IdrReceived
    case Fed(_, _) => false
    case _ => NeedsIdr(Before(log))
  }

  /** Times of missing-reference refusals since the last feed. */
  function OpenRefusals(log: Log): set<nat> {
    if log == [] then {} else
      match Last(log)
      case Fed(_, _) => {}
      case Refused(NoReference, at) => OpenRefusals(Before(log)) + {at}
      case _ => OpenRefusals(Before(log))
  }

  /** When the first missing-reference refusal since the last feed was. */
  function OpenSince(log: Log): Option<nat> {
    if log == [] then None else
      match Last(log)
      case Fed(_, _) => None
      case Refused(NoReference, at) => if OpenSince(Before(log)).Some? then OpenSince(Before(log)) else Some(at)
      case _ => OpenSince(Before(log))
  }

  /** When `reason` was last given for a request. */
  function LastAt(log: Log, reason: Reason): Option<nat> {
    if log == [] then None
    else if Last(log).Requested? && Last(log).reason == reason then Some(Last(log).at)
    else LastAt(Before(log), reason)
  }

  /** A frame was offered that uses what only a reference-planning server uses. */
  ghost predicate AckedSeen(log: Log) {
    exists i :: 0 <= i < |log| && log[i].Offered? &&
                (log[i].h.nonRef || log[i].h.markLt || log[i].h.markTarget || log[i].h.targetIsLt)
  }

  /** Every earlier request for `reason` is at least the minimum interval before `at`. */
  ghost predicate SpacedFrom(log: Log, reason: Reason, at: nat) {
    forall i :: 0 <= i < |log| && log[i].Requested? && log[i].reason == reason ==>
      at >= log[i].at + RESET_REQUEST_MIN_INTERVAL_US
  }

  ghost predicate NeverRequested(log: Log, reason: Reason) {
    forall i :: 0 <= i < |log| ==> !(log[i].Requested? && log[i].reason == reason)
  }

  /**
   * The frame predicts from a reference picture fed since the last reset: the one in
   * the slot it names, or the newest.
   */
  predicate PredictsWell(log: Log, h: Header) {
    && h.refFrameSeq in RefsSince(log) && !BadSlots(h)
    && if h.targetIsLt then Slots(log)[TargetSlot(h)] == Some(h.refFrameSeq) else NewestRef(log) == Some(h.refFrameSeq)
  }

  /**
   * The client can decode the predicted frame: it names no reference and nothing is
   * waited for, or its reference is in the slot it names, or it is the newest reference
   * and among the last 128 frames fed.
   */
  predicate Decodable(log: Log, h: Header) {
    && !BadSlots(h)
    && if h.targetIsLt then h.refFrameSeq != REF_FRAME_NONE && PredictsWell(log, h)
       else if h.refFrameSeq == REF_FRAME_NONE then !Waits(log)
       else PredictsWell(log, h) && h.refFrameSeq in Recent(FedList(log, false), 128)
  }

  /**
   * An IDR may be asked for: a request is far enough from earlier ones, a decoder exists,
   * and a stream that plans its references has been refused long enough.
   */
  ghost predicate MayAsk(log: Log, at: nat) {
    && NeverRequested(log, NoDecoder) && SpacedFrom(log, GateReset, at) && SpacedFrom(log, DecoderFailure, at)
    && (AckedSeen(log) ==> OpenSince(log).Some? && at >= OpenSince(log).value + ACKED_REF_STUCK_US)
  }

  /** What a frame must satisfy to be fed. */
  predicate FeedOk(log: Log, h: Header, resetDecoder: bool) {
    && (LastFed(log).Some? ==> IsNewer(h.frameSeq, LastFed(log).value))
    && (h.keyframe || h.refFrameSeq == REF_FRAME_NONE || PredictsWell(log, h))
    && (NeedsIdr(log) ==> h.keyframe)
    && resetDecoder == h.keyframe
  }

  ghost predicate RequestOk(log: Log, reason: Reason, at: nat) {
    match reason
    case DecoderFailure => SpacedFrom(log, DecoderFailure, at)
    case GateReset =>
      && SpacedFrom(log, GateReset, at) && SpacedFrom(log, DecoderFailure, at) && NeverRequested(log, NoDecoder)
      && (AckedSeen(log) ==> exists s :: s in OpenRefusals(log) && at >= s + ACKED_REF_STUCK_US)
    case NoDecoder => NeverRequested(log, NoDecoder)
  }

  ghost predicate ItemOk(log: Log, item: Item) {
    match item
    case Fed(h, resetDecoder) => FeedOk(log, h, resetDecoder)
    case Requested(reason, at) => RequestOk(log, reason, at)
    case _ => true
  }

  ghost predicate Safe(log: Log) {
    log != [] ==> Safe(Before(log)) && ItemOk(Before(log), Last(log))
  }

  lemma Extends(log: Log, item: Item)
    ensures Before(log + [item]) == log && Last(log + [item]) == item
    ensures Safe(log + [item]) <==> Safe(log) && ItemOk(log, item)
  {
    assert (log + [item])[..|log|] == log;
  }

  /** Every entry of a safe log is justified by the entries before it. */
  lemma {:induction false} SafeAt(log: Log, i: nat)
    requires Safe(log) && i < |log|
    ensures Safe(log[..i]) && ItemOk(log[..i], log[i])
    decreases |log|
  {
    if i < |log| - 1 {
      SafeAt(Before(log), i);
      assert Before(log)[..i] == log[..i];
    } else {
      assert log[..i] == Before(log);
    }
  }

  /** A reference picture fed since the last reset sits in the log after that reset. */
  lemma {:induction false} RefsSinceWhere(log: Log, seq': nat) returns (j: nat)
    requires seq' in RefsSince(log)
    ensures j < |log| && log[j].Fed? && log[j].h.frameSeq == seq' && IsReference(log[j].h)
    ensures forall k :: j < k < |log| ==> !log[k].WasReset?
  {
    var n := |log| - 1;
    if Last(log).Fed? && Last(log).h.frameSeq == seq' && IsReference(Last(log).h) {
      j := n;
    } else {
      j := RefsSinceWhere(Before(log), seq');
    }
  }

  /**
   * Following references back from `chain[0]`: each fed frame names the next, an
   * earlier reference picture that was then the newest or in the slot it names, to
   * the end of the trail.
   */
  ghost predicate IsReferenceChain(log: Log, chain: seq<nat>) {
    && chain != [] && chain[0] < |log| && log[chain[0]].Fed?
    && var h := log[chain[0]].h;
       if |chain| == 1 then h.keyframe || h.refFrameSeq == REF_FRAME_NONE
       else && !h.keyframe && PredictsWell(log[..chain[0]], h)
            && chain[1] < chain[0] && log[chain[1]].Fed?
            && log[chain[1]].h.frameSeq == h.refFrameSeq && IsReference(log[chain[1]].h)
            && IsReferenceChain(log, chain[1..])
  }

  /**
   * Reference safety over whole runs: from any fed frame, following the named
   * references leads only through reference pictures fed since the last reset,
   * each the newest or in the named slot when it was predicted from, down to an
   * IDR or a frame that names no reference.
   */
  lemma {:induction false} ReferencesLeadHome(log: Log, i: nat) returns (chain: seq<nat>)
    requires Safe(log) && i < |log| && log[i].Fed?
    ensures IsReferenceChain(log, chain) && chain[0] == i
    ensures forall k :: chain[|chain| - 1] < k < i ==> !log[k].WasReset?
    decreases i
  {
    hide Safe, PredictsWell;
    SafeAt(log, i);
    var h := log[i].h;
    if h.keyframe || h.refFrameSeq == REF_FRAME_NONE {
      chain := [i];
    } else {
      TargetSince(log[..i], h);
      var j := RefsSinceWhere(log[..i], h.refFrameSeq);
      var rest := ReferencesLeadHome(log, j);
      chain := [i] + rest;
      assert chain[1..] == rest;
      forall k | chain[|chain| - 1] < k < i
        ensures !log[k].WasReset?
      {
        if k > j { assert log[..i][k] == log[k]; }
      }
    }
  }

  lemma TargetSince(log: Log, h: Header)
    requires PredictsWell(log, h)
    ensures h.refFrameSeq in RefsSince(log)
  {
  }

  /** Requests for a reason with a spacing rule are spaced, whichever two are compared. */
  lemma RequestsAreSpaced(log: Log, i: nat, j: nat)
    requires Safe(log) && i < j < |log| && log[i].Requested? && log[j].Requested?
    ensures log[j].reason == log[i].reason != NoDecoder ==> log[j].at >= log[i].at + RESET_REQUEST_MIN_INTERVAL_US
    ensures log[j].reason == GateReset && log[i].reason == DecoderFailure ==>
      log[j].at >= log[i].at + RESET_REQUEST_MIN_INTERVAL_US
    ensures log[i].reason == NoDecoder ==> log[j].reason == DecoderFailure
  {
    SafeAt(log, j);
    assert log[..j][i] == log[i];
  }

  /** The newest reference stands where the frames fed after it leave it. */
  lemma {:induction false} RefInList(log: Log)
    requires NewestRef(log).Some?
    ensures var l := FedList(log, false);
            FedAfterRef(log) < |l| && l[|l| - 1 - FedAfterRef(log)] == NewestRef(log).value
  {
    if !(Last(log).Fed? && IsReference(Last(log).h)) { RefInList(Before(log)); }
  }

  /**
   * The newest reference is still remembered if fewer than 128 frames were fed after it,
   * and, as long as no frame number has come round, only then.
   */
  lemma NewestRefRecent(log: Log)
    requires NewestRef(log).Some?
    ensures var l := FedList(log, false);
            && (FedAfterRef(log) < 128 ==> NewestRef(log).value in Recent(l, 128))
            && ((forall i, j :: 0 <= i < j < |l| ==> l[i] != l[j]) ==>
                  (NewestRef(log).value in Recent(l, 128) <==> FedAfterRef(log) < 128))
  {
    hide FedList, FedAfterRef, NewestRef;
    RefInList(log);
    var l, back, r := FedList(log, false), FedAfterRef(log), NewestRef(log).value;
    var recent := Recent(l, 128);
    if back < 128 {
      assert recent[|recent| - 1 - back] == r;
    } else {
      assert forall i :: 0 <= i < |recent| ==> recent[i] == l[|l| - 128 + i];
    }
  }

  /** The entry puts `picture` in slot `i`: an IDR takes slot 0, a predicted frame marks as it says. */
  predicate PutsIn(item: Item, i: nat, picture: nat) {
    item.Fed? && if item.h.keyframe then i == 0 && picture == item.h.frameSeq
                 else !BadSlots(item.h) && Marked(item.h, i) == Some(picture)
  }

  /** The entry empties slot `i`. */
  predicate Empties(item: Item, i: nat) { item.WasReset? || (item.Fed? && item.h.keyframe && i != 0) }

  /** Entry `j` put `picture` in slot `i`, and no later entry put another there or emptied it. */
  ghost predicate LastPut(log: Log, i: nat, picture: nat, j: nat) {
    && j < |log| && PutsIn(log[j], i, picture)
    && forall k :: j < k < |log| ==> !Empties(log[k], i) && forall other :: !PutsIn(log[k], i, other)
  }

  /** A long-term slot holds exactly the picture last put there. */
  lemma {:induction false} SlotHoldsLastPut(log: Log, i: nat, picture: nat)
    requires i < LT_SLOTS
    ensures Slots(log)[i] == Some(picture) <==> exists j :: LastPut(log, i, picture, j)
  {
    if log == [] {
    } else {
      var n := |log| - 1;
      SlotHoldsLastPut(Before(log), i, picture);
      SlotAfter(Before(log), Last(log), i, picture);
      assert log == Before(log) + [Last(log)];
      if PutsIn(log[n], i, picture) { assert LastPut(log, i, picture, n); }
      forall j: nat | j < n
        ensures LastPut(log, i, picture, j) <==>
          && LastPut(Before(log), i, picture, j)
          && !Empties(log[n], i) && forall other :: !PutsIn(log[n], i, other)
      {
        assert forall k :: 0 <= k < n ==> Before(log)[k] == log[k];
      }
    }
  }

  lemma SlotAfter(log: Log, item: Item, i: nat, picture: nat)
    requires i < LT_SLOTS
    ensures Slots(log + [item])[i] == Some(picture) <==>
      || PutsIn(item, i, picture)
      || (Slots(log)[i] == Some(picture) && !Empties(item, i) && forall other :: !PutsIn(item, i, other))
  {
    assert (log + [item])[..|log|] == log;
    if item.Fed? && item.h.keyframe { assert i == 0 ==> PutsIn(item, 0, item.h.frameSeq); }
    if item.Fed? && !item.h.keyframe && !BadSlots(item.h) && Marked(item.h, i).Some? {
      assert PutsIn(item, i, Marked(item.h, i).value);
    }
  }
}
