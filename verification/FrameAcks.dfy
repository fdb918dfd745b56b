/**
 * The frame-ack window: the outcome of the 64 newest handled frames, in two
 * 64-bit masks, and when the next ack may go out.
 *
 * A `u64` mask is modelled by the set of its one bits. Beside the window stands
 * the unbounded history it must agree with, in true frame numbers.
 */
module FrameAcks {
  import opened Serial

  const WINDOW: nat := 64
  const FRAME_ACK_MIN_INTERVAL_US: nat := 4_000
  const FRAME_ACK_FALLBACK_US: nat := 100_000

  /** `m << step`, for `step < 64`. */
  function ShiftUp(m: set<nat>, step: nat): set<nat> { set j: nat | j < WINDOW && ShiftedBit(m, step, j) }

  predicate ShiftedBit(m: set<nat>, step: nat, j: nat) { j >= step && j - step in m }

  datatype FrameAck = FrameAck(newestSeq: u32, decodedMask: set<nat>, refusedMask: set<nat>)

  /** The masks say exactly what the history says about frames `newest - 63 ..= newest`. */
  ghost predicate MasksAgree(
    decoded: set<nat>, refused: set<nat>, newest: int, decodedEver: set<int>, recordedEver: set<int>)
  {
    && (forall i :: i in decoded ==> i < WINDOW) && (forall i :: i in refused ==> i < WINDOW)
    && (forall i :: 0 <= i < WINDOW ==> (i in decoded <==> newest - i in decodedEver))
    && (forall i :: 0 <= i < WINDOW ==> (i in refused <==> newest - i in recordedEver && newest - i !in decodedEver))
  }

  /** The mask update for one outcome: a decode outranks a refusal, whichever comes first. */
  function SetMasks(decoded: set<nat>, refused: set<nat>, bit: nat, isDecoded: bool): (r: (set<nat>, set<nat>)) {
    if !isDecoded && bit in decoded then (decoded, refused)
    else if isDecoded then (decoded + {bit}, refused - {bit})
    else (decoded - {bit}, refused + {bit})
  }

  lemma SetAgrees(
    decoded: set<nat>, refused: set<nat>, newest: int, decodedEver: set<int>, recordedEver: set<int>, n: int,
    isDecoded: bool)
    requires MasksAgree(decoded, refused, newest, decodedEver, recordedEver) && decodedEver <= recordedEver
    requires 0 <= newest - n < WINDOW
    ensures var (d, r) := SetMasks(decoded, refused, newest - n, isDecoded);
      MasksAgree(d, r, newest, decodedEver + (if isDecoded then {n} else {}), recordedEver + {n})
  {
  }

  /** Sliding the window to a newer frame: nothing newer than the old newest was ever recorded. */
  lemma SlideAgrees(
    decoded: set<nat>, refused: set<nat>, newest: int, decodedEver: set<int>, recordedEver: set<int>, n: int)
    requires MasksAgree(decoded, refused, newest, decodedEver, recordedEver) && decodedEver <= recordedEver
    requires n > newest && forall k :: k in recordedEver ==> k <= newest
    ensures n - newest < WINDOW ==>
      MasksAgree(ShiftUp(decoded, n - newest), ShiftUp(refused, n - newest), n, decodedEver, recordedEver)
    ensures n - newest >= WINDOW ==> MasksAgree({}, {}, n, decodedEver, recordedEver)
  {
    var step := n - newest;
    if step < WINDOW {
      forall i: nat | i < WINDOW
        ensures i in ShiftUp(decoded, step) <==> n - i in decodedEver
        ensures i in ShiftUp(refused, step) <==> n - i in recordedEver && n - i !in decodedEver
      {
        if i >= step { assert n - i == newest - (i - step); }
      }
    }
  }

  /** The wrapped distances between two numbers within half a turn. */
  lemma ForwardIs(n: int, newest: int)
    requires -HALF31 <= n - newest < HALF31
    ensures Forward31(Wrap31(n), Wrap31(newest)) == if n >= newest then n - newest else n - newest + MOD31
    ensures n < newest ==> Forward31(Wrap31(newest), Wrap31(n)) == newest - n
  {
    Forward31OfTrue(n, newest);
    Forward31OfTrue(newest, n);
  }

  class FrameAckWindow {
    var newest: Option<u32>
    var decoded: set<nat>
    var refused: set<nat>
    var dirtySince: Option<nat>
    var lastSent: Option<nat>

    /** The unbounded history: every frame recorded, and every one ever recorded decoded. */
    ghost var trueNewest: int
    ghost var decodedEver: set<int>
    ghost var recordedEver: set<int>

    ghost predicate Valid()
      reads this
    {
      && decodedEver <= recordedEver
      && (newest.None? ==>
        decoded == {} && refused == {} && recordedEver == {} && decodedEver == {} && dirtySince == None)
      && (newest.Some? ==>
            && newest.value == Wrap31(trueNewest)
            && (forall k :: k in recordedEver ==> k <= trueNewest)
            && MasksAgree(decoded, refused, trueNewest, decodedEver, recordedEver))
    }

    constructor ()
      ensures Valid() && recordedEver == {} && newest == None && dirtySince == None && lastSent == None
    {
      newest, decoded, refused, dirtySince, lastSent := None, {}, {}, None, None;
      trueNewest, decodedEver, recordedEver := 0, {}, {};
    }

    /**
     * Record what became of frame `n` (on the wire `seq'`), within 2^30 of the
     * newest recorded one.
     */
    method Record(seq': u32, isDecoded: bool, now: nat, ghost n: int)
      requires Valid() && seq' == Wrap31(n)
      requires newest.Some? ==> -HALF31 <= n - trueNewest < HALF31
      modifies this
      ensures Valid() && newest.Some?
      ensures recordedEver == old(recordedEver) + {n}
      ensures decodedEver == old(decodedEver) + if isDecoded then {n} else {}
      ensures trueNewest == if old(newest).None? || n > old(trueNewest) then n else old(trueNewest)
      ensures lastSent == old(lastSent)
      ensures dirtySince == if old(dirtySince).Some? || (old(newest).Some? && n <= old(trueNewest) - WINDOW)
                            then old(dirtySince) else Some(now)
    {
      hide MasksAgree, Forward31, Wrap31;
      if newest.None? {
        newest := Some(seq');
        trueNewest := n;
        EmptyAgrees(n);
        SetBit(0, isDecoded, now, n);
        return;
      }
      ForwardIs(n, trueNewest);
      var forward := Forward31(seq', newest.value);
      if forward == 0 {
        SetBit(0, isDecoded, now, n);
      } else if forward < HALF31 {
        SlideTo(seq', forward, n);
        SetBit(0, isDecoded, now, n);
      } else {
        var back := Forward31(newest.value, seq');
        if back >= WINDOW {
          OutsideAgrees(decoded, refused, trueNewest, decodedEver, recordedEver, n, isDecoded);
          recordedEver := recordedEver + {n};
          decodedEver := decodedEver + if isDecoded then {n} else {};
          return;
        }
        SetBit(back, isDecoded, now, n);
      }
    }

    /** The window slides to a newer frame. */
    method SlideTo(seq': u32, forward: nat, ghost n: int)
      requires Valid() && newest.Some? && seq' == Wrap31(n) && forward == n - trueNewest > 0
      modifies this`decoded, this`refused, this`newest, this`trueNewest
      ensures Valid() && newest == Some(seq') && trueNewest == n
    {
      hide MasksAgree, ShiftUp;
      SlideAgrees(decoded, refused, trueNewest, decodedEver, recordedEver, n);
      if forward >= WINDOW { decoded, refused := {}, {}; }
      else { decoded, refused := ShiftUp(decoded, forward), ShiftUp(refused, forward); }
      newest := Some(seq');
      trueNewest := n;
    }

    /** Record the outcome of the frame `bit` places behind the newest. */
    method SetBit(bit: nat, isDecoded: bool, now: nat, ghost n: int)
      requires Valid() && newest.Some? && n == trueNewest - bit && bit < WINDOW
      modifies this`decoded, this`refused, this`recordedEver, this`decodedEver, this`dirtySince
      ensures Valid()
      ensures recordedEver == old(recordedEver) + {n}
      ensures decodedEver == old(decodedEver) + if isDecoded then {n} else {}
      ensures dirtySince == if old(dirtySince).Some? then old(dirtySince) else Some(now)
    {
      hide MasksAgree, SetMasks;
      SetAgrees(decoded, refused, trueNewest, decodedEver, recordedEver, n, isDecoded);
      var masks := SetMasks(decoded, refused, bit, isDecoded);
      decoded, refused := masks.0, masks.1;
      recordedEver := recordedEver + {n};
      decodedEver := decodedEver + if isDecoded then {n} else {};
      if dirtySince.None? { dirtySince := Some(now); }
    }

    method Take(now: nat) returns (ack: Option<FrameAck>)
      requires Valid()
      modifies this`dirtySince, this`lastSent
      ensures Valid()
      ensures if newest.Some?
        then ack == Some(FrameAck(newest.value, decoded, refused)) && dirtySince == None && lastSent == Some(now)
              else ack == None && dirtySince == old(dirtySince) && lastSent == old(lastSent)
    {
      ack := None;
      if newest.Some? {
        dirtySince, lastSent := None, Some(now);
        ack := Some(FrameAck(newest.value, decoded, refused));
      }
    }

    /** The ack to send with an ack batch: something is unreported and the last ack is 4 ms old. */
    method TakeDue(now: nat) returns (ack: Option<FrameAck>)
      requires Valid()
      modifies this`dirtySince, this`lastSent
      ensures Valid()
      ensures var held := old(lastSent.Some? && now < lastSent.value + FRAME_ACK_MIN_INTERVAL_US);
        if old(dirtySince).Some? && !held
        then && newest.Some? && ack == Some(FrameAck(newest.value, decoded, refused))
             && dirtySince == None && lastSent == Some(now)
        else ack == None && dirtySince == old(dirtySince) && lastSent == old(lastSent)
    {
      ack := None;
      if dirtySince.Some? && !(lastSent.Some? && now < lastSent.value + FRAME_ACK_MIN_INTERVAL_US) {
        ack := Take(now);
      }
    }

    function PollTimeout(): Option<nat>
      reads this
    {
      if dirtySince.Some? then Some(dirtySince.value + FRAME_ACK_FALLBACK_US) else None
    }

    /** The ack to send by itself because no batch came to carry it for 100 ms. */
    method TakeOverdue(now: nat) returns (ack: Option<FrameAck>)
      requires Valid()
      modifies this`dirtySince, this`lastSent
      ensures Valid()
      ensures if old(PollTimeout()).Some? && old(PollTimeout()).value <= now
        then && newest.Some? && ack == Some(FrameAck(newest.value, decoded, refused))
             && dirtySince == None && lastSent == Some(now)
        else ack == None && dirtySince == old(dirtySince) && lastSent == old(lastSent)
    {
      ack := None;
      if PollTimeout().Some? && PollTimeout().value <= now { ack := Take(now); }
    }
  }

  lemma EmptyAgrees(n: int)
    ensures MasksAgree({}, {}, n, {}, {})
  {
  }

  /** A frame 64 or more behind is beyond what the masks can say. */
  lemma OutsideAgrees(
    decoded: set<nat>, refused: set<nat>, newest: int, decodedEver: set<int>, recordedEver: set<int>, n: int,
    isDecoded: bool)
    requires MasksAgree(decoded, refused, newest, decodedEver, recordedEver) && newest - n >= WINDOW
    ensures MasksAgree(decoded, refused, newest, decodedEver + (if isDecoded then {n} else {}), recordedEver + {n})
  {
  }

}
