/**
 * Two runs of the export ring in which a 32-bit frame id comes round while the host
 * still holds the frame that had it: in a buffer of the ring, and in a retired one.
 */
module RingIds {
  import opened Serial
  import opened ExportRing

  /** Buffer `i` is free, the ones before it are not, and what the ids name is in step. */
  ghost predicate Ready(r: Ring, fb: Pixels, i: nat)
    reads r, r.history
  {
    && r.Valid() && r.InStep() && fb == r.shown
    && i < |r.buffers| && !r.buffers[i].inFlight && forall j :: 0 <= j < i ==> r.buffers[j].inFlight
  }

  /** One frame is published and released at once: only the next id has moved. */
  method PublishAndRelease(r: Ring, fb: Pixels, i: nat)
    requires Ready(r, fb, i) && r.nextFrameId !in r.inFlight && r.nextFrameId !in r.graveyard
    modifies r, r.history
    ensures Ready(r, fb, i) && r.inFlight == old(r.inFlight) && r.graveyard == old(r.graveyard)
    ensures r.nextFrameId == Wrap32(old(r.nextFrameId) + 1) && |r.buffers| == old(|r.buffers|)
  {
    hide Ring.Valid, SameOn, GoodDamage, GoodSince, Held;
    ghost var ids := r.inFlight;
    var frame := r.Publish(fb, false);
    r.Release(frame.value.frameId);
    assert ids[frame.value.frameId := i] - {frame.value.frameId} == ids;
  }

  /** So many frames are published and released that the next id is 0 again. */
  method ComeRound(r: Ring, fb: Pixels, i: nat)
    requires Ready(r, fb, i) && r.nextFrameId == 1
    requires (forall id :: id in r.inFlight ==> id == 0) && forall id :: id in r.graveyard ==> id == 0
    modifies r, r.history
    ensures Ready(r, fb, i) && r.inFlight == old(r.inFlight) && r.graveyard == old(r.graveyard)
    ensures r.nextFrameId == 0 && |r.buffers| == old(|r.buffers|)
  {
    hide Ready;
    for id := 1 to MOD32
      invariant Ready(r, fb, i) && r.inFlight == old(r.inFlight) && r.graveyard == old(r.graveyard)
      invariant r.nextFrameId == Wrap32(id) && |r.buffers| == old(|r.buffers|)
    {
      PublishAndRelease(r, fb, i);
    }
  }

  /** Frame 0 stays with the host until its id is given to another buffer: its own is lost. */
  method HeldIdComesRound(w: nat, h: nat, blank: seq<Pixels>, fb: Pixels) returns (r: Ring)
    requires |blank| == 2
    ensures |r.buffers| == 2 && r.buffers[0].inFlight && r.buffers[1].inFlight
    ensures !r.InStep() && r.inFlight == map[0 := 1]
  {
    hide Ring.Valid, SameOn, GoodDamage, GoodSince, Held;
    r := new Ring(w, h, blank, fb);
    assert !r.buffers[0].inFlight;
    var first := r.Publish(fb, false);
    assert first.Some? && first.value.bufferId == 0;
    ComeRound(r, fb, 1);
    var again := r.Publish(fb, false);
  }

  /** Frame 0 stays with the host across a resize: releasing the frame that has its id now frees it instead. */
  method RetiredIdComesRound(w: nat, h: nat, blank: seq<Pixels>, fb: Pixels, fb': Pixels) returns (r: Ring)
    requires |blank| == 1
    ensures |r.buffers| == 1 && r.buffers[0].inFlight
    ensures r.graveyard == map[] && r.inFlight == map[0 := 0]
  {
    hide Ring.Valid, SameOn, GoodDamage, GoodSince, Held;
    r := new Ring(w, h, blank, fb);
    assert !r.buffers[0].inFlight;
    var first := r.Publish(fb, false);
    assert first.Some? && first.value.bufferId == 0;
    var ok := r.Resize(w + 1, h, true, blank, fb');
    ComeRound(r, fb', 0);
    var again := r.Publish(fb', false);
    r.Release(0);
  }
}
