/**
 * The parity decoder: a bounded window of received sources and a bounded set of
 * parities waiting for one more source.
 *
 * The numbers of one run lie within half a turn of the 32-bit space (`base` up);
 * within it a wrapped number stands for exactly one true number.
 */
module ParityDecoder {
  import opened Serial
  import opened Parity
  import W = ParityWindow

  predicate IsTileDatagram(b: Bytes8) { |b| >= 4 && b[0] & 0x80 != 0 }

  /** The datagram's first four bytes as a number. */
  function FirstWord(b: Bytes8): nat
    requires |b| >= 4
  {
    (((b[0] as int) * 256 + b[1] as int) * 256 + b[2] as int) * 256 + b[3] as int
  }

  lemma HighBit(x: bv8)
    ensures x & 0x80 != 0 <==> x as int >= 128
  {
    assert x & 0x80 != 0 <==> x >= 0x80;
  }

  /** A tile datagram is told by bit 31 of its first word. */
  lemma TileFlagIff(b: Bytes8)
    ensures IsTileDatagram(b) <==> |b| >= 4 && FirstWord(b) >= 0x8000_0000
  {
    if |b| >= 4 { HighBit(b[0]); }
  }

  /** The longest of a parity and the received sources. */
  method TargetLen(payload: Bytes8, received: seq<Bytes8>) returns (n: nat)
    ensures n >= |payload| && forall i :: 0 <= i < |received| ==> |received[i]| <= n
  {
    n := |payload|;
    for i := 0 to |received|
      invariant n >= |payload| && forall j :: 0 <= j < i ==> |received[j]| <= n
    {
      if |received[i]| > n { n := |received[i]|; }
    }
  }

  /** Parity XOR received sources, as long as the longest of them. */
  method XorAll(payload: Bytes8, received: seq<Bytes8>) returns (b: Bytes8)
    ensures |b| >= |payload|
    ensures forall r :: 0 <= r < |b| ==> FromRight(b, r) == FromRight(payload, r) ^ ListXor(received, r)
  {
    var n := TargetLen(payload, received);
    var out := new bv8[n](_ => 0);
    XorInto(out, payload);
    for j := 0 to |received|
      invariant forall r :: 0 <= r < n ==> FromRight(out[..], r) == FromRight(payload, r) ^ ListXor(received[..j], r)
    {
      XorInto(out, received[j]);
      assert received[..j + 1][..j] == received[..j];
    }
    assert received[..|received|] == received;
    b := out[..];
  }

  // ---------------------------------------------------------- true numbers

  ghost predicate InSpan(base: int, n: int) { base <= n < base + HALF32 }

  /** The true number from `base` up that `ws` stands for. */
  ghost function Unwrap(base: int, ws: u32): int { base + (ws - base) % MOD32 }

  lemma UnwrapOfWrap(base: int, n: int)
    requires base <= n < base + MOD32
    ensures Unwrap(base, Wrap32(n)) == n
  {
    assert (Wrap32(n) - base) % MOD32 == (n - base) % MOD32;
  }

  lemma WrapOfUnwrap(base: int, ws: u32)
    ensures Wrap32(Unwrap(base, ws)) == ws
  {
  }

  lemma OffsetInGroup(base: int, first: u32, m: int)
    requires base <= Unwrap(base, first) <= m < base + HALF32
    ensures (Wrap32(m) - first) % MOD32 == m - Unwrap(base, first)
  {
    WrapOfUnwrap(base, first);
  }

  lemma NextInGroup(base: int, first: u32, i: nat)
    ensures (first + i) % MOD32 == Wrap32(Unwrap(base, first) + i)
  {
  }

  lemma NothingXored()
    ensures forall r: nat :: ListXor([], r) == 0
  {
  }

  /** The group of `env` lies in the span of the run. */
  ghost predicate GroupInSpan(base: int, env: Envelope) {
    Unwrap(base, env.first) + env.K() <= base + HALF32
  }

  /** Whether `ws` is one of the sources of `env`. */
  predicate Covers(env: Envelope, ws: u32) { (ws - env.first) % MOD32 < env.K() }

  /** Rebuilding `b` from `env`: it stands for the one absent source, which never arrived. */
  ghost predicate Rebuilds(
    sent: Sent, base: int, window: map<u32, Bytes8>, recorded: set<int>, env: Envelope, m: int, b: Bytes8)
  {
    var f := Unwrap(base, env.first);
    && OnlyMissing(window, f, env.K(), m)
    && m !in recorded
    && IsTileDatagram(b)
    && (IsParityOf(env, sent, f) ==> b == sent(m))
  }

  /** Trimming the XOR to the missing source's length gives that source. */
  lemma RecoveredIsSent(
    sent: Sent, window: map<u32, Bytes8>, env: Envelope, f: int, m: int, received: seq<Bytes8>, b: Bytes8)
    requires IsParityOf(env, sent, f) && OnlyMissing(window, f, env.K(), m) && HoldsSent(window, sent, f, env.K())
    requires |b| >= |env.payload|
    requires forall r :: 0 <= r < |b| ==> FromRight(b, r) == FromRight(env.payload, r) ^ ListXor(received, r)
    requires forall r :: 0 <= r < |b| ==> ListXor(received, r) == HeldXor(window, f, env.K(), r)
    ensures |sent(m)| == env.lens[m - f] <= |b| && b[|b| - |sent(m)|..] == sent(m)
  {
    hide GroupXor, HeldXor, ListXor, OnlyMissing;
    var len := |sent(m)|;
    assert f <= m < f + env.K() by { OnlyMissingInGroup(window, f, env.K(), m); }
    assert env.lens[m - f] == |sent(f + (m - f))|;
    var t := b[|b| - len..];
    forall r | 0 <= r < len
      ensures FromRight(t, r) == FromRight(sent(m), r)
    {
      OnlyMissingInGroup(window, f, env.K(), m);
      MissingIsTheDifference(window, sent, f, env.K(), m, r);
      assert FromRight(t, r) == FromRight(b, r);
    }
    SameFromRight(t, sent(m));
  }

  lemma OnlyMissingInGroup(window: map<u32, Bytes8>, f: int, k: nat, m: int)
    requires OnlyMissing(window, f, k, m)
    ensures f <= m < f + k && Wrap32(m) !in window
    ensures forall i :: f <= i < f + k && i != m ==> Wrap32(i) in window
  {
  }

  /** Insertion order and window name the same sources, once each, all recorded and as sent. */
  ghost predicate WindowOk(order: seq<u32>, window: map<u32, Bytes8>, recorded: set<int>, sent: Sent, base: int) {
    && |order| == |window|
    && (forall ws :: ws in order <==> ws in window)
    && (forall i, j :: 0 <= i < j < |order| ==> order[i] != order[j])
    && (forall ws :: ws in window ==> Unwrap(base, ws) in recorded && window[ws] == sent(Unwrap(base, ws)))
  }

  /** What was recorded is in the window, or not above the newest number evicted. */
  ghost predicate Remembered(recorded: set<int>, window: map<u32, Bytes8>, maxEvicted: Option<u32>, base: int) {
    && (maxEvicted.Some? ==> InSpan(base, Unwrap(base, maxEvicted.value)))
    && forall n :: n in recorded ==>
         InSpan(base, n) && (Wrap32(n) in window || (maxEvicted.Some? && n <= Unwrap(base, maxEvicted.value)))
  }

  /** `env` is a true parity whose one absent source is `m`. */
  ghost predicate Recoverable(sent: Sent, base: int, window: map<u32, Bytes8>, env: Envelope, m: int) {
    var f := Unwrap(base, env.first);
    IsParityOf(env, sent, f) && OnlyMissing(window, f, env.K(), m) && IsTileDatagram(sent(m))
  }

  lemma OldestEvicted(order: seq<u32>, window: map<u32, Bytes8>, recorded: set<int>, sent: Sent, base: int)
    requires WindowOk(order, window, recorded, sent, base) && order != []
    ensures order[0] in window && Unwrap(base, order[0]) in recorded
    ensures WindowOk(order[1..], window - {order[0]}, recorded, sent, base)
    ensures |window - {order[0]}| == |window| - 1
  {
    hide Unwrap;
    assert (window - {order[0]}).Keys == window.Keys - {order[0]};
  }

  lemma EvictionRemembered(
    recorded: set<int>, window: map<u32, Bytes8>, before: Option<u32>, after: u32, oldest: u32, base: int)
    requires Remembered(recorded, window, before, base) && Unwrap(base, oldest) in recorded
    requires Unwrap(base, after) >= Unwrap(base, oldest)
    requires after == oldest || before == Some(after)
    requires before.Some? ==> Unwrap(base, after) >= Unwrap(base, before.value)
    ensures Remembered(recorded, window - {oldest}, Some(after), base)
  {
    hide Unwrap, Wrap32;
    forall n | n in recorded
      ensures Wrap32(n) in window - {oldest} || n <= Unwrap(base, after)
    {
      if Wrap32(n) == oldest { UnwrapOfWrap(base, n); }
    }
  }

  /** A source the window already holds. */
  lemma RecordedAgain(
    order: seq<u32>, window: map<u32, Bytes8>, recorded: set<int>, maxEvicted: Option<u32>, sent: Sent, base: int,
    n: int)
    requires WindowOk(order, window, recorded, sent, base) && Remembered(recorded, window, maxEvicted, base)
    requires InSpan(base, n) && Wrap32(n) in window
    ensures WindowOk(order, window, recorded + {n}, sent, base) && Remembered(recorded + {n}, window, maxEvicted, base)
  {
    hide Unwrap, Wrap32, Remembered, WindowOk;
    MoreRecorded(order, window, recorded, sent, base, n);
    MoreRemembered(recorded, window, maxEvicted, base, n);
  }

  lemma MoreRecorded(order: seq<u32>, window: map<u32, Bytes8>, recorded: set<int>, sent: Sent, base: int, n: int)
    requires WindowOk(order, window, recorded, sent, base)
    ensures WindowOk(order, window, recorded + {n}, sent, base)
  {
    hide Unwrap;
  }

  lemma MoreRemembered(recorded: set<int>, window: map<u32, Bytes8>, maxEvicted: Option<u32>, base: int, n: int)
    requires Remembered(recorded, window, maxEvicted, base) && InSpan(base, n) && Wrap32(n) in window
    ensures Remembered(recorded + {n}, window, maxEvicted, base)
  {
    hide Unwrap, Wrap32;
  }

  /** A source the window does not hold. */
  lemma OneMoreKey(window: map<u32, Bytes8>, ws: u32, bytes: Bytes8)
    requires ws !in window
    ensures |window[ws := bytes]| == |window| + 1
  {
    assert window[ws := bytes].Keys == window.Keys + {ws};
  }

  lemma WindowGrows(
    order: seq<u32>, window: map<u32, Bytes8>, recorded: set<int>, sent: Sent, base: int, n: int, ws: u32)
    requires WindowOk(order, window, recorded, sent, base) && ws !in window && Unwrap(base, ws) == n
    ensures WindowOk(order + [ws], window[ws := sent(n)], recorded + {n}, sent, base)
  {
    hide Unwrap;
    OneMoreKey(window, ws, sent(n));
    assert forall i :: 0 <= i < |order| ==> order[i] in order;
  }

  lemma SpansKnown(recorded: set<int>, window: map<u32, Bytes8>, maxEvicted: Option<u32>, base: int, oldest: u32)
    requires Remembered(recorded, window, maxEvicted, base) && Unwrap(base, oldest) in recorded
    ensures InSpan(base, Unwrap(base, oldest)) && (maxEvicted.Some? ==> InSpan(base, Unwrap(base, maxEvicted.value)))
    ensures maxEvicted.Some? ==>
      (Signed32(oldest, maxEvicted.value) <= 0 <==> Unwrap(base, oldest) <= Unwrap(base, maxEvicted.value))
  {
    hide Signed32, Unwrap, Wrap32;
    WrapOfUnwrap(base, oldest);
    if maxEvicted.Some? {
      WrapOfUnwrap(base, maxEvicted.value);
      Signed32OfTrue(Unwrap(base, oldest), Unwrap(base, maxEvicted.value));
    }
  }

  /** Eviction by wrapped numbers is eviction by true ones, and the mark stays the greatest. */
  lemma EvictedByNumber(order: seq<u32>, maxEvicted: Option<u32>, evicted: set<int>, base: int)
    requires order != [] && MarkOk(evicted, TrueWindow(order, maxEvicted, base).maxEvicted)
    ensures var w := TrueWindow(order, maxEvicted, base); var o := Unwrap(base, order[0]);
            && w.order != [] && w.order[0] == o && W.Evict(w).order == TrueOrder(order[1..], base)
            && W.Evict(w).maxEvicted == Some(if maxEvicted.Some? && o <= Unwrap(base, maxEvicted.value)
                                             then Unwrap(base, maxEvicted.value) else o)
            && MarkOk(evicted + {o}, W.Evict(w).maxEvicted)
  {
    hide Unwrap;
    assert TrueOrder(order[1..], base) == TrueOrder(order, base)[1..];
  }

  lemma TrueAppend(order: seq<u32>, ws: u32, base: int)
    ensures TrueOrder(order + [ws], base) == TrueOrder(order, base) + [Unwrap(base, ws)]
  {
  }

  lemma OrderIsWindow(order: seq<u32>, window: map<u32, Bytes8>, recorded: set<int>, sent: Sent, base: int)
    requires WindowOk(order, window, recorded, sent, base)
    ensures |order| == |window|
  {
  }

  lemma RememberedGrows(
    recorded: set<int>, window: map<u32, Bytes8>, maxEvicted: Option<u32>, base: int, n: int, b: Bytes8)
    requires Remembered(recorded, window, maxEvicted, base) && InSpan(base, n)
    ensures Remembered(recorded + {n}, window[Wrap32(n) := b], maxEvicted, base)
  {
    hide Unwrap, Wrap32;
  }

  // ------------------------------------------------------ buffered parities

  /** The last `n` of `s`, or all of it. */
  function Newest<T>(s: seq<T>, n: nat): seq<T> { if |s| <= n then s else s[|s| - n..] }

  /** The group's last number is at most `capacity` behind the greatest number recorded. */
  predicate InReach(env: Envelope, newest: Option<u32>, capacity: nat) {
    newest.Some? ==> env.first + (if env.K() > 0 then env.K() - 1 else 0) + capacity >= newest.value
  }

  function Horizon(newest: u32, capacity: nat): nat { if newest > capacity then newest - capacity else 0 }

  /** The group's last number is not behind the newest number by more than the capacity; nothing wraps here. */
  predicate PruneKeeps(env: Envelope, newest: Option<u32>, capacity: nat) {
    newest.Some? ==>
      var last := env.first + (if env.K() > 0 then env.K() - 1 else 0);
      (if last < MOD32 then last else MOD32 - 1) >= Horizon(newest.value, capacity)
  }

  function Kept(pending: seq<Envelope>, newest: Option<u32>, capacity: nat): (r: seq<Envelope>)
    ensures forall env :: env in r ==> env in pending
  {
    if pending == [] then [] else
      var env := pending[|pending| - 1];
      Kept(pending[..|pending| - 1], newest, capacity) + if InReach(env, newest, capacity) then [env] else []
  }

  /** Where the group's parity is buffered, or the end. */
  function GroupAt(pending: seq<Envelope>, first: u32): (at: nat)
    ensures at <= |pending| && (at < |pending| ==> pending[at].first == first)
    ensures forall i :: 0 <= i < at ==> pending[i].first != first
  {
    if pending == [] || pending[0].first == first then 0 else 1 + GroupAt(pending[1..], first)
  }

  /** Buffer a parity, in place of an earlier one of its group. */
  function Buffered(pending: seq<Envelope>, env: Envelope): (r: seq<Envelope>)
    ensures forall e :: e in r ==> e == env || e in pending
  {
    var at := GroupAt(pending, env.first);
    if at < |pending| then pending[at := env] else pending + [env]
  }

  // ------------------------------------------- the window by true numbers

  /** No group has two parities waiting. */
  ghost predicate OnePerGroup(pending: seq<Envelope>) {
    forall i, j :: 0 <= i < j < |pending| ==> pending[i].first != pending[j].first
  }

  lemma BufferedOnce(pending: seq<Envelope>, env: Envelope)
    requires OnePerGroup(pending)
    ensures OnePerGroup(Buffered(pending, env)) && env in Buffered(pending, env)
  {
    hide GroupAt;
    var at := GroupAt(pending, env.first);
    assert Buffered(pending, env)[at] == env;
  }

  /** What is kept is what is in reach, in the order it waited. */
  lemma {:induction false} KeptExactly(pending: seq<Envelope>, newest: Option<u32>, capacity: nat)
    requires OnePerGroup(pending)
    ensures OnePerGroup(Kept(pending, newest, capacity))
    ensures forall env :: env in Kept(pending, newest, capacity) <==> env in pending && InReach(env, newest, capacity)
  {
    hide InReach;
    if pending == [] {
    } else {
      var front, env := pending[..|pending| - 1], pending[|pending| - 1];
      assert pending == front + [env] && OnePerGroup(front);
      hide OnePerGroup;
      KeptExactly(front, newest, capacity);
      JoinsOnce(front, env, Kept(front, newest, capacity));
    }
  }

  lemma JoinsOnce(front: seq<Envelope>, env: Envelope, kept: seq<Envelope>)
    requires OnePerGroup(front + [env]) && OnePerGroup(kept) && forall e :: e in kept ==> e in front
    ensures OnePerGroup(kept + [env])
  {
    forall i | 0 <= i < |kept|
      ensures kept[i].first != env.first
    {
      assert kept[i] in front;
      var k :| 0 <= k < |front| && front[k] == kept[i];
      assert (front + [env])[k].first != (front + [env])[|front|].first;
    }
  }

  ghost function TrueOrder(order: seq<u32>, base: int): seq<int> {
    seq(|order|, i requires 0 <= i < |order| => Unwrap(base, order[i]))
  }

  ghost function TrueWindow(order: seq<u32>, maxEvicted: Option<u32>, base: int): W.Window {
    W.Window(TrueOrder(order, base), if maxEvicted.Some? then Some(Unwrap(base, maxEvicted.value)) else None)
  }

  /** The mark is the greatest number ever evicted. */
  ghost predicate MarkOk(evicted: set<int>, mark: Option<int>) {
    && (mark.None? <==> evicted == {})
    && (mark.Some? ==> mark.value in evicted && forall x :: x in evicted ==> x <= mark.value)
  }

  lemma HeldByNumber(order: seq<u32>, window: map<u32, Bytes8>, recorded: set<int>, sent: Sent, base: int, n: int)
    requires WindowOk(order, window, recorded, sent, base) && InSpan(base, n)
    ensures n in TrueOrder(order, base) <==> Wrap32(n) in window
  {
    hide Unwrap, Wrap32;
    UnwrapOfWrap(base, n);
    if n in TrueOrder(order, base) {
      var i :| 0 <= i < |order| && Unwrap(base, order[i]) == n;
      WrapOfUnwrap(base, order[i]);
      assert order[i] in order;
    }
    if Wrap32(n) in window {
      var i :| 0 <= i < |order| && order[i] == Wrap32(n);
      assert TrueOrder(order, base)[i] == n;
    }
  }

  lemma TrueDistinct(order: seq<u32>, window: map<u32, Bytes8>, recorded: set<int>, sent: Sent, base: int)
    requires WindowOk(order, window, recorded, sent, base)
    ensures W.Distinct(TrueOrder(order, base)) && |TrueOrder(order, base)| == |window|
  {
    hide Unwrap, Wrap32;
    forall i, j | 0 <= i < j < |order|
      ensures TrueOrder(order, base)[i] != TrueOrder(order, base)[j]
    {
      WrapOfUnwrap(base, order[i]);
      WrapOfUnwrap(base, order[j]);
    }
  }

  /** One absent source, told by wrapped and by true numbers. */
  lemma OneAbsentByNumber(
    order: seq<u32>, window: map<u32, Bytes8>, recorded: set<int>, sent: Sent, maxEvicted: Option<u32>, base: int,
    f: int, k: nat, m: int)
    requires WindowOk(order, window, recorded, sent, base) && base <= f && f + k <= base + HALF32
    ensures W.OneAbsent(TrueWindow(order, maxEvicted, base), f, k, m) <==>
            OnlyMissing(window, f, k, m) && (maxEvicted.Some? ==> m > Unwrap(base, maxEvicted.value))
  {
    hide Unwrap, Wrap32, WindowOk;
    forall i | f <= i < f + k
      ensures i in TrueOrder(order, base) <==> Wrap32(i) in window
    {
      HeldByNumber(order, window, recorded, sent, base, i);
    }
    hide TrueOrder;
    if OnlyMissing(window, f, k, m) {
      forall i | W.InGroup(f, k, i) && i != m ensures i in TrueOrder(order, base) {}
    }
    if W.OneAbsent(TrueWindow(order, maxEvicted, base), f, k, m) {
      forall i | f <= i < f + k && i != m ensures Wrap32(i) in window { assert W.InGroup(f, k, i); }
    }
  }

  class ParityDecoder {
    var window: map<u32, Bytes8>
    /** Window keys, oldest insertion first. */
    var order: seq<u32>
    /** Buffered parities, insertion order, one per group. */
    var pending: seq<Envelope>
    var newestWireSeq: Option<u32>
    var maxEvicted: Option<u32>
    const capacity: nat

    ghost const sent: Sent
    ghost const base: int
    /** Every number ever recorded, evicted or not; every number ever evicted. */
    ghost var recorded: set<int>
    ghost var evicted: set<int>

    ghost function Numbers(): W.Window
      reads this`order, this`maxEvicted
    {
      TrueWindow(order, maxEvicted, base)
    }

    ghost predicate WindowValid()
      reads this`window, this`order, this`maxEvicted, this`recorded, this`evicted
    {
      && WindowOk(order, window, recorded, sent, base) && Remembered(recorded, window, maxEvicted, base)
      && MarkOk(evicted, Numbers().maxEvicted)
    }

    ghost predicate Valid()
      reads this
    {
      && WindowValid()
      && |window| <= capacity && |pending| <= capacity
      && (forall env :: env in pending ==> GroupInSpan(base, env)) && OnePerGroup(pending)
    }

    constructor (cap: nat, ghost wire: Sent, ghost from: int)
      ensures Valid() && recorded == {} && evicted == {} && window == map[] && pending == [] && newestWireSeq == None
      ensures Numbers() == W.Window([], None) && capacity == cap && sent == wire && base == from
    {
      window, order, pending, newestWireSeq, maxEvicted := map[], [], [], None, None;
      capacity, sent, base, recorded, evicted := cap, wire, from, {}, {};
    }

    /** `env` is the true parity of a group of tile datagrams. */
    ghost predicate TrueGroup(env: Envelope)
      reads {}
    {
      var f := Unwrap(base, env.first);
      IsParityOf(env, sent, f) && forall i :: f <= i < f + env.K() ==> IsTileDatagram(sent(i))
    }

    /** Gather the group's received sources and count the absent ones. */
    method Gather(env: Envelope) returns (received: seq<Bytes8>, missing: Option<u32>, count: nat)
      ensures var f := Unwrap(base, env.first);
        && count == MissingCount(window, f, env.K())
        && (count > 0 ==>
          missing.Some? && exists m :: f <= m < f + env.K() && missing.value == Wrap32(m) && Wrap32(m) !in window)
        && forall r :: ListXor(received, r) == HeldXor(window, f, env.K(), r)
    {
      ghost var f := Unwrap(base, env.first);
      hide FromRight, ListXor, Unwrap;
      NothingXored();
      received, missing, count := [], None, 0;
      for i := 0 to env.K()
        invariant count == MissingCount(window, f, i)
        invariant count > 0 ==>
          missing.Some? && exists m :: f <= m < f + i && missing.value == Wrap32(m) && Wrap32(m) !in window
        invariant forall r :: ListXor(received, r) == HeldXor(window, f, i, r)
      {
        var ws := (env.first + i) % MOD32;
        NextInGroup(base, env.first, i);
        if ws in window {
          forall r: nat ensures ListXor(received + [window[ws]], r) == ListXor(received, r) ^ FromRight(window[ws], r) {
            ListXorExtends(received, window[ws], r);
          }
          received := received + [window[ws]];
        } else {
          count, missing := count + 1, Some(ws);
        }
      }
    }

    /** Source `m` is not newer than everything evicted. */
    ghost predicate Past(m: int)
      reads this`maxEvicted
    {
      maxEvicted.Some? && m <= Unwrap(base, maxEvicted.value)
    }

    /** Compare an absent number with the mark; what is newer was never recorded. */
    method IsPast(ws: u32, ghost m: int) returns (r: bool)
      requires WindowValid() && InSpan(base, m) && ws == Wrap32(m) && ws !in window
      ensures r <==> Past(m)
      ensures !r ==> m !in recorded
    {
      hide WindowOk, MarkOk, Unwrap, Wrap32, Signed32;
      if maxEvicted.None? { return false; }
      WrapOfUnwrap(base, maxEvicted.value);
      Signed32OfTrue(m, Unwrap(base, maxEvicted.value));
      r := Signed32(ws, maxEvicted.value) <= 0;
    }

    /** The bytes of absent source `ws`, from the parity and the rest of its group. */
    method Rebuild(env: Envelope, received: seq<Bytes8>, ws: u32, ghost m: int) returns (b: Option<Bytes8>)
      requires Valid() && GroupInSpan(base, env) && ws == Wrap32(m)
      requires OnlyMissing(window, Unwrap(base, env.first), env.K(), m)
      requires forall r :: ListXor(received, r) == HeldXor(window, Unwrap(base, env.first), env.K(), r)
      ensures b.Some? ==> Rebuilds(sent, base, window, recorded, env, m, b.value) && !Past(m)
      ensures Recoverable(sent, base, window, env, m) && !Past(m) ==> b == Some(sent(m))
    {
      hide OnlyMissing, IsParityOf, ListXor, HeldXor, FromRight, IsTileDatagram, WindowValid, Past, Wrap32;
      ghost var f := Unwrap(base, env.first);
      OnlyMissingInGroup(window, f, env.K(), m);
      var past := IsPast(ws, m);
      if past { return None; }
      var out := XorAll(env.payload, received);
      if IsParityOf(env, sent, f) {
        WindowHoldsSent(f, env.K());
        RecoveredIsSent(sent, window, env, f, m, received, out);
      }
      var idx := (ws - env.first) % MOD32;
      OffsetInGroup(base, env.first, m);
      var len := env.lens[idx];
      if len > |out| { return None; }
      var recovered := out[|out| - len..];
      b := if IsTileDatagram(recovered) then Some(recovered) else None;
    }

    lemma WindowHoldsSent(f: int, k: nat)
      requires WindowValid() && base <= f && f + k <= base + HALF32
      ensures HoldsSent(window, sent, f, k)
    {
      forall i | f <= i < f + k && Wrap32(i) in window
        ensures window[Wrap32(i)] == sent(i)
      {
        UnwrapOfWrap(base, i);
      }
    }

    /**
     * Rebuild the one absent source of a group. A result stands for a source that
     * was never recorded, evicted or not; if the parity is the group's, it is
     * that source byte for byte. A true parity with one absent source newer than
     * everything evicted does give it back.
     */
    method TryRecover(env: Envelope) returns (b: Option<Bytes8>)
      requires Valid() && GroupInSpan(base, env)
      ensures b.Some? ==> exists m :: Rebuilds(sent, base, window, recorded, env, m, b.value)
      ensures forall m :: Recoverable(sent, base, window, env, m) && !Past(m) ==> b == Some(sent(m))
      ensures var f := Unwrap(base, env.first);
              && (b.Some? ==> W.Rebuildable(Numbers(), f, env.K()))
              && (TrueGroup(env) && W.Rebuildable(Numbers(), f, env.K()) ==> b.Some?)
    {
      hide Unwrap, Wrap32, WindowOk, OnlyMissing, Rebuilds, Recoverable, IsParityOf, W.OneAbsent, MissingCount, HeldXor;
      hide ListXor;
      var received, missing, count := Gather(env);
      b := None;
      ghost var f := Unwrap(base, env.first);
      forall m
        ensures OnlyMissing(window, f, env.K(), m) ==> count == 1
        ensures W.OneAbsent(Numbers(), f, env.K(), m) <==>
                OnlyMissing(window, f, env.K(), m) && !Past(m)
        ensures Recoverable(sent, base, window, env, m) <==>
                IsParityOf(env, sent, f) && OnlyMissing(window, f, env.K(), m) && IsTileDatagram(sent(m))
        ensures OnlyMissing(window, f, env.K(), m) ==> f <= m < f + env.K()
      {
        AbsentFacts(env, m, count);
      }
      if count == 1 {
        ghost var m :| f <= m < f + env.K() && missing.value == Wrap32(m) && Wrap32(m) !in window;
        OneMissing(window, f, env.K(), m);
        b := Rebuild(env, received, missing.value, m);
        forall n | OnlyMissing(window, f, env.K(), n) ensures n == m { OneOnly(f, env.K(), m, n); }
      }
    }

    lemma OneOnly(f: int, k: nat, m: int, n: int)
      requires OnlyMissing(window, f, k, m) && OnlyMissing(window, f, k, n)
      ensures m == n
    {
    }

    lemma AbsentFacts(env: Envelope, m: int, count: nat)
      requires Valid() && GroupInSpan(base, env) && count == MissingCount(window, Unwrap(base, env.first), env.K())
      ensures var f := Unwrap(base, env.first);
        && (OnlyMissing(window, f, env.K(), m) ==> count == 1 && f <= m < f + env.K())
        && (W.OneAbsent(Numbers(), f, env.K(), m) <==>
            OnlyMissing(window, f, env.K(), m) && !Past(m))
        && (Recoverable(sent, base, window, env, m) <==>
            IsParityOf(env, sent, f) && OnlyMissing(window, f, env.K(), m) && IsTileDatagram(sent(m)))
    {
      hide Wrap32, WindowOk, MissingCount, IsParityOf, W.OneAbsent;
      var f := Unwrap(base, env.first);
      OneAbsentByNumber(order, window, recorded, sent, maxEvicted, base, f, env.K(), m);
      if OnlyMissing(window, f, env.K(), m) { OneMissing(window, f, env.K(), m); }
    }

    /** The count by wrapped numbers is the count by true ones. */
    lemma {:induction false} AbsentByNumber(f: int, k: nat)
      requires WindowValid() && base <= f && f + k <= base + HALF32
      ensures MissingCount(window, f, k) == W.AbsentCount(Numbers().order, f, k)
    {
      hide WindowOk, Wrap32, TrueOrder;
      if k == 0 {
      } else {
        AbsentByNumber(f, k - 1);
        HeldByNumber(order, window, recorded, sent, base, f + k - 1);
      }
    }

    /** Forget the oldest source, remembering how far forgetting has gone. */
    method EvictOldest()
      requires WindowValid() && |window| > 0 && |order| > 0
      modifies this`window, this`order, this`maxEvicted, this`evicted
      ensures WindowValid() && |window| == old(|window|) - 1
      ensures order == old(order)[1..] && window == old(window) - {old(order)[0]}
      ensures old(Numbers()).order != [] && Numbers() == W.Evict(old(Numbers()))
      ensures evicted == old(evicted) + {old(Numbers()).order[0]}
    {
      hide Signed32, Wrap32, Unwrap, WindowOk, Remembered, MarkOk, TrueOrder, W.Evict;
      OldestEvicted(order, window, recorded, sent, base);
      var oldest := order[0];
      SpansKnown(recorded, window, maxEvicted, base, oldest);
      EvictedByNumber(order, maxEvicted, evicted, base);
      var mark := if maxEvicted.Some? && Signed32(oldest, maxEvicted.value) <= 0 then maxEvicted.value else oldest;
      EvictionRemembered(recorded, window, maxEvicted, mark, oldest, base);
      order, window, maxEvicted, evicted := order[1..], window - {oldest}, Some(mark), evicted + {Unwrap(base, oldest)};
    }

    /** Put a received source in the window, evicting from the old end. */
    method Insert(ws: u32, bytes: Bytes8, ghost n: int)
      requires WindowValid() && |window| <= capacity && ws == Wrap32(n) && InSpan(base, n) && bytes == sent(n)
      modifies this`window, this`order, this`maxEvicted, this`recorded, this`evicted
      ensures WindowValid() && |window| <= capacity && recorded == old(recorded) + {n}
      ensures Numbers() == W.Recorded(old(Numbers()), n, capacity) && old(evicted) <= evicted
    {
      hide Wrap32, Unwrap, WindowOk, Remembered, MarkOk, TrueOrder;
      HeldByNumber(order, window, recorded, sent, base, n);
      if ws in window {
        RecordedAgain(order, window, recorded, maxEvicted, sent, base, n);
        recorded := recorded + {n};
      } else {
        ghost var grown := Numbers().(order := Numbers().order + [n]);
        UnwrapOfWrap(base, n);
        WindowGrows(order, window, recorded, sent, base, n, ws);
        RememberedGrows(recorded, window, maxEvicted, base, n, bytes);
        TrueAppend(order, ws, base);
        recorded := recorded + {n};
        window := window[ws := bytes];
        order := order + [ws];
        OrderIsWindow(order, window, recorded, sent, base);
        TrueDistinct(order, window, recorded, sent, base);
        while |window| > capacity
          invariant WindowValid() && recorded == old(recorded) + {n} && |order| == |window| == |Numbers().order|
          invariant W.Trim(Numbers(), capacity) == W.Trim(grown, capacity) && old(evicted) <= evicted
          decreases |window|
        {
          EvictOldest();
          OrderIsWindow(order, window, recorded, sent, base);
          TrueDistinct(order, window, recorded, sent, base);
        }
      }
    }

    /** Parity `i` of those buffered, which covers `ws`, gave `b` and was removed. */
    ghost predicate Uses(was: seq<Envelope>, now: seq<Envelope>, i: nat, ws: u32, b: Bytes8)
      reads this`window, this`recorded
    {
      && i < |was| && Covers(was[i], ws) && now == was[..i] + was[i + 1..]
      && exists m :: Rebuilds(sent, base, window, recorded, was[i], m, b)
    }

    /**
     * A source arrived; it may make a buffered group recoverable. A result stands
     * for a source that never arrived (not this one, not an evicted one), exactly
     * that source when the parity is true. None is returned only when no buffered
     * true parity covering this source was left with one absent newer source.
     */
    method RecordSource(ws: u32, bytes: Bytes8, ghost n: int) returns (b: Option<Bytes8>)
      requires Valid() && ws == Wrap32(n) && InSpan(base, n) && bytes == sent(n)
      modifies this
      ensures Valid() && recorded == old(recorded) + {n}
      ensures Numbers() == W.Recorded(old(Numbers()), n, capacity) && old(evicted) <= evicted
      ensures newestWireSeq == Some(if old(newestWireSeq).Some? && old(newestWireSeq).value > ws
                                    then old(newestWireSeq).value else ws)
      ensures b.Some? ==> exists i :: Uses(old(pending), pending, i, ws, b.value)
      ensures b.None? ==> pending == old(pending) && NoneUsable(|pending|, ws)
    {
      hide Signed32, Wrap32, Unwrap, Recoverable, Rebuilds, WindowValid, GroupInSpan, Covers, W.Recorded;
      newestWireSeq := Some(if newestWireSeq.Some? && newestWireSeq.value > ws then newestWireSeq.value else ws);
      Insert(ws, bytes, n);
      var at;
      b, at := Probe(ws);
      if b.Some? {
        pending := pending[..at] + pending[at + 1..];
        assert Uses(old(pending), pending, at, ws, b.value);
      }
    }

    /** No true parity among the first `n` buffered that covers `ws` has one absent source, unless that is past. */
    ghost predicate NoneUsable(n: nat, ws: u32)
      requires n <= |pending|
      reads this`pending, this`window, this`maxEvicted
    {
      forall i, m :: 0 <= i < n && Covers(pending[i], ws) && Recoverable(sent, base, window, pending[i], m) ==> Past(m)
    }

    /** The first buffered parity covering `ws` that gives its absent source back. */
    method Probe(ws: u32) returns (b: Option<Bytes8>, at: nat)
      requires Valid()
      ensures b.Some? ==>
        at < |pending| && Covers(pending[at], ws)
          && exists m :: Rebuilds(sent, base, window, recorded, pending[at], m, b.value)
      ensures at <= |pending| && (b.None? ==> at == |pending|)
      ensures NoneUsable(at, ws)
    {
      hide Signed32, Wrap32, Unwrap, Recoverable, Rebuilds, WindowValid, GroupInSpan, Covers;
      b, at := None, 0;
      while at < |pending|
        invariant at <= |pending| && b == None
        invariant NoneUsable(at, ws)
      {
        if Covers(pending[at], ws) {
          b := TryRecover(pending[at]);
          if b.Some? { return; }
        }
        at := at + 1;
      }
    }

    /** Drop parities whose group fell behind the window, then the oldest beyond the bound. */
    method Prune()
      requires WindowValid() && |window| <= capacity
      requires (forall env :: env in pending ==> GroupInSpan(base, env)) && OnePerGroup(pending)
      modifies this`pending
      ensures Valid() && pending == Newest(Kept(old(pending), newestWireSeq, capacity), capacity)
    {
      hide WindowValid, GroupInSpan, Kept, PruneKeeps, InReach, OnePerGroup, Newest;
      var kept := [];
      NoneKept(newestWireSeq, capacity);
      for i := 0 to |pending|
        invariant pending == old(pending) && kept == Kept(pending[..i], newestWireSeq, capacity)
      {
        KeptStep(pending, i, newestWireSeq, capacity);
        PruneKeepsIff(pending[i], newestWireSeq, capacity);
        if PruneKeeps(pending[i], newestWireSeq, capacity) { kept := kept + [pending[i]]; }
      }
      assert pending[..|pending|] == pending;
      KeptExactly(pending, newestWireSeq, capacity);
      pending := kept;
      DropOldest();
    }

    /** Forget the longest-waiting parities beyond the capacity. */
    method DropOldest()
      requires OnePerGroup(pending)
      modifies this`pending
      ensures pending == Newest(old(pending), capacity) && |pending| <= capacity && OnePerGroup(pending)
      ensures forall env :: env in pending ==> env in old(pending)
    {
      while |pending| > capacity
        invariant Newest(pending, capacity) == Newest(old(pending), capacity)
        invariant (forall env :: env in pending ==> env in old(pending)) && OnePerGroup(pending)
        decreases |pending|
      {
        pending := pending[1..];
      }
    }

    /** A parity arrived: use it at once, or keep it if a source is still to come. */
    method ReceiveParity(env: Envelope) returns (b: Option<Bytes8>)
      requires Valid() && GroupInSpan(base, env)
      modifies this`pending
      ensures Valid()
      ensures b.Some? ==> exists m :: Rebuilds(sent, base, window, recorded, env, m, b.value)
      ensures forall m :: Recoverable(sent, base, window, env, m) && !Past(m) ==> b == Some(sent(m))
      ensures var f := Unwrap(base, env.first);
              && (b.Some? ==> W.Rebuildable(Numbers(), f, env.K()))
              && (TrueGroup(env) && W.Rebuildable(Numbers(), f, env.K()) ==> b.Some?)
      ensures pending == if b.None? && W.AbsentCount(Numbers().order, Unwrap(base, env.first), env.K()) > 0
                         then Newest(Kept(Buffered(old(pending), env), newestWireSeq, capacity), capacity)
                         else old(pending)
    {
      hide Recoverable, Rebuilds, WindowValid, Kept, GroupAt, Newest, W.AbsentCount, W.Rebuildable, TrueGroup;
      b := TryRecover(env);
      var _, _, missing := Gather(env);
      AbsentByNumber(Unwrap(base, env.first), env.K());
      hide Unwrap;
      if b.None? && missing > 0 {
        var at := FindGroup(env.first);
        BufferedOnce(pending, env);
        pending := if at < |pending| then pending[at := env] else pending + [env];
        Prune();
      }
    }

    method FindGroup(first: u32) returns (at: nat)
      ensures at == GroupAt(pending, first)
    {
      at := 0;
      while at < |pending| && pending[at].first != first
        invariant at <= |pending| && forall i :: 0 <= i < at ==> pending[i].first != first
      {
        at := at + 1;
      }
    }
  }

  lemma NoneKept(newest: Option<u32>, capacity: nat)
    ensures Kept([], newest, capacity) == []
  {
  }

  lemma KeptStep(pending: seq<Envelope>, i: nat, newest: Option<u32>, capacity: nat)
    requires i < |pending|
    ensures Kept(pending[..i + 1], newest, capacity)
         == Kept(pending[..i], newest, capacity) + if InReach(pending[i], newest, capacity) then [pending[i]] else []
  {
    assert pending[..i + 1][..i] == pending[..i];
  }

  /** The saturating test is that of unbounded numbers. */
  lemma PruneKeepsIff(env: Envelope, newest: Option<u32>, capacity: nat)
    ensures PruneKeeps(env, newest, capacity) <==> InReach(env, newest, capacity)
  {
  }

  /** Source 0 has arrived and the parity of 0, 1, 2 waits. */
  method OneOfThree(ghost sent: Sent, zero: Bytes8, group: Envelope, ghost other: Envelope) returns (d: ParityDecoder)
    requires zero == sent(0) && group.first == 0 && group.K() == 3 && other.first == 1001 && other.K() == 2
    ensures fresh(d) && d.Valid() && d.sent == sent && d.base == 0 && d.capacity == 3
    ensures d.pending == [group] && d.newestWireSeq == Some(0) && d.Numbers() == W.Window([0], None)
  {
    hide Rebuilds, Recoverable, W.Recorded, W.Rebuildable, W.AbsentCount, Kept, Buffered, Newest, TrueWindow, MarkOk;
    hide WindowOk;
    hide Remembered, IsParityOf, IsTileDatagram;
    JumpNumbers();
    JumpBuffers(group, other);
    assert Unwrap(0, 0) == 0;
    d := new ParityDecoder(3, sent, 0);
    var r0 := d.RecordSource(0, zero, 0);
    var r1 := d.ReceiveParity(group);
  }

  /**
   * Pruning forfeits groups that what arrives next would have completed. Of the
   * group 0, 1, 2 only 0 has arrived when the numbers jump to 1000; the next
   * parity to be buffered drops the group's; then 1 arrives, which leaves 2 alone
   * absent and newer than everything evicted, and nothing is rebuilt.
   */
  method PruningForfeits(ghost sent: Sent, zero: Bytes8, far: Bytes8, one: Bytes8, group: Envelope, other: Envelope)
    returns (r: Option<Bytes8>, d: ParityDecoder)
    requires zero == sent(0) && far == sent(1000) && one == sent(1)
    requires group.first == 0 && group.K() == 3 && other.first == 1001 && other.K() == 2
    ensures r == None && d.sent == sent && d.base == 0
    ensures d.Numbers() == W.Window([0, 1000, 1], None) && W.Rebuildable(d.Numbers(), 0, 3)
  {
    hide Rebuilds, Recoverable, W.Recorded, W.Rebuildable, W.AbsentCount, Kept, Buffered, Newest, TrueWindow, MarkOk;
    hide WindowOk;
    hide Remembered, IsParityOf, IsTileDatagram;
    JumpNumbers();
    JumpBuffers(group, other);
    d := OneOfThree(sent, zero, group, other);
    assert !Covers(group, 1000) && !Covers(other, 1) && Unwrap(0, 1001) == 1001;
    var r2 := d.RecordSource(1000, far, 1000);
    var r3 := d.ReceiveParity(other);
    r := d.RecordSource(1, one, 1);
  }

  lemma JumpBuffers(group: Envelope, other: Envelope)
    requires group.first == 0 && group.K() == 3 && other.first == 1001 && other.K() == 2
    ensures Newest(Kept(Buffered([], group), Some(0), 3), 3) == [group]
    ensures Newest(Kept(Buffered([group], other), Some(1000), 3), 3) == [other]
  {
    hide InReach, Kept;
    NoneKept(Some(0), 3);
    NoneKept(Some(1000), 3);
    KeptStep([group], 0, Some(0), 3);
    KeptStep([group, other], 0, Some(1000), 3);
    KeptStep([group, other], 1, Some(1000), 3);
    assert [group][..0] == [] && [group][..1] == [group];
    assert [group, other][..0] == [] && [group, other][..1] == [group] && [group, other][..2] == [group, other];
    JumpHorizon(group, other);
  }

  lemma JumpHorizon(group: Envelope, other: Envelope)
    requires group.first == 0 && group.K() == 3 && other.first == 1001 && other.K() == 2
    ensures InReach(group, Some(0), 3) && !InReach(group, Some(1000), 3) && InReach(other, Some(1000), 3)
    ensures Buffered([], group) == [group] && Buffered([group], other) == [group, other]
  {
    assert GroupAt([], 0) == 0 && [group][1..] == [] && GroupAt([group], 1001) == 1;
  }

  lemma JumpNumbers()
    ensures W.Recorded(W.Window([], None), 0, 3) == W.Window([0], None)
    ensures W.Recorded(W.Window([0], None), 1000, 3) == W.Window([0, 1000], None)
    ensures W.Recorded(W.Window([0, 1000], None), 1, 3) == W.Window([0, 1000, 1], None)
    ensures W.AbsentCount([0], 0, 3) == 2 && W.AbsentCount([0, 1000], 1001, 2) == 2
    ensures !W.Rebuildable(W.Window([0], None), 0, 3) && !W.Rebuildable(W.Window([0, 1000], None), 1001, 2)
    ensures W.Rebuildable(W.Window([0, 1000, 1], None), 0, 3)
  {
    assert W.AbsentCount([0], 0, 1) == 0 && W.AbsentCount([0], 0, 2) == 1;
    NotWithTwoAbsent(W.Window([0], None), 0, 3);
    NotWithTwoAbsent(W.Window([0, 1000], None), 1001, 2);
    assert W.OneAbsent(W.Window([0, 1000, 1], None), 0, 3, 2);
  }

  lemma NotWithTwoAbsent(w: W.Window, f: int, k: nat)
    requires W.AbsentCount(w.order, f, k) >= 2
    ensures !W.Rebuildable(w, f, k)
  {
    forall m ensures !W.OneAbsent(w, f, k, m) {
      if W.InGroup(f, k, m) && m !in w.order { W.AbsentIs(w.order, f, k, m); }
    }
  }
}
