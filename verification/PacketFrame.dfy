/**
 * Framing of the packet bridge: [total(4)][payload length(4)][payload][port(2)][host NUL].
 *
 * Both directions reuse a buffer and cache the address part of the last frame.
 * The caches are shown to be invisible: each side does what its cache-free
 * definition says, and reading back what was framed gives every payload and
 * address in order.
 */
module PacketFrame {
  import opened Serial
  import opened Bytes

  const MAX_DATAGRAM: nat := 65535
  const FRAME_ADDR_SLACK: nat := 67

  /** An address in its text form, as it is framed. */
  datatype AddrPort = AddrPort(host: seq<byte>, port: nat)

  predicate AddrOk(ap: AddrPort) { ap.port < 0x1_0000 && 0 !in ap.host }

  function AddrTail(ap: AddrPort): seq<byte>
    requires ap.port < 0x1_0000
  {
    PutBe16(ap.port) + ap.host + [0]
  }

  function FrameLen(payload: seq<byte>, ap: AddrPort): nat { 8 + |payload| + 3 + |ap.host| }

  /** The frame, with no cache; the length field is 32 bits. */
  function Encode(payload: seq<byte>, ap: AddrPort): seq<byte>
    requires |payload| < MOD32 && ap.port < 0x1_0000
  {
    PutBe32(Wrap32(FrameLen(payload, ap))) + PutBe32(|payload|) + payload + AddrTail(ap)
  }

  // --------------------------------------------------------------- outward

  class OutFramer {
    /** Header, payload and address tail of the frame being built. */
    var buf: array<byte>
    var lastSrc: AddrPort
    var lastTail: Option<seq<byte>>

    ghost predicate Valid()
      reads this
    {
      && buf.Length >= 8 + MAX_DATAGRAM
      && (lastTail.Some? ==> lastSrc.port < 0x1_0000 && lastTail.value == AddrTail(lastSrc))
    }

    constructor ()
      ensures Valid() && fresh(buf)
    {
      buf := new byte[8 + MAX_DATAGRAM + FRAME_ADDR_SLACK](_ => 0);
      lastSrc, lastTail := AddrPort([], 0), None;
    }

    /** A datagram is read straight to its place in the frame. */
    method Receive(data: seq<byte>)
      requires Valid() && |data| <= MAX_DATAGRAM
      modifies buf
      ensures buf[8..8 + |data|] == data
    {
      for i := 0 to |data|
        invariant buf[8..8 + i] == data[..i]
      {
        buf[8 + i] := data[i];
        assert buf[8..8 + i + 1] == buf[8..8 + i] + [data[i]];
      }
      assert data[..|data|] == data;
    }

    method Grow(total: nat, keep: nat)
      requires Valid() && keep <= buf.Length <= total
      modifies this`buf
      ensures Valid() && fresh(buf) && buf.Length == total && buf[..keep] == old(buf[..keep])
    {
      var grown := new byte[total](_ => 0);
      for i := 0 to keep
        invariant buf == old(buf) && grown[..i] == old(buf[..i])
      {
        grown[i] := buf[i];
        assert grown[..i + 1] == grown[..i] + [buf[i]];
      }
      buf := grown;
    }

    /** Write `s` at `at`. */
    method Put(at: nat, s: seq<byte>)
      requires at + |s| <= buf.Length
      modifies buf
      ensures buf[..] == Splice(old(buf[..]), at, s)
    {
      ghost var was := buf[..];
      forall i | 0 <= i < |s| { buf[at + i] := s[i]; }
      forall i | 0 <= i < buf.Length
        ensures buf[i] == Splice(was, at, s)[i]
      {
        SpliceAt(was, at, s, i);
      }
    }

    /**
     * The frame of the `n`-byte datagram read to the buffer: what a framer
     * without buffer or cache would build for this source.
     */
    method Frame(n: nat, src: Option<AddrPort>) returns (frame: Option<seq<byte>>)
      requires Valid() && n <= MAX_DATAGRAM && (src.Some? ==> src.value.port < 0x1_0000)
      modifies this, buf
      ensures Valid() && (buf == old(buf) || fresh(buf))
      ensures frame == if src.None? then None else Some(Encode(old(buf[8..8 + n]), src.value))
    {
      hide PutBe32, PutBe16, AddrTail;
      if src.None? { return None; }
      var ap := src.value;
      ghost var payload := buf[8..8 + n];
      if ap != lastSrc || lastTail == None {
        lastSrc, lastTail := ap, Some(AddrTail(ap));
      }
      var tail := lastTail.value;
      TailLen(ap);
      var total := 8 + n + |tail|;
      assert buf[..8 + n][8..] == payload;
      if total > buf.Length { Grow(total, 8 + n); }
      assert buf[..8 + n][8..] == payload;
      var filled := Fill(n, total, tail);
      assert payload == old(buf[8..8 + n]);
      frame := Some(filled);
    }

    method Fill(n: nat, total: nat, tail: seq<byte>) returns (frame: seq<byte>)
      requires n < MOD32 && total == 8 + n + |tail| <= buf.Length
      modifies buf
      ensures frame == PutBe32(Wrap32(total)) + PutBe32(n) + old(buf[..8 + n][8..]) + tail
    {
      hide PutBe32;
      var head := PutBe32(Wrap32(total)) + PutBe32(n);
      ghost var was := buf[..];
      Put(0, head);
      Put(8 + n, tail);
      assert buf[..] == Splice(Splice(was, 0, head), 8 + n, tail);
      FrameOf(was, head, n, tail);
      frame := buf[..total];
      assert frame == buf[..][..total];
    }
  }

  /** `s` with `x` written at `at`. */
  function Splice(s: seq<byte>, at: nat, x: seq<byte>): (r: seq<byte>)
    requires at + |x| <= |s|
    ensures |r| == |s|
  {
    s[..at] + x + s[at + |x|..]
  }

  lemma SpliceAt(s: seq<byte>, at: nat, x: seq<byte>, i: nat)
    requires at + |x| <= |s| && i < |s|
    ensures Splice(s, at, x)[i] == if at <= i < at + |x| then x[i - at] else s[i]
  {
  }

  /** Header and address tail written around the payload in place. */
  lemma FrameOf(was: seq<byte>, head: seq<byte>, n: nat, tail: seq<byte>)
    requires |head| == 8 && 8 + n + |tail| <= |was|
    ensures Splice(Splice(was, 0, head), 8 + n, tail)[..8 + n + |tail|] == head + was[..8 + n][8..] + tail
  {
    hide Splice;
    var total := 8 + n + |tail|;
    var mid := Splice(was, 0, head);
    var framed, wanted := Splice(mid, 8 + n, tail)[..total], head + was[..8 + n][8..] + tail;
    forall i | 0 <= i < total
      ensures framed[i] == wanted[i]
    {
      SpliceAt(mid, 8 + n, tail, i);
      SpliceAt(was, 0, head, i);
      assert 8 <= i < 8 + n ==> was[..8 + n][8..][i - 8] == was[i];
    }
  }

  lemma TailLen(ap: AddrPort)
    requires ap.port < 0x1_0000
    ensures |AddrTail(ap)| == 3 + |ap.host|
  {
  }

  // ---------------------------------------------------------------- inward

  /** Everything before the first zero byte. */
  function UpToNul(s: seq<byte>): (r: seq<byte>)
    ensures r <= s && 0 !in r && (|r| < |s| ==> s[|r|] == 0)
  {
    if s == [] || s[0] == 0 then [] else [s[0]] + UpToNul(s[1..])
  }

  lemma {:induction false} UpToNulIs(s: seq<byte>, t: seq<byte>)
    requires t <= s && 0 !in t && (|t| < |s| ==> s[|t|] == 0)
    ensures UpToNul(s) == t
  {
    if t == [] {
    } else {
      assert s[0] == t[0] && s[0] in t;
      assert forall b :: b in t[1..] ==> b in t;
      UpToNulIs(s[1..], t[1..]);
    }
  }

  type Resolver<!D> = (seq<byte>, nat) -> Option<D>

  function ResolveTail<D>(resolve: Resolver<D>, tail: seq<byte>): Option<D>
    requires |tail| >= 2
  {
    resolve(tail[2..], Be16(tail, 0))
  }

  /** What a frame body says, with no cache. */
  function ParseBody<D>(resolve: Resolver<D>, body: seq<byte>, payloadLen: nat): Option<(seq<byte>, D)>
    requires payloadLen + 3 <= |body|
  {
    var tail := body[payloadLen..];
    var dst := ResolveTail(resolve, tail[..2] + UpToNul(tail[2..]));
    if dst.Some? then Some((body[..payloadLen], dst.value)) else None
  }

  /** What the bridge forwards of a byte stream, up to its end or a malformed frame. */
  function Deliver<D>(resolve: Resolver<D>, stream: seq<byte>): seq<(seq<byte>, D)>
    decreases |stream|
  {
    if |stream| < 8 then [] else
      var total, n := Be32(stream, 0), Be32(stream, 4);
      if total < n + 11 || |stream| < total then [] else
        var parsed := ParseBody(resolve, stream[8..total], n);
        (if parsed.Some? then [parsed.value] else []) + Deliver(resolve, stream[total..])
  }

  method IndexOfNul(s: seq<byte>) returns (i: nat)
    ensures i <= |s| && s[..i] == UpToNul(s)
  {
    i := 0;
    while i < |s| && s[i] != 0
      invariant i <= |s| && 0 !in s[..i]
    {
      i := i + 1;
    }
    UpToNulIs(s, s[..i]);
  }

  class InFramer<D> {
    const resolve: Resolver<D>
    /** The body buffer, reused while it is long enough. */
    var body: array<byte>
    var lastTail: seq<byte>
    var lastDst: Option<D>

    /** The cached destination is what resolving the cached tail gives. */
    ghost predicate Valid()
      reads this
    {
      lastDst.Some? ==> |lastTail| >= 2 && ResolveTail(resolve, lastTail) == lastDst
    }

    constructor (r: Resolver<D>)
      ensures Valid() && resolve == r && fresh(body)
    {
      resolve, body, lastTail, lastDst := r, new byte[0], [], None;
    }

    method Parse(bytes: seq<byte>, payloadLen: nat) returns (r: Option<(seq<byte>, D)>)
      requires Valid() && payloadLen + 3 <= |bytes|
      modifies this`lastTail, this`lastDst
      ensures Valid() && r == ParseBody(resolve, bytes, payloadLen)
    {
      var payload, whole := bytes[..payloadLen], bytes[payloadLen..];
      var i := IndexOfNul(whole[2..]);
      var tail := whole[..2 + i];
      assert tail == whole[..2] + UpToNul(whole[2..]);
      if lastDst.Some? && tail == lastTail { return Some((payload, lastDst.value)); }
      var d := ResolveTail(resolve, tail);
      if d.None? { return None; }
      lastTail, lastDst := tail, d;
      return Some((payload, d.value));
    }

    /** Room for a body of `n` bytes. */
    method BodyBuf(n: nat)
      modifies this`body
      ensures body.Length >= n && (body == old(body) || fresh(body))
    {
      if body.Length < n { body := new byte[n](_ => 0); }
    }

    /** Read `s` to the body buffer. */
    method ReadFull(s: seq<byte>)
      requires |s| <= body.Length
      modifies body
      ensures body[..|s|] == s
    {
      forall i | 0 <= i < |s| { body[i] := s[i]; }
    }

    /** Read a whole body, then parse it. */
    method ReadBody(s: seq<byte>, payloadLen: nat) returns (r: Option<(seq<byte>, D)>)
      requires Valid() && payloadLen + 3 <= |s|
      modifies this, body
      ensures Valid() && (body == old(body) || fresh(body)) && r == ParseBody(resolve, s, payloadLen)
    {
      BodyBuf(|s|);
      ReadFull(s);
      r := Parse(body[..|s|], payloadLen);
    }

    /** The bridge's reading loop forwards exactly what the stream says. */
    method Pump(stream: seq<byte>) returns (out: seq<(seq<byte>, D)>)
      requires Valid()
      modifies this, body
      ensures Valid() && out == Deliver(resolve, stream)
    {
      hide Deliver, ParseBody, Be32;
      out := [];
      var at := 0;
      assert stream[0..] == stream;
      while true
        invariant at <= |stream| && Valid() && (body == old(body) || fresh(body))
        invariant Deliver(resolve, stream) == out + Deliver(resolve, stream[at..])
        decreases |stream| - at
      {
        DeliverAt(resolve, stream, at);
        if |stream| - at < 8 { return; }
        var header := stream[at..at + 8];
        var total, payloadLen := Be32(header, 0), Be32(header, 4);
        if total < payloadLen + 11 { return; }
        if |stream| - at < total { return; }
        var r := ReadBody(stream[at + 8..at + total], payloadLen);
        if r.Some? { out := out + [r.value]; }
        at := at + total;
      }
    }
  }

  /** One turn of the reading loop. */
  lemma DeliverAt<D>(resolve: Resolver<D>, stream: seq<byte>, at: nat)
    requires at <= |stream|
    ensures var rest := Deliver(resolve, stream[at..]);
            if |stream| - at < 8 then rest == [] else
              var total, n := Be32(stream[at..at + 8], 0), Be32(stream[at..at + 8], 4);
              if total < n + 11 || |stream| - at < total then rest == [] else
                var parsed := ParseBody(resolve, stream[at + 8..at + total], n);
                rest == (if parsed.Some? then [parsed.value] else []) + Deliver(resolve, stream[at + total..])
  {
    hide ParseBody, Be32;
    var rest := stream[at..];
    if |rest| >= 8 {
      SliceOfTail(stream, at, 0, 8);
      HeaderOf(rest);
      var total, n := Be32(rest, 0), Be32(rest, 4);
      if total >= n + 11 && |rest| >= total {
        SliceOfTail(stream, at, 8, total);
        SliceOfTail(stream, at, total, total);
      }
    }
  }

  lemma HeaderOf(s: seq<byte>)
    requires |s| >= 8
    ensures Be32(s[0..8], 0) == Be32(s, 0) && Be32(s[0..8], 4) == Be32(s, 4)
  {
    assert forall i :: 0 <= i < 8 ==> s[0..8][i] == s[i];
  }

  // ------------------------------------------------------------ round trip

  lemma HeaderFields(a: seq<byte>, b: seq<byte>, s: seq<byte>)
    requires |a| == |b| == 4 && |s| >= 8 && s[..4] == a && s[4..8] == b
    ensures Be32(s, 0) == Be32(a, 0) && Be32(s, 4) == Be32(b, 0)
  {
    assert forall i :: 0 <= i < 4 ==> s[i] == s[..4][i];
    assert forall i :: 0 <= i < 4 ==> s[4 + i] == s[4..8][i];
  }

  lemma Slices(a: seq<byte>, b: seq<byte>, body: seq<byte>, rest: seq<byte>)
    requires |a| == |b| == 4
    ensures var s := a + b + body + rest;
            s[..4] == a && s[4..8] == b && s[8..8 + |body|] == body && s[8 + |body|..] == rest
  {
  }

  lemma FrameFields(payload: seq<byte>, ap: AddrPort, rest: seq<byte>)
    requires AddrOk(ap) && FrameLen(payload, ap) < MOD32
    ensures var s := Encode(payload, ap) + rest; var total := FrameLen(payload, ap);
            && |s| == total + |rest| && Be32(s, 0) == total && Be32(s, 4) == |payload|
            && s[8..total] == payload + AddrTail(ap) && s[total..] == rest
  {
    hide PutBe32, AddrTail, Be32;
    TailLen(ap);
    var a, b := PutBe32(FrameLen(payload, ap)), PutBe32(|payload|);
    var s := Encode(payload, ap) + rest;
    assert s == a + b + (payload + AddrTail(ap)) + rest;
    Slices(a, b, payload + AddrTail(ap), rest);
    HeaderFields(a, b, s);
  }

  lemma BodyParses<D>(resolve: Resolver<D>, payload: seq<byte>, ap: AddrPort)
    requires AddrOk(ap)
    ensures |payload + AddrTail(ap)| >= |payload| + 3
    ensures var d := resolve(ap.host, ap.port);
            ParseBody(resolve, payload + AddrTail(ap), |payload|) == if d.Some? then Some((payload, d.value)) else None
  {
    var body := payload + AddrTail(ap);
    var tail := body[|payload|..];
    assert tail == AddrTail(ap) && body[..|payload|] == payload;
    assert tail[..2] == PutBe16(ap.port) && tail[2..] == ap.host + [0];
    UpToNulIs(tail[2..], ap.host);
    var t := PutBe16(ap.port) + ap.host;
    assert t[2..] == ap.host && t[..2] == PutBe16(ap.port);
    assert Be16(t, 0) == Be16(PutBe16(ap.port), 0);
  }

  /** Reading a framed datagram gives it back, and leaves what follows to be read. */
  lemma FrameRoundTrip<D>(resolve: Resolver<D>, payload: seq<byte>, ap: AddrPort, rest: seq<byte>)
    requires AddrOk(ap) && FrameLen(payload, ap) < MOD32
    ensures var d := resolve(ap.host, ap.port);
            Deliver(resolve, Encode(payload, ap) + rest)
            == (if d.Some? then [(payload, d.value)] else []) + Deliver(resolve, rest)
  {
    hide Encode, AddrTail, ParseBody;
    FrameFields(payload, ap, rest);
    BodyParses(resolve, payload, ap);
  }

  datatype Datagram = Datagram(payload: seq<byte>, peer: AddrPort)

  predicate DatagramOk(d: Datagram) { AddrOk(d.peer) && FrameLen(d.payload, d.peer) < MOD32 }

  function EncodeAll(ds: seq<Datagram>): seq<byte>
    requires forall i :: 0 <= i < |ds| ==> DatagramOk(ds[i])
  {
    if |ds| == 0 then [] else
      assert DatagramOk(ds[0]);
      Encode(ds[0].payload, ds[0].peer) + EncodeAll(ds[1..])
  }

  function Resolved<D>(resolve: Resolver<D>, ds: seq<Datagram>): seq<(seq<byte>, D)> {
    if ds == [] then [] else
      var d := resolve(ds[0].peer.host, ds[0].peer.port);
      (if d.Some? then [(ds[0].payload, d.value)] else []) + Resolved(resolve, ds[1..])
  }

  /**
   * A whole run of framed datagrams reads back as exactly those datagrams, in
   * order, each to its own peer; one whose peer does not resolve is skipped alone.
   */
  lemma {:induction false} StreamRoundTrip<D>(resolve: Resolver<D>, ds: seq<Datagram>)
    requires forall i :: 0 <= i < |ds| ==> DatagramOk(ds[i])
    ensures Deliver(resolve, EncodeAll(ds)) == Resolved(resolve, ds)
  {
    hide Encode, Deliver;
    if ds == [] {
      assert Deliver(resolve, []) == [] by { NothingDelivered(resolve); }
    } else {
      FrameRoundTrip(resolve, ds[0].payload, ds[0].peer, EncodeAll(ds[1..]));
      StreamRoundTrip(resolve, ds[1..]);
    }
  }

  lemma NothingDelivered<D>(resolve: Resolver<D>)
    ensures Deliver(resolve, []) == []
  {
  }

}
