/**
 * The wire form of one CDF 5/3 pass: three run-length coded channel planes, each
 * behind a 16-bit length, with the present-passes bitmap ahead of pass 0.
 *
 * The client has two ways to take a pass: expand it at once, or validate it and
 * let someone else expand it later. They accept the same payloads, fail with the
 * same errors and give the same planes.
 */
module PassWire {
  import opened Serial
  import opened Bytes

  const CHANNEL_BYTES: nat := 128

  // ------------------------------------------------------------ run lengths

  function Zeros(n: nat): (r: seq<byte>)
    ensures |r| == n && forall i :: 0 <= i < n ==> r[i] == 0
  {
    seq(n, _ => 0)
  }

  /**
   * What a stream stands for: a token below 0x7F is itself, 0x7F makes the next
   * byte itself (and is ignored at the end), 0x80 + k is a run of k + 1 zeros.
   */
  function Expand(rle: seq<byte>): seq<byte> {
    if rle == [] then []
    else if rle[0] == 0x7F then if |rle| >= 2 then [rle[1]] + Expand(rle[2..]) else []
    else if rle[0] >= 0x80 then Zeros(rle[0] - 0x7F) + Expand(rle[1..])
    else [rle[0]] + Expand(rle[1..])
  }

  /** How many zeros `data` starts with, up to `cap`. */
  function ZeroRun(data: seq<byte>, cap: nat): (r: nat)
    ensures r <= cap && r <= |data| && forall i :: 0 <= i < r ==> data[i] == 0
  {
    if data == [] || cap == 0 || data[0] != 0 then 0 else 1 + ZeroRun(data[1..], cap - 1)
  }

  lemma {:induction false} ZeroRunIs(data: seq<byte>, cap: nat, r: nat)
    requires r <= cap && r <= |data| && (forall i :: 0 <= i < r ==> data[i] == 0)
    requires r == cap || r == |data| || data[r] != 0
    ensures ZeroRun(data, cap) == r
  {
    if r == 0 {
    } else {
      ZeroRunIs(data[1..], cap - 1, r - 1);
    }
  }

  function Compress(data: seq<byte>): seq<byte> {
    if data == [] then []
    else if data[0] == 0 then
      var run := ZeroRun(data, 128);
      [0x80 + (run - 1)] + Compress(data[run..])
    else if data[0] < 0x7F then [data[0]] + Compress(data[1..])
    else [0x7F, data[0]] + Compress(data[1..])
  }

  lemma ExpandZeros(run: nat, rest: seq<byte>)
    requires 1 <= run <= 128
    ensures Expand([0x80 + (run - 1)] + rest) == Zeros(run) + Expand(rest)
  {
    var token: byte := 0x80 + (run - 1);
    assert ([token] + rest)[1..] == rest;
  }

  lemma ExpandLiteral(b: byte, rest: seq<byte>)
    ensures b < 0x7F ==> Expand([b] + rest) == [b] + Expand(rest)
    ensures Expand([0x7F, b] + rest) == [b] + Expand(rest)
  {
    assert ([b] + rest)[1..] == rest;
    assert ([0x7F, b] + rest)[2..] == rest;
  }

  /** Run-length coding loses nothing, and at worst doubles the length. */
  lemma {:induction false} CompressExpands(data: seq<byte>)
    ensures Expand(Compress(data)) == data && |Compress(data)| <= 2 * |data|
  {
    hide Expand;
    if data == [] {
      NothingCoded();
    } else if data[0] == 0 {
      var run := ZeroRun(data, 128);
      CompressExpands(data[run..]);
      ExpandZeros(run, Compress(data[run..]));
      assert data == Zeros(run) + data[run..];
    } else {
      CompressExpands(data[1..]);
      ExpandLiteral(data[0], Compress(data[1..]));
      assert data == [data[0]] + data[1..];
    }
  }

  lemma CompressZeros(data: seq<byte>, i: nat, run: nat)
    requires 1 <= run <= 128 && i + run <= |data| && (forall j :: i <= j < i + run ==> data[j] == 0)
    requires run == 128 || i + run == |data| || data[i + run] != 0
    ensures Compress(data[i..]) == [0x80 + (run - 1)] + Compress(data[i + run..])
  {
    var rest := data[i..];
    ZeroRunIs(rest, 128, run);
    assert rest[run..] == data[i + run..];
  }

  lemma CompressLiteral(data: seq<byte>, i: nat)
    requires i < |data| && data[i] != 0
    ensures Compress(data[i..]) == (if data[i] < 0x7F then [data[i]] else [0x7F, data[i]]) + Compress(data[i + 1..])
  {
    assert data[i..][1..] == data[i + 1..];
  }

  method RleEncode(data: seq<byte>) returns (out: seq<byte>)
    ensures out == Compress(data)
  {
    hide Compress;
    out := [];
    var i := 0;
    assert data[0..] == data;
    while i < |data|
      invariant i <= |data| && out + Compress(data[i..]) == Compress(data)
    {
      if data[i] == 0 {
        var run := 1;
        while i + run < |data| && data[i + run] == 0 && run < 128
          invariant 1 <= run <= 128 && i + run <= |data| && forall j :: i <= j < i + run ==> data[j] == 0
        {
          run := run + 1;
        }
        CompressZeros(data, i, run);
        out := out + [0x80 + (run - 1)];
        i := i + run;
      } else {
        CompressLiteral(data, i);
        if data[i] < 0x7F {
          out := out + [data[i]];
        } else {
          out := out + [0x7F, data[i]];
        }
        i := i + 1;
      }
    }
    NothingCoded();
    assert data[i..] == [];
  }

  lemma NothingCoded()
    ensures Compress([]) == [] && Expand([]) == []
  {
  }

  /** What the token at `i` stands for. */
  function Token(rle: seq<byte>, i: nat): seq<byte>
    requires i < |rle| && (rle[i] == 0x7F ==> i + 1 < |rle|)
  {
    if rle[i] == 0x7F then [rle[i + 1]] else if rle[i] >= 0x80 then Zeros(rle[i] - 0x7F) else [rle[i]]
  }

  lemma ExpandAt(rle: seq<byte>, i: nat)
    requires i < |rle|
    ensures rle[i] == 0x7F && i + 1 == |rle| ==> Expand(rle[i..]) == []
    ensures rle[i] == 0x7F && i + 1 < |rle| ==> Expand(rle[i..]) == Token(rle, i) + Expand(rle[i + 2..])
    ensures rle[i] != 0x7F ==> Expand(rle[i..]) == Token(rle, i) + Expand(rle[i + 1..])
  {
    var rest := rle[i..];
    assert rest[1..] == rle[i + 1..];
    assert i + 2 <= |rle| ==> rest[2..] == rle[i + 2..];
  }

  function Cap(n: nat): nat { if n > 128 then 129 else n }

  /** Write `s` from `at`, as far as the slot of 128 bytes at `start` goes. */
  method Store(out: array<byte>, start: nat, n: nat, s: seq<byte>)
    requires start + CHANNEL_BYTES <= out.Length && n <= CHANNEL_BYTES
    modifies out
    ensures forall j :: 0 <= j < out.Length ==>
      out[j] == if start + n <= j < start + n + |s| && j < start + CHANNEL_BYTES then s[j - start - n] else old(out[j])
  {
    forall j | start + n <= j < start + CHANNEL_BYTES && j < start + n + |s| { out[j] := s[j - start - n]; }
  }

  /** The slot at `start` holds the first bytes of `e`; everything else is as it was. */
  ghost predicate Stored(was: seq<byte>, now: seq<byte>, start: nat, e: seq<byte>) {
    && |now| == |was| && start + CHANNEL_BYTES <= |was|
    && forall j :: 0 <= j < |now| ==>
         now[j] == if start <= j < start + CHANNEL_BYTES && j < start + |e| then e[j - start] else was[j]
  }

  lemma StoredMore(was: seq<byte>, mid: seq<byte>, now: seq<byte>, start: nat, e: seq<byte>, s: seq<byte>)
    requires Stored(was, mid, start, e) && |e| <= CHANNEL_BYTES && |now| == |mid|
    requires forall j :: 0 <= j < |now| ==>
      now[j] == if start + |e| <= j < start + |e| + |s| && j < start + CHANNEL_BYTES then s[j - start - |e|] else mid[j]
    ensures Stored(was, now, start, e + s)
  {
  }

  /** Expand a stream into one 128-byte slot; more than that is cut off and reported as 129. */
  method RleDecodeInto(rle: seq<byte>, out: array<byte>, start: nat) returns (n: nat)
    requires start + CHANNEL_BYTES <= out.Length
    modifies out
    ensures n == Cap(|Expand(rle)|)
    ensures |Expand(rle)| <= CHANNEL_BYTES ==> Stored(old(out[..]), out[..], start, Expand(rle))
    ensures forall j :: 0 <= j < out.Length && !(start <= j < start + CHANNEL_BYTES) ==> out[j] == old(out[j])
  {
    hide Stored, Expand, Token;
    n := 0;
    var i := 0;
    ghost var e: seq<byte> := [];
    NothingStored(out[..], start);
    NothingCoded();
    assert rle[0..] == rle;
    while i < |rle|
      invariant i <= |rle| && n == |e| <= CHANNEL_BYTES && Expand(rle) == e + Expand(rle[i..])
      invariant Stored(old(out[..]), out[..], start, e)
      invariant forall j :: 0 <= j < out.Length && !(start <= j < start + CHANNEL_BYTES) ==> out[j] == old(out[j])
    {
      ExpandAt(rle, i);
      assert e + [] == e;
      if rle[i] == 0x7F && i + 1 == |rle| { return; }
      var s := Token(rle, i);
      ghost var mid := out[..];
      Store(out, start, n, s);
      StoredMore(old(out[..]), mid, out[..], start, e, s);
      i := i + if rle[i] == 0x7F then 2 else 1;
      e, n := e + s, n + |s|;
      if n > 128 { return 129; }
    }
    assert rle[i..] == [] && e + [] == e;
  }

  lemma NothingStored(was: seq<byte>, start: nat)
    requires start + CHANNEL_BYTES <= |was|
    ensures Stored(was, was, start, [])
  {
  }

  /** How much the token at `i` adds to the expanded length. */
  lemma LengthAt(rle: seq<byte>, i: nat)
    requires i < |rle|
    ensures rle[i] == 0x7F ==> rle[i] / 128 * (rle[i] % 128) == 0
    ensures rle[i] == 0x7F && i + 1 == |rle| ==> |Expand(rle[i..])| == 0
    ensures rle[i] == 0x7F && i + 1 < |rle| ==> |Expand(rle[i..])| == 1 + |Expand(rle[i + 2..])|
    ensures rle[i] != 0x7F ==>
      |Expand(rle[i..])| == 1 + rle[i] / 128 * (rle[i] % 128) + |Expand(rle[i + 1..])|
  {
    ExpandAt(rle, i);
    hide Expand;
    TokenLength(rle[i]);
  }

  lemma TokenLength(t: byte)
    ensures t / 128 * (t % 128) == if t < 128 then 0 else t - 128
  {
    assert t / 128 == if t < 128 then 0 else 1;
  }

  /** The branch-free count gives the same capped length as decoding would. */
  method RleExpandedLen(rle: seq<byte>) returns (n: nat)
    ensures n == Cap(|Expand(rle)|)
  {
    hide Expand;
    n := 0;
    var i := 0;
    assert rle[0..] == rle && rle[|rle|..] == [];
    NothingCoded();
    while i < |rle|
      invariant i <= |rle| + 1
      invariant i <= |rle| ==> n + |Expand(rle[i..])| == |Expand(rle)|
      invariant i == |rle| + 1 ==> n == |Expand(rle)| + 1
    {
      LengthAt(rle, i);
      var t := rle[i];
      n := n + 1 + t / 128 * (t % 128);
      i := i + 1 + if t == 0x7F then 1 else 0;
    }
    if i > |rle| { n := n - 1; }
    n := if n < 129 then n else 129;
  }

  // ---------------------------------------------------------------- framing

  datatype Code = BadPass | Truncated | RleLength

  datatype Result<T> = Ok(value: T) | Err(code: Code)

  /** The bitmap and where the channel blocks start. */
  function ParsePrefix(payload: seq<byte>, pass: nat): Result<(Option<nat>, nat)> {
    if pass >= 14 then Err(BadPass)
    else if pass != 0 then Ok((None, 0))
    else if |payload| < 2 then Err(Truncated)
    else if Be16(payload, 0) % 2 == 0 then Err(BadPass)
    else Ok((Some(Be16(payload, 0)), 2))
  }

  /** One channel block at `at`: its stream, if it is all there and expands to 128 bytes. */
  function Block(payload: seq<byte>, at: nat): (r: Result<seq<byte>>)
    ensures r.Ok? ==> at + 2 + |r.value| <= |payload| && |Expand(r.value)| == CHANNEL_BYTES
  {
    if at + 2 > |payload| then Err(Truncated) else
      var len := Be16(payload, at);
      if at + 2 + len > |payload| then Err(Truncated) else
        var rle := payload[at + 2..at + 2 + len];
        if |Expand(rle)| != CHANNEL_BYTES then Err(RleLength) else Ok(rle)
  }

  /** The streams of the first `k` channels from `start`, and the offset past them. */
  function Walk(payload: seq<byte>, start: nat, k: nat): (r: Result<(seq<seq<byte>>, nat)>)
    ensures r.Ok? ==> |r.value.0| == k && start <= r.value.1 && (k > 0 ==> r.value.1 <= |payload|)
    ensures r.Ok? ==> forall c :: 0 <= c < k ==> |Expand(r.value.0[c])| == CHANNEL_BYTES
  {
    if k == 0 then Ok(([], start)) else
      var w := Walk(payload, start, k - 1);
      if w.Err? then w else
        var b := Block(payload, w.value.1);
        if b.Err? then Err(b.code) else Ok((w.value.0 + [b.value], w.value.1 + 2 + |b.value|))
  }

  /** The planes of the channels, one after the other. */
  function Planes(streams: seq<seq<byte>>): (r: seq<byte>)
    requires forall c :: 0 <= c < |streams| ==> |Expand(streams[c])| == CHANNEL_BYTES
    ensures |r| == |streams| * CHANNEL_BYTES
  {
    if |streams| == 0 then [] else
      Planes(streams[..|streams| - 1]) + Expand(streams[|streams| - 1])
  }

  lemma PlanesAppend(streams: seq<seq<byte>>, s: seq<byte>)
    requires forall c :: 0 <= c < |streams| ==> |Expand(streams[c])| == CHANNEL_BYTES
    requires |Expand(s)| == CHANNEL_BYTES
    ensures forall c :: 0 <= c <= |streams| ==> |Expand((streams + [s])[c])| == CHANNEL_BYTES
    ensures Planes(streams + [s]) == Planes(streams) + Expand(s)
  {
    assert (streams + [s])[..|streams|] == streams;
  }

  datatype WireInfo = WireInfo(present: Option<nat>, start: nat, end: nat)

  /** Accept or refuse a pass. */
  function Validated(payload: seq<byte>, pass: nat): Result<WireInfo> {
    var p := ParsePrefix(payload, pass);
    if p.Err? then Err(p.code) else
      var w := Walk(payload, p.value.1, 3);
      if w.Err? then Err(w.code) else Ok(WireInfo(p.value.0, p.value.1, w.value.1))
  }

  /** Accept or refuse a pass and expand it. */
  function Prevalidated(payload: seq<byte>, pass: nat): Result<(Option<nat>, seq<byte>)> {
    var p := ParsePrefix(payload, pass);
    if p.Err? then Err(p.code) else
      var w := Walk(payload, p.value.1, 3);
      if w.Err? then Err(w.code) else Ok((p.value.0, Planes(w.value.0)))
  }

  /** Expand the streams of a pass accepted before. */
  function WireDecoded(streams: seq<byte>): Result<seq<byte>> {
    var w := Walk(streams, 0, 3);
    if w.Err? then Err(w.code) else Ok(Planes(w.value.0))
  }

  /** Cutting the blocks out of the payload changes nothing but the offset. */
  lemma {:induction false} WalkCut(payload: seq<byte>, start: nat, end: nat, k: nat)
    requires start <= end <= |payload| && Walk(payload, start, k).Ok? && Walk(payload, start, k).value.1 <= end
    ensures var w := Walk(payload, start, k).value;
            Walk(payload[start..end], 0, k) == Ok((w.0, w.1 - start))
  {
    hide Expand, Block;
    if k == 0 {
    } else {
      var w := Walk(payload, start, k - 1).value;
      WalkCut(payload, start, end, k - 1);
      BlockCut(payload, start, end, w.1);
    }
  }

  lemma Be16Cut(payload: seq<byte>, start: nat, end: nat, at: nat)
    requires start <= at && at + 2 <= end <= |payload|
    ensures Be16(payload[start..end], at - start) == Be16(payload, at)
  {
    var cut := payload[start..end];
    assert cut[at - start] == payload[at] && cut[at - start + 1] == payload[at + 1];
  }

  lemma BlockCut(payload: seq<byte>, start: nat, end: nat, at: nat)
    requires start <= at && end <= |payload| && Block(payload, at).Ok? && at + 2 + |Block(payload, at).value| <= end
    ensures Block(payload[start..end], at - start) == Block(payload, at)
  {
    hide Expand, Be16;
    var cut := payload[start..end];
    var len := Be16(payload, at);
    Be16Cut(payload, start, end, at);
    SliceOfSlice(payload, start, end, at - start + 2, at - start + 2 + len);
  }

  /**
   * Validating a pass and expanding it later is expanding it at once: the same
   * payloads are accepted, refusals carry the same code, the bitmap is the same,
   * and so are the planes.
   */
  lemma WireRouteAgrees(payload: seq<byte>, pass: nat)
    ensures var v, p := Validated(payload, pass), Prevalidated(payload, pass);
            && (v.Err? <==> p.Err?) && (v.Err? ==> v.code == p.code)
            && (v.Ok? ==>
                  && v.value.present == p.value.0
                  && v.value.start <= v.value.end <= |payload|
                  && WireDecoded(payload[v.value.start..v.value.end]) == Ok(p.value.1))
  {
    hide Expand, Block;
    var v := Validated(payload, pass);
    if v.Ok? { WalkCut(payload, v.value.start, v.value.end, 3); }
  }

  // ------------------------------------------------------- the client's methods

  /** What the walk has come to. */
  ghost predicate WalkedTo(payload: seq<byte>, start: nat, k: nat, at: nat) {
    Walk(payload, start, k).Ok? && Walk(payload, start, k).value.1 == at
  }

  /** A block, or why there is none; `len` is the capped length its stream expands to. */
  method NextBlock(payload: seq<byte>, at: nat) returns (r: Result<seq<byte>>)
    ensures r.Ok? ==> at + 2 + |r.value| <= |payload| && r.value == payload[at + 2..at + 2 + |r.value|]
    ensures Block(payload, at) == if r.Ok? && |Expand(r.value)| != CHANNEL_BYTES then Err(RleLength) else r
  {
    hide Expand;
    if at + 2 > |payload| { return Err(Truncated); }
    var len := Be16(payload, at);
    if at + 2 + len > |payload| { return Err(Truncated); }
    return Ok(payload[at + 2..at + 2 + len]);
  }

  method ValidateCdf53(payload: seq<byte>, pass: nat) returns (r: Result<WireInfo>)
    ensures r == Validated(payload, pass)
  {
    hide Expand, Block;
    var prefix := ParsePrefix(payload, pass);
    if prefix.Err? { return Err(prefix.code); }
    var start := prefix.value.1;
    var at: nat := start;
    for ch := 0 to 3
      invariant WalkedTo(payload, start, ch, at)
    {
      WalkStops(payload, start, ch);
      var b := NextBlock(payload, at);
      if b.Err? { return Err(b.code); }
      var n := RleExpandedLen(b.value);
      if n != 128 { return Err(RleLength); }
      at := at + 2 + |b.value|;
    }
    return Ok(WireInfo(prefix.value.0, start, at));
  }

  /** A channel that fails ends the walk. */
  lemma WalkStops(payload: seq<byte>, start: nat, ch: nat)
    requires ch < 3 && Walk(payload, start, ch).Ok?
    ensures var b := Block(payload, Walk(payload, start, ch).value.1);
            b.Err? ==> Walk(payload, start, 3) == Err(b.code)
  {
    hide Expand, Block;
    if ch == 0 {
      assert Walk(payload, start, 2) == if Walk(payload, start, 1).Err? then Walk(payload, start, 1)
        else Walk(payload, start, 2);
    }
  }

  lemma WalkMore(payload: seq<byte>, start: nat, ch: nat)
    requires Walk(payload, start, ch).Ok? && Block(payload, Walk(payload, start, ch).value.1).Ok?
    ensures var w := Walk(payload, start, ch).value; var b := Block(payload, w.1).value;
            var v := Walk(payload, start, ch + 1);
            v == Ok((w.0 + [b], w.1 + 2 + |b|)) && Planes(v.value.0) == Planes(w.0) + Expand(b)
  {
    hide Expand, Block, Planes;
    var w := Walk(payload, start, ch).value;
    PlanesAppend(w.0, Block(payload, w.1).value);
  }

  /** The first `k` channels are walked, to `at`, and their planes are in place. */
  ghost predicate Filled(payload: seq<byte>, start: nat, k: nat, at: nat, planes: seq<byte>) {
    && k * CHANNEL_BYTES <= |planes| && WalkedTo(payload, start, k, at)
    && planes[..k * CHANNEL_BYTES] == Planes(Walk(payload, start, k).value.0)
  }

  lemma FilledMore(payload: seq<byte>, start: nat, k: nat, at: nat, was: seq<byte>, now: seq<byte>)
    requires Filled(payload, start, k, at, was) && Block(payload, at).Ok?
    requires Stored(was, now, k * CHANNEL_BYTES, Expand(Block(payload, at).value))
    ensures Filled(payload, start, k + 1, at + 2 + |Block(payload, at).value|, now)
  {
    hide Expand, Block, Walk, Planes, Stored;
    WalkMore(payload, start, k);
    SlotFilled(was, now, k * CHANNEL_BYTES, Expand(Block(payload, at).value));
  }

  lemma NothingFilled(payload: seq<byte>, start: nat, planes: seq<byte>)
    ensures Filled(payload, start, 0, start, planes)
  {
  }

  lemma AllFilled(payload: seq<byte>, start: nat, at: nat, planes: seq<byte>)
    requires Filled(payload, start, 3, at, planes) && |planes| == 3 * CHANNEL_BYTES
    ensures var w := Walk(payload, start, 3); w.Ok? && w.value.1 == at && planes == Planes(w.value.0)
  {
    hide Walk, Planes;
    assert planes[..3 * CHANNEL_BYTES] == planes;
  }

  /** Walk the blocks from `start`, expanding each to its place in `planes`. */
  method ExpandChannels(payload: seq<byte>, start: nat, planes: array<byte>) returns (r: Result<nat>)
    requires planes.Length == 3 * CHANNEL_BYTES
    modifies planes
    ensures var w := Walk(payload, start, 3);
            if w.Err? then r == Err(w.code) else r == Ok(w.value.1) && planes[..] == Planes(w.value.0)
  {
    hide Expand, Block, Walk, Planes, Stored;
    var at: nat := start;
    NothingFilled(payload, start, planes[..]);
    for ch := 0 to 3
      invariant Filled(payload, start, ch, at, planes[..])
    {
      ghost var was := planes[..];
      WalkStops(payload, start, ch);
      var b := NextBlock(payload, at);
      if b.Err? { return Err(b.code); }
      var n := RleDecodeInto(b.value, planes, ch * CHANNEL_BYTES);
      if n != 128 { return Err(RleLength); }
      FilledMore(payload, start, ch, at, was, planes[..]);
      at := at + 2 + |b.value|;
    }
    AllFilled(payload, start, at, planes[..]);
    return Ok(at);
  }

  lemma SlotFilled(was: seq<byte>, now: seq<byte>, start: nat, e: seq<byte>)
    requires Stored(was, now, start, e) && |e| == CHANNEL_BYTES
    ensures start + CHANNEL_BYTES <= |now| && start <= |was|
    ensures now[..start + CHANNEL_BYTES] == was[..start] + e
  {
  }

  method PrevalidateCdf53(payload: seq<byte>, pass: nat) returns (r: Result<(Option<nat>, seq<byte>)>)
    ensures r == Prevalidated(payload, pass)
  {
    hide Walk, Planes;
    var prefix := ParsePrefix(payload, pass);
    if prefix.Err? { return Err(prefix.code); }
    var planes := new byte[384](_ => 0);
    var end := ExpandChannels(payload, prefix.value.1, planes);
    if end.Err? { return Err(end.code); }
    return Ok((prefix.value.0, planes[..]));
  }

  method DecodeCdf53Wire(streams: seq<byte>, planes: array<byte>) returns (r: Result<()>)
    requires planes.Length == 384
    modifies planes
    ensures var d := WireDecoded(streams);
            if d.Err? then r == Err(d.code) else r == Ok(()) && planes[..] == d.value
  {
    hide Walk, Planes;
    var end := ExpandChannels(streams, 0, planes);
    if end.Err? { return Err(end.code); }
    return Ok(());
  }

  // ------------------------------------------------------------- round trip

  function Frame(channel: seq<byte>): seq<byte>
    requires |channel| == CHANNEL_BYTES
  {
    CompressExpands(channel);
    PutBe16(|Compress(channel)|) + Compress(channel)
  }

  /** The server's payload for a pass: three coded channels, with the bitmap ahead of pass 0. */
  function PassPayload(pass: nat, present: nat, b: seq<byte>, g: seq<byte>, r: seq<byte>): seq<byte>
    requires present < 0x1_0000 && |b| == |g| == |r| == CHANNEL_BYTES
  {
    (if pass == 0 then PutBe16(present) else []) + Frame(b) + Frame(g) + Frame(r)
  }

  lemma FramedBlock(payload: seq<byte>, at: nat, channel: seq<byte>, rest: seq<byte>)
    requires |channel| == CHANNEL_BYTES && at <= |payload| && payload[at..] == Frame(channel) + rest
    ensures Block(payload, at) == Ok(Compress(channel))
    ensures at + 2 + |Compress(channel)| <= |payload| && payload[at + 2 + |Compress(channel)|..] == rest
    ensures Expand(Compress(channel)) == channel
  {
    hide Expand, Compress, Be16, PutBe16;
    CompressExpands(channel);
    var c := Compress(channel);
    var len := PutBe16(|c|);
    assert len + c + rest == len + (c + rest);
    Continues(payload, at, len, c + rest);
    Continues(payload, at + 2, c, rest);
    Be16At(payload, at, |c|);
  }

  lemma PayloadStarts(pass: nat, present: nat, b: seq<byte>, g: seq<byte>, r: seq<byte>, trailing: seq<byte>)
    requires present < 0x1_0000 && |b| == |g| == |r| == CHANNEL_BYTES
    ensures var payload := PassPayload(pass, present, b, g, r) + trailing;
            var blocks := Frame(b) + (Frame(g) + (Frame(r) + trailing));
            if pass == 0 then |payload| >= 2 && Be16(payload, 0) == present && payload[2..] == blocks
            else payload[0..] == blocks
  {
    hide Frame, PutBe16, Be16;
    var payload := PassPayload(pass, present, b, g, r) + trailing;
    var blocks := Frame(b) + (Frame(g) + (Frame(r) + trailing));
    if pass == 0 {
      assert payload[0..] == payload == PutBe16(present) + blocks;
      Continues(payload, 0, PutBe16(present), blocks);
      Be16At(payload, 0, present);
    } else {
      assert payload == blocks && payload[0..] == payload;
    }
  }

  /** What the server framed is what the client expands, whatever follows the third block. */
  lemma PassRoundTrip(pass: nat, present: nat, b: seq<byte>, g: seq<byte>, r: seq<byte>, trailing: seq<byte>)
    requires pass < 14 && present < 0x1_0000 && present % 2 == 1 && |b| == |g| == |r| == CHANNEL_BYTES
    ensures Prevalidated(PassPayload(pass, present, b, g, r) + trailing, pass)
         == Ok((if pass == 0 then Some(present) else None, b + g + r))
  {
    hide Expand, Compress, Frame, Block, PutBe16, Be16, Walk, Planes;
    var payload := PassPayload(pass, present, b, g, r) + trailing;
    var start := if pass == 0 then 2 else 0;
    PayloadStarts(pass, present, b, g, r, trailing);
    FramedBlock(payload, start, b, Frame(g) + (Frame(r) + trailing));
    var at1 := start + 2 + |Compress(b)|;
    FramedBlock(payload, at1, g, Frame(r) + trailing);
    var at2 := at1 + 2 + |Compress(g)|;
    FramedBlock(payload, at2, r, trailing);
    ThreeBlocks(payload, start, Compress(b), Compress(g), Compress(r));
  }

  lemma ThreeBlocks(payload: seq<byte>, start: nat, x: seq<byte>, y: seq<byte>, z: seq<byte>)
    requires Block(payload, start) == Ok(x) && Block(payload, start + 2 + |x|) == Ok(y)
    requires Block(payload, start + 2 + |x| + 2 + |y|) == Ok(z)
    ensures var w := Walk(payload, start, 3); w.Ok? && Planes(w.value.0) == Expand(x) + Expand(y) + Expand(z)
  {
    hide Expand, Block;
    assert [] + [x] == [x] && [x] + [y] == [x, y];
    assert Walk(payload, start, 1) == Ok(([x], start + 2 + |x|));
    assert Walk(payload, start, 2) == Ok(([x, y], start + 2 + |x| + 2 + |y|));
    assert Walk(payload, start, 3).value.0 == [x, y, z];
    NoPlanes();
    PlanesAppend([], x);
    PlanesAppend([x], y);
    PlanesAppend([x, y], z);
  }

  lemma NoPlanes()
    ensures Planes([]) == []
  {
  }

  // ------------------------------------------------------ which payloads pass

  /** From `at` to `next`: two bytes of length, then a run-length stream of one channel's 128 bytes. */
  ghost predicate IsStream(payload: seq<byte>, at: nat, next: nat) {
    && at + 2 <= next <= |payload| && (payload[at] as int) * 256 + payload[at + 1] as int == next - at - 2
    && |Expand(payload[at + 2..next])| == 128
  }

  /** A pass payload, cut where its parts end: three streams, before them in pass 0 a bitmap that names pass 0. */
  ghost predicate IsPayload(payload: seq<byte>, pass: nat, a: nat, b: nat, c: nat, d: nat) {
    && pass < 14 && a == (if pass == 0 then 2 else 0)
    && (pass == 0 ==> |payload| >= 2 && payload[1] % 2 == 1)
    && IsStream(payload, a, b) && IsStream(payload, b, c) && IsStream(payload, c, d)
  }

  lemma BlockIff(payload: seq<byte>, at: nat, next: nat)
    ensures IsStream(payload, at, next) <==> Block(payload, at).Ok? && at + 2 + |Block(payload, at).value| == next
    ensures IsStream(payload, at, next) ==> Block(payload, at).value == payload[at + 2..next]
  {
    hide Expand;
  }

  /** A walk over three blocks met three. */
  lemma WalkMet(payload: seq<byte>, a: nat)
    requires Walk(payload, a, 3).Ok?
    ensures Block(payload, a).Ok?
    ensures var b := a + 2 + |Block(payload, a).value|;
            Block(payload, b).Ok? && Block(payload, b + 2 + |Block(payload, b).value|).Ok?
  {
    hide Block;
    assert Walk(payload, a, 2).Ok? && Walk(payload, a, 1).Ok?;
    assert Walk(payload, a, 0) == Ok(([], a));
    assert Walk(payload, a, 1).value.1 == a + 2 + |Block(payload, a).value|;
  }

  /** Every payload that has the form is accepted and read as its bitmap and the three channels. */
  lemma PayloadRead(payload: seq<byte>, pass: nat, a: nat, b: nat, c: nat, d: nat)
    requires IsPayload(payload, pass, a, b, c, d)
    ensures Prevalidated(payload, pass)
         == Ok((if pass == 0 then Some((payload[0] as int) * 256 + payload[1] as int) else None,
                Expand(payload[a + 2..b]) + Expand(payload[b + 2..c]) + Expand(payload[c + 2..d])))
  {
    hide Expand, Block, Walk, Planes, IsStream;
    BlockIff(payload, a, b);
    BlockIff(payload, b, c);
    BlockIff(payload, c, d);
    ThreeBlocks(payload, a, payload[a + 2..b], payload[b + 2..c], payload[c + 2..d]);
  }

  /**
   * And no other: a payload passes exactly when it has that form, whatever follows it.
   * A pass that does not exist, and a bitmap that does not name pass 0, are told apart.
   */
  lemma PayloadAcceptedIff(payload: seq<byte>, pass: nat)
    ensures Prevalidated(payload, pass).Ok? <==> exists a, b, c, d :: IsPayload(payload, pass, a, b, c, d)
    ensures Prevalidated(payload, pass) == Err(BadPass) <==>
      pass >= 14 || (pass == 0 && |payload| >= 2 && payload[1] % 2 == 0)
  {
    hide Expand, Block, Walk, Planes, IsStream;
    if Prevalidated(payload, pass).Ok? {
      var a := if pass == 0 then 2 else 0;
      WalkMet(payload, a);
      var x := Block(payload, a).value;
      var b := a + 2 + |x|;
      var y := Block(payload, b).value;
      var c := b + 2 + |y|;
      var d := c + 2 + |Block(payload, c).value|;
      BlockIff(payload, a, b);
      BlockIff(payload, b, c);
      BlockIff(payload, c, d);
      assert IsPayload(payload, pass, a, b, c, d);
    }
    if a, b, c, d :| IsPayload(payload, pass, a, b, c, d) { PayloadRead(payload, pass, a, b, c, d); }
    WalkCode(payload, if pass == 0 then 2 else 0, 3);
  }

  lemma {:induction false} WalkCode(payload: seq<byte>, start: nat, k: nat)
    ensures Walk(payload, start, k) != Err(BadPass)
  {
    hide Expand;
    if k == 0 {
    } else {
      WalkCode(payload, start, k - 1);
    }
  }
}
