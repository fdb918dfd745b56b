/**
 * XOR parity over a group of consecutive source datagrams: right-aligned, as
 * long as the longest source, with every source's length beside it.
 */
module Parity {
  import opened Serial

  type Bytes8 = seq<bv8>

  /** What the sender put on the wire under each (unbounded) number. */
  type Sent = int -> Bytes8

  datatype Envelope = Envelope(first: u32, lens: seq<nat>, payload: Bytes8)
  {
    /** The number of sources covered; the length table has one entry each. */
    function K(): nat { |lens| }
  }

  /** Byte `r` places from the right end; zero beyond the left end. */
  function FromRight(s: Bytes8, r: nat): bv8 { if r < |s| then s[|s| - 1 - r] else 0 }

  lemma SameFromRight(a: Bytes8, b: Bytes8)
    requires |a| == |b| && forall r :: 0 <= r < |a| ==> FromRight(a, r) == FromRight(b, r)
    ensures a == b
  {
    forall i | 0 <= i < |a|
      ensures a[i] == b[i]
    {
      assert FromRight(a, |a| - 1 - i) == FromRight(b, |a| - 1 - i);
    }
  }

  /** XOR of sources `f .. f + k`, `r` places from the right. */
  function GroupXor(sent: Sent, f: int, k: nat, r: nat): bv8 {
    if k == 0 then 0 else GroupXor(sent, f, k - 1, r) ^ FromRight(sent(f + k - 1), r)
  }

  /** `env` is the parity of sources `f .. f + K()`. */
  ghost predicate IsParityOf(env: Envelope, sent: Sent, f: int) {
    && env.first == Wrap32(f)
    && (forall i :: 0 <= i < env.K() ==> env.lens[i] == |sent(f + i)| && env.lens[i] <= |env.payload|)
    && forall r: nat :: FromRight(env.payload, r) == GroupXor(sent, f, env.K(), r)
  }

  lemma {:induction false} NothingBeyondLongest(sent: Sent, f: int, k: nat, r: nat)
    requires forall i :: f <= i < f + k ==> |sent(i)| <= r
    ensures GroupXor(sent, f, k, r) == 0
  {
    if k == 0 {
    } else {
      NothingBeyondLongest(sent, f, k - 1, r);
    }
  }

  /** XOR, `r` places from the right, of a list of buffers. */
  function ListXor(list: seq<Bytes8>, r: nat): bv8 {
    if list == [] then 0 else ListXor(list[..|list| - 1], r) ^ FromRight(list[|list| - 1], r)
  }

  lemma ListXorExtends(list: seq<Bytes8>, b: Bytes8, r: nat)
    ensures ListXor(list + [b], r) == ListXor(list, r) ^ FromRight(b, r)
  {
    assert (list + [b])[..|list|] == list;
  }

  /** XOR `src` into the right end of `out`. */
  method XorInto(out: array<bv8>, src: Bytes8)
    requires |src| <= out.Length
    modifies out
    ensures forall r :: 0 <= r < out.Length ==> FromRight(out[..], r) == old(FromRight(out[..], r)) ^ FromRight(src, r)
  {
    var pad := out.Length - |src|;
    for i := 0 to |src|
      invariant forall j :: 0 <= j < out.Length ==>
        out[j] == if pad <= j < pad + i then old(out[j]) ^ src[j - pad] else old(out[j])
    {
      out[pad + i] := out[pad + i] ^ src[i];
    }
  }

  // ------------------------------------------------------------- recovery

  /** XOR of the group's sources that the window holds. */
  function HeldXor(window: map<u32, Bytes8>, f: int, k: nat, r: nat): bv8 {
    if k == 0 then 0 else
      var ws := Wrap32(f + k - 1);
      HeldXor(window, f, k - 1, r) ^ if ws in window then FromRight(window[ws], r) else 0
  }

  /** How many of the group's sources the window lacks. */
  function MissingCount(window: map<u32, Bytes8>, f: int, k: nat): nat {
    if k == 0 then 0 else MissingCount(window, f, k - 1) + if Wrap32(f + k - 1) in window then 0 else 1
  }

  /** The window holds what was sent. */
  ghost predicate HoldsSent(window: map<u32, Bytes8>, sent: Sent, f: int, k: nat) {
    forall i :: f <= i < f + k && Wrap32(i) in window ==> window[Wrap32(i)] == sent(i)
  }

  /** `m` is the only source of the group that the window lacks. */
  ghost predicate OnlyMissing(window: map<u32, Bytes8>, f: int, k: nat, m: int) {
    && f <= m < f + k && Wrap32(m) !in window
    && forall i :: f <= i < f + k && i != m ==> Wrap32(i) in window
  }

  lemma {:induction false} NoneMissing(window: map<u32, Bytes8>, f: int, k: nat)
    ensures MissingCount(window, f, k) == 0 <==> forall i :: f <= i < f + k ==> Wrap32(i) in window
  {
    if k == 0 {
    } else {
      NoneMissing(window, f, k - 1);
    }
  }

  /** A count of one names one source. */
  lemma {:induction false} OneMissing(window: map<u32, Bytes8>, f: int, k: nat, m: int)
    requires f <= m < f + k && Wrap32(m) !in window
    ensures MissingCount(window, f, k) >= 1
    ensures MissingCount(window, f, k) == 1 <==> OnlyMissing(window, f, k, m)
  {
    if m == f + k - 1 {
      NoneMissing(window, f, k - 1);
    } else {
      OneMissing(window, f, k - 1, m);
    }
  }

  lemma XorBoth(g: bv8, h: bv8, x: bv8)
    ensures (g ^ x) ^ (h ^ x) == g ^ h
  {
  }

  lemma XorOne(g: bv8, h: bv8, x: bv8)
    requires g ^ h == 0
    ensures (g ^ x) ^ (h ^ 0) == x
  {
  }

  lemma NothingYet(window: map<u32, Bytes8>, sent: Sent, f: int, r: nat)
    ensures GroupXor(sent, f, 0, r) ^ HeldXor(window, f, 0, r) == 0
  {
  }

  lemma GroupStep(sent: Sent, f: int, k: nat, r: nat)
    requires k > 0
    ensures GroupXor(sent, f, k, r) == GroupXor(sent, f, k - 1, r) ^ FromRight(sent(f + k - 1), r)
  {
  }

  lemma HeldStep(window: map<u32, Bytes8>, f: int, k: nat, r: nat)
    requires k > 0
    ensures var ws := Wrap32(f + k - 1);
            HeldXor(window, f, k, r)
            == HeldXor(window, f, k - 1, r) ^ if ws in window then FromRight(window[ws], r) else 0
  {
  }

  /** XOR of the whole group is XOR of the held part and the missing source. */
  lemma {:induction false} MissingIsTheDifference(
    window: map<u32, Bytes8>, sent: Sent, f: int, k: nat, m: int, r: nat)
    requires HoldsSent(window, sent, f, k)
    requires forall i :: f <= i < f + k && i != m ==> Wrap32(i) in window
    requires Wrap32(m) !in window
    ensures GroupXor(sent, f, k, r) ^ HeldXor(window, f, k, r) == if f <= m < f + k then FromRight(sent(m), r) else 0
  {
    hide FromRight, Wrap32, GroupXor, HeldXor;
    if k == 0 {
      NothingYet(window, sent, f, r);
    } else {
      MissingIsTheDifference(window, sent, f, k - 1, m, r);
      var last := f + k - 1;
      GroupStep(sent, f, k, r);
      HeldStep(window, f, k, r);
      var g, h, x := GroupXor(sent, f, k - 1, r), HeldXor(window, f, k - 1, r), FromRight(sent(last), r);
      if m == last {
        XorOne(g, h, x);
      } else {
        assert Wrap32(last) in window && window[Wrap32(last)] == sent(last);
        XorBoth(g, h, x);
      }
    }
  }
}
