/**
 * The sender's side of parity: sources are gathered into groups of consecutive
 * numbers, and the full group's XOR goes out with every source's length.
 */
module ParityEmitter {
  import opened Serial
  import opened Parity

  datatype GroupResult = GroupResult(first: u32, k: nat, lens: seq<nat>, parity: Bytes8)
  {
    function AsEnvelope(): Envelope { Envelope(first, lens, parity) }
  }

  /** A length as the envelope's table holds it. */
  function Len16(b: Bytes8): nat { |b| % 0x1_0000 }

  function Lens(sources: seq<Bytes8>): seq<nat> { seq(|sources|, i requires 0 <= i < |sources| => Len16(sources[i])) }

  /** The sources are those sent under `f`, `f + 1` and so on. */
  ghost predicate AreSent(sources: seq<Bytes8>, sent: Sent, f: int) {
    forall i :: 0 <= i < |sources| ==> sources[i] == sent(f + i)
  }

  ghost predicate NoLonger(sources: seq<Bytes8>, n: nat) { forall i :: 0 <= i < |sources| ==> |sources[i]| <= n }

  method Longest(sources: seq<Bytes8>) returns (n: nat)
    ensures NoLonger(sources, n) && (n > 0 ==> exists i :: 0 <= i < |sources| && |sources[i]| == n)
  {
    n := 0;
    for i := 0 to |sources|
      invariant forall j :: 0 <= j < i ==> |sources[j]| <= n
      invariant n > 0 ==> exists j :: 0 <= j < i && |sources[j]| == n
    {
      if |sources[i]| > n { n := |sources[i]|; }
    }
  }

  /** XOR of all sources, right-aligned, as long as the longest. */
  method XorPayloads(sources: seq<Bytes8>) returns (out: Bytes8)
    ensures NoLonger(sources, |out|) && (|out| > 0 ==> exists i :: 0 <= i < |sources| && |sources[i]| == |out|)
    ensures forall r :: 0 <= r < |out| ==> FromRight(out, r) == ListXor(sources, r)
  {
    hide FromRight, ListXor;
    var n := Longest(sources);
    var buf := new bv8[n](_ => 0);
    assert sources[..0] == [];
    forall r | 0 <= r < n ensures FromRight(buf[..], r) == ListXor(sources[..0], r) { NothingXored(buf[..], r); }
    for k := 0 to |sources|
      invariant forall r :: 0 <= r < n ==> FromRight(buf[..], r) == ListXor(sources[..k], r)
    {
      assert sources[..k + 1] == sources[..k] + [sources[k]];
      forall r | 0 <= r < n
        ensures ListXor(sources[..k + 1], r) == ListXor(sources[..k], r) ^ FromRight(sources[k], r)
      {
        ListXorExtends(sources[..k], sources[k], r);
      }
      XorInto(buf, sources[k]);
    }
    assert sources[..|sources|] == sources;
    out := buf[..];
  }

  lemma NothingXored(zeros: Bytes8, r: nat)
    requires r < |zeros| && forall i :: 0 <= i < |zeros| ==> zeros[i] == 0
    ensures FromRight(zeros, r) == ListXor([], r)
  {
  }

  lemma {:induction false} ListIsGroup(sources: seq<Bytes8>, sent: Sent, f: int, r: nat)
    requires AreSent(sources, sent, f)
    ensures ListXor(sources, r) == GroupXor(sent, f, |sources|, r)
  {
    if sources == [] {
    } else {
      ListIsGroup(sources[..|sources| - 1], sent, f, r);
    }
  }

  /** One byte of the XOR, `r` places from the right; beyond the longest source there is none. */
  lemma ByteIs(sources: seq<Bytes8>, sent: Sent, f: int, out: Bytes8, r: nat)
    requires AreSent(sources, sent, f) && NoLonger(sources, |out|)
    requires r < |out| ==> FromRight(out, r) == ListXor(sources, r)
    ensures FromRight(out, r) == GroupXor(sent, f, |sources|, r)
  {
    hide GroupXor, ListXor;
    ListIsGroup(sources, sent, f, r);
    if r >= |out| {
      forall i | f <= i < f + |sources| ensures |sent(i)| <= r { assert sources[i - f] == sent(f + (i - f)); }
      NothingBeyondLongest(sent, f, |sources|, r);
    }
  }

  /** One length of the table: the source's own exactly when that fits. */
  lemma LengthIs(sources: seq<Bytes8>, sent: Sent, f: int, n: nat, i: nat)
    requires AreSent(sources, sent, f) && NoLonger(sources, n) && i < |sources|
    ensures |sent(f + i)| == |sources[i]| <= n
    ensures Lens(sources)[i] == |sent(f + i)| <==> |sources[i]| < 0x1_0000
  {
    assert sources[i] == sent(f + i);
  }

  /** What makes an envelope the group's parity, read off its own parts. */
  lemma MakesParity(lens: seq<nat>, sent: Sent, f: int, out: Bytes8)
    requires forall i :: 0 <= i < |lens| ==> lens[i] == |sent(f + i)| && lens[i] <= |out|
    requires forall r: nat :: FromRight(out, r) == GroupXor(sent, f, |lens|, r)
    ensures IsParityOf(Envelope(Wrap32(f), lens, out), sent, f)
  {
    hide GroupXor, FromRight, Wrap32;
  }

  lemma TrueLengths(sources: seq<Bytes8>, sent: Sent, f: int, out: Bytes8)
    requires AreSent(sources, sent, f) && NoLonger(sources, |out|)
    requires forall i :: 0 <= i < |sources| ==> |sources[i]| < 0x1_0000
    requires forall r: nat :: FromRight(out, r) == GroupXor(sent, f, |sources|, r)
    ensures IsParityOf(Envelope(Wrap32(f), Lens(sources), out), sent, f)
  {
    hide GroupXor, FromRight, Wrap32, AreSent, NoLonger, IsParityOf;
    var lens := Lens(sources);
    assert |lens| == |sources|;
    forall i | 0 <= i < |lens|
      ensures lens[i] == |sent(f + i)| && lens[i] <= |out|
    {
      LengthIs(sources, sent, f, |out|, i);
    }
    MakesParity(lens, sent, f, out);
  }

  lemma ParityFits(sources: seq<Bytes8>, sent: Sent, f: int, out: Bytes8, i: nat)
    requires AreSent(sources, sent, f) && NoLonger(sources, |out|) && i < |sources|
    requires IsParityOf(Envelope(Wrap32(f), Lens(sources), out), sent, f)
    ensures |sources[i]| < 0x1_0000
  {
    hide GroupXor, FromRight, Wrap32, AreSent, NoLonger;
    var env := Envelope(Wrap32(f), Lens(sources), out);
    assert env.lens[i] == |sent(f + i)|;
    LengthIs(sources, sent, f, |out|, i);
  }

  /** The XOR with true lengths is the group's parity; a table of 16-bit lengths is true of shorter sources only. */
  lemma IsParityIff(sources: seq<Bytes8>, sent: Sent, f: int, out: Bytes8)
    requires AreSent(sources, sent, f) && NoLonger(sources, |out|)
    requires forall r :: 0 <= r < |out| ==> FromRight(out, r) == ListXor(sources, r)
    ensures IsParityOf(Envelope(Wrap32(f), Lens(sources), out), sent, f)
       <==> forall i :: 0 <= i < |sources| ==> |sources[i]| < 0x1_0000
  {
    hide GroupXor, ListXor, FromRight, Wrap32, Lens, AreSent, NoLonger, IsParityOf;
    forall r: nat ensures FromRight(out, r) == GroupXor(sent, f, |sources|, r) { ByteIs(sources, sent, f, out, r); }
    if forall i :: 0 <= i < |sources| ==> |sources[i]| < 0x1_0000 {
      TrueLengths(sources, sent, f, out);
    }
    if IsParityOf(Envelope(Wrap32(f), Lens(sources), out), sent, f) {
      forall i | 0 <= i < |sources| ensures |sources[i]| < 0x1_0000 { ParityFits(sources, sent, f, out, i); }
    }
  }

  /** Every source of the group fits the length table. */
  ghost predicate Fit(sent: Sent, f: int, k: nat) { forall i :: f <= i < f + k ==> |sent(i)| < 0x1_0000 }

  lemma FitIs(sources: seq<Bytes8>, sent: Sent, f: int)
    requires AreSent(sources, sent, f)
    ensures Fit(sent, f, |sources|) <==> forall i :: 0 <= i < |sources| ==> |sources[i]| < 0x1_0000
  {
    forall i | f <= i < f + |sources| ensures sources[i - f] == sent(i) { assert sources[i - f] == sent(f + (i - f)); }
    assert forall i :: 0 <= i < |sources| ==> sources[i] == sent(f + i);
  }

  class GroupBuilder {
    const targetK: nat
    var firstWireSeq: Option<u32>
    var lastWireSeq: Option<u32>
    var sourceLens: seq<nat>
    var sources: seq<Bytes8>

    ghost const sent: Sent
    /** The true number of the first source of the group. */
    ghost var first: int

    ghost predicate Valid()
      reads this
    {
      && AreSent(sources, sent, first)
      && sourceLens == Lens(sources)
      && (sources == [] || |sources| < targetK)
      && firstWireSeq == (if sources == [] then None else Some(Wrap32(first)))
      && lastWireSeq == (if sources == [] then None else Some(Wrap32(first + |sources| - 1)))
    }

    constructor (k: nat, ghost what: Sent)
      ensures Valid() && targetK == k && sent == what && sources == []
    {
      targetK, sent := k, what;
      firstWireSeq, lastWireSeq, sourceLens, sources, first := None, None, [], [], 0;
    }

    method Reset()
      modifies this`firstWireSeq, this`lastWireSeq, this`sourceLens, this`sources
      ensures firstWireSeq == None && lastWireSeq == None && sourceLens == [] && sources == []
    {
      firstWireSeq, lastWireSeq, sourceLens, sources := None, None, [], [];
    }

    /** The parity of what has been gathered. */
    method Emit() returns (r: GroupResult)
      requires AreSent(sources, sent, first) && sourceLens == Lens(sources) && firstWireSeq == Some(Wrap32(first))
      ensures r.first == Wrap32(first) && r.k == targetK % 0x100 && |r.lens| == |sources|
      ensures forall i :: 0 <= i < |sources| ==> r.lens[i] == |sources[i]| % 0x1_0000
      ensures IsParityOf(r.AsEnvelope(), sent, first) <==> Fit(sent, first, |sources|)
    {
      hide IsParityOf, ListXor, FromRight, Fit, Wrap32;
      var parity := XorPayloads(sources);
      IsParityIff(sources, sent, first, parity);
      FitIs(sources, sent, first);
      r := GroupResult(firstWireSeq.value, targetK % 0x100, sourceLens, parity);
    }

    /** Append a source, to a new group when it does not follow the last one. */
    method Gather(wireSeq: u32, bytes: Bytes8, ghost n: int)
      requires Valid() && wireSeq == Wrap32(n) && bytes == sent(n)
      requires sources != [] ==> 0 < n - (first + |sources| - 1) < MOD32
      modifies this
      ensures sources == (if old(sources) != [] && n == old(first + |sources|) then old(sources) else []) + [bytes]
      ensures AreSent(sources, sent, first) && sourceLens == Lens(sources) && first == n - |sources| + 1
      ensures firstWireSeq == Some(Wrap32(first)) && lastWireSeq == Some(Wrap32(n))
    {
      hide Wrap32, Len16;
      if lastWireSeq.Some? {
        NextNumber(first + |sources| - 1, n);
        if wireSeq != (lastWireSeq.value + 1) % MOD32 { Reset(); }
      }
      if firstWireSeq.None? {
        firstWireSeq := Some(wireSeq);
        first := n;
      }
      sourceLens, sources, lastWireSeq := sourceLens + [Len16(bytes)], sources + [bytes], Some(wireSeq);
    }

    /**
     * Source `n` is sent. A group is abandoned when `n` does not follow its last
     * source. The group that fills goes out as the parity of the `targetK`
     * consecutive sources that end with `n`, which it is exactly when every length
     * fits the table's 16 bits.
     */
    method Add(wireSeq: u32, bytes: Bytes8, ghost n: int) returns (r: Option<GroupResult>)
      requires Valid() && wireSeq == Wrap32(n) && bytes == sent(n)
      requires sources != [] ==> 0 < n - (first + |sources| - 1) < MOD32
      modifies this
      ensures Valid()
      ensures var group := (if old(sources) != [] && n == old(first + |sources|) then old(sources) else []) + [bytes];
              var f := n - |group| + 1;
              && (r.Some? <==> |group| >= targetK) && sources == (if r.Some? then [] else group)
              && (r.Some? ==>
                    && r.value.first == Wrap32(f) && r.value.k == targetK % 0x100
                    && |r.value.lens| == |group| == (if targetK == 0 then 1 else targetK)
                    && (forall i :: 0 <= i < |group| ==> r.value.lens[i] == |group[i]| % 0x1_0000)
                    && (IsParityOf(r.value.AsEnvelope(), sent, f) <==> Fit(sent, f, |group|)))
    {
      hide IsParityOf, Fit, Wrap32, Lens;
      Gather(wireSeq, bytes, n);
      if |sources| < targetK { return None; }
      var result := Emit();
      Reset();
      assert sourceLens == Lens(sources) by { NoLens(sources); }
      return Some(result);
    }
  }

  lemma NoLens(sources: seq<Bytes8>)
    requires sources == []
    ensures Lens(sources) == []
  {
  }

  lemma NextNumber(last: int, n: int)
    requires 0 < n - last < MOD32
    ensures Wrap32(n) == (Wrap32(last) + 1) % MOD32 <==> n == last + 1
  {
  }
}
