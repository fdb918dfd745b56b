/**
 * Wrapping sequence numbers.
 *
 * A frame label is 31 bits on the wire and a `wire_seq` is 32 bits; both wrap.
 * Code compares them by serial arithmetic (section 3.2 of RFC 1982). The model
 * keeps unbounded true numbers beside the wrapped ones and states exactly on
 * which distances the wrapped comparison agrees with the true order.
 */
module Serial {

  const MOD31: int := 0x8000_0000
  const HALF31: int := 0x4000_0000
  const MOD32: int := 0x1_0000_0000
  const HALF32: int := 0x8000_0000

  /** How many frames ahead of the newest received label a label may be. */
  const LABEL_WINDOW: int := 4096
  /** A held label this far behind the newest received one is expired. */
  const LABEL_EXPIRY: int := 0x2000_0000

  type u32 = n: int | 0 <= n < 0x1_0000_0000

  datatype Option<+T> = None | Some(value: T)

  function Wrap31(n: int): u32 { n % MOD31 }

  function Wrap32(n: int): u32 { n % MOD32 }

  /** Distance from `b` forward to `a`, modulo 2^31. */
  function Forward31(a: int, b: int): (d: int)
    ensures 0 <= d < MOD31
  {
    (a - b) % MOD31
  }

  /** Serial "strictly newer" on 31-bit labels. */
  predicate IsNewer(a: int, b: int) {
    var forward := Forward31(a, b);
    forward != 0 && forward < HALF31
  }

  /** `a.wrapping_sub(b) as i32` on 32-bit numbers. */
  function Signed32(a: int, b: int): (d: int)
    ensures -HALF32 <= d < HALF32
  {
    var m := (a - b) % MOD32;
    if m < HALF32 then m else m - MOD32
  }

  lemma Forward31OfTrue(x: int, y: int)
    ensures Forward31(Wrap31(x), Wrap31(y)) == (x - y) % MOD31
  {
    var qx, qy := x / MOD31, y / MOD31;
    assert x - y == Wrap31(x) - Wrap31(y) + MOD31 * (qx - qy);
  }

  lemma Signed32OfTrue(x: int, y: int)
    requires -HALF32 <= x - y < HALF32
    ensures Signed32(Wrap32(x), Wrap32(y)) == x - y
  {
    var qx, qy := x / MOD32, y / MOD32;
    assert Wrap32(x) - Wrap32(y) == x - y - MOD32 * (qx - qy);
  }

  /**
   * The serial comparison is the true order exactly on distances in
   * [-2^30, 2^30): for numbers less than a full turn apart, agreement with the
   * true order holds if and only if the distance is in that range.
   */
  lemma NewerIffTrueOrder(x: int, y: int)
    requires -MOD31 < x - y < MOD31
    ensures (IsNewer(Wrap31(x), Wrap31(y)) <==> x > y) <==> -HALF31 <= x - y < HALF31
  {
    Forward31OfTrue(x, y);
  }

  /** The distance `d`, forward or back, lies in the near half of a turn. */
  predicate NearSide(d: int) { if d > 0 then 0 < d % MOD31 < HALF31 else (-d) % MOD31 <= HALF31 }

  /** Over any number of turns the serial comparison is the true order exactly on the near sides. */
  lemma NewerIffNearSide(x: int, y: int)
    ensures (IsNewer(Wrap31(x), Wrap31(y)) <==> x > y) <==> NearSide(x - y)
  {
    Forward31OfTrue(x, y);
    ModOfNegation(x - y);
  }

  lemma ModOfNegation(d: int)
    ensures (-d) % MOD31 == if d % MOD31 == 0 then 0 else MOD31 - d % MOD31
  {
    var q, r, q', r' := d / MOD31, d % MOD31, (-d) / MOD31, (-d) % MOD31;
    assert MOD31 * (q + q') + r + r' == 0;
    assert -2 < q + q' <= 0;
  }

  // ---------------------------------------------------------------------
  // Ordering a CDF 5/3 arrival against the generation a tile holds.
  // ---------------------------------------------------------------------

  datatype ArrivalOrder = Current | NewGeneration | Stale

  /** Four-bit generations: a forward distance under 8 is an advance. */
  predicate GenerationIsNewer(candidate: int, current: int) {
    var forward := (candidate - current) % 16;
    forward != 0 && forward < 8
  }

  predicate LabelRunsAhead(lab: int, newest: Option<u32>) {
    newest.Some? &&
    var ahead := Forward31(lab, newest.value);
    ahead > LABEL_WINDOW && ahead < HALF31
  }

  predicate LabelExpired(held: int, newest: Option<u32>) {
    newest.Some? &&
    var behind := Forward31(newest.value, held);
    behind > LABEL_EXPIRY && behind < MOD31 - LABEL_WINDOW
  }

  function ClassifyArrival(heldGeneration: int, heldSeq: int, generation: int, frameSeq: int): ArrivalOrder {
    var arriving, held := Wrap31(frameSeq), Wrap31(heldSeq);
    if arriving != held then
      if IsNewer(arriving, held) then NewGeneration else Stale
    else if generation == heldGeneration then Current
    else if GenerationIsNewer(generation, heldGeneration) then NewGeneration
    else Stale
  }

  /**
   * Within 2^30 of the newest received number, a held label is expired exactly
   * when it is more than 2^29 behind, or implausibly far ahead.
   */
  lemma ExpiredIffTrueAge(newest: int, held: int)
    requires -HALF31 < newest - held < HALF31
    ensures LabelExpired(Wrap31(held), Some(Wrap31(newest)))
       <==> newest - held > LABEL_EXPIRY || held - newest > LABEL_WINDOW
  {
    Forward31OfTrue(newest, held);
  }

  lemma RunsAheadIffTrueLead(newest: int, lab: int)
    requires -HALF31 < newest - lab < HALF31
    ensures LabelRunsAhead(Wrap31(lab), Some(Wrap31(newest))) <==> lab - newest > LABEL_WINDOW
  {
    Forward31OfTrue(lab, newest);
  }

  /** Numbers less than a turn apart wrap to the same label only if they are the same. */
  lemma WrapApart(x: int, y: int)
    requires -MOD31 < x - y < MOD31
    ensures Wrap31(x) == Wrap31(y) <==> x == y
  {
    var qx, qy := x / MOD31, y / MOD31;
    assert x == qx * MOD31 + Wrap31(x) && y == qy * MOD31 + Wrap31(y);
  }

  lemma WrapTwice(x: int)
    ensures Wrap31(Wrap31(x)) == Wrap31(x)
  {
  }

  /** Different labels are ordered by the serial comparison alone. */
  lemma ClassifyByLabel(held: int, arriving: int, hg: int, g: int)
    requires Wrap31(held) != Wrap31(arriving)
    ensures ClassifyArrival(hg, Wrap31(held), g, Wrap31(arriving))
         == if IsNewer(Wrap31(arriving), Wrap31(held)) then NewGeneration else Stale
  {
    hide Wrap31, IsNewer, GenerationIsNewer;
    WrapTwice(held);
    WrapTwice(arriving);
  }

  /**
   * Generations count modulo 16 on the wire. For true generations less than a turn
   * apart the comparison is the true order exactly on differences in [-8, 8).
   */
  lemma GenerationIffTrueOrder(x: int, y: int)
    requires -16 < x - y < 16
    ensures (GenerationIsNewer(x % 16, y % 16) <==> x > y) <==> -8 <= x - y < 8
  {
    var q := x / 16 - y / 16;
    assert x % 16 - y % 16 == (x - y) - 16 * q;
    TurnsOf16(x - y, q);
  }

  lemma TurnsOf16(d: int, q: int)
    requires -16 < d < 16
    ensures (d - 16 * q) % 16 == if d >= 0 then d else d + 16
  {
    var e := d - 16 * q;
    assert e == 16 * (e / 16) + e % 16;
    assert d - e % 16 == 16 * (e / 16 + q);
  }

  /** Under one label the true generation decides; the same one continues what is held. */
  lemma ClassifySameLabel(n: int, hg: int, g: int)
    requires -8 <= g - hg < 8
    ensures ClassifyArrival(hg % 16, Wrap31(n), g % 16, Wrap31(n))
         == if g == hg then Current else if g > hg then NewGeneration else Stale
  {
    hide Wrap31, IsNewer, GenerationIsNewer;
    GenerationIffTrueOrder(g, hg);
    assert g % 16 == hg % 16 ==> g == hg;
  }

  /**
   * The order the core acts on is the true order. `held` and `arriving` are
   * true frame numbers within 2^30 of the newest received one; the two filters
   * the core applies first (`LabelExpired`, `LabelRunsAhead`) and an arrival at
   * most 2^29 behind put both in one half-turn.
   */
  lemma ClassifyMatchesTrueOrder(newest: int, held: int, arriving: int, hg: int, g: int)
    requires -HALF31 < newest - held < HALF31
    requires -HALF31 < newest - arriving < HALF31
    requires !LabelExpired(Wrap31(held), Some(Wrap31(newest)))
    requires !LabelRunsAhead(Wrap31(arriving), Some(Wrap31(newest)))
    requires newest - arriving <= LABEL_EXPIRY
    requires held != arriving
    ensures ClassifyArrival(hg, Wrap31(held), g, Wrap31(arriving))
         == if arriving > held then NewGeneration else Stale
  {
    hide Wrap31, IsNewer, LabelExpired, LabelRunsAhead, ClassifyArrival;
    ExpiredIffTrueAge(newest, held);
    RunsAheadIffTrueLead(newest, arriving);
    WrapApart(held, arriving);
    ClassifyByLabel(held, arriving, hg, g);
    NewerIffTrueOrder(arriving, held);
  }

  /**
   * Without the bound on how far behind the arrival lies, the order is right if
   * and only if the two true numbers are within one half-turn; in particular an
   * arrival 2^30 - 1 behind against a held label 4096 ahead reads as newer.
   */
  lemma ClassifyExactly(held: int, arriving: int, hg: int, g: int)
    requires held != arriving && -MOD31 < arriving - held < MOD31
    ensures (ClassifyArrival(hg, Wrap31(held), g, Wrap31(arriving))
             == if arriving > held then NewGeneration else Stale)
       <==> -HALF31 <= arriving - held < HALF31
    ensures ClassifyArrival(0, Wrap31(4096), 0, Wrap31(1 - HALF31)) == NewGeneration
  {
    hide Wrap31, IsNewer, ClassifyArrival;
    WrapApart(held, arriving);
    ClassifyByLabel(held, arriving, hg, g);
    NewerIffTrueOrder(arriving, held);
    Misjudged();
  }

  lemma Misjudged()
    ensures ClassifyArrival(0, Wrap31(4096), 0, Wrap31(1 - HALF31)) == NewGeneration
  {
  }
}
