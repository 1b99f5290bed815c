/**
 Exponential backoff: the envelope of the pauses and `Backoff.Pause`.
 Durations are whole nanoseconds. A `float64` product is taken as the exact real product, and the conversion
 back to a duration truncates it.
 */
module Backoffs {
  import opened Prelude

  const SECOND := 1_000_000_000
  const TWO_TO_63 := 9_223_372_036_854_775_808

  /** A `Backoff` value: its parameters and the current period, 0 before the first pause. */
  datatype Settings = Settings(initial: int, max: int, multiplier: real, cur: int)
  {
    function Initial(): int { if initial == 0 then SECOND else initial }

    function Max(): int { if max == 0 then 30 * SECOND else max }

    function Multiplier(): real { if multiplier < 1.0 then 2.0 else multiplier }

    /** The period of the first pause; it is not capped. */
    function Start(): int { if cur == 0 then Initial() else cur }

    /** The settings for which `Pause` never panics and no product leaves the 64-bit range. */
    predicate Usable() {
      && initial >= 0 && max >= 0 && cur >= 0
      && Fits(Start(), Multiplier())
      && Fits(Max(), Multiplier())
    }

    /** What `Pause` leaves behind when the next period is `next`. */
    function After(next: int): Settings {
      Settings(Initial(), Max(), Multiplier(), next)
    }
  }

  /** The product of two `float64` numbers, taken as exact. */
  function Times(a: real, b: real): real {
    a * b
  }

  predicate Fits(period: int, multiplier: real) {
    Times(period as real, multiplier) < TWO_TO_63 as real
  }

  /** `time.Duration(float64(period) * multiplier)`. */
  function Truncated(period: int, multiplier: real): int {
    Times(period as real, multiplier).Floor
  }

  /** The next period: the truncated product, capped. */
  function Grow(period: int, multiplier: real, max: int): int {
    Min(max, Truncated(period, multiplier))
  }

  /** The longest the `k`-th pause (from 0) may be. */
  function Envelope(s: Settings, k: nat): (e: int)
    requires s.Usable()
    ensures 1 <= e
    ensures k > 0 ==> e <= s.Max()
  {
    hide Grow, Fits;
    if k == 0 then s.Start()
    else
      var prev := Envelope(s, k - 1);
      GrowIsPositive(prev, s.Multiplier(), s.Max());
      Grow(prev, s.Multiplier(), s.Max())
  }

  /** No product ever leaves the 64-bit range. */
  lemma EnvelopeFits(s: Settings, k: nat)
    requires s.Usable()
    ensures Fits(Envelope(s, k), s.Multiplier())
  {
    hide Grow, Fits;
    if k > 0 {
      FitsBelow(Envelope(s, k), s.Max(), s.Multiplier());
    }
  }

  /** `1 + rand.Int63n(period)`, where `raw` stands for the random source. */
  function Draw(raw: nat, period: int): (d: int)
    requires 1 <= period
    ensures 1 <= d <= period
  {
    1 + raw % period
  }

  lemma DrawIsOnto(d: int, period: int)
    requires 1 <= d <= period
    ensures Draw(d - 1, period) == d
  {
  }

  // ---------------------------------------------------------------- products

  lemma TimesMonotone(a: real, b: real, m: real)
    requires a <= b && 0.0 <= m
    ensures Times(a, m) <= Times(b, m)
  {
    assert (b - a) * m >= 0.0;
    assert b * m - a * m == (b - a) * m;
  }

  /** A product split into the factor itself and the excess over it. */
  lemma TimesExcess(a: real, m: real)
    ensures Times(a, m) == a + Times(a, m - 1.0)
  {
  }

  lemma TimesMinus(a: real, b: real, m: real)
    ensures Times(a - b, m) == Times(a, m) - Times(m, b)
  {
  }

  lemma TimesNonnegative(a: real, m: real)
    requires 0.0 <= a && 0.0 <= m
    ensures 0.0 <= Times(a, m)
  {
  }

  lemma TimesAssociative(a: real, b: real, c: real)
    ensures Times(a, Times(b, c)) == Times(Times(a, c), b)
  {
    assert a * (b * c) == (a * c) * b;
  }

  lemma {:induction false} TimesIntegral(a: nat, b: nat)
    ensures Times(a as real, b as real) == (a * b) as real
  {
    if a == 0 {
      assert 0.0 * b as real == 0.0;
    } else {
      TimesIntegral(a - 1, b);
      var before := (a - 1) as real;
      assert a as real == before + 1.0;
      assert (before + 1.0) * b as real == before * b as real + b as real;
      assert a * b == (a - 1) * b + b;
    }
  }

  lemma IntProductMonotone(a: nat, b: nat, m: nat)
    requires a <= b
    ensures a * m <= b * m
  {
  }

  lemma IntAssociative(a: int, b: int, c: int)
    ensures a * (b * c) == (a * c) * b
  {
  }

  // ---------------------------------------------------------------- one step of the envelope

  lemma FitsBelow(period: int, max: int, m: real)
    requires period <= max && 1.0 <= m && Fits(max, m)
    ensures Fits(period, m)
  {
    hide Times;
    TimesMonotone(period as real, max as real, m);
  }

  /** Truncation costs less than one nanosecond. */
  lemma TruncatedBounds(period: int, m: real)
    ensures Times(period as real, m) - 1.0 < Truncated(period, m) as real <= Times(period as real, m)
  {
    hide Times;
  }

  lemma GrowIsPositive(period: int, m: real, max: int)
    requires 1 <= period && 1.0 <= m && 1 <= max
    ensures Min(period, max) <= Grow(period, m, max) <= max
  {
    hide Times, Truncated;
    TruncatedBounds(period, m);
    TimesExcess(period as real, m);
    TimesNonnegative(period as real, m - 1.0);
  }

  lemma GrowIntegral(period: nat, m: nat, max: int)
    ensures Grow(period, m as real, max) == Min(max, period * m)
  {
    hide Times;
    TimesIntegral(period, m);
  }

  /** The bounds `full - slack` and `full` of a period, moved on by one truncated product. */
  lemma BoundsStep(full: real, slack: real, prev: int, m: real, max: int)
    requires 0.0 <= m && prev as real <= full
    ensures Grow(prev, m, max) as real <= Times(full, m)
    ensures prev as real >= full - slack ==>
              || Grow(prev, m, max) == max
              || Grow(prev, m, max) as real >= Times(full, m) - (Times(m, slack) + 1.0)
  {
    hide Times, Truncated;
    TruncatedBounds(prev, m);
    TimesMonotone(prev as real, full, m);
    if prev as real >= full - slack {
      TimesMonotone(full - slack, prev as real, m);
      TimesMinus(full, slack, m);
    }
  }

  lemma GrowClimbs(start: int, period: int, m: real, max: int)
    requires start <= period && 1.0 <= m && Times(start as real, m - 1.0) >= 1.0
    ensures Grow(period, m, max) >= Min(max, period + 1)
  {
    hide Times, Truncated;
    TruncatedBounds(period, m);
    TimesExcess(period as real, m);
    TimesMonotone(start as real, period as real, m - 1.0);
  }

  lemma GrowStuck(period: int, m: real, max: int)
    requires 1 <= period <= max && 1.0 <= m && Times(period as real, m - 1.0) < 1.0
    ensures Grow(period, m, max) == period
  {
    hide Times, Truncated;
    TruncatedBounds(period, m);
    TimesExcess(period as real, m);
    TimesNonnegative(period as real, m - 1.0);
  }

  lemma MinProduct(prev: int, full: int, max: int, m: nat)
    requires 1 <= m && 1 <= prev && (prev == full || prev == max <= full)
    ensures Min(max, prev * m) == Min(max, full * m)
  {
    IntProductMonotone(prev, full, m);
    IntProductMonotone(1, m, prev);
  }

  class Backoff {
    var initial: int
    var max: int
    var multiplier: real
    var cur: int

    ghost const given: Settings  // the value this object started as
    ghost var pauses: nat        // calls to Pause so far

    ghost function Value(): Settings
      reads this
    {
      Settings(initial, max, multiplier, cur)
    }

    ghost predicate Valid()
      reads this
    {
      && given.Usable()
      && Value() == if pauses == 0 then given else given.After(Envelope(given, pauses))
    }

    constructor (s: Settings)
      requires s.Usable()
      ensures Valid() && given == s && pauses == 0
    {
      initial, max, multiplier, cur := s.initial, s.max, s.multiplier, s.cur;
      given, pauses := s, 0;
    }

    /** `raw` stands for the random source; `rand.Int63n(n)` may return any number from 0 to n - 1. */
    method Pause(raw: nat) returns (d: int)
      requires Valid()
      modifies this
      ensures Valid() && pauses == old(pauses) + 1
      ensures d == PauseLength(given, old(pauses), raw)
    {
      hide Times, Truncated, Draw, Fits;
      if initial == 0 {
        initial := SECOND;
      }
      if cur == 0 {
        cur := initial;
      }
      if max == 0 {
        max := 30 * SECOND;
      }
      if multiplier < 1.0 {
        multiplier := 2.0;
      }
      assert cur == Envelope(given, pauses);
      d := Draw(raw, cur);
      cur := Truncated(cur, multiplier);
      if cur > max {
        cur := max;
      }
      pauses := pauses + 1;
    }
  }

  /** The `k`-th pause when the random source gives `raw`. */
  function PauseLength(s: Settings, k: nat, raw: nat): (d: int)
    requires s.Usable()
    ensures 1 <= d <= Envelope(s, k)
  {
    Draw(raw, Envelope(s, k))
  }

  /** Every length from one nanosecond up to the envelope is possible. */
  lemma EveryLengthPossible(s: Settings, k: nat, d: int)
    requires s.Usable() && 1 <= d <= Envelope(s, k)
    ensures PauseLength(s, k, d - 1) == d
  {
    hide Times, Draw, Grow, Fits;
    DrawIsOnto(d, Envelope(s, k));
  }

  /** A copy of a backoff that has already paused `j` times goes on where the original was. */
  lemma {:induction false} CopyResumes(s: Settings, j: nat, k: nat)
    requires s.Usable() && j > 0
    ensures s.After(Envelope(s, j)).Usable()
    ensures Envelope(s.After(Envelope(s, j)), k) == Envelope(s, j + k)
  {
    hide Times, Grow, Fits;
    EnvelopeFits(s, j);
    if k > 0 {
      CopyResumes(s, j, k - 1);
    }
  }

  /** The parameters alone, as a backoff that has not paused. */
  function ParametersOf(s: Settings): Settings {
    s.(cur := 0)
  }

  lemma {:induction false} SameStartSameEnvelope(s: Settings, t: Settings, k: nat)
    requires s.Usable() && t.Usable()
    requires s.Start() == t.Start() && s.Max() == t.Max() && s.Multiplier() == t.Multiplier()
    ensures Envelope(s, k) == Envelope(t, k)
  {
    hide Times, Grow, Fits;
    if k > 0 {
      SameStartSameEnvelope(s, t, k - 1);
    }
  }

  /**
   A copy of `s` pauses as its parameters alone would exactly when the period it takes over is not set, or is the
   initial one.
   */
  lemma CopyUsesParametersOnlyIff(s: Settings)
    requires s.Usable() && ParametersOf(s).Usable()
    ensures (forall k: nat :: Envelope(s, k) == Envelope(ParametersOf(s), k)) <==> s.cur == 0 || s.cur == s.Initial()
  {
    hide Times, Grow, Fits;
    var parameters := ParametersOf(s);
    if s.cur == 0 || s.cur == s.Initial() {
      forall k: nat
        ensures Envelope(s, k) == Envelope(parameters, k)
      {
        SameStartSameEnvelope(s, parameters, k);
      }
    } else {
      assert Envelope(s, 0) != Envelope(parameters, 0);
    }
  }

  /** One pause is enough: a copy of this doubling backoff then starts at 2 where its parameters alone start at 1. */
  lemma PausedCopyDiffers()
    ensures var s := Settings(1, 10, 2.0, 0);
            var paused := s.After(Envelope(s, 1));
            paused.Usable() && ParametersOf(paused).Usable() &&
            Envelope(paused, 0) == 2 && Envelope(ParametersOf(paused), 0) == 1
  {
    var s := Settings(1, 10, 2.0, 0);
    assert 1.0 * 2.0 == 2.0 && 10.0 * 2.0 == 20.0;
    EnvelopeClosedForm(s, 2, 1);
    assert Pow(2, 1) == 2;
    CopyResumes(s, 1, 0);
  }

  // ---------------------------------------------------------------- closed forms

  function Pow(m: nat, k: nat): nat {
    if k == 0 then 1 else m * Pow(m, k - 1)
  }

  function RealPow(m: real, k: nat): real {
    if k == 0 then 1.0 else Times(m, RealPow(m, k - 1))
  }

  /** The sum of the first `k` powers of `m`. */
  function Geometric(m: real, k: nat): real {
    if k == 0 then 0.0 else Times(m, Geometric(m, k - 1)) + 1.0
  }

  lemma {:induction false} GeometricClosed(m: real, k: nat)
    ensures (m - 1.0) * Geometric(m, k) == RealPow(m, k) - 1.0
  {
    if k > 0 {
      GeometricClosed(m, k - 1);
      GeometricClosedStep(m, Geometric(m, k - 1), RealPow(m, k - 1));
    }
  }

  lemma GeometricClosedStep(m: real, sum: real, power: real)
    requires (m - 1.0) * sum == power - 1.0
    ensures (m - 1.0) * (Times(m, sum) + 1.0) == Times(m, power) - 1.0
  {
    assert (m - 1.0) * (m * sum + 1.0) == m * ((m - 1.0) * sum) + (m - 1.0);
    assert m * (power - 1.0) == m * power - m;
  }

  /** With an integral multiplier the envelope is exactly exponential until it meets the cap. */
  lemma {:induction false} EnvelopeClosedForm(s: Settings, m: nat, k: nat)
    requires s.Usable() && s.Multiplier() == m as real
    ensures Envelope(s, k) == if k == 0 then s.Start() else Min(s.Max(), s.Start() * Pow(m, k))
  {
    hide Times, Grow, Fits;
    if k > 0 {
      EnvelopeClosedForm(s, m, k - 1);
      var prev := Envelope(s, k - 1);
      GrowIntegral(prev, m, s.Max());
      IntAssociative(s.Start(), m, Pow(m, k - 1));
      MinProduct(prev, s.Start() * Pow(m, k - 1), s.Max(), m);
    }
  }

  // ---------------------------------------------------------------- fields that are not set

  /** The zero backoff: 1 s, then 2 s, 4 s and so on, and 30 s from the fifth step on. */
  lemma ZeroBackoff(k: nat)
    ensures Settings(0, 0, 0.0, 0).Usable()
    ensures Envelope(Settings(0, 0, 0.0, 0), k) ==
            if k == 0 then 1_000_000_000 else Min(30_000_000_000, 1_000_000_000 * Pow(2, k))
  {
    var s := Settings(0, 0, 0.0, 0);
    ZeroBackoffIsUsable();
    hide Times, Fits, Envelope, Pow;
    EnvelopeClosedForm(s, 2, k);
  }

  lemma ZeroBackoffIsUsable()
    ensures Settings(0, 0, 0.0, 0).Usable()
  {
    assert 1_000_000_000.0 * 2.0 == 2_000_000_000.0 && 30_000_000_000.0 * 2.0 == 60_000_000_000.0;
  }

  /** Without `Initial` the first period is a second, whatever the other fields say. */
  lemma UnsetInitial(max: int, m: nat, k: nat)
    requires max > 0 && m >= 1 && Settings(0, max, m as real, 0).Usable()
    ensures Envelope(Settings(0, max, m as real, 0), k) ==
            if k == 0 then 1_000_000_000 else Min(max, 1_000_000_000 * Pow(m, k))
  {
    hide Times, Fits, Envelope, Pow;
    EnvelopeClosedForm(Settings(0, max, m as real, 0), m, k);
  }

  /** Without `Max` the cap is 30 seconds. */
  lemma UnsetMax(initial: int, m: nat, k: nat)
    requires initial > 0 && m >= 1 && Settings(initial, 0, m as real, 0).Usable()
    ensures Envelope(Settings(initial, 0, m as real, 0), k) ==
            if k == 0 then initial else Min(30_000_000_000, initial * Pow(m, k))
  {
    hide Times, Fits, Envelope, Pow;
    EnvelopeClosedForm(Settings(initial, 0, m as real, 0), m, k);
  }

  /** A multiplier below 1, set or not, stands for 2. */
  lemma SmallMultiplier(initial: int, max: int, multiplier: real, k: nat)
    requires initial > 0 && max > 0 && multiplier < 1.0 && Settings(initial, max, multiplier, 0).Usable()
    ensures Envelope(Settings(initial, max, multiplier, 0), k) ==
            if k == 0 then initial else Min(max, initial * Pow(2, k))
  {
    hide Times, Fits, Envelope, Pow;
    EnvelopeClosedForm(Settings(initial, max, multiplier, 0), 2, k);
  }

  /**
   The whole sequence of periods for any fields: where it starts, and each next period as the one whole number of
   nanoseconds that is less than one below the product, or the cap.
   */
  lemma PeriodsOfFields(s: Settings, k: nat)
    requires s.Usable()
    ensures Envelope(s, 0) == if s.cur != 0 then s.cur else if s.initial != 0 then s.initial else 1_000_000_000
    ensures var max := if s.max != 0 then s.max else 30_000_000_000;
            var product := Envelope(s, k) as real * (if s.multiplier >= 1.0 then s.multiplier else 2.0);
            if product.Floor > max then Envelope(s, k + 1) == max
            else product - 1.0 < Envelope(s, k + 1) as real <= product
  {
    hide Times, Fits, Grow;
    GrowIsFloor(Envelope(s, k), s.Multiplier(), s.Max());
  }

  lemma GrowIsFloor(period: int, m: real, max: int)
    ensures var product := period as real * m;
            if product.Floor > max then Grow(period, m, max) == max
            else product - 1.0 < Grow(period, m, max) as real <= product
  {
    var product := Times(period as real, m);
    hide Times;
    assert product - 1.0 < product.Floor as real <= product;
    assert Grow(period, m, max) == Min(max, product.Floor);
    assert product == period as real * m by {
      TimesIs(period as real, m);
    }
  }

  lemma TimesIs(a: real, b: real)
    ensures Times(a, b) == a * b
  {
  }

  /** What the envelope would be without truncation and cap. */
  function Exact(s: Settings, k: nat): real {
    Times(s.Start() as real, RealPow(s.Multiplier(), k))
  }

  lemma ExactStart(s: Settings)
    ensures Exact(s, 0) == s.Start() as real
  {
    assert s.Start() as real * 1.0 == s.Start() as real;
  }

  lemma ExactStep(s: Settings, k: nat)
    ensures Exact(s, k + 1) == Times(Exact(s, k), s.Multiplier())
  {
    hide Times;
    TimesAssociative(s.Start() as real, s.Multiplier(), RealPow(s.Multiplier(), k));
  }

  /** For a real multiplier, truncation costs at most the geometric sum `(M^k - 1) / (M - 1)`. */
  lemma {:induction false} EnvelopeBounds(s: Settings, k: nat)
    requires s.Usable()
    ensures Envelope(s, k) as real <= Exact(s, k)
    ensures k == 0 || Envelope(s, k) <= s.Max()
    ensures || (k > 0 && Envelope(s, k) == s.Max())
            || Envelope(s, k) as real >= Exact(s, k) - Geometric(s.Multiplier(), k)
  {
    hide Times, Grow, Fits, Exact;
    ExactStart(s);
    if k > 0 {
      EnvelopeBounds(s, k - 1);
      ExactStep(s, k - 1);
      var prev := Envelope(s, k - 1);
      BoundsStep(Exact(s, k - 1), Geometric(s.Multiplier(), k - 1), prev, s.Multiplier(), s.Max());
      GrowIsPositive(prev, s.Multiplier(), s.Max());
    }
  }

  // ---------------------------------------------------------------- progress

  /** The period never shrinks below a start within the cap, so it never returns to the 0 that means "not started". */
  lemma EnvelopeNondecreasing(s: Settings, k: nat)
    requires s.Usable() && s.Start() <= s.Max()
    ensures 1 <= Envelope(s, k) <= Envelope(s, k + 1) <= s.Max()
  {
    hide Times, Grow, Fits;
    GrowIsPositive(Envelope(s, k), s.Multiplier(), s.Max());
  }

  /** One step of the multiplier is worth at least a nanosecond. */
  predicate Grows(s: Settings) {
    Times(s.Start() as real, s.Multiplier() - 1.0) >= 1.0
  }

  lemma {:induction false} StartIsLeast(s: Settings, k: nat)
    requires s.Usable() && s.Start() <= s.Max()
    ensures s.Start() <= Envelope(s, k)
  {
    hide Times, Grow, Fits;
    if k > 0 {
      StartIsLeast(s, k - 1);
      EnvelopeNondecreasing(s, k - 1);
    }
  }

  lemma {:induction false} EnvelopeClimbs(s: Settings, k: nat)
    requires s.Usable() && s.Start() <= s.Max() && Grows(s)
    ensures Envelope(s, k) >= Min(s.Max(), s.Start() + k)
  {
    hide Times, Grow, Fits;
    if k > 0 {
      EnvelopeClimbs(s, k - 1);
      StartIsLeast(s, k - 1);
      GrowClimbs(s.Start(), Envelope(s, k - 1), s.Multiplier(), s.Max());
    }
  }

  lemma {:induction false} EnvelopeStuck(s: Settings, k: nat)
    requires s.Usable() && s.Start() < s.Max() && !Grows(s)
    ensures Envelope(s, k) == s.Start()
  {
    hide Times, Grow, Fits;
    if k > 0 {
      EnvelopeStuck(s, k - 1);
      GrowStuck(s.Start(), s.Multiplier(), s.Max());
    }
  }

  /** From a start within the cap the period climbs to the cap, if it can grow, and keeps it. */
  lemma EnvelopeAtMax(s: Settings, k: nat)
    requires s.Usable() && s.Start() <= s.Max() && (s.Start() == s.Max() || Grows(s))
    requires k >= s.Max() - s.Start()
    ensures Envelope(s, k) == s.Max()
  {
    hide Times, Grow, Fits, Grows;
    StartIsLeast(s, k);
    EnvelopeNondecreasing(s, k);
    if s.Start() < s.Max() {
      EnvelopeClimbs(s, k);
    }
  }

  /** The cap is reached at some time exactly when the period starts there or above, or can grow. */
  lemma MaxReachedIff(s: Settings)
    requires s.Usable()
    ensures (exists k :: Envelope(s, k) == s.Max()) <==> s.Start() >= s.Max() || Grows(s)
  {
    hide Times, Grow, Fits, Grows;
    if s.Start() > s.Max() {
      AboveCap(s, 1);
    } else if s.Start() == s.Max() || Grows(s) {
      EnvelopeAtMax(s, s.Max() - s.Start());
    } else {
      forall k: nat
        ensures Envelope(s, k) != s.Max()
      {
        EnvelopeStuck(s, k);
      }
    }
  }

  /**
   The cap is reached within `Max - Start` pauses and kept, when the period can grow at all; otherwise truncation
   holds it at its start for ever. A start above the cap drops to the cap after one pause.
   */
  lemma EnvelopeReachesMaxIff(s: Settings)
    requires s.Usable()
    ensures (exists k :: Envelope(s, k) == s.Max()) <==> s.Start() >= s.Max() || Grows(s)
    ensures s.Start() <= s.Max() && (s.Start() == s.Max() || Grows(s)) ==>
              forall k :: k >= s.Max() - s.Start() ==> Envelope(s, k) == s.Max()
    ensures s.Start() > s.Max() ==> forall k :: k > 0 ==> Envelope(s, k) == s.Max()
    ensures s.Start() < s.Max() && !Grows(s) ==> forall k :: Envelope(s, k) == s.Start()
  {
    hide Times, Grow, Fits, Grows, Envelope;
    MaxReachedIff(s);
    forall k: nat
      ensures s.Start() <= s.Max() && (s.Start() == s.Max() || Grows(s)) && k >= s.Max() - s.Start() ==>
                Envelope(s, k) == s.Max()
      ensures s.Start() > s.Max() && k > 0 ==> Envelope(s, k) == s.Max()
      ensures s.Start() < s.Max() && !Grows(s) ==> Envelope(s, k) == s.Start()
    {
      if s.Start() > s.Max() {
        if k > 0 {
          AboveCap(s, k);
        }
      } else if s.Start() == s.Max() || Grows(s) {
        if k >= s.Max() - s.Start() {
          EnvelopeAtMax(s, k);
        }
      } else {
        EnvelopeStuck(s, k);
      }
    }
  }

  lemma {:induction false} AboveCap(s: Settings, k: nat)
    requires s.Usable() && s.Start() > s.Max() && k > 0
    ensures Envelope(s, k) == s.Max()
  {
    hide Times, Grow, Fits;
    if k > 1 {
      AboveCap(s, k - 1);
    }
    var prev := Envelope(s, k - 1);
    GrowIsPositive(prev, s.Multiplier(), s.Max());
  }

  // ---------------------------------------------------------------- the pauses of one run

  /** The first `n` pauses of one retryer, added up; `raw` is the random source. */
  function TotalPause(s: Settings, raw: nat -> nat, n: nat): int
    requires s.Usable()
  {
    if n == 0 then 0 else TotalPause(s, raw, n - 1) + PauseLength(s, n - 1, raw(n - 1))
  }

  lemma {:induction false} TotalPauseBounds(s: Settings, raw: nat -> nat, n: nat)
    requires s.Usable()
    ensures n <= TotalPause(s, raw, n)
    ensures s.Start() <= s.Max() ==> TotalPause(s, raw, n) <= n * s.Max()
  {
    hide Times, Grow, Fits, Draw;
    if n > 0 {
      TotalPauseBounds(s, raw, n - 1);
      assert n * s.Max() == (n - 1) * s.Max() + s.Max();
      if n == 1 {
        assert Envelope(s, 0) == s.Start();
      }
    }
  }

  /** At most the geometric sum of ratio `m` up to `power`, without the division. */
  predicate BelowGeometric(total: int, start: int, m: int, power: int) {
    (m - 1) * total <= start * (power - 1)
  }

  lemma TotalPauseGeometric(s: Settings, raw: nat -> nat, m: nat, n: nat)
    requires s.Usable() && s.Multiplier() == m as real
    ensures (m - 1) * TotalPause(s, raw, n) <= s.Start() * (Pow(m, n) - 1)
  {
    hide Times, Grow, Fits, Draw, Pow, TotalPause;
    TotalPauseBelow(s, raw, m, n);
  }

  lemma {:induction false} TotalPauseBelow(s: Settings, raw: nat -> nat, m: nat, n: nat)
    requires s.Usable() && s.Multiplier() == m as real
    ensures BelowGeometric(TotalPause(s, raw, n), s.Start(), m, Pow(m, n))
  {
    hide Times, Grow, Fits, Draw, BelowGeometric;
    if n == 0 {
      GeometricStart(s.Start(), m);
    } else {
      TotalPauseBelow(s, raw, m, n - 1);
      EnvelopeClosedForm(s, m, n - 1);
      var d, power := PauseLength(s, n - 1, raw(n - 1)), Pow(m, n - 1);
      GeometricCap(d, s.Max(), s.Start(), power, n - 1);
      GeometricStep(TotalPause(s, raw, n - 1), d, s.Start(), m, power);
    }
  }

  lemma GeometricStart(start: int, m: int)
    ensures BelowGeometric(0, start, m, 1)
  {
    assert (m - 1) * 0 == 0 && start * 0 == 0;
  }

  /** A pause within the `k`-th envelope is within the uncapped one. */
  lemma GeometricCap(d: int, max: int, start: int, power: int, k: nat)
    requires d <= if k == 0 then start else Min(max, start * power)
    requires k == 0 ==> power == 1
    ensures d <= start * power
  {
  }

  lemma GeometricStep(total: int, d: int, start: nat, m: nat, power: nat)
    requires 1 <= m && 0 <= d <= start * power && BelowGeometric(total, start, m, power)
    ensures BelowGeometric(total + d, start, m, m * power)
  {
    var top := start * power;
    IntProductMonotone(d, top, m - 1);
    assert (m - 1) * (total + d) == (m - 1) * total + d * (m - 1);
    assert start * (power - 1) == top - start;
    IntAssociative(start, m, power);
    assert start * (m * power - 1) == top * m - start;
    assert top * (m - 1) == top * m - top;
  }
}
