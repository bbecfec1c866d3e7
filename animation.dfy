/**
 * The switcher's animation clock (src/switcher.cpp:38-45, 322-334, 388-390,
 * 455-489): elapsed time from GetTickCount64, the staggered per-chip reveal
 * with ease-out, the intro slide and the accelerating fade-out alpha.
 * Progress values are exact reals rather than 32-bit floats.
 */
module Animation {
  import opened Texels

  /** GetTickCount64 values and their unsigned 64-bit difference. */
  const TickLimit: nat := 0x1_0000_0000_0000_0000
  type Tick = t: nat | t < TickLimit

  /** `now - start` on ULONGLONG: wraps around modulo 2^64. */
  function Elapsed(now: Tick, start: Tick): (e: Tick)
    ensures start <= now ==> e == now - start
    ensures now < start ==> e == now + TickLimit - start
  {
    (now - start) % TickLimit
  }

  const ChipAnimMs: nat := 400     // kChipAnimMs
  const ChipStaggerMs: nat := 100  // kChipStaggerMs
  const SlideDistance: nat := 8    // kSlideDistance
  const FadeOutMs: nat := 300      // kFadeOutMs
  const PanelAlpha: nat := 230     // kPanelAlpha

  /** `totalMs`: the whole intro, the last chip starting (n-1) staggers late. */
  function IntroMs(n: nat): (t: nat)
    ensures t >= ChipAnimMs
    ensures n >= 1 ==> t == ChipAnimMs + (n - 1) * ChipStaggerMs
  {
    ChipAnimMs + (if n > 1 then (n - 1) * ChipStaggerMs else 0)
  }

  /** `std::clamp(t, 0, 1)`. */
  function Clamp01(t: real): (c: real)
    ensures 0.0 <= c <= 1.0
    ensures 0.0 <= t <= 1.0 ==> c == t
  {
    if t < 0.0 then 0.0 else if t > 1.0 then 1.0 else t
  }

  /** Ease-out quadratic `1 - (1 - t)^2`. */
  function EaseOut(t: real): real
  {
    1.0 - (1.0 - t) * (1.0 - t)
  }

  lemma EaseOutRange(t: real)
    requires 0.0 <= t <= 1.0
    ensures 0.0 <= EaseOut(t) <= 1.0
    ensures EaseOut(t) >= t
  {
    var u := 1.0 - t;
    assert EaseOut(t) - t == t * u;
    RealProductNonNegative(t, u);
  }

  /** Ease-out never turns back: a later moment is at least as far along. */
  lemma EaseOutMonotone(s: real, t: real)
    requires 0.0 <= s <= t <= 1.0
    ensures EaseOut(s) <= EaseOut(t)
  {
    assert EaseOut(t) - EaseOut(s) == (t - s) * (2.0 - s - t);
    RealProductNonNegative(t - s, 2.0 - s - t);
  }

  /**
   * `chip_t`: the local progress of chip i of n at global progress g,
   * written as the source writes it (delay and duration as fractions of the
   * whole intro).
   */
  function ChipTime(i: nat, n: nat, g: real): real
  {
    var total := IntroMs(n) as real;
    var delay := (i * ChipStaggerMs) as real / total;
    var chipDur := ChipAnimMs as real / total;
    Clamp01((g - delay) / chipDur)
  }

  /** Dividing the fractions through: chip i is drawn from 100i ms to 100i+400 ms. */
  lemma {:induction false} ChipTimeClosedForm(i: nat, n: nat, g: real)
    ensures ChipTime(i, n, g) == Clamp01((g * IntroMs(n) as real - (i * ChipStaggerMs) as real) / ChipAnimMs as real)
  {
    var total := IntroMs(n) as real;
    var a := (i * ChipStaggerMs) as real;
    var delay := a / total;
    var chipDur := ChipAnimMs as real / total;
    assert delay * total == a;
    assert chipDur * total == ChipAnimMs as real;
    var x := g - delay;
    assert x * total == g * total - a;
    assert x / chipDur == (x * total) / ChipAnimMs as real;
  }

  /** What a frame does with chip i: skip it, fade it in with weight p8, or draw it opaque. */
  datatype Reveal = Hidden | Partial(p8: Byte) | Full

  /**
   * The eased progress decides the chip's treatment: at most 0.001 is
   * skipped, at least 0.999 is drawn at full opacity, and in between the
   * blend weight is `progress * 255` truncated.
   */
  function RevealOf(p: real): (r: Reveal)
    ensures r.Partial? ==> r.p8 < 0xFF
  {
    if p <= 0.001 then Hidden
    else if p >= 0.999 then Full
    else Partial((p * 255.0).Floor)
  }

  function ChipReveal(i: nat, n: nat, g: real): Reveal
  {
    RevealOf(EaseOut(ChipTime(i, n, g)))
  }

  /** The treatment of every chip of an n-chip frame at global progress g. */
  function Schedule(n: nat, g: real): (s: seq<Reveal>)
    ensures |s| == n
  {
    seq(n, i requires 0 <= i < n => ChipReveal(i, n, g))
  }

  /** At global progress 1 every chip is drawn at full opacity. */
  lemma {:induction false} AllChipsShownAtEnd(i: nat, n: nat)
    requires i < n
    ensures ChipReveal(i, n, 1.0) == Full
  {
    ChipTimeClosedForm(i, n, 1.0);
    assert IntroMs(n) >= ChipAnimMs + i * ChipStaggerMs;
    assert ChipTime(i, n, 1.0) == 1.0;
  }

  /** At global progress 0 (and before) no chip is drawn. */
  lemma {:induction false} NoChipShownAtStart(i: nat, n: nat, g: real)
    requires g <= 0.0
    ensures ChipReveal(i, n, g) == Hidden
  {
    ChipTimeClosedForm(i, n, g);
    assert g * IntroMs(n) as real <= 0.0;
    assert ChipTime(i, n, g) == 0.0;
  }

  /** Chips appear left to right: a chip is never further along than the one before it. */
  lemma {:induction false} LaterChipsLag(i: nat, j: nat, n: nat, g: real)
    requires i <= j
    ensures ChipTime(j, n, g) <= ChipTime(i, n, g)
  {
    ChipTimeClosedForm(i, n, g);
    ChipTimeClosedForm(j, n, g);
    assert (i * ChipStaggerMs) as real <= (j * ChipStaggerMs) as real;
  }

  /**
   * Three chips, 500 ms into a 600 ms intro: chip 0 has finished; chip 2,
   * 200 ms late and 400 ms long, is three quarters through before easing.
   */
  lemma IntroAt500ms()
    ensures IntroMs(3) == 600
    ensures ChipTime(0, 3, 500.0 / 600.0) == 1.0
    ensures ChipTime(2, 3, 500.0 / 600.0) == 0.75
    ensures ChipReveal(0, 3, 500.0 / 600.0) == Full
  {
    ChipTimeClosedForm(0, 3, 500.0 / 600.0);
    ChipTimeClosedForm(2, 3, 500.0 / 600.0);
  }

  /**
   * Slide-up offset `dy` (src/switcher.cpp:388-390): eased over the first
   * half of the intro, from SlideDistance pixels down to rest; the cast to
   * int truncates a non-negative value.
   */
  function SlideOffset(g: real): (dy: int)
    ensures 0 <= dy <= SlideDistance
  {
    var t := Clamp01(g * 2.0);
    EaseOutRange(t);
    ((1.0 - EaseOut(t)) * SlideDistance as real).Floor
  }

  lemma SlideEnds(g: real)
    ensures g >= 0.5 ==> SlideOffset(g) == 0
    ensures g <= 0.0 ==> SlideOffset(g) == SlideDistance
  {
  }

  /** Intro progress `t = elapsed / totalMs`; the float test `t >= 1` is `elapsed >= totalMs`. */
  function IntroProgress(elapsed: nat, n: nat): real
  {
    elapsed as real / IntroMs(n) as real
  }

  lemma {:induction false} IntroProgressDone(elapsed: nat, n: nat)
    ensures IntroProgress(elapsed, n) >= 1.0 <==> elapsed >= IntroMs(n)
    ensures 0.0 <= IntroProgress(elapsed, n)
  {
    QuotientAtLeastOne(elapsed as real, IntroMs(n) as real);
  }

  /** For a positive divisor d, `x / d >= 1` exactly when `x >= d`. */
  lemma {:induction false} QuotientAtLeastOne(x: real, d: real)
    requires 0.0 <= x && d > 0.0
    ensures x / d >= 1.0 <==> x >= d
    ensures x / d >= 0.0
  {
    var q := x / d;
    assert q * d == x;
    if q < 0.0 {
      RealProductNonNegative(-q, d);
    }
    if q >= 1.0 {
      RealProductNonNegative(q - 1.0, d);
    } else {
      RealProductNonNegative(1.0 - q, d);
    }
  }

  lemma {:induction false} RealProductNonNegative(a: real, b: real)
    requires a >= 0.0 && b >= 0.0
    ensures a * b >= 0.0
  {
  }

  /**
   * The fade-out's constant alpha before the fade ends: `(1 - t^2) * 230`
   * with `t = elapsed / 300`, truncated to a byte.
   */
  function FadeAlpha(elapsed: nat): (a: nat)
    requires elapsed < FadeOutMs
    ensures a <= PanelAlpha
  {
    var t := elapsed as real / FadeOutMs as real;
    QuotientAtLeastOne(elapsed as real, FadeOutMs as real);
    assert 0.0 <= t < 1.0;
    RealProductNonNegative(t, 1.0 - t);
    RealProductNonNegative(t, t);
    assert 0.0 <= t * t <= t;
    ((1.0 - t * t) * PanelAlpha as real).Floor
  }

  /** The fade starts at the steady alpha and only ever gets more transparent. */
  lemma FadeAlphaDecreases(e1: nat, e2: nat)
    requires e1 <= e2 < FadeOutMs
    ensures FadeAlpha(0) == PanelAlpha
    ensures FadeAlpha(e2) <= FadeAlpha(e1)
  {
    var t1 := e1 as real / FadeOutMs as real;
    var t2 := e2 as real / FadeOutMs as real;
    assert 0.0 <= t1 <= t2;
    RealProductNonNegative(t2 - t1, t2 + t1);
    assert t1 * t1 <= t2 * t2;
  }
}
