/** The legibility contract of the generated backgrounds: bisection for the caps, the pixel clamp,
    and the composite's contrast at every slider opacity. Relative luminance and contrast ratio are
    those of WCAG 2.x, success criterion 1.4.3. The transfer curve is a parameter. */
module Contrast {
  import opened Reals

  /** What the images aim at, and what the contract promises the reader. */
  const TARGET: real := 4.6
  const PROMISE: real := 4.5

  function Max(a: real, b: real): real { if a < b then b else a }
  function Min(a: real, b: real): real { if a < b then a else b }
  function Clip(x: real): real { Max(0.0, Min(x, 1.0)) }

  /** `pane * (1 - alpha) + value * alpha`. */
  function Mix(pane: real, value: real, alpha: real): real { pane * (1.0 - alpha) + value * alpha }

  ghost predicate Channel(x: real) { 0.0 <= x <= 255.0 }
  ghost predicate Unit(x: real) { 0.0 <= x <= 1.0 }

  lemma MixStaysBetween(a: real, b: real, t: real)
    requires Unit(t)
    ensures Min(a, b) <= Mix(a, b, t) <= Max(a, b)
  {
    assert Mix(a, b, t) == a + (b - a) * t == b + (a - b) * (1.0 - t);
  }

  lemma MixMonotone(a: real, b: real, c: real, d: real, t: real)
    requires Unit(t) && a <= c && b <= d
    ensures Mix(a, b, t) <= Mix(c, d, t)
  {
    assert (c - a) * (1.0 - t) >= 0.0 && (d - b) * t >= 0.0;
    assert Mix(c, d, t) - Mix(a, b, t) == (c - a) * (1.0 - t) + (d - b) * t;
  }

  lemma ProductInRange(x: real, k: real)
    requires 0.0 <= x && Unit(k)
    ensures 0.0 <= x * k <= x
  {
  }

  lemma FractionInUnit(a: real, b: real)
    requires 0.0 <= a <= b && b > 0.0
    ensures Unit(a / b) && a / b * b == a
  {
    QuotientSigns(a, b);
    QuotientsCompare(a, b, b);
    QuotientIs(b, b, 1.0);
  }

  // ---------------------------------------------------------------- colour math

  datatype Pixel = Pixel(r: real, g: real, b: real)

  function Grey(v: real): Pixel { Pixel(v, v, v) }

  ghost predicate InGamut(p: Pixel) { Channel(p.r) && Channel(p.g) && Channel(p.b) }

  function Composite(p: Pixel, pane: real, alpha: real): Pixel {
    Pixel(Mix(pane, p.r, alpha), Mix(pane, p.g, alpha), Mix(pane, p.b, alpha))
  }

  /** The luminance weights. */
  function Weigh(r: real, g: real, b: real): real { 0.2126 * r + 0.7152 * g + 0.0722 * b }

  /** Linear light of the three channels. */
  datatype Light = Light(r: real, g: real, b: real) {
    ghost predicate InUnit() { Unit(r) && Unit(g) && Unit(b) }

    function Scaled(k: real): Light { Light(r * k, g * k, b * k) }

    lemma ScaledWeighs(k: real)
      requires InUnit() && Unit(k)
      ensures Scaled(k).InUnit() && Weigh(r * k, g * k, b * k) == Weigh(r, g, b) * k
    {
      ProductInRange(r, k);
      ProductInRange(g, k);
      ProductInRange(b, k);
    }
  }

  function Ratio(l1: real, l2: real): real
    requires l1 >= 0.0 && l2 >= 0.0
  {
    (Max(l1, l2) + 0.05) / (Min(l1, l2) + 0.05)
  }

  /** A transfer curve and its inverse, on channels 0..255 and light 0..1. */
  datatype Curve = Curve(lin: real -> real, inv: real -> real) {

    /** Strictly increasing from black to white; the published sRGB formula is. */
    ghost predicate Valid() {
      && lin(0.0) == 0.0 && lin(255.0) == 1.0
      && (forall x, y | 0.0 <= x < y <= 255.0 :: lin(x) < lin(y))
    }

    /** `inv` undoes `lin` exactly; the published pair only nearly does, around its seam. */
    ghost predicate Invertible() {
      && (forall x {:trigger inv(lin(x))} | Channel(x) :: inv(lin(x)) == x)
      && (forall y {:trigger lin(inv(y))} | Unit(y) :: Channel(inv(y)) && lin(inv(y)) == y)
    }

    /** Convex up to `slack`; the published sRGB formula jumps at its seam, so its slack is not zero. */
    ghost predicate ConvexWithin(slack: real) {
      forall x, y, t | Channel(x) && Channel(y) && Unit(t) :: lin(Mix(x, y, t)) <= Mix(lin(x), lin(y), t) + slack
    }

    /** Light of the composite as a function of the light of the wallpaper's channel. */
    function Through(pane: real, alpha: real, light: real): real { lin(Mix(pane, inv(light), alpha)) }

    ghost predicate ThroughConcaveWithin(pane: real, alpha: real, slack: real) {
      forall x, y, t | Unit(x) && Unit(y) && Unit(t) ::
        Mix(Through(pane, alpha, x), Through(pane, alpha, y), t) <= Through(pane, alpha, Mix(x, y, t)) + slack
    }

    function Lum(p: Pixel): real { Weigh(lin(p.r), lin(p.g), lin(p.b)) }

    /** `srgb_to_lin` of a pixel, and `lin_to_srgb` of its light, which clips first. */
    function ToLin(p: Pixel): Light { Light(lin(p.r), lin(p.g), lin(p.b)) }

    function ToSrgb(l: Light): Pixel { Pixel(inv(Clip(l.r)), inv(Clip(l.g)), inv(Clip(l.b))) }

    lemma LightRoundTrip(l: Light)
      requires Valid() && Invertible() && l.InUnit()
      ensures InGamut(ToSrgb(l)) && ToLin(ToSrgb(l)) == l
    {
      assert lin(inv(l.r)) == l.r && lin(inv(l.g)) == l.g && lin(inv(l.b)) == l.b;
    }

    lemma PixelRoundTrip(p: Pixel)
      requires Valid() && Invertible() && InGamut(p)
      ensures ToLin(p).InUnit() && ToSrgb(ToLin(p)) == p
    {
      LinMonotone(p.r, p.r);
      LinMonotone(p.g, p.g);
      LinMonotone(p.b, p.b);
    }

    lemma GreyLum(v: real)
      ensures Lum(Grey(v)) == lin(v)
    {
    }

    lemma LinMonotone(x: real, y: real)
      requires Valid() && Channel(x) && Channel(y) && x <= y
      ensures 0.0 <= lin(x) <= lin(y) <= 1.0
    {
      assert x == y || lin(x) < lin(y);
      assert x == 0.0 || lin(0.0) < lin(x);
      assert y == 255.0 || lin(y) < lin(255.0);
    }

    lemma LinReflects(x: real, y: real)
      requires Valid() && Channel(x) && Channel(y) && lin(x) <= lin(y)
      ensures x <= y
    {
      assert !(y < x && lin(y) < lin(x));
    }

    lemma LumInUnit(p: Pixel)
      requires Valid() && InGamut(p)
      ensures Unit(Lum(p))
    {
      LinMonotone(p.r, p.r);
      LinMonotone(p.g, p.g);
      LinMonotone(p.b, p.b);
    }
  }

  /** The three primaries and their mixtures: luminance is additive over the channels, and full red, green
      and blue carry the weights of WCAG 2.x. */
  lemma PrimariesCarryTheWeights(curve: Curve, p: Pixel)
    requires curve.Valid()
    ensures curve.Lum(Pixel(255.0, 0.0, 0.0)) == 0.2126
    ensures curve.Lum(Pixel(0.0, 255.0, 0.0)) == 0.7152
    ensures curve.Lum(Pixel(0.0, 0.0, 255.0)) == 0.0722
    ensures curve.Lum(p) == curve.Lum(Pixel(p.r, 0.0, 0.0)) + curve.Lum(Pixel(0.0, p.g, 0.0)) + curve.Lum(Pixel(0.0, 0.0, p.b))
    ensures curve.Lum(Pixel(p.r, 0.0, 0.0)) == 0.2126 * curve.lin(p.r)
  {
  }

  /** `Ratio(l1, l2) >= bar`, cross-multiplied. */
  predicate RatioAtLeast(l1: real, l2: real, bar: real) {
    Max(l1, l2) + 0.05 >= bar * (Min(l1, l2) + 0.05)
  }

  lemma RatioAtLeastIsRatio(l1: real, l2: real, bar: real)
    requires l1 >= 0.0 && l2 >= 0.0
    ensures RatioAtLeast(l1, l2, bar) <==> Ratio(l1, l2) >= bar
  {
    var a, b := Max(l1, l2) + 0.05, Min(l1, l2) + 0.05;
    assert a == a / b * b;
    assert (a / b - bar) * b == a - bar * b;
  }

  /** The ratio is V-shaped in `l`, but on a bright text its far arm never comes back up to `bar`: then
      the bar is cleared exactly below a threshold. */
  lemma ClearsIffDarkEnough(l: real, text: real, bar: real)
    requires Unit(l) && Unit(text) && bar >= 1.0 && bar * (text + 0.05) > 1.05
    ensures RatioAtLeast(l, text, bar) <==> bar * (l + 0.05) <= text + 0.05
  {
    if l > text {
      ProductSigns(bar, l - text);
      assert bar * (l + 0.05) == bar * (text + 0.05) + bar * (l - text);
    }
  }

  // ---------------------------------------------------------------- bisection for the caps

  /** The dark theme's text, #e0e0e0, is bright enough for white on it never to reach TARGET. */
  ghost predicate TextIsBright(curve: Curve) { TARGET * (curve.lin(224.0) + 0.05) > 1.05 }

  /** A neutral value clears TARGET against neutral text. */
  predicate Clears(curve: Curve, value: real, text: real)
    requires curve.Valid() && Channel(value) && Channel(text)
  {
    RatioAtLeast(curve.Lum(Grey(value)), curve.Lum(Grey(text)), TARGET)
  }

  lemma ClearsOnBrightText(curve: Curve, value: real)
    requires curve.Valid() && Channel(value) && TextIsBright(curve)
    ensures Clears(curve, value, 224.0) <==> TARGET * (curve.lin(value) + 0.05) <= curve.lin(224.0) + 0.05
  {
    curve.LinMonotone(value, value);
    curve.LinMonotone(224.0, 224.0);
    curve.GreyLum(value);
    curve.GreyLum(224.0);
    ClearsIffDarkEnough(curve.lin(value), curve.lin(224.0), TARGET);
  }

  lemma ClearsOnBlackText(curve: Curve, value: real)
    requires curve.Valid() && Channel(value)
    ensures Clears(curve, value, 0.0) <==> TARGET * 0.05 <= curve.lin(value) + 0.05
  {
    curve.LinMonotone(value, value);
    curve.GreyLum(value);
    curve.GreyLum(0.0);
  }

  /** A neutral wallpaper value whose composite clears TARGET against the dark theme's text. */
  predicate DarkOk(curve: Curve, alpha: real, pane: real, v: real)
    requires curve.Valid() && Unit(alpha) && Channel(pane) && Channel(v)
  {
    MixStaysBetween(pane, v, alpha);
    Clears(curve, Mix(pane, v, alpha), 224.0)
  }

  /** The same against the light theme's black text. */
  predicate LightOk(curve: Curve, alpha: real, pane: real, v: real)
    requires curve.Valid() && Unit(alpha) && Channel(pane) && Channel(v)
  {
    MixStaysBetween(pane, v, alpha);
    Clears(curve, Mix(pane, v, alpha), 0.0)
  }

  /** Everything darker than a value that clears TARGET on dark clears it too. */
  lemma DarkOkIsDownwardClosed(curve: Curve, alpha: real, pane: real, v: real, w: real)
    requires curve.Valid() && Unit(alpha) && Channel(pane) && TextIsBright(curve)
    requires 0.0 <= v <= w <= 255.0 && DarkOk(curve, alpha, pane, w)
    ensures DarkOk(curve, alpha, pane, v)
  {
    MixIsMonotoneChannel(pane, v, w, alpha);
    ClearsIsDownwardClosed(curve, Mix(pane, v, alpha), Mix(pane, w, alpha));
  }

  lemma ClearsIsDownwardClosed(curve: Curve, x: real, y: real)
    requires curve.Valid() && 0.0 <= x <= y <= 255.0 && TextIsBright(curve) && Clears(curve, y, 224.0)
    ensures Clears(curve, x, 224.0)
  {
    ClearsOnBrightText(curve, x);
    ClearsOnBrightText(curve, y);
    curve.LinMonotone(x, y);
  }

  /** Everything lighter than a value that clears TARGET on light clears it too. */
  lemma LightOkIsUpwardClosed(curve: Curve, alpha: real, pane: real, v: real, w: real)
    requires curve.Valid() && Unit(alpha) && Channel(pane)
    requires 0.0 <= v <= w <= 255.0 && LightOk(curve, alpha, pane, v)
    ensures LightOk(curve, alpha, pane, w)
  {
    MixIsMonotoneChannel(pane, v, w, alpha);
    ClearsIsUpwardClosed(curve, Mix(pane, v, alpha), Mix(pane, w, alpha));
  }

  lemma ClearsIsUpwardClosed(curve: Curve, x: real, y: real)
    requires curve.Valid() && 0.0 <= x <= y <= 255.0 && Clears(curve, x, 0.0)
    ensures Clears(curve, y, 0.0)
  {
    ClearsOnBlackText(curve, x);
    ClearsOnBlackText(curve, y);
    curve.LinMonotone(x, y);
  }

  lemma MixIsMonotoneChannel(pane: real, v: real, w: real, t: real)
    requires Unit(t) && Channel(pane) && 0.0 <= v <= w <= 255.0
    ensures 0.0 <= Mix(pane, v, t) <= Mix(pane, w, t) <= 255.0
  {
    MixStaysBetween(pane, v, t);
    MixStaysBetween(pane, w, t);
    MixMonotone(pane, v, pane, w, t);
  }

  /** Exactly when it matters: at full opacity the predicate is downward closed if and only if the text
      is bright in this sense. */
  lemma DownwardClosedIffTextIsBright(curve: Curve, pane: real)
    requires curve.Valid() && Channel(pane)
    ensures (forall v, w | 0.0 <= v <= w <= 255.0 && DarkOk(curve, 1.0, pane, w) :: DarkOk(curve, 1.0, pane, v))
       <==> TextIsBright(curve)
  {
    if TextIsBright(curve) {
      forall v, w | 0.0 <= v <= w <= 255.0 && DarkOk(curve, 1.0, pane, w)
        ensures DarkOk(curve, 1.0, pane, v)
      {
        DarkOkIsDownwardClosed(curve, 1.0, pane, v, w);
      }
    } else {
      curve.LinMonotone(224.0, 255.0);
      curve.GreyLum(255.0);
      curve.GreyLum(224.0);
      assert Clears(curve, 255.0, 224.0) && !Clears(curve, 224.0, 224.0);
      assert Mix(pane, 255.0, 1.0) == 255.0 && Mix(pane, 224.0, 1.0) == 224.0;
      assert DarkOk(curve, 1.0, pane, 255.0) && !DarkOk(curve, 1.0, pane, 224.0);
    }
  }

  /** Width of the bisection interval after `k` halvings of [0, 255]. */
  ghost function Width(k: nat): real {
    if k == 0 then 255.0 else Width(k - 1) / 2.0
  }

  ghost function Pow2(k: nat): int {
    if k == 0 then 1 else 2 * Pow2(k - 1)
  }

  lemma {:induction false} WidthIsExact(k: nat)
    ensures Width(k) * Pow2(k) as real == 255.0
  {
    if k > 0 {
      WidthIsExact(k - 1);
      assert Width(k) * Pow2(k) as real == Width(k - 1) / 2.0 * (2.0 * Pow2(k - 1) as real);
    }
  }

  /** The endpoints `k` halvings of [0, 255] can reach. */
  ghost function GridPoint(m: nat, k: nat): real { m as real * Width(k) }

  ghost predicate OnGrid(v: real, k: nat) {
    exists m: nat :: v == GridPoint(m, k)
  }

  lemma GridRefines(m: nat, k: nat)
    ensures Width(k) == 2.0 * Width(k + 1)
    ensures GridPoint(m, k) == GridPoint(2 * m, k + 1) && GridPoint(m, k) + Width(k + 1) == GridPoint(2 * m + 1, k + 1)
  {
    var half := Width(k + 1);
    assert m as real * (2.0 * half) == (2 * m) as real * half;
    assert (2 * m + 1) as real == (2 * m) as real + 1.0;
    Distributes((2 * m) as real, 1.0, half);
  }

  /** Two grid points, one above the other, are at least one width apart. */
  lemma GridGap(u: real, v: real, k: nat)
    requires OnGrid(u, k) && OnGrid(v, k) && u < v
    ensures u + Width(k) <= v
  {
    var i: nat :| u == GridPoint(i, k);
    var j: nat :| v == GridPoint(j, k);
    WidthIsPositive(k);
    MultiplesApart(i, j, Width(k), u, v);
  }

  lemma MultiplesApart(i: nat, j: nat, w: real, u: real, v: real)
    requires w > 0.0 && u == i as real * w && v == j as real * w && u < v
    ensures u + w <= v
  {
    CancelFactor(i as real, j as real, w);
    assert i + 1 <= j;
    ScalesUp(i as real + 1.0, j as real, w);
    Distributes(i as real, 1.0, w);
  }

  lemma WidthIsPositive(k: nat)
    ensures Width(k) > 0.0
  {
  }

  /** The dark bisection's interval after `k` halvings. */
  ghost predicate Bisected(curve: Curve, alpha: real, pane: real, lo: real, hi: real, m: nat, k: nat)
    requires curve.Valid() && Unit(alpha) && Channel(pane)
  {
    && 0.0 <= lo < hi <= 255.0 && hi == lo + Width(k) && lo == GridPoint(m, k)
    && (lo == 0.0 || DarkOk(curve, alpha, pane, lo)) && (hi == 255.0 || !DarkOk(curve, alpha, pane, hi))
  }

  /** One `step` above `lo` is the top of the range, or no longer clears. */
  ghost predicate EndsWithin(curve: Curve, alpha: real, pane: real, lo: real, step: real)
    requires curve.Valid() && Unit(alpha) && Channel(pane)
  {
    Channel(lo + step) && (lo + step < 255.0 ==> !DarkOk(curve, alpha, pane, lo + step))
  }

  lemma IntervalEnds(curve: Curve, alpha: real, pane: real, lo: real, hi: real, m: nat, k: nat)
    requires curve.Valid() && Unit(alpha) && Channel(pane) && Bisected(curve, alpha, pane, lo, hi, m, k)
    ensures hi == lo + Width(k) && OnGrid(lo, k) && EndsWithin(curve, alpha, pane, lo, Width(k))
  {
  }

  lemma BisectStep(curve: Curve, alpha: real, pane: real, lo: real, hi: real, m: nat, k: nat)
    requires curve.Valid() && Unit(alpha) && Channel(pane) && Bisected(curve, alpha, pane, lo, hi, m, k)
    ensures var mid := (lo + hi) / 2.0;
            Channel(mid)
            && if DarkOk(curve, alpha, pane, mid) then Bisected(curve, alpha, pane, mid, hi, 2 * m + 1, k + 1)
               else Bisected(curve, alpha, pane, lo, mid, 2 * m, k + 1)
  {
    GridRefines(m, k);
    assert (lo + hi) / 2.0 == lo + Width(k + 1);
  }

  /** Greatest neutral value that clears TARGET on dark: the answer clears it, nothing above the
      answer by more than 255/2^60 does. */
  method MaxImgValue(curve: Curve, alpha: real, pane: real) returns (lo: real)
    requires curve.Valid() && Unit(alpha) && Channel(pane)
    ensures 0.0 <= lo < 255.0 && OnGrid(lo, 60)
    ensures lo == 0.0 || DarkOk(curve, alpha, pane, lo)
    ensures EndsWithin(curve, alpha, pane, lo, Width(60))
    ensures TextIsBright(curve) && DarkOk(curve, alpha, pane, 0.0) ==>
              forall v | 0.0 <= v <= lo :: DarkOk(curve, alpha, pane, v)
    ensures TextIsBright(curve) ==>
              forall v | Channel(v) && lo + Width(60) < v :: !DarkOk(curve, alpha, pane, v)
  {
    var hi := 255.0;
    lo := 0.0;
    ghost var m: nat := 0;
    for k := 0 to 60
      invariant Channel(lo) && Channel(hi) && Bisected(curve, alpha, pane, lo, hi, m, k)
    {
      var mid := (lo + hi) / 2.0;
      BisectStep(curve, alpha, pane, lo, hi, m, k);
      if DarkOk(curve, alpha, pane, mid) {
        lo, m := mid, 2 * m + 1;
      } else {
        hi, m := mid, 2 * m;
      }
    }
    IntervalEnds(curve, alpha, pane, lo, hi, m, 60);
    if TextIsBright(curve) {
      ThresholdBetween(curve, alpha, pane, lo, hi);
    }
  }

  lemma ThresholdBetween(curve: Curve, alpha: real, pane: real, lo: real, hi: real)
    requires curve.Valid() && Unit(alpha) && Channel(pane) && TextIsBright(curve) && 0.0 <= lo < hi <= 255.0
    requires (lo == 0.0 || DarkOk(curve, alpha, pane, lo)) && (hi == 255.0 || !DarkOk(curve, alpha, pane, hi))
    ensures DarkOk(curve, alpha, pane, 0.0) ==> forall v | 0.0 <= v <= lo :: DarkOk(curve, alpha, pane, v)
    ensures forall v | hi < v <= 255.0 :: !DarkOk(curve, alpha, pane, v)
  {
    forall v | 0.0 <= v <= lo && DarkOk(curve, alpha, pane, 0.0)
      ensures DarkOk(curve, alpha, pane, v)
    {
      DarkOkIsDownwardClosed(curve, alpha, pane, v, lo);
    }
    forall v | hi < v <= 255.0
      ensures !DarkOk(curve, alpha, pane, v)
    {
      if DarkOk(curve, alpha, pane, v) {
        DarkOkIsDownwardClosed(curve, alpha, pane, hi, v);
      }
    }
  }

  /** Smallest neutral value that clears TARGET on light: the answer clears it whenever white does,
      nothing below it by more than 255/2^60 does. */
  method MinImgValue(curve: Curve, alpha: real, pane: real) returns (hi: real)
    requires curve.Valid() && Unit(alpha) && Channel(pane)
    ensures 0.0 < hi <= 255.0
    ensures hi == 255.0 || LightOk(curve, alpha, pane, hi)
    ensures LightOk(curve, alpha, pane, 255.0) ==> forall v | hi <= v <= 255.0 :: LightOk(curve, alpha, pane, v)
    ensures forall v | Channel(v) && v < hi - Width(60) :: !LightOk(curve, alpha, pane, v)
  {
    var lo := 0.0;
    hi := 255.0;
    for k := 0 to 60
      invariant 0.0 <= lo < hi <= 255.0 && hi - lo == Width(k)
      invariant lo == 0.0 || !LightOk(curve, alpha, pane, lo)
      invariant hi == 255.0 || LightOk(curve, alpha, pane, hi)
    {
      var mid := (lo + hi) / 2.0;
      if LightOk(curve, alpha, pane, mid) {
        hi := mid;
      } else {
        lo := mid;
      }
    }
    forall v | hi <= v <= 255.0 && LightOk(curve, alpha, pane, 255.0)
      ensures LightOk(curve, alpha, pane, v)
    {
      LightOkIsUpwardClosed(curve, alpha, pane, hi, v);
    }
    forall v | 0.0 <= v < lo
      ensures !LightOk(curve, alpha, pane, v)
    {
      if LightOk(curve, alpha, pane, v) {
        LightOkIsUpwardClosed(curve, alpha, pane, v, lo);
      }
    }
  }

  // ---------------------------------------------------------------- the reading band

  /** Smoothstep of the distance from the centre: 1 in the reading band, 0 at the edges. */
  function CentreWeight(d: real): real {
    Smoothstep(Clip(1.0 - (d - 0.10) / 0.75))
  }

  function Smoothstep(t: real): real { t * t * (3.0 - 2.0 * t) }

  function Band(cw: real): real { Clip(cw / 0.75) }

  /** The neutral cap of a pixel in a band of this weight. */
  function CapValue(centre: real, edge: real, band: real): real { centre * band + edge * (1.0 - band) }

  /** Moving away from the centre never raises a pixel's band weight, so with a centre cap below the
      edge cap the middle is the calmest part. */
  lemma BandFallsOutwards(d1: real, d2: real, centre: real, edge: real)
    requires d1 <= d2 && centre <= edge
    ensures Unit(CentreWeight(d2)) && CentreWeight(d2) <= CentreWeight(d1) <= 1.0
    ensures CapValue(centre, edge, Band(CentreWeight(d1))) <= CapValue(centre, edge, Band(CentreWeight(d2)))
  {
    var t1, t2 := Clip(1.0 - (d1 - 0.10) / 0.75), Clip(1.0 - (d2 - 0.10) / 0.75);
    SmoothstepRises(0.0, t2);
    SmoothstepRises(t2, t1);
    SmoothstepRises(t1, 1.0);
    assert Smoothstep(0.0) == 0.0 && Smoothstep(1.0) == 1.0;
    CapFalls(centre, edge, Band(CentreWeight(d2)), Band(CentreWeight(d1)));
  }

  /** The ramp is full up to 0.10 from the centre, gone from 0.85 on, symmetric about the middle of the two,
      and leaves both ends flat. */
  lemma RampShape(d: real, e: real)
    ensures CentreWeight(d) == 1.0 <==> d <= 0.10
    ensures CentreWeight(d) == 0.0 <==> d >= 0.85
    ensures d + e == 0.95 ==> CentreWeight(d) + CentreWeight(e) == 1.0
    ensures 0.10 <= d <= 0.85 ==> CentreWeight(d) <= 3.0 * ((0.85 - d) / 0.75) * ((0.85 - d) / 0.75)
    ensures 0.10 <= d <= 0.85 ==> 1.0 - CentreWeight(d) <= 3.0 * ((d - 0.10) / 0.75) * ((d - 0.10) / 0.75)
  {
    var t := Clip(1.0 - (d - 0.10) / 0.75);
    RampEnds(t);
    RampSymmetric(t);
    assert d + e == 0.95 ==> Clip(1.0 - (e - 0.10) / 0.75) == 1.0 - t;
    assert 0.10 <= d <= 0.85 ==> t == (0.85 - d) / 0.75 && 1.0 - t == (d - 0.10) / 0.75;
    RampIsFlatAtTheEnd(t);
    RampIsFlatAtTheEnd(1.0 - t);
  }

  lemma RampSymmetric(t: real)
    ensures Smoothstep(t) + Smoothstep(1.0 - t) == 1.0
  {
    var u, s := 1.0 - t, t * t;
    assert u * u == 1.0 - 2.0 * t + s;
    assert u * u * (3.0 - 2.0 * u) == (1.0 - 2.0 * t + s) * (1.0 + 2.0 * t);
    assert (1.0 - 2.0 * t + s) * (1.0 + 2.0 * t) == 1.0 - 4.0 * s + s + 2.0 * (s * t);
    assert s * (3.0 - 2.0 * t) == 3.0 * s - 2.0 * (s * t);
  }

  lemma RampEnds(t: real)
    requires Unit(t)
    ensures Smoothstep(t) == 0.0 <==> t == 0.0
    ensures Smoothstep(t) == 1.0 <==> t == 1.0
  {
    RampPositive(t);
    RampPositive(1.0 - t);
    RampSymmetric(t);
  }

  lemma RampPositive(t: real)
    requires Unit(t)
    ensures t > 0.0 ==> Smoothstep(t) > 0.0
    ensures t == 0.0 ==> Smoothstep(t) == 0.0
  {
    if t > 0.0 {
      var s := PositiveProduct(t, t);
      var p := PositiveProduct(s, 3.0 - 2.0 * t);
      RampIs(t, s, p);
    }
  }

  lemma PositiveProduct(x: real, y: real) returns (p: real)
    requires x > 0.0 && y > 0.0
    ensures p == x * y && p > 0.0
  {
    ProductSigns(x, y);
    p := x * y;
  }

  lemma RampIs(t: real, s: real, p: real)
    requires s == t * t && p == s * (3.0 - 2.0 * t)
    ensures Smoothstep(t) == p
  {
  }

  lemma RampIsFlatAtTheEnd(t: real)
    requires Unit(t)
    ensures Smoothstep(t) <= 3.0 * t * t
  {
    ProductSigns(t, t);
    ProductSigns(t * t, t);
    assert Smoothstep(t) == 3.0 * t * t - 2.0 * (t * t * t);
  }

  /** Below the reading band the envelope rises in proportion to the weight. */
  lemma BandIsProportional(v: real, w: real)
    ensures v <= 0.0 ==> Band(v) == 0.0
    ensures 0.0 <= v && 0.0 <= w && v + w <= 0.75 ==> Band(v + w) == Band(v) + Band(w)
  {
  }

  /** Equal steps of band move the cap equally, from the edge cap at band 0. */
  lemma CapMovesWithTheBand(centre: real, edge: real, a: real, b: real)
    ensures CapValue(centre, edge, 0.0) == edge && CapValue(centre, edge, 1.0) == centre
    ensures CapValue(centre, edge, a) - CapValue(centre, edge, b) == (edge - centre) * (b - a)
  {
    assert CapValue(centre, edge, a) == edge - (edge - centre) * a;
    assert CapValue(centre, edge, b) == edge - (edge - centre) * b;
  }

  lemma CapFalls(centre: real, edge: real, b: real, c: real)
    requires centre <= edge && b <= c
    ensures CapValue(centre, edge, c) <= CapValue(centre, edge, b)
  {
    ProductSigns(edge - centre, c - b);
    assert CapValue(centre, edge, b) - CapValue(centre, edge, c) == (edge - centre) * (c - b);
  }

  lemma SmoothstepRises(s: real, t: real)
    requires 0.0 <= s <= t <= 1.0
    ensures Smoothstep(s) <= Smoothstep(t)
  {
    var d := t - s;
    // the difference is d * (3 (s + t) - 2 (s^2 + s t + t^2))
    var ss, st, tt := s * s, s * t, t * t;
    ProductInRange(s, s);
    ProductInRange(t, t);
    ProductInRange(s, t);
    ProductInRange(t, s);
    assert ss <= s && tt <= t && st <= s && st <= t by {
      assert t * s == st;
    }
    var slope := 3.0 * (s + t) - 2.0 * (ss + st + tt);
    assert slope >= 0.0;
    ProductSigns(d, slope);
    assert tt * (3.0 - 2.0 * t) - ss * (3.0 - 2.0 * s) == d * slope;
  }

  // ---------------------------------------------------------------- the clamp

  /** How much of a pixel's light is kept when its cap is `cap`. */
  function Scale(lum: real, cap: real): real {
    if lum > cap then cap / Max(lum, 0.000000001) else 1.0
  }

  function Clamp(curve: Curve, p: Pixel, cap: real): Pixel {
    curve.ToSrgb(curve.ToLin(p).Scaled(Scale(curve.Lum(p), cap)))
  }

  lemma ScaleKeepsUnderCap(lum: real, cap: real)
    requires 0.0 <= lum && 0.0 <= cap
    ensures Unit(Scale(lum, cap)) && lum * Scale(lum, cap) <= cap
    ensures lum <= cap ==> Scale(lum, cap) == 1.0
    ensures lum > cap && lum >= 0.000000001 ==> lum * Scale(lum, cap) == cap
  {
    if lum > cap {
      var m := Max(lum, 0.000000001);
      assert cap / m * m == cap;
      FractionInUnit(cap, m);
      assert cap / m * lum <= cap / m * m;
    }
  }

  lemma ScaledMeetsCap(l: Light, lum: real, cap: real)
    requires l.InUnit() && Unit(cap) && lum == Weigh(l.r, l.g, l.b)
    ensures var k, m := Scale(lum, cap), l.Scaled(Scale(lum, cap));
            && Unit(k) && m.InUnit() && Weigh(m.r, m.g, m.b) <= cap
            && (lum <= cap ==> m == l)
            && (lum > cap && lum >= 0.000000001 ==> Weigh(m.r, m.g, m.b) == cap)
  {
    ScaleKeepsUnderCap(lum, cap);
    l.ScaledWeighs(Scale(lum, cap));
  }

  /** After the clamp a pixel's luminance is at most its cap, and its linear light is the old one
      times one common factor: the hue is kept. A pixel already under its cap is unchanged, one that
      was over lands on the cap. */
  lemma ClampMeetsCap(curve: Curve, p: Pixel, cap: real)
    requires curve.Valid() && curve.Invertible() && InGamut(p) && Unit(cap)
    ensures var q, k := Clamp(curve, p, cap), Scale(curve.Lum(p), cap);
            && InGamut(q) && Unit(k) && curve.Lum(q) <= cap
            && curve.ToLin(q) == curve.ToLin(p).Scaled(k)
            && (curve.Lum(p) <= cap ==> q == p)
            && (curve.Lum(p) > cap && curve.Lum(p) >= 0.000000001 ==> curve.Lum(q) == cap)
  {
    curve.PixelRoundTrip(p);
    ScaledMeetsCap(curve.ToLin(p), curve.Lum(p), cap);
    curve.LightRoundTrip(curve.ToLin(p).Scaled(Scale(curve.Lum(p), cap)));
  }

  /** A pixel outside the envelope, or in the reading band, is touched exactly when it exceeds the edge's cap,
      or the centre's. */
  lemma ClampSparesWhatIsUnderItsCap(curve: Curve, p: Pixel, centre: real, edge: real)
    requires curve.Valid() && curve.Invertible() && InGamut(p) && Channel(centre) && Channel(edge)
    ensures Clamp(curve, p, curve.lin(CapValue(centre, edge, 0.0))) == p <==> curve.Lum(p) <= curve.lin(edge)
    ensures Clamp(curve, p, curve.lin(CapValue(centre, edge, 1.0))) == p <==> curve.Lum(p) <= curve.lin(centre)
  {
    CapMovesWithTheBand(centre, edge, 0.0, 1.0);
    ClampSparesIff(curve, p, edge);
    ClampSparesIff(curve, p, centre);
  }

  lemma ClampSparesIff(curve: Curve, p: Pixel, cap: real)
    requires curve.Valid() && curve.Invertible() && InGamut(p) && Channel(cap)
    ensures Clamp(curve, p, curve.lin(cap)) == p <==> curve.Lum(p) <= curve.lin(cap)
  {
    curve.LinMonotone(cap, cap);
    ClampMeetsCap(curve, p, curve.lin(cap));
  }

  function Least(a: nat, b: nat): nat { if a < b then a else b }

  /** The luminance cap of every pixel, filled 64 rows at a time. */
  method FillCaps(curve: Curve, band: array2<real>, centre: real, edge: real) returns (capLum: array2<real>)
    ensures fresh(capLum) && capLum.Length0 == band.Length0 && capLum.Length1 == band.Length1
    ensures forall y, x | 0 <= y < band.Length0 && 0 <= x < band.Length1 ::
              capLum[y, x] == curve.lin(CapValue(centre, edge, band[y, x]))
  {
    var h, w := band.Length0, band.Length1;
    capLum := new real[h, w];
    var i := 0;
    while i < h
      invariant 0 <= i
      invariant forall y, x | 0 <= y < Least(i, h) && 0 <= x < w ::
                  capLum[y, x] == curve.lin(CapValue(centre, edge, band[y, x]))
    {
      forall y, x | i <= y < Least(i + 64, h) && 0 <= x < w {
        capLum[y, x] := curve.Lum(Grey(CapValue(centre, edge, band[y, x])));
      }
      i := i + 64;
    }
  }

  /** Every pixel's light times its own scale, into a new array. */
  method ScaleAll(curve: Curve, arr: array2<Pixel>, capLum: array2<real>) returns (out: array2<Pixel>)
    requires arr.Length0 == capLum.Length0 && arr.Length1 == capLum.Length1
    ensures fresh(out) && out.Length0 == arr.Length0 && out.Length1 == arr.Length1
    ensures forall y, x | 0 <= y < arr.Length0 && 0 <= x < arr.Length1 :: out[y, x] == Clamp(curve, arr[y, x], capLum[y, x])
  {
    out := new Pixel[arr.Length0, arr.Length1]((y, x) => Grey(0.0));
    forall y, x | 0 <= y < arr.Length0 && 0 <= x < arr.Length1 {
      out[y, x] := Clamp(curve, arr[y, x], capLum[y, x]);
    }
  }

  lemma UnderCapIsUnchanged(curve: Curve, p: Pixel, centre: real, edge: real, band: real)
    requires curve.Valid() && curve.Invertible() && Channel(centre) && Channel(edge) && InGamut(p) && Unit(band)
    requires curve.Lum(p) <= curve.lin(CapValue(centre, edge, band))
    ensures Clamp(curve, p, curve.lin(CapValue(centre, edge, band))) == p
  {
    CapIsLight(curve, centre, edge, band);
    ClampMeetsCap(curve, p, curve.lin(CapValue(centre, edge, band)));
  }

  /** The image pass: every pixel is clamped to its own cap; the input is not written to, and comes
      back itself when no pixel is over. */
  method EnforceDark(curve: Curve, arr: array2<Pixel>, band: array2<real>, centre: real, edge: real)
    returns (out: array2<Pixel>)
    requires curve.Valid() && curve.Invertible() && Channel(centre) && Channel(edge)
    requires arr.Length0 == band.Length0 && arr.Length1 == band.Length1
    requires forall y, x | 0 <= y < arr.Length0 && 0 <= x < arr.Length1 :: InGamut(arr[y, x]) && Unit(band[y, x])
    ensures out.Length0 == arr.Length0 && out.Length1 == arr.Length1
    ensures forall y, x | 0 <= y < arr.Length0 && 0 <= x < arr.Length1 ::
              out[y, x] == Clamp(curve, arr[y, x], curve.lin(CapValue(centre, edge, band[y, x])))
    ensures (forall y, x | 0 <= y < arr.Length0 && 0 <= x < arr.Length1 ::
               curve.Lum(arr[y, x]) <= curve.lin(CapValue(centre, edge, band[y, x]))) ==> out == arr
  {
    var h, w := arr.Length0, arr.Length1;
    var capLum := FillCaps(curve, band, centre, edge);
    if exists y, x | 0 <= y < h && 0 <= x < w :: curve.Lum(arr[y, x]) > capLum[y, x] {
      out := ScaleAll(curve, arr, capLum);
    } else {
      out := arr;
      forall y, x | 0 <= y < h && 0 <= x < w
        ensures arr[y, x] == Clamp(curve, arr[y, x], capLum[y, x])
      {
        UnderCapIsUnchanged(curve, arr[y, x], centre, edge, band[y, x]);
      }
    }
  }

  lemma CapIsLight(curve: Curve, centre: real, edge: real, band: real)
    requires curve.Valid() && Channel(centre) && Channel(edge) && Unit(band)
    ensures var cap := CapValue(centre, edge, band);
            Min(centre, edge) <= cap <= Max(centre, edge) && Channel(cap) && Unit(curve.lin(cap))
  {
    MixStaysBetween(edge, centre, band);
    assert CapValue(centre, edge, band) == Mix(edge, centre, band);
    curve.LinMonotone(CapValue(centre, edge, band), CapValue(centre, edge, band));
  }

  // ---------------------------------------------------------------- every slider opacity

  /** Convexity of the curve: at every opacity between two, a composite is no brighter than the
      brighter of the two, up to the curve's slack. Two measurements bound a whole range. */
  lemma CompositeIsBoundedByEndpoints(curve: Curve, slack: real, p: Pixel, pane: real, a0: real, a1: real, alpha: real)
    requires curve.Valid() && curve.ConvexWithin(slack) && InGamut(p) && Channel(pane)
    requires 0.0 <= a0 <= alpha <= a1 <= 1.0
    ensures curve.Lum(Composite(p, pane, alpha))
         <= Max(curve.Lum(Composite(p, pane, a0)), curve.Lum(Composite(p, pane, a1))) + slack
  {
    var t := if a0 == a1 then 0.0 else (alpha - a0) / (a1 - a0);
    PositionBetween(a0, a1, alpha);
    ChannelBetween(curve, slack, p.r, pane, a0, a1, alpha, t);
    ChannelBetween(curve, slack, p.g, pane, a0, a1, alpha, t);
    ChannelBetween(curve, slack, p.b, pane, a0, a1, alpha, t);
    WeighMix(curve.lin(Mix(pane, p.r, a0)), curve.lin(Mix(pane, p.g, a0)), curve.lin(Mix(pane, p.b, a0)),
             curve.lin(Mix(pane, p.r, a1)), curve.lin(Mix(pane, p.g, a1)), curve.lin(Mix(pane, p.b, a1)), t);
    MixStaysBetween(curve.Lum(Composite(p, pane, a0)), curve.Lum(Composite(p, pane, a1)), t);
  }

  lemma PositionBetween(a0: real, a1: real, alpha: real)
    requires a0 <= alpha <= a1
    ensures var t := if a0 == a1 then 0.0 else (alpha - a0) / (a1 - a0); Unit(t) && Mix(a0, a1, t) == alpha
  {
    if a0 < a1 {
      var t := (alpha - a0) / (a1 - a0);
      assert t * (a1 - a0) == alpha - a0;
      FractionInUnit(alpha - a0, a1 - a0);
      assert Mix(a0, a1, t) == a0 + t * (a1 - a0);
    }
  }

  lemma ChannelBetween(curve: Curve, slack: real, c: real, pane: real, a0: real, a1: real, alpha: real, t: real)
    requires curve.Valid() && curve.ConvexWithin(slack) && Channel(c) && Channel(pane)
    requires Unit(a0) && Unit(a1) && Unit(t) && Mix(a0, a1, t) == alpha
    ensures curve.lin(Mix(pane, c, alpha)) <= Mix(curve.lin(Mix(pane, c, a0)), curve.lin(Mix(pane, c, a1)), t) + slack
  {
    MixStaysBetween(pane, c, a0);
    MixStaysBetween(pane, c, a1);
    MixOfMixes(pane, c, a0, a1, t);
  }

  lemma MixOfMixes(pane: real, c: real, a0: real, a1: real, t: real)
    ensures Mix(Mix(pane, c, a0), Mix(pane, c, a1), t) == Mix(pane, c, Mix(a0, a1, t))
  {
    var d := c - pane;
    var e0, e1 := d * a0, d * a1;
    assert Mix(pane, c, a0) == pane + e0 && Mix(pane, c, a1) == pane + e1;
    assert e0 * (1.0 - t) + e1 * t == d * Mix(a0, a1, t);
    assert Mix(pane, c, Mix(a0, a1, t)) == pane + d * Mix(a0, a1, t);
    assert Mix(pane + e0, pane + e1, t) == pane + (e0 * (1.0 - t) + e1 * t);
  }

  lemma WeighMix(r0: real, g0: real, b0: real, r1: real, g1: real, b1: real, t: real)
    ensures Weigh(Mix(r0, r1, t), Mix(g0, g1, t), Mix(b0, b1, t)) == Mix(Weigh(r0, g0, b0), Weigh(r1, g1, b1), t)
  {
  }

  /** The bar of 4.6 leaves room for the promise of 4.5: light above a clearing luminance by no more
      than 0.001 still keeps the promise. */
  lemma MarginAbsorbs(l: real, m: real, text: real)
    requires Unit(l) && Unit(m) && Unit(text) && PROMISE * (text + 0.05) > 1.05
    requires TARGET * (l + 0.05) <= text + 0.05 && m <= l + 0.001
    ensures Ratio(m, text) >= PROMISE
  {
    ClearsIffDarkEnough(m, text, PROMISE);
    RatioAtLeastIsRatio(m, text, PROMISE);
  }

  ghost predicate KeepsPromise(curve: Curve, p: Pixel, pane: real, alpha: real) {
    var l, text := curve.Lum(Composite(p, pane, alpha)), curve.Lum(Grey(224.0));
    l >= 0.0 && text >= 0.0 && Ratio(l, text) >= PROMISE
  }

  /** The composite clears the bar the images aim at. */
  ghost predicate ClearsTarget(curve: Curve, p: Pixel, pane: real, alpha: real) {
    RatioAtLeast(curve.Lum(Composite(p, pane, alpha)), curve.lin(224.0), TARGET)
  }

  ghost predicate TextIsBrightForPromise(curve: Curve) { PROMISE * (curve.lin(224.0) + 0.05) > 1.05 }

  lemma CompositeInGamut(p: Pixel, pane: real, alpha: real)
    requires InGamut(p) && Channel(pane) && Unit(alpha)
    ensures InGamut(Composite(p, pane, alpha))
  {
    MixStaysBetween(pane, p.r, alpha);
    MixStaysBetween(pane, p.g, alpha);
    MixStaysBetween(pane, p.b, alpha);
  }

  /** What the verifier measures suffices: a pixel that clears TARGET at one opacity, over a pane that
      clears it too, keeps the promise at every lower opacity, and clears TARGET there on a convex curve. */
  lemma OneMeasurementCoversTheSlider(curve: Curve, slack: real, p: Pixel, pane: real, measured: real, alpha: real)
    requires curve.Valid() && curve.ConvexWithin(slack) && slack <= 0.001 && TextIsBrightForPromise(curve)
    requires InGamut(p) && Channel(pane) && 0.0 <= alpha <= measured <= 1.0
    requires RatioAtLeast(curve.lin(pane), curve.lin(224.0), TARGET)
    requires ClearsTarget(curve, p, pane, measured)
    ensures KeepsPromise(curve, p, pane, alpha)
    ensures slack == 0.0 ==> ClearsTarget(curve, p, pane, alpha)
  {
    var l0, l1 := curve.Lum(Composite(p, pane, 0.0)), curve.Lum(Composite(p, pane, measured));
    var l := curve.Lum(Composite(p, pane, alpha));
    CompositeInGamut(p, pane, measured);
    CompositeInGamut(p, pane, alpha);
    curve.LumInUnit(Composite(p, pane, measured));
    curve.LumInUnit(Composite(p, pane, alpha));
    curve.LinMonotone(pane, pane);
    curve.LinMonotone(224.0, 224.0);
    NothingShowsAtZero(curve, p, pane);
    CompositeIsBoundedByEndpoints(curve, slack, p, pane, 0.0, measured, alpha);
    curve.GreyLum(224.0);
    SliderMargin(l0, l1, l, curve.lin(224.0), slack);
  }

  lemma NothingShowsAtZero(curve: Curve, p: Pixel, pane: real)
    ensures curve.Lum(Composite(p, pane, 0.0)) == curve.lin(pane)
  {
    assert Composite(p, pane, 0.0) == Grey(pane);
    curve.GreyLum(pane);
  }

  lemma SliderMargin(l0: real, l1: real, l: real, text: real, slack: real)
    requires Unit(l0) && Unit(l1) && Unit(l) && Unit(text) && slack <= 0.001 && PROMISE * (text + 0.05) > 1.05
    requires RatioAtLeast(l0, text, TARGET) && RatioAtLeast(l1, text, TARGET) && l <= Max(l0, l1) + slack
    ensures Ratio(l, text) >= PROMISE
    ensures slack == 0.0 ==> RatioAtLeast(l, text, TARGET)
  {
    ClearsIffDarkEnough(l0, text, TARGET);
    ClearsIffDarkEnough(l1, text, TARGET);
    ClearsIffDarkEnough(l, text, TARGET);
    MarginAbsorbs(Max(l0, l1), l, text);
  }

  /** Along the slider a neutral composite never leaves the span from the pane to its end value. */
  lemma MixTowards(pane: real, v: real, alpha: real, beta: real)
    requires 0.0 <= alpha <= beta <= 1.0
    ensures Mix(pane, v, alpha) <= Max(pane, Mix(pane, v, beta))
  {
    var d := v - pane;
    assert Mix(pane, v, alpha) == pane + d * alpha && Mix(pane, v, beta) == pane + d * beta;
    if d > 0.0 {
      ProductSigns(d, beta - alpha);
    } else {
      ProductSigns(-d, alpha);
    }
  }

  /** The opacities a pixel of centre weight `cw` answers for: the whole slider in the reading band, up to
      0.6 elsewhere. */
  ghost predicate Covered(cw: real, alpha: real) {
    0.0 <= alpha && (alpha <= 0.6 || (cw >= 0.75 && alpha <= 1.0))
  }

  /** The envelope is at the centre cap exactly where the reading band starts. */
  lemma BandIsFullInTheReadingBand(cw: real)
    ensures Unit(Band(cw)) && (Band(cw) == 1.0 <==> cw >= 0.75)
  {
  }

  /** The two caps the script computes, each clearing TARGET at the opacity it was computed for. */
  ghost predicate CapsClear(curve: Curve, pane: real, centre: real, edge: real)
    requires curve.Valid()
  {
    && Channel(pane) && Channel(centre) && Channel(edge)
    && Clears(curve, pane, 224.0) && DarkOk(curve, 1.0, pane, centre) && DarkOk(curve, 0.6, pane, edge)
  }

  lemma ClearsBelowEither(curve: Curve, x: real, y: real, z: real)
    requires curve.Valid() && TextIsBright(curve) && Channel(x) && Channel(y) && Channel(z) && z <= Max(x, y)
    requires Clears(curve, x, 224.0) && Clears(curve, y, 224.0)
    ensures Clears(curve, z, 224.0)
  {
    ClearsIsDownwardClosed(curve, z, Max(x, y));
  }

  /** A cap interpolated between the two clears TARGET at every opacity its pixel answers for. */
  lemma CapClearsEverywhere(curve: Curve, pane: real, centre: real, edge: real, cw: real, alpha: real)
    requires curve.Valid() && TextIsBright(curve) && CapsClear(curve, pane, centre, edge) && Covered(cw, alpha)
    ensures Channel(CapValue(centre, edge, Band(cw))) && DarkOk(curve, alpha, pane, CapValue(centre, edge, Band(cw)))
  {
    var band := Band(cw);
    BandIsFullInTheReadingBand(cw);
    CapIsLight(curve, centre, edge, band);
    if band == 1.0 {
      CapInTheBand(centre, edge, band);
      ClearsAlongTheSlider(curve, pane, centre, alpha, 1.0);
    } else {
      ClearsAlongTheSlider(curve, pane, centre, 0.6, 1.0);
      CapClearsAtPointSix(curve, pane, centre, edge, band);
      ClearsAlongTheSlider(curve, pane, CapValue(centre, edge, band), alpha, 0.6);
    }
  }

  lemma CapInTheBand(centre: real, edge: real, band: real)
    requires band == 1.0
    ensures CapValue(centre, edge, band) == centre
  {
  }

  /** Clearing TARGET at one opacity, over a pane that clears it, means clearing it at every lower one. */
  lemma ClearsAlongTheSlider(curve: Curve, pane: real, v: real, alpha: real, beta: real)
    requires curve.Valid() && TextIsBright(curve) && Channel(pane) && Channel(v) && 0.0 <= alpha <= beta <= 1.0
    requires Clears(curve, pane, 224.0) && DarkOk(curve, beta, pane, v)
    ensures DarkOk(curve, alpha, pane, v)
  {
    MixStaysBetween(pane, v, alpha);
    MixStaysBetween(pane, v, beta);
    MixTowards(pane, v, alpha, beta);
    ClearsBelowEither(curve, pane, Mix(pane, v, beta), Mix(pane, v, alpha));
  }

  lemma CapClearsAtPointSix(curve: Curve, pane: real, centre: real, edge: real, band: real)
    requires curve.Valid() && TextIsBright(curve) && Channel(pane) && Channel(centre) && Channel(edge) && Unit(band)
    requires DarkOk(curve, 0.6, pane, centre) && DarkOk(curve, 0.6, pane, edge)
    ensures Channel(CapValue(centre, edge, band)) && DarkOk(curve, 0.6, pane, CapValue(centre, edge, band))
  {
    CapIsLight(curve, centre, edge, band);
    DarkOkIsDownwardClosed(curve, 0.6, pane, CapValue(centre, edge, band), Max(centre, edge));
  }

  /** Neutral wallpapers: whatever the pixel was, after the clamp its composite clears TARGET at every
      opacity it answers for. */
  lemma NeutralPixelClears(curve: Curve, v: real, pane: real, centre: real, edge: real, cw: real, alpha: real)
    requires curve.Valid() && curve.Invertible() && TextIsBright(curve) && CapsClear(curve, pane, centre, edge) && Covered(cw, alpha)
    requires Channel(v)
    ensures var q := Clamp(curve, Grey(v), curve.lin(CapValue(centre, edge, Band(cw))));
            q == Grey(q.r) && Channel(q.r) && DarkOk(curve, alpha, pane, q.r)
  {
    var cap := CapValue(centre, edge, Band(cw));
    CapClearsEverywhere(curve, pane, centre, edge, cw, alpha);
    BandIsFullInTheReadingBand(cw);
    CapIsLight(curve, centre, edge, Band(cw));
    ClampedGreyIsUnder(curve, v, cap);
    var q := Clamp(curve, Grey(v), curve.lin(cap));
    DarkOkIsDownwardClosed(curve, alpha, pane, q.r, cap);
  }

  lemma ClampedGreyIsUnder(curve: Curve, v: real, cap: real)
    requires curve.Valid() && curve.Invertible() && Channel(v) && Channel(cap) && Unit(curve.lin(cap))
    ensures var q := Clamp(curve, Grey(v), curve.lin(cap)); q == Grey(q.r) && 0.0 <= q.r <= cap
  {
    ClampMeetsCap(curve, Grey(v), curve.lin(cap));
    GreyStaysGrey(curve, v, Scale(curve.Lum(Grey(v)), curve.lin(cap)));
    GreyUnderCap(curve, Clamp(curve, Grey(v), curve.lin(cap)).r, cap);
  }

  lemma GreyStaysGrey(curve: Curve, v: real, k: real)
    ensures var q := curve.ToSrgb(curve.ToLin(Grey(v)).Scaled(k)); q == Grey(q.r)
  {
    var l := curve.ToLin(Grey(v)).Scaled(k);
    assert l.r == l.g == l.b;
    assert curve.ToSrgb(l) == Grey(curve.inv(Clip(l.r)));
  }

  lemma GreyUnderCap(curve: Curve, x: real, cap: real)
    requires curve.Valid() && Channel(x) && Channel(cap) && curve.Lum(Grey(x)) <= curve.lin(cap)
    ensures x <= cap
  {
    curve.GreyLum(x);
    curve.LinReflects(x, cap);
  }

  /** Light through the wallpaper of a coloured pixel is at most that of a neutral one of the same
      luminance, when the map from wallpaper light to composite light is concave up to `slack`. */
  lemma ColourIsNoBrighterThanGrey(curve: Curve, slack: real, p: Pixel, pane: real, alpha: real)
    requires curve.Valid() && curve.Invertible() && 0.0 <= slack && curve.ThroughConcaveWithin(pane, alpha, slack) && InGamut(p)
    ensures curve.Lum(Composite(p, pane, alpha)) <= curve.Through(pane, alpha, curve.Lum(p)) + 2.0 * slack
  {
    curve.PixelRoundTrip(p);
    var r, g, b := curve.lin(p.r), curve.lin(p.g), curve.lin(p.b);
    assert curve.inv(r) == p.r && curve.inv(g) == p.g && curve.inv(b) == p.b;
    var t := 0.7152 / 0.9278;
    var inner := Mix(r, g, t);
    MixStaysBetween(r, g, t);
    assert Mix(inner, b, 0.0722) == curve.Lum(p);
    var fr, fg, fb := curve.Through(pane, alpha, r), curve.Through(pane, alpha, g), curve.Through(pane, alpha, b);
    assert Mix(fr, fg, t) <= curve.Through(pane, alpha, inner) + slack;
    assert Mix(curve.Through(pane, alpha, inner), fb, 0.0722) <= curve.Through(pane, alpha, Mix(inner, b, 0.0722)) + slack;
    assert curve.Lum(Composite(p, pane, alpha)) == Mix(Mix(fr, fg, t), fb, 0.0722);
  }

  /** Any pixel under a cap composites to no more light than the cap does, up to twice the slack. */
  lemma CompositeUnderCap(curve: Curve, slack: real, q: Pixel, cap: real, pane: real, alpha: real)
    requires curve.Valid() && curve.Invertible() && 0.0 <= slack && curve.ThroughConcaveWithin(pane, alpha, slack)
    requires InGamut(q) && Channel(cap) && Channel(pane) && Unit(alpha) && curve.Lum(q) <= curve.lin(cap)
    ensures Unit(curve.Lum(Composite(q, pane, alpha))) && Channel(Mix(pane, cap, alpha))
    ensures curve.Lum(Composite(q, pane, alpha)) <= curve.lin(Mix(pane, cap, alpha)) + 2.0 * slack
  {
    CompositeInGamut(q, pane, alpha);
    curve.LumInUnit(q);
    curve.LumInUnit(Composite(q, pane, alpha));
    ColourIsNoBrighterThanGrey(curve, slack, q, pane, alpha);
    ThroughIsMonotone(curve, pane, alpha, curve.Lum(q), cap);
  }

  lemma MarginOrTarget(l: real, m: real, text: real, slack: real)
    requires Unit(l) && Unit(m) && Unit(text) && PROMISE * (text + 0.05) > 1.05
    requires TARGET * (l + 0.05) <= text + 0.05 && 0.0 <= slack <= 0.0005 && m <= l + 2.0 * slack
    ensures Ratio(m, text) >= PROMISE
    ensures slack == 0.0 ==> RatioAtLeast(m, text, TARGET)
  {
    MarginAbsorbs(l, m, text);
    ClearsIffDarkEnough(m, text, TARGET);
  }

  /** Coloured wallpapers too: after the clamp, every pixel keeps the promise at every opacity it answers
      for, and clears TARGET there when the map from wallpaper light to composite light is concave. */
  lemma ColouredPixelKeepsPromise(
      curve: Curve, slack: real, p: Pixel, pane: real, centre: real, edge: real, cw: real, alpha: real)
    requires curve.Valid() && curve.Invertible() && TextIsBrightForPromise(curve) && CapsClear(curve, pane, centre, edge)
    requires Covered(cw, alpha) && 0.0 <= slack <= 0.0005 && curve.ThroughConcaveWithin(pane, alpha, slack) && InGamut(p)
    ensures KeepsPromise(curve, Clamp(curve, p, curve.lin(CapValue(centre, edge, Band(cw)))), pane, alpha)
    ensures slack == 0.0 ==> ClearsTarget(curve, Clamp(curve, p, curve.lin(CapValue(centre, edge, Band(cw)))), pane, alpha)
  {
    var cap := CapValue(centre, edge, Band(cw));
    CapClearsEverywhere(curve, pane, centre, edge, cw, alpha);
    BandIsFullInTheReadingBand(cw);
    CapIsLight(curve, centre, edge, Band(cw));
    ClampMeetsCap(curve, p, curve.lin(cap));
    UnderCapKeepsPromise(curve, slack, Clamp(curve, p, curve.lin(cap)), cap, pane, alpha);
  }

  lemma UnderCapKeepsPromise(curve: Curve, slack: real, q: Pixel, cap: real, pane: real, alpha: real)
    requires curve.Valid() && curve.Invertible() && TextIsBrightForPromise(curve) && 0.0 <= slack <= 0.0005
    requires curve.ThroughConcaveWithin(pane, alpha, slack) && InGamut(q) && Channel(cap) && Channel(pane) && Unit(alpha)
    requires curve.Lum(q) <= curve.lin(cap) && DarkOk(curve, alpha, pane, cap)
    ensures KeepsPromise(curve, q, pane, alpha) && (slack == 0.0 ==> ClearsTarget(curve, q, pane, alpha))
  {
    CompositeUnderCap(curve, slack, q, cap, pane, alpha);
    ClearsOnBrightText(curve, Mix(pane, cap, alpha));
    curve.LinMonotone(Mix(pane, cap, alpha), Mix(pane, cap, alpha));
    curve.LinMonotone(224.0, 224.0);
    curve.GreyLum(224.0);
    MarginOrTarget(curve.lin(Mix(pane, cap, alpha)), curve.Lum(Composite(q, pane, alpha)), curve.lin(224.0), slack);
  }

  lemma ThroughIsMonotone(curve: Curve, pane: real, alpha: real, light: real, cap: real)
    requires curve.Valid() && curve.Invertible() && Channel(pane) && Unit(alpha) && Channel(cap) && Unit(light) && light <= curve.lin(cap)
    ensures Channel(Mix(pane, cap, alpha))
    ensures curve.Through(pane, alpha, light) <= curve.lin(Mix(pane, cap, alpha))
  {
    var v := curve.inv(light);
    assert curve.lin(curve.inv(light)) == light;
    curve.LinReflects(v, cap);
    MixIsMonotoneChannel(pane, v, cap, alpha);
    curve.LinMonotone(Mix(pane, v, alpha), Mix(pane, cap, alpha));
  }

  // ---------------------------------------------------------------- from the caps to the image

  /** A pane that clears TARGET still does under black at any opacity. */
  lemma BlackClears(curve: Curve, pane: real, alpha: real)
    requires curve.Valid() && TextIsBright(curve) && Channel(pane) && Unit(alpha) && Clears(curve, pane, 224.0)
    ensures DarkOk(curve, alpha, pane, 0.0)
  {
    MixStaysBetween(pane, 0.0, alpha);
    ClearsIsDownwardClosed(curve, Mix(pane, 0.0, alpha), pane);
  }

  /** The dark theme's two caps. They do what every result on pixels asks of them exactly when the bare pane
      clears TARGET, neither could be higher by more than 255/2^60, and over such a pane the centre's is not
      above the edge's. */
  method DarkCaps(curve: Curve, pane: real) returns (edge: real, centre: real)
    requires curve.Valid() && TextIsBright(curve) && Channel(pane)
    ensures CapsClear(curve, pane, centre, edge) <==> Clears(curve, pane, 224.0)
    ensures 0.0 <= edge < 255.0 && 0.0 <= centre < 255.0 && (Clears(curve, pane, 224.0) ==> centre <= edge)
    ensures forall v | Channel(v) && edge + Width(60) < v :: !DarkOk(curve, 0.6, pane, v)
    ensures forall v | Channel(v) && centre + Width(60) < v :: !DarkOk(curve, 1.0, pane, v)
  {
    edge := MaxImgValue(curve, 0.6, pane);
    centre := MaxImgValue(curve, 1.0, pane);
    if Clears(curve, pane, 224.0) {
      CapsMeetTheBar(curve, pane, edge, centre);
      CentreIsNotAbove(curve, pane, edge, centre);
    }
  }

  lemma CapsMeetTheBar(curve: Curve, pane: real, edge: real, centre: real)
    requires curve.Valid() && TextIsBright(curve) && Channel(pane) && Clears(curve, pane, 224.0) && Channel(edge) && Channel(centre)
    requires (edge == 0.0 || DarkOk(curve, 0.6, pane, edge)) && (centre == 0.0 || DarkOk(curve, 1.0, pane, centre))
    ensures CapsClear(curve, pane, centre, edge)
  {
    BlackClears(curve, pane, 0.6);
    BlackClears(curve, pane, 1.0);
  }

  /** A cap on the grid that clears TARGET at full opacity clears it at 0.6, so the bisection there got as far. */
  lemma CentreIsNotAbove(curve: Curve, pane: real, edge: real, centre: real)
    requires curve.Valid() && TextIsBright(curve) && Channel(pane) && Clears(curve, pane, 224.0)
    requires 0.0 <= edge && 0.0 <= centre < 255.0 && OnGrid(edge, 60) && OnGrid(centre, 60) && DarkOk(curve, 1.0, pane, centre)
    requires EndsWithin(curve, 0.6, pane, edge, Width(60))
    ensures centre <= edge
  {
    if edge < centre {
      GridGap(edge, centre, 60);
      ClearsAlongTheSlider(curve, pane, centre, 0.6, 1.0);
      DarkOkIsDownwardClosed(curve, 0.6, pane, edge + Width(60), centre);
    }
  }

  /** What the contract says of one pixel of centre weight `cw`: at every opacity it answers for a neutral
      pixel stays neutral and clears TARGET, and any pixel keeps the promise, or clears TARGET, as far as
      light shows through the pane concavely. Its hue is kept. */
  ghost predicate Legible(curve: Curve, was: Pixel, now: Pixel, cw: real, pane: real)
    requires curve.Valid() && Channel(pane)
  {
    && InGamut(now) && (exists k :: Unit(k) && curve.ToLin(now) == curve.ToLin(was).Scaled(k))
    && (was == Grey(was.r) ==> now == Grey(now.r) && forall alpha | Covered(cw, alpha) :: DarkOk(curve, alpha, pane, now.r))
    && (forall alpha, slack | Covered(cw, alpha) && 0.0 <= slack <= 0.0005 && curve.ThroughConcaveWithin(pane, alpha, slack) ::
          KeepsPromise(curve, now, pane, alpha) && (slack == 0.0 ==> ClearsTarget(curve, now, pane, alpha)))
  }

  lemma ClampedIsLegible(curve: Curve, p: Pixel, pane: real, centre: real, edge: real, cw: real)
    requires curve.Valid() && curve.Invertible() && TextIsBrightForPromise(curve) && CapsClear(curve, pane, centre, edge)
    requires InGamut(p)
    ensures Legible(curve, p, Clamp(curve, p, curve.lin(CapValue(centre, edge, Band(cw)))), cw, pane)
  {
    var cap := CapValue(centre, edge, Band(cw));
    var q := Clamp(curve, p, curve.lin(cap));
    BandIsFullInTheReadingBand(cw);
    CapIsLight(curve, centre, edge, Band(cw));
    ClampMeetsCap(curve, p, curve.lin(cap));
    if p == Grey(p.r) {
      ClampedGreyIsUnder(curve, p.r, cap);
      forall alpha | Covered(cw, alpha)
        ensures DarkOk(curve, alpha, pane, q.r)
      {
        NeutralPixelClears(curve, p.r, pane, centre, edge, cw, alpha);
      }
    }
    forall alpha, slack | Covered(cw, alpha) && 0.0 <= slack <= 0.0005 && curve.ThroughConcaveWithin(pane, alpha, slack)
      ensures KeepsPromise(curve, q, pane, alpha) && (slack == 0.0 ==> ClearsTarget(curve, q, pane, alpha))
    {
      ColouredPixelKeepsPromise(curve, slack, p, pane, centre, edge, cw, alpha);
    }
  }

  /** The envelope's band, from the centre weights. */
  method FillBand(cw: array2<real>) returns (band: array2<real>)
    ensures fresh(band) && band.Length0 == cw.Length0 && band.Length1 == cw.Length1
    ensures forall y, x | 0 <= y < cw.Length0 && 0 <= x < cw.Length1 :: band[y, x] == Band(cw[y, x])
  {
    band := new real[cw.Length0, cw.Length1];
    forall y, x | 0 <= y < cw.Length0 && 0 <= x < cw.Length1 {
      band[y, x] := Band(cw[y, x]);
    }
  }

  /** The dark image from caps to pixels: whenever the bare pane clears TARGET, every pixel of the result
      is legible. */
  method DarkImage(curve: Curve, arr: array2<Pixel>, cw: array2<real>, pane: real) returns (out: array2<Pixel>)
    requires curve.Valid() && curve.Invertible() && TextIsBrightForPromise(curve) && Channel(pane)
    requires arr.Length0 == cw.Length0 && arr.Length1 == cw.Length1
    requires forall y, x | 0 <= y < arr.Length0 && 0 <= x < arr.Length1 :: InGamut(arr[y, x])
    ensures out.Length0 == arr.Length0 && out.Length1 == arr.Length1
    ensures Clears(curve, pane, 224.0) ==>
              forall y, x | 0 <= y < arr.Length0 && 0 <= x < arr.Length1 :: Legible(curve, arr[y, x], out[y, x], cw[y, x], pane)
  {
    var edge, centre := DarkCaps(curve, pane);
    var band := FillBand(cw);
    forall y, x | 0 <= y < arr.Length0 && 0 <= x < arr.Length1
      ensures Unit(band[y, x])
    {
      BandIsFullInTheReadingBand(cw[y, x]);
    }
    out := EnforceDark(curve, arr, band, centre, edge);
    if Clears(curve, pane, 224.0) {
      forall y, x | 0 <= y < arr.Length0 && 0 <= x < arr.Length1
        ensures Legible(curve, arr[y, x], out[y, x], cw[y, x], pane)
      {
        ClampedIsLegible(curve, arr[y, x], pane, centre, edge, cw[y, x]);
      }
    }
  }
}
