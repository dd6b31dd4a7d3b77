/** A curve that meets every premise of the contrast results exactly, and is not linear: black to white along
    u / (2 - u). Both it and its inverse are fractional linear, and so is light through any pane. */
module ContrastPremises {
  import opened Contrast
  import opened Reals

  /** (a + b y) / (c + d y) on a stretch where the denominator is positive. */
  datatype Fraction = Fraction(a: real, b: real, c: real, d: real) {
    function Below(y: real): real { c + d * y }

    function Above(y: real): real { a + b * y }

    /** Positive when the fraction rises. */
    function Determinant(): real { b * c - a * d }

    function At(y: real): real
      requires Below(y) > 0.0
    {
      Above(y) / Below(y)
    }
  }

  lemma CrossDifference(f: Fraction, x: real, z: real, gx: real, gz: real)
    requires gx * f.Below(x) == f.Above(x) && gz * f.Below(z) == f.Above(z)
    ensures (gx - gz) * (f.Below(x) * f.Below(z)) == f.Determinant() * (x - z)
  {
    var p, q := f.Below(x), f.Below(z);
    assert (gx - gz) * (p * q) == gx * p * q - gz * q * p;
    CrossProducts(f.a, f.b, f.c, f.d, x, z);
  }

  lemma CrossProducts(a: real, b: real, c: real, d: real, x: real, z: real)
    ensures (a + b * x) * (c + d * z) - (a + b * z) * (c + d * x) == (b * c - a * d) * (x - z)
  {
    var bc, ad := b * c, a * d;
    assert (a + b * x) * (c + d * z) == a * c + ad * z + bc * x + b * d * (x * z);
    assert (a + b * z) * (c + d * x) == a * c + ad * x + bc * z + b * d * (x * z);
  }

  lemma SlopeOverStretch(m: real, h: real, p: real, q: real, d: real, det: real)
    requires m * (q * q) == det && p == q + d * h
    ensures m * h * (p * q) == det * h + m * q * d * (h * h)
  {
    assert m * h * (p * q) == m * h * (q * q) + m * h * (d * h * q);
    assert m * h * (q * q) == m * (q * q) * h;
  }

  lemma BelowDifference(f: Fraction, x: real, z: real)
    ensures f.Below(x) == f.Below(z) + f.d * (x - z)
  {
  }

  /** The height of the tangent over the curve at distance `h`, and its sign, from the cross difference. */
  lemma TangentGap(p: real, q: real, h: real, d: real, det: real, rise: real, m: real)
    requires p > 0.0 && q > 0.0 && m >= 0.0 && p == q + d * h
    requires rise * (p * q) == det * h && m * (q * q) == det
    ensures d >= 0.0 ==> rise <= m * h
    ensures d <= 0.0 ==> rise >= m * h
  {
    SlopeOverStretch(m, h, p, q, d, det);
    Distributes(m * h, rise, p * q);
    ProductSigns(p, q);
    GapSign(m * h - rise, p * q, m, q, d, h);
  }

  ghost predicate Value(f: Fraction, x: real, g: real) {
    f.Below(x) > 0.0 && g * f.Below(x) == f.Above(x)
  }

  ghost predicate Slope(f: Fraction, z: real, m: real) {
    m >= 0.0 && m * (f.Below(z) * f.Below(z)) == f.Determinant()
  }

  /** A rising fraction lies below its tangents where its denominator rises, above them where it falls. */
  lemma TangentSide(f: Fraction, x: real, z: real, gx: real, gz: real, m: real)
    requires Value(f, x, gx) && Value(f, z, gz) && Slope(f, z, m)
    ensures f.d >= 0.0 ==> gx - gz <= m * (x - z)
    ensures f.d <= 0.0 ==> gx - gz >= m * (x - z)
  {
    BelowDifference(f, x, z);
    CrossDifference(f, x, z, gx, gz);
    TangentGap(f.Below(x), f.Below(z), x - z, f.d, f.Determinant(), gx - gz, m);
  }

  lemma ValueIs(f: Fraction, x: real)
    requires f.Below(x) > 0.0
    ensures Value(f, x, f.At(x))
  {
    QuotientSigns(f.Above(x), f.Below(x));
  }

  lemma OverSquare(det: real, q: real) returns (m: real)
    requires q > 0.0 && det >= 0.0
    ensures m >= 0.0 && m * (q * q) == det
  {
    var r := det / q;
    QuotientSigns(det, q);
    m := r / q;
    QuotientSigns(r, q);
    assert m * (q * q) == m * q * q;
  }

  lemma SlopeExists(f: Fraction, z: real) returns (m: real)
    requires f.Below(z) > 0.0 && f.Determinant() >= 0.0
    ensures Slope(f, z, m)
  {
    m := OverSquare(f.Determinant(), f.Below(z));
  }

  lemma GapSign(gap: real, pq: real, m: real, q: real, d: real, h: real)
    requires pq > 0.0 && m >= 0.0 && q > 0.0 && gap * pq == m * q * d * (h * h)
    ensures d >= 0.0 ==> gap >= 0.0
    ensures d <= 0.0 ==> gap <= 0.0
  {
    SquareIsNonNegative(h);
    ProductSigns(m, q);
    ProductSigns(m * q, d);
    ProductSigns(m * q, -d);
    ProductSigns(m * q * d, h * h);
    ProductSigns(m * q * -d, h * h);
    assert m * q * -d * (h * h) == -(m * q * d * (h * h));
    assert -gap * pq == -(gap * pq);
    CancelPositive(gap, pq);
    CancelPositive(-gap, pq);
  }

  lemma SquareIsNonNegative(h: real)
    ensures h * h >= 0.0
  {
    ProductSigns(h, h);
    ProductSigns(-h, -h);
  }

  /** So it is concave in the first case and convex in the second. */
  lemma FractionBends(f: Fraction, x: real, y: real, t: real)
    requires Unit(t) && f.Determinant() >= 0.0 && f.Below(x) > 0.0 && f.Below(y) > 0.0 && f.Below(Mix(x, y, t)) > 0.0
    ensures f.d >= 0.0 ==> Mix(f.At(x), f.At(y), t) <= f.At(Mix(x, y, t))
    ensures f.d <= 0.0 ==> Mix(f.At(x), f.At(y), t) >= f.At(Mix(x, y, t))
  {
    var z := Mix(x, y, t);
    ValueIs(f, x);
    ValueIs(f, y);
    ValueIs(f, z);
    var m := SlopeExists(f, z);
    TangentSide(f, x, z, f.At(x), f.At(z), m);
    TangentSide(f, y, z, f.At(y), f.At(z), m);
    MeanOfTangents(f.At(x), f.At(y), f.At(z), m, x, y, z, t);
  }

  lemma MeanOfTangents(gx: real, gy: real, gz: real, m: real, x: real, y: real, z: real, t: real)
    requires Unit(t) && z == Mix(x, y, t)
    ensures gx - gz <= m * (x - z) && gy - gz <= m * (y - z) ==> Mix(gx, gy, t) <= gz
    ensures gx - gz >= m * (x - z) && gy - gz >= m * (y - z) ==> Mix(gx, gy, t) >= gz
  {
    var u, v := m * (x - z), m * (y - z);
    TangentsCancel(m, x, y, z, t, u, v);
    assert Mix(gz + u, gz + v, t) == gz + Mix(u, v, t);
    if gx - gz <= u && gy - gz <= v {
      MixMonotone(gx, gy, gz + u, gz + v, t);
    }
    if gx - gz >= u && gy - gz >= v {
      MixMonotone(gz + u, gz + v, gx, gy, t);
    }
  }

  lemma TangentsCancel(m: real, x: real, y: real, z: real, t: real, u: real, v: real)
    requires z == Mix(x, y, t) && u == m * (x - z) && v == m * (y - z)
    ensures Mix(u, v, t) == 0.0
  {
    var e := (x - z) * (1.0 - t) + (y - z) * t;
    assert e == Mix(x, y, t) - z == 0.0;
    assert Mix(u, v, t) == m * e;
  }

  // ---------------------------------------------------------------- the curve

  ghost function BentCurve(): Curve {
    Curve(x => if x < 510.0 then x / (510.0 - x) else 0.0, y => if y >= 0.0 then 510.0 * y / (1.0 + y) else 0.0)
  }

  /** The curve as a fraction. */
  ghost function Forward(): Fraction { Fraction(0.0, 1.0, 510.0, -1.0) }

  lemma ForwardIsCurve(x: real)
    requires Channel(x)
    ensures Forward().Below(x) > 0.0 && BentCurve().lin(x) == Forward().At(x)
  {
    assert Forward().Below(x) == 510.0 - x && Forward().Above(x) == x;
  }

  lemma BentRises(x: real, y: real)
    requires 0.0 <= x < y <= 255.0
    ensures BentCurve().lin(x) < BentCurve().lin(y)
  {
    var p, q := 510.0 - x, 510.0 - y;
    QuotientSigns(x, p);
    QuotientSigns(y, q);
    var u, v := x / p, y / q;
    LargerProduct(0.0, 0.0, v, q);
    ProductSigns(p - q, v);
    Distributes(p, q, v);
    assert u * p < v * p;
    CancelFactor(u, v, p);
  }

  lemma BentInverts(x: real)
    requires Channel(x)
    ensures BentCurve().lin(x) >= 0.0 && BentCurve().inv(BentCurve().lin(x)) == x
  {
    var p := 510.0 - x;
    QuotientSigns(x, p);
    var u := x / p;
    assert u * p == x && x * (1.0 + u) == 510.0 * u by {
      assert x * u == 510.0 * u - u * p;
    }
    QuotientIs(510.0 * u, 1.0 + u, x);
  }

  lemma BentIsOnto(y: real)
    requires Unit(y)
    ensures Channel(BentCurve().inv(y)) && BentCurve().lin(BentCurve().inv(y)) == y
  {
    var q := 1.0 + y;
    var x := 510.0 * y / q;
    QuotientSigns(510.0 * y, q);
    assert x * q == 510.0 * y;
    QuotientsCompare(510.0 * y, 255.0 * q, q);
    QuotientIs(255.0 * q, q, 255.0);
    assert y * (510.0 - x) == x by {
      assert x * q == x + x * y;
    }
    QuotientIs(x, 510.0 - x, y);
  }

  lemma BentCurveIsValid()
    ensures BentCurve().Valid() && BentCurve().Invertible()
  {
    QuotientIs(255.0, 255.0, 1.0);
    QuotientIs(0.0, 510.0, 0.0);
    forall x, y | 0.0 <= x < y <= 255.0
      ensures BentCurve().lin(x) < BentCurve().lin(y)
    {
      BentRises(x, y);
    }
    forall x | Channel(x)
      ensures BentCurve().inv(BentCurve().lin(x)) == x
    {
      BentInverts(x);
    }
    forall y | Unit(y)
      ensures Channel(BentCurve().inv(y)) && BentCurve().lin(BentCurve().inv(y)) == y
    {
      BentIsOnto(y);
    }
  }

  lemma BentCurveIsConvex()
    ensures BentCurve().ConvexWithin(0.0)
  {
    forall x, y, t | Channel(x) && Channel(y) && Unit(t)
      ensures BentCurve().lin(Mix(x, y, t)) <= Mix(BentCurve().lin(x), BentCurve().lin(y), t) + 0.0
    {
      MixStaysBetween(x, y, t);
      ForwardIsCurve(x);
      ForwardIsCurve(y);
      ForwardIsCurve(Mix(x, y, t));
      FractionBends(Forward(), x, y, t);
    }
  }

  /** Light through a pane of `s == pane * (1 - alpha)` as a fraction of the wallpaper's light. */
  ghost function Shown(s: real, alpha: real): Fraction {
    Fraction(s, s + 510.0 * alpha, 510.0 - s, 510.0 - s - 510.0 * alpha)
  }

  lemma PaneShare(pane: real, alpha: real)
    requires Channel(pane) && Unit(alpha)
    ensures var s := pane * (1.0 - alpha); 0.0 <= s <= 255.0 * (1.0 - alpha)
  {
    ScalesUp(pane, 255.0, 1.0 - alpha);
    ProductSigns(pane, 1.0 - alpha);
  }

  lemma ShownParts(s: real, alpha: real, y: real, v: real, w: real, q: real)
    requires q == 1.0 + y && v * q == 510.0 * y && w == s + v * alpha
    ensures w * q == Shown(s, alpha).Above(y) && (510.0 - w) * q == Shown(s, alpha).Below(y)
  {
    var k := 510.0 * alpha;
    assert v * alpha * q == k * y by {
      assert v * alpha * q == v * q * alpha;
    }
    Distributes(s, -(v * alpha), q);
    assert w * q == s * q + v * alpha * q;
    assert s * q == s + s * y;
    assert (s + k) * y == s * y + k * y;
    Distributes(510.0, w, q);
    assert (510.0 - s - k) * y == 510.0 * y - (s + k) * y;
  }

  lemma BentInverse(y: real)
    requires Unit(y)
    ensures Channel(BentCurve().inv(y)) && BentCurve().inv(y) * (1.0 + y) == 510.0 * y
  {
    BentIsOnto(y);
    QuotientSigns(510.0 * y, 1.0 + y);
  }

  lemma CompositeOfLight(pane: real, alpha: real, y: real) returns (v: real, w: real)
    requires Channel(pane) && Unit(alpha) && Unit(y)
    ensures v * (1.0 + y) == 510.0 * y && w == pane * (1.0 - alpha) + v * alpha && 0.0 <= w <= 255.0
    ensures BentCurve().Through(pane, alpha, y) == w / (510.0 - w)
  {
    BentInverse(y);
    v := BentCurve().inv(y);
    w := Mix(pane, v, alpha);
    MixStaysBetween(pane, v, alpha);
    assert BentCurve().lin(w) == w / (510.0 - w);
  }

  lemma ShownIsThrough(pane: real, alpha: real, y: real, s: real)
    requires Channel(pane) && Unit(alpha) && Unit(y) && s == pane * (1.0 - alpha)
    ensures Shown(s, alpha).Below(y) > 0.0 && BentCurve().Through(pane, alpha, y) == Shown(s, alpha).At(y)
  {
    var v, w := CompositeOfLight(pane, alpha, y);
    ShownParts(s, alpha, y, v, w, 1.0 + y);
    SameQuotient(w, 510.0 - w, Shown(s, alpha).Above(y), Shown(s, alpha).Below(y), 1.0 + y);
  }

  lemma SameQuotient(x: real, y: real, xq: real, yq: real, q: real)
    requires y > 0.0 && q > 0.0 && xq == x * q && yq == y * q
    ensures yq > 0.0 && x / y == xq / yq
  {
    ProductSigns(y, q);
    QuotientSigns(x, y);
    assert x / y * y * q == x / y * (y * q);
    QuotientIs(xq, yq, x / y);
  }

  lemma ShownRises(s: real, alpha: real)
    requires Unit(alpha) && 0.0 <= s <= 255.0 * (1.0 - alpha)
    ensures Shown(s, alpha).Determinant() >= 0.0 && Shown(s, alpha).d >= 0.0
  {
    var k := 510.0 * alpha;
    assert (s + k) * (510.0 - s) - s * (510.0 - s - k) == 510.0 * k by {
      assert (s + k) * (510.0 - s) == s * (510.0 - s) + k * (510.0 - s);
      assert s * (510.0 - s - k) == s * (510.0 - s) - s * k;
      assert k * (510.0 - s) == 510.0 * k - s * k;
    }
  }

  lemma BentCurveIsConcaveThrough(pane: real, alpha: real)
    requires Channel(pane) && Unit(alpha)
    ensures BentCurve().ThroughConcaveWithin(pane, alpha, 0.0)
  {
    var c, s := BentCurve(), pane * (1.0 - alpha);
    PaneShare(pane, alpha);
    ShownRises(s, alpha);
    forall x, y, t | Unit(x) && Unit(y) && Unit(t)
      ensures Mix(c.Through(pane, alpha, x), c.Through(pane, alpha, y), t) <= c.Through(pane, alpha, Mix(x, y, t)) + 0.0
    {
      MixStaysBetween(x, y, t);
      ShownIsThrough(pane, alpha, x, s);
      ShownIsThrough(pane, alpha, y, s);
      ShownIsThrough(pane, alpha, Mix(x, y, t), s);
      FractionBends(Shown(s, alpha), x, y, t);
    }
  }

  lemma BentCurveAtText()
    ensures BentCurve().lin(224.0) == 112.0 / 143.0 && BentCurve().lin(40.0) == 4.0 / 47.0
  {
    QuotientIs(224.0, 286.0, 112.0 / 143.0);
    QuotientIs(40.0, 470.0, 4.0 / 47.0);
  }

  lemma BentCurveClears(v: real, alpha: real)
    requires 0.0 <= v <= 40.0 && Unit(alpha)
    ensures BentCurve().Valid() && DarkOk(BentCurve(), alpha, 10.0, v) && Clears(BentCurve(), 10.0, 224.0)
  {
    BentCurveIsValid();
    BentCurveAtText();
    MixStaysBetween(10.0, v, alpha);
    ClearsOnBrightText(BentCurve(), 40.0);
    ClearsIsDownwardClosed(BentCurve(), 10.0, 40.0);
    ClearsIsDownwardClosed(BentCurve(), Mix(10.0, v, alpha), 40.0);
  }

  lemma BentCurveSuitsTheText()
    ensures BentCurve().Valid() && TextIsBright(BentCurve()) && TextIsBrightForPromise(BentCurve())
    ensures CapsClear(BentCurve(), 10.0, 30.0, 40.0)
  {
    BentCurveIsValid();
    BentCurveAtText();
    BentCurveClears(30.0, 1.0);
    BentCurveClears(40.0, 0.6);
  }

  /** The premises of the contrast results are consistent: a curve that bends meets them all, without slack,
      over every pane and at every opacity. */
  lemma PremisesAreConsistent(pane: real, alpha: real)
    requires Channel(pane) && Unit(alpha)
    ensures var c := BentCurve();
            && c.Valid() && c.Invertible() && c.ConvexWithin(0.0) && c.ThroughConcaveWithin(pane, alpha, 0.0)
            && TextIsBright(c) && TextIsBrightForPromise(c) && CapsClear(c, 10.0, 30.0, 40.0)
  {
    BentCurveIsValid();
    BentCurveIsConvex();
    BentCurveIsConcaveThrough(pane, alpha);
    BentCurveSuitsTheText();
  }

  /** And it does bend: halfway up the channel it is at a third of the light, not at half. */
  lemma BentCurveIsNotLinear()
    ensures BentCurve().lin(127.5) == 1.0 / 3.0
  {
    QuotientIs(127.5, 382.5, 1.0 / 3.0);
  }
}
