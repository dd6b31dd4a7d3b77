/** The elastic pull: how far the track travels for a finger that has travelled `dy`. */
module PullCurve {
  import opened Reals

  /** The measured commit distance, and the share of the finger's next pixel the track still travels
      as it crosses that point. */
  datatype PullSettings = PullSettings(commit: real, damping: real)

  type Pull = p: PullSettings | p.commit > 0.0 && p.damping > 0.0 witness PullSettings(160.0, 1.0)

  function MaxOffset(p: Pull): real { p.commit * 2.0 }

  function Offset(p: Pull, dy: real): real {
    if dy <= p.commit then dy
    else
      var slack := MaxOffset(p) - p.commit;
      var past := dy - p.commit;
      Resists(p, dy);
      p.commit + slack * (1.0 - 1.0 / (past * p.damping / slack + 1.0))
  }

  lemma Resists(p: Pull, dy: real)
    requires dy >= p.commit
    ensures (dy - p.commit) * p.damping / (MaxOffset(p) - p.commit) + 1.0 >= 1.0
  {
    ProductSigns(dy - p.commit, p.damping);
    QuotientSigns((dy - p.commit) * p.damping, p.commit);
  }

  /** The share of the slack still unspent: 1 up to the commit point, falling towards 0 past it. */
  ghost function Unspent(p: Pull, dy: real): real {
    if dy <= p.commit then 1.0 else (MaxOffset(p) - Offset(p, dy)) / p.commit
  }

  /** The inverse curve: how far the finger must travel for an offset below the maximum. */
  function FingerFor(p: Pull, offset: real): real
    requires offset < MaxOffset(p)
  {
    if offset <= p.commit then offset
    else p.commit + p.commit * (p.commit / (MaxOffset(p) - offset) - 1.0) / p.damping
  }

  ghost function OffsetOf(p: Pull): real -> real { x => Offset(p, x) }
  ghost function UnspentOf(p: Pull): real -> real { x => Unspent(p, x) }

  /** `q` of the slack `c` is unspent after `e` of damped travel past the commit point, and the offset is `f`. */
  ghost predicate Damped(c: real, e: real, f: real, q: real) {
    0.0 <= e && 0.0 < q <= 1.0 && f == c * 2.0 - c * q && q * (c + e) == c
  }

  /** The one equation the curve `f` satisfies past the commit point; the proofs use nothing else. */
  ghost predicate DampedAt(f: real -> real, q: real -> real, c: real, d: real, x: real) {
    c <= x && Damped(c, (x - c) * d, f(x), q(x))
  }

  lemma UnspentEquation(p: Pull, dy: real)
    requires dy >= p.commit
    ensures DampedAt(OffsetOf(p), UnspentOf(p), p.commit, p.damping, dy)
  {
    if dy == p.commit {
      DampedAtTheSeam(p.commit, p.damping, dy);
    } else {
      var e, max, slack := (dy - p.commit) * p.damping, MaxOffset(p), MaxOffset(p) - p.commit;
      ProductSigns(dy - p.commit, p.damping);
      DampedValue(p.commit, max, slack, e, Offset(p, dy), Unspent(p, dy));
    }
  }

  lemma DampedAtTheSeam(c: real, d: real, x: real)
    requires c > 0.0 && x == c
    ensures Damped(c, (x - c) * d, x, 1.0)
  {
    assert (x - c) * d == 0.0;
  }

  // ---------------------------------------------------------------- main results

  /** Every further pixel moves the track: an asymptote, not a clamp. */
  lemma StrictlyIncreasing(p: Pull, x: real, y: real)
    requires x < y
    ensures Offset(p, x) < Offset(p, y)
  {
    if p.commit < y {
      var from := if x < p.commit then p.commit else x;
      UnspentEquation(p, from);
      UnspentEquation(p, y);
      var e := DampedGain(OffsetOf(p), UnspentOf(p), p.commit, p.damping, from, y, y - from);
      assert OffsetOf(p)(from) < OffsetOf(p)(y);
    }
  }

  /** The offset stays below the maximum at every distance, and the finger's travel can be read back. */
  lemma NeverReachesTheMaximum(p: Pull, dy: real)
    ensures Offset(p, dy) < MaxOffset(p) && FingerFor(p, Offset(p, dy)) == dy
  {
    if dy > p.commit {
      UnspentEquation(p, dy);
      StrictlyIncreasing(p, p.commit, dy);
      ReadBack(p.commit, p.damping, dy - p.commit, Offset(p, dy), Unspent(p, dy));
    }
  }

  lemma FingerReaches(p: Pull, offset: real)
    requires p.commit < offset < MaxOffset(p)
    ensures Offset(p, FingerFor(p, offset)) == offset
  {
    var dy, gap := FingerFor(p, offset), MaxOffset(p) - offset;
    FingerSpendsTheGap(p.commit, p.damping, gap, dy);
    UnspentEquation(p, dy);
    GapIsLeft(OffsetOf(p), UnspentOf(p), p.commit, p.damping, dy, gap);
    assert OffsetOf(p)(dy) == offset;
  }

  lemma GapIsLeft(f: real -> real, q: real -> real, c: real, d: real, dy: real, gap: real)
    requires c > 0.0 && DampedAt(f, q, c, d, dy) && gap * (c + (dy - c) * d) == c * c
    ensures f(dy) == c * 2.0 - gap
  {
    UnspentIsUnique(c, (dy - c) * d, q(dy), gap);
  }

  /** Every offset below the maximum is reached, by exactly one distance. */
  lemma EveryOffsetIsReached(p: Pull, offset: real)
    requires offset < MaxOffset(p)
    ensures Offset(p, FingerFor(p, offset)) == offset
    ensures forall dy | Offset(p, dy) == offset :: dy == FingerFor(p, offset)
  {
    if offset > p.commit {
      FingerReaches(p, offset);
    }
    forall dy | Offset(p, dy) == offset
      ensures dy == FingerFor(p, offset)
    {
      NeverReachesTheMaximum(p, dy);
    }
  }

  /** What the finger's next `h` pixels buy at distance `x`. */
  function Gain(p: Pull, x: real, h: real): real { Offset(p, x + h) - Offset(p, x) }

  /** Each stretch of finger buys at most what the same stretch bought earlier, across the seam too. */
  lemma GainNeverRises(p: Pull, a: real, b: real, h: real)
    requires p.damping <= 1.0 && a <= b && 0.0 < h
    ensures Gain(p, b, h) <= Gain(p, a, h)
  {
    Tangent(p, a + h, a);
    Tangent(p, a + h, b + h);
    Tangent(p, b, a);
    Tangent(p, b, b + h);
    GainFromTangents(OffsetOf(p), SlopeOf(p), a, b, h);
  }

  /** Past the commit point it buys strictly less, whatever the damping. */
  lemma GainFallsPastCommit(p: Pull, a: real, b: real, h: real)
    requires p.commit <= a < b && 0.0 < h
    ensures Gain(p, b, h) < Gain(p, a, h)
  {
    UnspentEquation(p, a);
    UnspentEquation(p, a + h);
    UnspentEquation(p, b);
    UnspentEquation(p, b + h);
    DampedGainFalls(OffsetOf(p), UnspentOf(p), p.commit, p.damping, a, b, h);
  }

  ghost predicate GainFallsEverywhere(p: Pull) {
    forall a, b, h | a <= b && 0.0 < h :: Gain(p, b, h) <= Gain(p, a, h)
  }

  /** The gain never rises, for any commit distance, exactly when the damping is at most 1: above
      that the pull speeds up as it crosses the commit point. */
  lemma GainFallsIffDampingAtMostOne(p: Pull)
    ensures GainFallsEverywhere(p) <==> p.damping <= 1.0
  {
    if p.damping <= 1.0 {
      forall a, b, h | a <= b && 0.0 < h
        ensures Gain(p, b, h) <= Gain(p, a, h)
      {
        GainNeverRises(p, a, b, h);
      }
    } else {
      var h := p.commit * (p.damping - 1.0) / (2.0 * p.damping);
      ShortStretch(p.commit, p.damping, h);
      SeamSpeedsUp(p, h);
      assert Gain(p, p.commit, h) > h == Gain(p, p.commit - h, h);
    }
  }

  lemma SeamSpeedsUp(p: Pull, h: real)
    requires p.damping > 1.0 && h > 0.0 && 2.0 * (h * p.damping) == p.commit * (p.damping - 1.0)
    ensures Offset(p, p.commit + h) > p.commit + h
  {
    UnspentEquation(p, p.commit + h);
    assert p.commit + h - p.commit == h;
    SpentAtTheSeam(p.commit, p.damping, h, UnspentOf(p)(p.commit + h));
  }

  // ---------------------------------------------------------------- tangents

  /** A line through the curve at `t` of this slope lies nowhere below it. */
  ghost function SlopeOf(p: Pull): real -> real {
    t => if t <= p.commit then 1.0 else p.damping * (Unspent(p, t) * Unspent(p, t))
  }

  ghost predicate TangentAt(f: real -> real, m: real -> real, t: real, x: real) {
    f(x) <= f(t) + m(t) * (x - t)
  }

  lemma Tangent(p: Pull, t: real, x: real)
    requires p.damping <= 1.0
    ensures TangentAt(OffsetOf(p), SlopeOf(p), t, x)
  {
    if t <= p.commit {
      TangentOnTheIdentity(p, t, x);
    } else if p.commit <= x {
      TangentPastCommit(p, t, x);
    } else {
      TangentPastCommit(p, t, p.commit);
      TangentExtends(OffsetOf(p), SlopeOf(p), t, p.commit, x);
    }
  }

  lemma TangentOnTheIdentity(p: Pull, t: real, x: real)
    requires p.damping <= 1.0 && t <= p.commit
    ensures TangentAt(OffsetOf(p), SlopeOf(p), t, x)
  {
    if p.commit < x {
      UnspentEquation(p, x);
      UnderIdentity(OffsetOf(p), UnspentOf(p), p.commit, p.damping, x);
    }
  }

  lemma TangentPastCommit(p: Pull, t: real, x: real)
    requires p.damping <= 1.0 && p.commit < t && p.commit <= x
    ensures TangentAt(OffsetOf(p), SlopeOf(p), t, x) && SlopeOf(p)(t) <= 1.0
  {
    if t <= x {
      GainBetween(p, t, x);
    } else {
      GainBetween(p, x, t);
    }
    DampedTangent(OffsetOf(p), UnspentOf(p), SlopeOf(p), p.damping, t, x);
  }

  lemma GainBetween(p: Pull, x: real, y: real)
    requires p.commit <= x <= y
    ensures GainAt(OffsetOf(p), UnspentOf(p), p.damping, x, y)
  {
    UnspentEquation(p, x);
    UnspentEquation(p, y);
    GainHolds(OffsetOf(p), UnspentOf(p), p.commit, p.damping, x, y);
  }

  /** Below the commit point the curve is steeper than any of its tangents, so they stay above it. */
  lemma TangentExtends(f: real -> real, m: real -> real, t: real, c: real, x: real)
    requires TangentAt(f, m, t, c) && m(t) <= 1.0 && x <= c && f(x) == f(c) - (c - x)
    ensures TangentAt(f, m, t, x)
  {
    ProductSigns(1.0 - m(t), c - x);
    assert m(t) * (c - t) == m(t) * (x - t) + m(t) * (c - x);
  }

  // ---------------------------------------------------------------- the damped branch

  /** What damped travel `g` buys between two unspent shares. */
  ghost function Buys(qx: real, qy: real, g: real): real { qx * qy * g }

  lemma DampedGain(f: real -> real, q: real -> real, c: real, d: real, x: real, y: real, h: real) returns (e: real)
    requires c > 0.0 && d > 0.0 && 0.0 <= h && y == x + h && DampedAt(f, q, c, d, x) && DampedAt(f, q, c, d, y)
    ensures e == h * d && 0.0 <= e && (0.0 < h ==> 0.0 < e)
    ensures q(y) <= q(x) && (0.0 < h ==> q(y) < q(x) && f(x) < f(y))
    ensures 0.0 <= q(y) && q(x) <= 1.0 && f(y) - f(x) == Buys(q(x), q(y), e)
  {
    e := h * d;
    ProductSigns(h, d);
    TravelAdds(x - c, y - c, h, d);
    DampedValuesGain(c, (x - c) * d, f(x), q(x), (y - c) * d, f(y), q(y), e);
  }

  lemma DampedGainFalls(f: real -> real, q: real -> real, c: real, d: real, a: real, b: real, h: real)
    requires c > 0.0 && d > 0.0 && 0.0 < h && a < b
    requires DampedAt(f, q, c, d, a) && DampedAt(f, q, c, d, a + h)
    requires DampedAt(f, q, c, d, b) && DampedAt(f, q, c, d, b + h)
    ensures f(b + h) - f(b) < f(a + h) - f(a)
  {
    var e := DampedGain(f, q, c, d, a, a + h, h);
    var e' := DampedGain(f, q, c, d, b, b + h, h);
    var g := DampedGain(f, q, c, d, a, b, b - a);
    var g' := DampedGain(f, q, c, d, a + h, b + h, b - a);
    StrictProducts(q(a), q(a + h), q(b), q(b + h), e);
  }

  /** What the stretch from `x` to `y` buys, in unspent shares alone. */
  ghost predicate GainAt(f: real -> real, q: real -> real, d: real, x: real, y: real) {
    0.0 <= q(y) <= q(x) <= 1.0 && 0.0 <= (y - x) * d && f(y) - f(x) == Buys(q(x), q(y), (y - x) * d)
  }

  lemma GainHolds(f: real -> real, q: real -> real, c: real, d: real, x: real, y: real)
    requires c > 0.0 && d > 0.0 && x <= y && DampedAt(f, q, c, d, x) && DampedAt(f, q, c, d, y)
    ensures GainAt(f, q, d, x, y)
  {
    var h := y - x;
    var e := DampedGain(f, q, c, d, x, y, h);
    GainOver(f, q, d, x, y, h, e);
  }

  lemma GainOver(f: real -> real, q: real -> real, d: real, x: real, y: real, h: real, e: real)
    requires h == y - x && e == h * d && 0.0 <= e
    requires 0.0 <= q(y) <= q(x) <= 1.0 && f(y) - f(x) == Buys(q(x), q(y), e)
    ensures GainAt(f, q, d, x, y)
  {
  }

  lemma DampedTangent(f: real -> real, q: real -> real, m: real -> real, d: real, t: real, x: real)
    requires 0.0 < d <= 1.0 && (if t <= x then GainAt(f, q, d, t, x) else GainAt(f, q, d, x, t))
    requires m(t) == d * (q(t) * q(t))
    ensures TangentAt(f, m, t, x) && m(t) <= 1.0
  {
    SlopeAtMostOne(d, q(t));
    if t <= x {
      TangentAhead(f(t), f(x), q(t), q(x), d, t, x, x - t, (x - t) * d, m(t));
    } else {
      TangentBehind(f(t), f(x), q(t), q(x), d, t, x, t - x, (t - x) * d, m(t));
    }
  }

  lemma UnderIdentity(f: real -> real, q: real -> real, c: real, d: real, x: real)
    requires c > 0.0 && 0.0 < d <= 1.0 && DampedAt(f, q, c, d, x)
    ensures f(x) <= x
  {
    var e := (x - c) * d;
    ProductSigns(x - c, 1.0 - d);
    assert e <= x - c;
    ProductSigns(1.0 - q(x), e);
    assert f(x) - c == q(x) * e;
  }

  lemma ReadBack(c: real, d: real, past: real, f: real, q: real)
    requires c > 0.0 && d > 0.0 && 0.0 < past && Damped(c, past * d, f, q)
    ensures f < c * 2.0 && c * (c / (c * 2.0 - f) - 1.0) / d == past
  {
    InverseAlgebra(c, q, past * d);
    assert c * 2.0 - f == c * q;
    assert past * d / d == past;
  }

  lemma FingerSpendsTheGap(c: real, d: real, gap: real, dy: real)
    requires c > 0.0 && d > 0.0 && 0.0 < gap < c && dy == c + c * (c / gap - 1.0) / d
    ensures dy > c && gap * (c + (dy - c) * d) == c * c
  {
    var e := c * (c / gap - 1.0);
    EnergyOfGap(c, gap);
    QuotientSigns(e, d);
    assert dy - c == e / d;
  }

  // ---------------------------------------------------------------- algebra

  lemma TravelAdds(x: real, y: real, h: real, d: real)
    requires y == x + h
    ensures y * d == x * d + h * d
  {
  }

  lemma DampedValuesGain(c: real, ex: real, fx: real, qx: real, ey: real, fy: real, qy: real, g: real)
    requires c > 0.0 && 0.0 <= g && ey == ex + g && Damped(c, ex, fx, qx) && Damped(c, ey, fy, qy)
    ensures qy <= qx && (0.0 < g ==> qy < qx && fx < fy)
    ensures fy - fx == Buys(qx, qy, g)
  {
    GainAlgebra(c, ex, ey, g, qx, qy);
    ProductSigns(c, qx - qy);
  }

  lemma GainAlgebra(c: real, ex: real, ey: real, g: real, qx: real, qy: real)
    requires c > 0.0 && 0.0 <= ex && 0.0 <= g && ey == ex + g && qx > 0.0 && qy > 0.0
    requires qx * (c + ex) == c && qy * (c + ey) == c
    ensures c * qx - c * qy == Buys(qx, qy, g)
    ensures qy <= qx && (0.0 < g ==> qy < qx)
  {
    assert qx * qy * (c + ey) == qx * c;
    assert qx * qy * (c + ex) == qy * c;
    assert qx * qy * g == qx * c - qy * c == (qx - qy) * c;
    ProductSigns(qx, qy);
    ProductSigns(qx * qy, g);
    CancelPositive(qx - qy, c);
  }

  lemma InverseAlgebra(c: real, q: real, e: real)
    requires c > 0.0 && q > 0.0 && q * (c + e) == c
    ensures c * q > 0.0 && c * (c / (c * q) - 1.0) == e
  {
    ProductSigns(c, q);
    assert c / (c * q) * (c * q) == c;
    assert (c / (c * q) * c - (c + e)) * q == 0.0;
    assert c / (c * q) * c == c + e;
  }

  lemma EnergyOfGap(c: real, gap: real)
    requires c > 0.0 && 0.0 < gap < c
    ensures c * (c / gap - 1.0) > 0.0 && gap * (c + c * (c / gap - 1.0)) == c * c
  {
    var r := c / gap;
    assert r * gap == c;
    assert (r - 1.0) * gap == c - gap;
    CancelPositive(r - 1.0, gap);
    ProductSigns(c, r - 1.0);
    assert gap * (c + c * (r - 1.0)) == c * (r * gap);
  }

  lemma UnspentIsUnique(c: real, e: real, q: real, gap: real)
    requires c > 0.0 && e >= 0.0 && q * (c + e) == c && gap * (c + e) == c * c
    ensures c * q == gap
  {
    assert (c * q - gap) * (c + e) == 0.0;
  }

  /** A square times a stretch, regrouped. */
  lemma SlopeTimesStretch(q: real, d: real, h: real, e: real, m: real)
    requires m == d * (q * q) && e == h * d
    ensures m * h == q * (q * e)
  {
    assert m * h == q * q * (h * d);
  }

  lemma TangentAhead(
      ft: real, fx: real, qt: real, qx: real, d: real, t: real, x: real, h: real, e: real, m: real)
    requires m == d * (qt * qt) && h == x - t && e == h * d && 0.0 <= e && 0.0 <= qt && qx <= qt && fx - ft == Buys(qt, qx, e)
    ensures fx <= ft + m * (x - t)
  {
    SlopeTimesStretch(qt, d, h, e, m);
    ProductSigns(qt - qx, e);
    Distributes(qt, qx, e);
    ProductSigns(qt, qt * e - qx * e);
    assert qt * (qt * e - qx * e) == qt * (qt * e) - Buys(qt, qx, e);
  }

  lemma TangentBehind(
      ft: real, fx: real, qt: real, qx: real, d: real, t: real, x: real, h: real, e: real, m: real)
    requires m == d * (qt * qt) && h == t - x && e == h * d && 0.0 <= e && 0.0 <= qt <= qx && ft - fx == Buys(qx, qt, e)
    ensures fx <= ft + m * (x - t)
  {
    SlopeTimesStretch(qt, d, h, e, m);
    ProductSigns(qx - qt, e);
    Distributes(qx, qt, e);
    ProductSigns(qt, qx * e - qt * e);
    assert qt * (qx * e - qt * e) == Buys(qx, qt, e) - qt * (qt * e);
    assert m * (x - t) == -(m * h);
  }

  lemma SlopeAtMostOne(damping: real, q: real)
    requires 0.0 <= q <= 1.0 && 0.0 <= damping <= 1.0
    ensures damping * (q * q) <= 1.0
  {
    ProductSigns(q, 1.0 - q);
    var s := q * q;
    assert 0.0 <= s <= 1.0;
    ProductSigns(damping, 1.0 - s);
  }

  lemma ChordAlgebra(fl: real, fm: real, fh: real, m: real, l: real, r: real)
    requires 0.0 <= l && 0.0 <= r && fl <= fm - m * l && fh <= fm + m * r
    ensures r * fl + l * fh <= (l + r) * fm
  {
    ProductSigns(r, fm - m * l - fl);
    ProductSigns(l, fm + m * r - fh);
    assert r * (fm - m * l - fl) + l * (fm + m * r - fh) == (l + r) * fm - (r * fl + l * fh);
  }

  /** Between two distances a curve under its tangents is at or above the chord. */
  lemma AboveTheChord(f: real -> real, m: real -> real, lo: real, mid: real, hi: real, l: real, r: real)
    requires 0.0 <= l && 0.0 <= r && mid == lo + l && hi == mid + r
    requires TangentAt(f, m, mid, lo) && TangentAt(f, m, mid, hi)
    ensures r * f(lo) + l * f(hi) <= (l + r) * f(mid)
  {
    assert lo - mid == -l && hi - mid == r;
    assert m(mid) * (lo - mid) == -(m(mid) * l);
    ChordAlgebra(f(lo), f(mid), f(hi), m(mid), l, r);
  }

  lemma GainFromTangents(f: real -> real, m: real -> real, a: real, b: real, h: real)
    requires a <= b && 0.0 < h
    requires TangentAt(f, m, a + h, a) && TangentAt(f, m, a + h, b + h)
    requires TangentAt(f, m, b, a) && TangentAt(f, m, b, b + h)
    ensures f(b + h) - f(b) <= f(a + h) - f(a)
  {
    var d := b - a;
    AboveTheChord(f, m, a, a + h, b + h, h, d);
    AboveTheChord(f, m, a, b, b + h, d, h);
    SumOfChords(d, h, f(a), f(a + h), f(b), f(b + h));
  }

  lemma SumOfChords(d: real, h: real, fa: real, fah: real, fb: real, fbh: real)
    requires 0.0 <= d && 0.0 < h
    requires d * fa + h * fbh <= (d + h) * fah
    requires h * fa + d * fbh <= (d + h) * fb
    ensures fbh - fb <= fah - fa
  {
    var gap := (fah - fa) - (fbh - fb);
    assert gap * (d + h) == ((d + h) * fah - (d * fa + h * fbh)) + ((d + h) * fb - (h * fa + d * fbh));
    CancelPositive(gap, d + h);
  }

  lemma StrictProducts(qa: real, qah: real, qb: real, qbh: real, e: real)
    requires 0.0 < qb < qa && 0.0 < qbh < qah && e > 0.0
    ensures Buys(qb, qbh, e) < Buys(qa, qah, e)
  {
    LargerProduct(qb, qbh, qa, qah);
    CancelFactor(qb * qbh, qa * qah, e);
  }

  lemma ShortStretch(c: real, damping: real, h: real)
    requires c > 0.0 && damping > 1.0 && h == c * (damping - 1.0) / (2.0 * damping)
    ensures h > 0.0 && 2.0 * (h * damping) == c * (damping - 1.0)
  {
    assert h * (2.0 * damping) == c * (damping - 1.0);
    ProductSigns(c, damping - 1.0);
    CancelPositive(h, 2.0 * damping);
  }

  lemma SpentAtTheSeam(c: real, damping: real, h: real, q: real)
    requires c > 0.0 && damping > 1.0 && h > 0.0 && 2.0 * (h * damping) == c * (damping - 1.0)
    requires q > 0.0 && q * (c + h * damping) == c
    ensures c - c * q > h
  {
    // q (damping + 1) == 2, so q damping > 1
    assert c + h * damping == c * (damping + 1.0) / 2.0;
    assert (q * (damping + 1.0) - 2.0) * c == 0.0;
    assert q * damping + q == 2.0;
    assert q < 1.0 by {
      ProductSigns(h, damping);
      if q >= 1.0 {
        ProductSigns(q - 1.0, c + h * damping);
      }
    }
    ProductSigns(q * damping - 1.0, h);
    assert q * (h * damping) == q * damping * h;
    assert c - c * q == q * (h * damping);
  }

  lemma ReciprocalOfResistance(c: real, e: real, p: real)
    requires c > 0.0 && e >= 0.0 && p == e / c + 1.0
    ensures e / c >= 0.0 && p >= 1.0 && 0.0 < 1.0 / p <= 1.0 && 1.0 / p * (c + e) == c
  {
    QuotientSigns(e, c);
    Distributes(e / c, -1.0, c);
    assert p * c == e + c;
    QuotientSigns(1.0, p);
    QuotientsCompare(1.0, p, p);
    QuotientIs(p, p, 1.0);
    assert 1.0 / p * (p * c) == 1.0 / p * p * c;
  }

  lemma DampedValue(c: real, max: real, slack: real, e: real, f: real, q: real)
    requires c > 0.0 && e >= 0.0 && max == c * 2.0 && slack == c
    requires e / slack + 1.0 != 0.0 && f == c + slack * (1.0 - 1.0 / (e / slack + 1.0)) && q == (max - f) / c
    ensures Damped(c, e, f, q)
  {
    var p := e / slack + 1.0;
    ReciprocalOfResistance(c, e, p);
    ShareOfSlack(c, max, slack, 1.0 / p, f);
  }

  lemma ShareOfSlack(c: real, max: real, slack: real, q: real, f: real)
    requires c > 0.0 && max == c * 2.0 && slack == c && f == c + slack * (1.0 - q)
    ensures (max - f) / c == q && f == c * 2.0 - c * q
  {
    assert max - f == q * c;
    QuotientIs(max - f, c, q);
  }
}
