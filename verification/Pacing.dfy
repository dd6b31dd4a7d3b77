/** How long each set of the credits takes: the pace is solved from the first measured set, and every
    later cycle follows from its own height. Heights are whole pixels, times are seconds. */
module Pacing {
  import opened Reals
  import opened Wrappers

  const FIRST_SET_SECONDS: real := 35.0
  const ROLL_TRAVEL_SHARE: real := 0.91
  const READ_SLOWDOWN: real := 1.6
  const PROSE_PACE: real := 1.7

  function Min(a: int, b: int): int { if a < b then a else b }

  /** The reading factor of a set `h` tall on a `vh` screen. */
  function ReadSlowdown(h: int, vh: int): real
    requires h > 0 && vh > 0
  {
    1.0 + (READ_SLOWDOWN - 1.0) * (Min(h, vh) as real / vh as real)
  }

  function Pace(pass: nat): real { if pass == 0 then 1.0 else PROSE_PACE }

  /** Distance weighted by the reading factor. */
  function Reading(h: int, vh: int): real
    requires h > 0 && vh > 0
  {
    (h + vh) as real * ReadSlowdown(h, vh)
  }

  /** The speed at which this set, shown first, lasts `FIRST_SET_SECONDS`. */
  function SolvedSpeed(h: int, vh: int): real
    requires h > 0 && vh > 0
  {
    Reading(h, vh) / FIRST_SET_SECONDS / ROLL_TRAVEL_SHARE
  }

  function Cycle(speed: real, h: int, vh: int, pass: nat): real
    requires speed > 0.0 && h > 0 && vh > 0
  {
    Reading(h, vh) / speed / ROLL_TRAVEL_SHARE * Pace(pass)
  }

  /** Pixels per second on screen: the whole distance over the share of the cycle spent travelling. */
  function TravelSpeed(speed: real, h: int, vh: int, pass: nat): real
    requires speed > 0.0 && h > 0 && vh > 0
  {
    CycleIsPositive(speed, h, vh, pass);
    (h + vh) as real / (Cycle(speed, h, vh, pass) * ROLL_TRAVEL_SHARE)
  }

  // ---------------------------------------------------------------- the measuring machine

  /** Session state, and the duration last written to the element now on screen (none on a fresh one). */
  datatype Clock = Clock(speed: real, lastMeasure: Option<(int, int)>, cycle: Option<real>)

  const UNMEASURED: Clock := Clock(0.0, None, None)

  datatype Event = Mount | Measure(h: int, vh: int, pass: nat)

  function Step(c: Clock, e: Event): Clock
    requires c.speed >= 0.0
  {
    match e
    case Mount => c.(cycle := None)
    case Measure(h, vh, pass) =>
      if h <= 0 || vh <= 0 || c.lastMeasure == Some((h, vh)) then c
      else
        SolvedSpeedIsPositive(h, vh);
        var speed := if c.speed == 0.0 then SolvedSpeed(h, vh) else c.speed;
        Clock(speed, Some((h, vh)), Some(Cycle(speed, h, vh, pass)))
  }

  class RollClock {
    var rollSpeedPxPerS: real
    var lastMeasure: Option<(int, int)>
    var cycle: Option<real>

    ghost function Contents(): Clock
      reads this
    {
      Clock(rollSpeedPxPerS, lastMeasure, cycle)
    }

    constructor ()
      ensures Contents() == UNMEASURED
    {
      rollSpeedPxPerS, lastMeasure, cycle := 0.0, None, None;
    }

    method SyncRollDistance(h: int, vh: int, rollPass: nat)
      requires rollSpeedPxPerS >= 0.0
      modifies this
      ensures Contents() == Step(old(Contents()), Measure(h, vh, rollPass))
    {
      if h <= 0 || vh <= 0 {
        return;
      }
      if lastMeasure == Some((h, vh)) {
        return;
      }
      lastMeasure := Some((h, vh));
      SolvedSpeedIsPositive(h, vh);
      if rollSpeedPxPerS == 0.0 {
        rollSpeedPxPerS := Reading(h, vh) / FIRST_SET_SECONDS / ROLL_TRAVEL_SHARE;
      }
      var pace := if rollPass == 0 then 1.0 else PROSE_PACE;
      cycle := Some(Reading(h, vh) / rollSpeedPxPerS / ROLL_TRAVEL_SHARE * pace);
    }
  }

  // ---------------------------------------------------------------- algebra

  lemma SlowdownBounds(h: int, vh: int)
    requires h > 0 && vh > 0
    ensures 1.0 < ReadSlowdown(h, vh) <= READ_SLOWDOWN
    ensures h >= vh ==> ReadSlowdown(h, vh) == READ_SLOWDOWN
  {
    QuotientSigns(Min(h, vh) as real, vh as real);
    QuotientsCompare(Min(h, vh) as real, vh as real, vh as real);
    QuotientIs(vh as real, vh as real, 1.0);
  }

  lemma SlowdownRises(h: int, k: int, vh: int)
    requires 0 < h <= k && vh > 0
    ensures ReadSlowdown(h, vh) <= ReadSlowdown(k, vh)
  {
    var a, b := Min(h, vh) as real, Min(k, vh) as real;
    QuotientsCompare(a, b, vh as real);
  }

  /** The extra reading time grows in proportion to the height, from none to six tenths at a screenful. */
  lemma SlowdownIsProportional(h: int, vh: int)
    requires h > 0 && vh > 0
    ensures h <= vh ==> (ReadSlowdown(h, vh) - 1.0) * vh as real == 0.6 * h as real
    ensures h >= vh ==> ReadSlowdown(h, vh) == 1.6
  {
    SlowdownBounds(h, vh);
    var q := Min(h, vh) as real / vh as real;
    QuotientSigns(Min(h, vh) as real, vh as real);
    assert 0.6 * q * vh as real == 0.6 * (q * vh as real);
  }

  lemma ReadingIsPositive(h: int, vh: int)
    requires h > 0 && vh > 0
    ensures Reading(h, vh) > 0.0
  {
    SlowdownBounds(h, vh);
    ProductSigns((h + vh) as real, ReadSlowdown(h, vh));
  }

  lemma SolvedSpeedIsPositive(h: int, vh: int)
    requires h > 0 && vh > 0
    ensures SolvedSpeed(h, vh) > 0.0
  {
    ReadingIsPositive(h, vh);
  }

  lemma CycleIsPositive(speed: real, h: int, vh: int, pass: nat)
    requires speed > 0.0 && h > 0 && vh > 0
    ensures Cycle(speed, h, vh, pass) > 0.0
  {
    ReadingIsPositive(h, vh);
    QuotientSigns(Reading(h, vh), speed);
  }

  // ---------------------------------------------------------------- main results

  /** The set the pace was solved from lasts exactly 35 seconds, on any screen, whenever it is shown first. */
  lemma FirstSetLasts35Seconds(h: int, vh: int)
    requires h > 0 && vh > 0
    ensures SolvedSpeed(h, vh) > 0.0 && Cycle(SolvedSpeed(h, vh), h, vh, 0) == FIRST_SET_SECONDS
  {
    SolvedSpeedIsPositive(h, vh);
    ReadingIsPositive(h, vh);
    SolveAlgebra(Reading(h, vh));
  }

  lemma SolveAlgebra(r: real)
    requires r > 0.0
    ensures r / (r / FIRST_SET_SECONDS / ROLL_TRAVEL_SHARE) / ROLL_TRAVEL_SHARE * 1.0 == FIRST_SET_SECONDS
  {
    var s := r / 35.0 / 0.91;
    assert s * 31.85 == r;
    QuotientIs(r, s, 31.85);
  }

  /** A taller set always takes longer, on the same screen and at the same point of the sequence. */
  lemma CycleRisesWithHeight(speed: real, h: int, k: int, vh: int, pass: nat)
    requires speed > 0.0 && 0 < h < k && vh > 0
    ensures Cycle(speed, h, vh, pass) < Cycle(speed, k, vh, pass)
  {
    ReadingRises(h, k, vh);
    ReadingIsPositive(h, vh);
    CycleAlgebra(Reading(h, vh), Reading(k, vh), speed, Pace(pass));
  }

  lemma ReadingRises(h: int, k: int, vh: int)
    requires 0 < h < k && vh > 0
    ensures Reading(h, vh) < Reading(k, vh)
  {
    SlowdownBounds(h, vh);
    SlowdownRises(h, k, vh);
    LargerProduct((h + vh) as real, ReadSlowdown(h, vh), (k + vh) as real, ReadSlowdown(k, vh));
  }

  lemma CycleAlgebra(a: real, b: real, s: real, p: real)
    requires 0.0 < a < b && s > 0.0 && p > 0.0
    ensures a / s / ROLL_TRAVEL_SHARE * p < b / s / ROLL_TRAVEL_SHARE * p
  {
    QuotientsCompare(a, b, s);
    QuotientsCompare(a / s, b / s, ROLL_TRAVEL_SHARE);
    CancelFactor(a / s / ROLL_TRAVEL_SHARE, b / s / ROLL_TRAVEL_SHARE, p);
  }

  /** On-screen speed is the latched speed over the reading factor and the pace. */
  lemma TravelSpeedEquation(speed: real, h: int, vh: int, pass: nat)
    requires speed > 0.0 && h > 0 && vh > 0
    ensures TravelSpeed(speed, h, vh, pass) > 0.0
    ensures TravelSpeed(speed, h, vh, pass) * (ReadSlowdown(h, vh) * Pace(pass)) == speed
  {
    SlowdownBounds(h, vh);
    ReadingIsPositive(h, vh);
    TravelSpeedUnfolds(speed, (h + vh) as real, ReadSlowdown(h, vh), Reading(h, vh), Pace(pass), TravelSpeed(speed, h, vh, pass));
  }

  lemma TravelSpeedUnfolds(s: real, d: real, f: real, r: real, p: real, v: real)
    requires d > 0.0 && f > 0.0 && s > 0.0 && p > 0.0 && r == d * f
    requires r / s / ROLL_TRAVEL_SHARE * p * ROLL_TRAVEL_SHARE != 0.0
    requires v == d / (r / s / ROLL_TRAVEL_SHARE * p * ROLL_TRAVEL_SHARE)
    ensures v > 0.0 && v * (f * p) == s
  {
    TravelAlgebra(d, f, r, s, p);
  }

  lemma TravelAlgebra(d: real, f: real, r: real, s: real, p: real)
    requires d > 0.0 && f > 0.0 && s > 0.0 && p > 0.0 && r == d * f
    ensures r > 0.0 && r / s / ROLL_TRAVEL_SHARE * p > 0.0
    ensures var v := d / (r / s / ROLL_TRAVEL_SHARE * p * ROLL_TRAVEL_SHARE); v > 0.0 && v * (f * p) == s
  {
    ProductSigns(d, f);
    QuotientSigns(r, s);
    var x := r / s;
    var y := x / ROLL_TRAVEL_SHARE;
    QuotientSigns(x, ROLL_TRAVEL_SHARE);
    ProductSigns(y, p);
    ProductSigns(x, p);
    ShareCancels(x, y, p);
    QuotientSigns(d, x * p);
    TravelCancels(d, f, r, s, p, x, d / (x * p));
  }

  lemma ShareCancels(x: real, y: real, p: real)
    requires y * ROLL_TRAVEL_SHARE == x
    ensures y * p * ROLL_TRAVEL_SHARE == x * p
  {
  }

  lemma TravelCancels(d: real, f: real, r: real, s: real, p: real, x: real, v: real)
    requires d > 0.0 && r == d * f && x * s == r && v * (x * p) == d
    ensures v * (f * p) == s
  {
    assert v * (f * p) * d == v * p * (d * f);
    assert v * p * (x * s) == v * (x * p) * s;
    CancelFactor(v * (f * p), s, d);
  }

  /** Reading slows down with height, never by more than a factor of 1.6, and not at all past a screenful. */
  lemma TravelSpeedFallsWithHeight(speed: real, h: int, k: int, vh: int, pass: nat)
    requires speed > 0.0 && 0 < h <= k && vh > 0
    ensures TravelSpeed(speed, k, vh, pass) <= TravelSpeed(speed, h, vh, pass) <= READ_SLOWDOWN * TravelSpeed(speed, k, vh, pass)
    ensures vh <= h ==> TravelSpeed(speed, k, vh, pass) == TravelSpeed(speed, h, vh, pass)
  {
    TravelSpeedEquation(speed, h, vh, pass);
    TravelSpeedEquation(speed, k, vh, pass);
    SlowdownBounds(h, vh);
    SlowdownBounds(k, vh);
    SlowdownRises(h, k, vh);
    InverseProportion(TravelSpeed(speed, h, vh, pass), ReadSlowdown(h, vh),
                      TravelSpeed(speed, k, vh, pass), ReadSlowdown(k, vh), Pace(pass), speed);
  }

  lemma InverseProportion(v: real, f: real, w: real, g: real, p: real, s: real)
    requires p > 0.0 && s > 0.0 && w > 0.0 && 1.0 <= f <= g <= READ_SLOWDOWN && v * (f * p) == s && w * (g * p) == s
    ensures w <= v <= READ_SLOWDOWN * w && (f == g ==> v == w)
  {
    assert v * (f * p) == v * f * p && w * (g * p) == w * g * p;
    CancelFactor(v * f, w * g, p);
    Proportion(v, f, w, g);
  }

  lemma Proportion(v: real, f: real, w: real, g: real)
    requires w > 0.0 && 1.0 <= f <= g <= READ_SLOWDOWN && v * f == w * g
    ensures w <= v <= READ_SLOWDOWN * w && (f == g ==> v == w)
  {
    var gap, most := v - w, READ_SLOWDOWN * w - v;
    // v - w and 1.6 w - v, times f, are both products of nonnegative factors
    assert gap * f == w * (g - f);
    assert most * f == w * (READ_SLOWDOWN * f - g);
    ProductSigns(w, g - f);
    ProductSigns(w, READ_SLOWDOWN * f - g);
    CancelPositive(gap, f);
    CancelPositive(most, f);
  }

  /** When the first set filled the screen, screen-tall prose runs at exactly 1/1.7 of its speed. */
  lemma TallProseRunsAtTheProsePace(h1: int, h: int, vh: int, pass: nat)
    requires vh > 0 && h1 >= vh && h >= vh && pass > 0
    ensures var speed := SolvedSpeed(h1, vh);
            speed > 0.0 && TravelSpeed(speed, h, vh, pass) * 1.7 == TravelSpeed(speed, h1, vh, 0)
  {
    SolvedSpeedIsPositive(h1, vh);
    var speed := SolvedSpeed(h1, vh);
    TravelSpeedEquation(speed, h, vh, pass);
    TravelSpeedEquation(speed, h1, vh, 0);
    SlowdownBounds(h1, vh);
    SlowdownBounds(h, vh);
    CancelFactor(TravelSpeed(speed, h, vh, pass) * PROSE_PACE, TravelSpeed(speed, h1, vh, 0), READ_SLOWDOWN);
  }

  predicate Measures(e: Event) { e.Measure? && e.h > 0 && e.vh > 0 }

  lemma StepKeepsSpeed(c: Clock, e: Event)
    requires c.speed >= 0.0
    ensures Step(c, e).speed >= 0.0
    ensures c.speed > 0.0 ==> Step(c, e).speed == c.speed
    ensures c.speed == 0.0 && c.lastMeasure.None? && Measures(e) ==> Step(c, e).speed == SolvedSpeed(e.h, e.vh) > 0.0
    ensures !Measures(e) ==> Step(c, e).speed == c.speed && Step(c, e).lastMeasure == c.lastMeasure
  {
    if Measures(e) {
      SolvedSpeedIsPositive(e.h, e.vh);
    }
  }

  /** The clock after a session's mounts and measurements. */
  ghost function RunClock(events: seq<Event>): (c: Clock)
    ensures c.speed >= 0.0
  {
    if events == [] then UNMEASURED
    else
      StepKeepsSpeed(RunClock(events[..|events| - 1]), events[|events| - 1]);
      Step(RunClock(events[..|events| - 1]), events[|events| - 1])
  }

  /** The speed is latched by the session's first real measurement and never changes again. */
  lemma {:induction false} SpeedIsLatched(events: seq<Event>, first: nat)
    requires first < |events| && Measures(events[first])
    requires forall i | 0 <= i < first :: !Measures(events[i])
    ensures RunClock(events).speed == SolvedSpeed(events[first].h, events[first].vh) > 0.0
  {
    var front, last := events[..|events| - 1], events[|events| - 1];
    if first == |front| {
      NothingMeasuredYet(front);
    } else {
      SpeedIsLatched(front, first);
    }
    StepKeepsSpeed(RunClock(front), last);
  }

  lemma {:induction false} NothingMeasuredYet(events: seq<Event>)
    requires forall i | 0 <= i < |events| :: !Measures(events[i])
    ensures RunClock(events).speed == 0.0 && RunClock(events).lastMeasure == None
  {
    if events != [] {
      NothingMeasuredYet(events[..|events| - 1]);
      StepKeepsSpeed(RunClock(events[..|events| - 1]), events[|events| - 1]);
    }
  }

  /** In any session, every opening block measured at the size of the very first one lasts 35 seconds. */
  lemma EveryEqualBlockLasts35Seconds(events: seq<Event>, first: nat)
    requires first < |events| && Measures(events[first])
    requires forall i | 0 <= i < first :: !Measures(events[i])
    requires RunClock(events).lastMeasure != Some((events[first].h, events[first].vh))
    ensures Step(RunClock(events), Measure(events[first].h, events[first].vh, 0)).cycle == Some(FIRST_SET_SECONDS)
  {
    SpeedIsLatched(events, first);
    FirstSetLasts35Seconds(events[first].h, events[first].vh);
  }

  // ---------------------------------------------------------------- repeated keys

  /** The key of the session's last real measurement. */
  ghost function LastKey(events: seq<Event>): Option<(int, int)> {
    if events == [] then None
    else
      var e := events[|events| - 1];
      if Measures(e) then Some((e.h, e.vh)) else LastKey(events[..|events| - 1])
  }

  /** Event `i` measured this size under a new key, and every real measurement since had the same key. */
  ghost predicate LastNew(events: seq<Event>, i: nat, h: int, vh: int) {
    && i < |events| && Measures(events[i]) && events[i].h == h && events[i].vh == vh
    && LastKey(events[..i]) != Some((h, vh))
    && forall j | i < j < |events| && Measures(events[j]) :: events[j].h == h && events[j].vh == vh
  }

  ghost predicate MountedSince(events: seq<Event>, i: nat) {
    exists j :: i < j < |events| && events[j].Mount?
  }

  lemma {:induction false} LastKeyIsRemembered(events: seq<Event>)
    ensures RunClock(events).lastMeasure == LastKey(events)
  {
    if events != [] {
      LastKeyIsRemembered(events[..|events| - 1]);
      StepKeepsSpeed(RunClock(events[..|events| - 1]), events[|events| - 1]);
    }
  }

  /** A key that was measured last was new at some point, and has been the only one since. */
  lemma {:induction false} LastNewExists(events: seq<Event>, h: int, vh: int) returns (i: nat)
    requires LastKey(events) == Some((h, vh))
    ensures LastNew(events, i, h, vh)
  {
    var front, last := events[..|events| - 1], events[|events| - 1];
    if Measures(last) && LastKey(front) != Some((h, vh)) {
      i := |front|;
    } else {
      i := LastNewExists(front, h, vh);
      assert front[..i] == events[..i];
      assert forall j | i < j < |front| :: front[j] == events[j];
    }
  }

  lemma LastNewOfFront(events: seq<Event>, i: nat, h: int, vh: int)
    requires LastNew(events, i, h, vh) && i < |events| - 1
    ensures LastNew(events[..|events| - 1], i, h, vh)
  {
    assert events[..|events| - 1][..i] == events[..i];
  }

  /** What the element carries since then: the cycle of that measurement, or nothing once it was replaced. */
  ghost predicate Carries(c: Clock, h: int, vh: int, pass: nat, replaced: bool)
    requires h > 0 && vh > 0
  {
    && c.speed > 0.0 && c.lastMeasure == Some((h, vh))
    && c.cycle == if replaced then None else Some(Cycle(c.speed, h, vh, pass))
  }

  lemma CarriesOn(c: Clock, e: Event, h: int, vh: int, pass: nat, replaced: bool)
    requires h > 0 && vh > 0 && Carries(c, h, vh, pass, replaced) && (Measures(e) ==> e.h == h && e.vh == vh)
    ensures Carries(Step(c, e), h, vh, pass, replaced || e.Mount?)
  {
  }

  lemma NewKeyCarries(c: Clock, h: int, vh: int, pass: nat)
    requires h > 0 && vh > 0 && c.speed >= 0.0 && c.lastMeasure != Some((h, vh))
    ensures Carries(Step(c, Measure(h, vh, pass)), h, vh, pass, false)
  {
    SolvedSpeedIsPositive(h, vh);
  }

  lemma MountedSinceSnoc(events: seq<Event>, i: nat)
    requires i < |events| - 1
    ensures MountedSince(events, i) <==> MountedSince(events[..|events| - 1], i) || events[|events| - 1].Mount?
  {
    var front := events[..|events| - 1];
    if MountedSince(front, i) {
      var j :| i < j < |front| && front[j].Mount?;
      assert events[j].Mount?;
    }
    if MountedSince(events, i) && !events[|front|].Mount? {
      var j :| i < j < |events| && events[j].Mount?;
      assert front[j].Mount?;
    }
  }

  lemma {:induction false} CarriedSinceLastNew(events: seq<Event>, i: nat, h: int, vh: int)
    requires h > 0 && vh > 0 && LastNew(events, i, h, vh)
    ensures Carries(RunClock(events), h, vh, events[i].pass, MountedSince(events, i))
  {
    var front, last := events[..|events| - 1], events[|events| - 1];
    if i == |front| {
      LastKeyIsRemembered(front);
      NewKeyCarries(RunClock(front), h, vh, last.pass);
    } else {
      LastNewOfFront(events, i, h, vh);
      CarriedSinceLastNew(front, i, h, vh);
      MountedSinceSnoc(events, i);
      CarriesOn(RunClock(front), last, h, vh, events[i].pass, MountedSince(front, i));
    }
  }

  /** One size has two cycles: the block's and the prose's. */
  lemma CyclesDifferByPace(speed: real, h: int, vh: int, p: nat, q: nat)
    requires speed > 0.0 && h > 0 && vh > 0
    ensures Cycle(speed, h, vh, p) == Cycle(speed, h, vh, q) <==> (p == 0 <==> q == 0)
  {
    ReadingIsPositive(h, vh);
    QuotientSigns(Reading(h, vh), speed);
    var x := Reading(h, vh) / speed / ROLL_TRAVEL_SHARE;
    QuotientSigns(Reading(h, vh) / speed, ROLL_TRAVEL_SHARE);
    assert x * 1.0 != x * PROSE_PACE;
  }

  ghost predicate TakesEffect(c: Clock, h: int, vh: int, pass: nat)
    requires h > 0 && vh > 0 && c.speed >= 0.0
  {
    var after := Step(c, Measure(h, vh, pass));
    after.speed > 0.0 && after.cycle == Some(Cycle(after.speed, h, vh, pass))
  }

  /** Exactly when a repeated key does no harm: the element is still the one that was measured under it, and
      it showed a set of the same kind, block or prose. */
  lemma RepeatTakesEffectIff(events: seq<Event>, i: nat, h: int, vh: int, pass: nat)
    requires h > 0 && vh > 0 && LastNew(events, i, h, vh)
    ensures TakesEffect(RunClock(events), h, vh, pass)
       <==> !MountedSince(events, i) && (events[i].pass == 0 <==> pass == 0)
  {
    CarriedSinceLastNew(events, i, h, vh);
    CyclesDifferByPace(RunClock(events).speed, h, vh, events[i].pass, pass);
  }

  /** The last new key is this one, on the element still on screen, for a set of the same kind. */
  ghost predicate RepeatIsHarmless(events: seq<Event>, h: int, vh: int, pass: nat) {
    exists i: nat :: LastNew(events, i, h, vh) && !MountedSince(events, i) && (events[i].pass == 0 <==> pass == 0)
  }

  /** In any session a measurement puts the set's own cycle on the element exactly when its key differs from
      the last one measured, or repeating that key is harmless. */
  lemma MeasurementTakesEffectIff(events: seq<Event>, h: int, vh: int, pass: nat)
    requires h > 0 && vh > 0
    ensures TakesEffect(RunClock(events), h, vh, pass)
       <==> LastKey(events) != Some((h, vh)) || RepeatIsHarmless(events, h, vh, pass)
  {
    if LastKey(events) != Some((h, vh)) {
      LastKeyIsRemembered(events);
      NewKeyCarries(RunClock(events), h, vh, pass);
    } else if RepeatIsHarmless(events, h, vh, pass) {
      var k: nat :| LastNew(events, k, h, vh) && !MountedSince(events, k) && (events[k].pass == 0 <==> pass == 0);
      RepeatTakesEffectIff(events, k, h, vh, pass);
    } else {
      var i := LastNewExists(events, h, vh);
      RepeatTakesEffectIff(events, i, h, vh, pass);
    }
  }

  /** Where that condition fails: prose as tall as the block keeps the block's 35 seconds, and a credits
      window closed on the block and opened again gets no duration at all. */
  lemma EqualKeysAreNotMeasured(h: int, vh: int)
    requires h > 0 && vh > 0
    ensures RunClock([Mount, Measure(h, vh, 0), Measure(h, vh, 1)]).cycle == Some(FIRST_SET_SECONDS)
    ensures RunClock([Mount, Measure(h, vh, 0), Mount, Measure(h, vh, 0)]).cycle == None
  {
    var block := Measure(h, vh, 0);
    FirstSetLasts35Seconds(h, vh);
    assert [Mount, block, Measure(h, vh, 1)][..2] == [Mount, block];
    assert [Mount, block, Mount, block][..3] == [Mount, block, Mount];
    assert [Mount, block, Mount][..2] == [Mount, block];
    assert [Mount, block][..1] == [Mount];
    assert [Mount][..0] == [];
    assert RunClock([Mount]) == UNMEASURED;
    assert RunClock([Mount, block]) == Clock(SolvedSpeed(h, vh), Some((h, vh)), Some(FIRST_SET_SECONDS));
  }
}
