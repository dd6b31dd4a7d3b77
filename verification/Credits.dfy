/** The credits: a shuffle bag that deals prose sets without repetition, and the stage machine that
    walks from the opening block to the finale across any number of openings. */
module Credits {
  import opened Wrappers

  // ---------------------------------------------------------------- the deck

  /** Each of the numbers below `n` exactly once, in some order. */
  ghost predicate IsDeal(s: seq<nat>, n: nat) {
    |s| == n && (forall i | 0 <= i < n :: s[i] < n) && Distinct(s)
  }

  ghost predicate Distinct(s: seq<nat>) {
    forall i, j | 0 <= i < j < |s| :: s[i] != s[j]
  }

  /** `Math.floor(random() * n)`. */
  method PickBelow(r: real, n: nat) returns (j: nat)
    requires 0.0 <= r < 1.0 && n > 0
    ensures j < n && j as real <= r * n as real < j as real + 1.0
  {
    assert r * n as real < n as real by {
      assert (1.0 - r) * n as real > 0.0;
    }
    j := (r * n as real).Floor;
  }

  /** Fisher-Yates, in place; `random(k)` is the k-th number drawn from the injected source. */
  method ShuffledIndices(count: nat, random: nat -> real) returns (order: array<nat>)
    requires forall k :: 0.0 <= random(k) < 1.0
    ensures fresh(order) && IsDeal(order[..], count)
  {
    order := new nat[count](i => i);
    var i, calls := count - 1, 0;
    while i > 0
      invariant i < count
      invariant IsDeal(order[..], count)
    {
      var j := PickBelow(random(calls), i + 1);
      SwapKeepsDeal(order[..], i, j, count);
      order[i], order[j] := order[j], order[i];
      i, calls := i - 1, calls + 1;
    }
  }

  lemma SwapKeepsDeal(s: seq<nat>, i: nat, j: nat, n: nat)
    requires IsDeal(s, n) && i < n && j < n
    ensures IsDeal(s[i := s[j]][j := s[i]], n)
  {
  }

  /** The cards still to be dealt, dealt from the end, and the last one dealt. */
  datatype Deck = Deck(bag: seq<nat>, last: Option<nat>)

  /** A new bag never opens on the card the previous one closed with, from two cards up. */
  function Refilled(shuffled: seq<nat>, last: Option<nat>): (bag: seq<nat>)
    ensures |bag| == |shuffled|
  {
    var n := |shuffled|;
    if n > 1 && last == Some(shuffled[n - 1])
    then shuffled[..n - 2] + [shuffled[n - 1], shuffled[n - 2]]
    else shuffled
  }

  /** One draw; `shuffled` is what the shuffle yields if the bag has to be refilled. */
  function Draw(d: Deck, shuffled: seq<nat>): (Deck, Option<nat>) {
    var bag := if d.bag == [] then Refilled(shuffled, d.last) else d.bag;
    if bag == [] then (d, None)
    else (Deck(bag[..|bag| - 1], Some(bag[|bag| - 1])), Some(bag[|bag| - 1]))
  }

  predicate Exhausted(d: Deck, n: nat) { n > 0 && d.last.Some? && d.bag == [] }

  class ProseDeck {
    const count: nat
    var bag: seq<nat>
    var last: Option<nat>

    ghost function Contents(): Deck
      reads this
    {
      Deck(bag, last)
    }

    constructor (count: nat)
      ensures this.count == count && Contents() == Deck([], None)
    {
      this.count := count;
      bag, last := [], None;
    }

    method Refill(random: nat -> real) returns (ghost shuffled: seq<nat>)
      requires forall k :: 0.0 <= random(k) < 1.0
      modifies this`bag
      ensures IsDeal(shuffled, count) && bag == Refilled(shuffled, last)
    {
      var order := ShuffledIndices(count, random);
      shuffled := order[..];
      bag := order[..];
      if count > 1 && last == Some(bag[|bag| - 1]) {
        var other := |bag| - 2;
        bag := bag[..other] + [bag[|bag| - 1], bag[other]];
      }
    }

    method DrawSet(random: nat -> real) returns (card: Option<nat>, ghost shuffled: seq<nat>)
      requires forall k :: 0.0 <= random(k) < 1.0
      requires count == 0 ==> bag == []
      modifies this
      ensures IsDeal(shuffled, count) && (Contents(), card) == Draw(old(Contents()), shuffled)
    {
      shuffled := seq(count, i => i);
      if count == 0 {
        return None, shuffled;
      }
      if bag == [] {
        shuffled := Refill(random);
      }
      var index := bag[|bag| - 1];
      bag := bag[..|bag| - 1];
      last := Some(index);
      card := Some(index);
    }
  }

  // ---------------------------------------------------------------- the stage machine

  datatype Stage = Block | Prose | Manifesto | Finale

  datatype Modal = Modal(open: bool, stage: Stage, endingDue: bool, prose: Option<nat>, pass: nat, deck: Deck)

  const MOUNTED: Modal := Modal(false, Block, false, None, 0, Deck([], None))

  datatype Event = Open | Close | Turn(shuffled: seq<nat>)

  /** What the reader is shown, in order. */
  datatype Shown = Opened | Drew(card: Option<nat>) | ManifestoShown | FinaleShown

  /** One turn of the roll. */
  function Advance(m: Modal, n: nat, shuffled: seq<nat>): Modal {
    match m.stage
    case Finale => m
    case Manifesto => m.(stage := Finale, endingDue := false)
    case _ =>
      if m.endingDue then m.(stage := Manifesto)
      else
        var (deck, card) := Draw(m.deck, shuffled);
        m.(deck := deck, prose := card, stage := Prose, endingDue := Exhausted(deck, n))
  }

  /** An opening resets the stage, not the deck and not the pending ending; a turn of the roll only
      happens while the element is mounted. */
  function Step(m: Modal, n: nat, e: Event): Modal {
    match e
    case Open => if m.open then m else m.(open := true, stage := Block, prose := None, pass := 0)
    case Close => m.(open := false)
    case Turn(shuffled) => if !m.open then m else Advance(m.(pass := m.pass + 1), n, shuffled)
  }

  function Showing(m: Modal, n: nat, e: Event): seq<Shown> {
    match e
    case Open => if m.open then [] else [Opened]
    case Close => []
    case Turn(shuffled) =>
      if !m.open || m.stage == Finale then []
      else if m.stage == Manifesto then [FinaleShown]
      else if m.endingDue then [ManifestoShown]
      else [Drew(Draw(m.deck, shuffled).1)]
  }

  /** State and everything shown so far, after these events from mounting. */
  function Run(n: nat, events: seq<Event>): (Modal, seq<Shown>) {
    if events == [] then (MOUNTED, [])
    else
      var (m, log) := Run(n, events[..|events| - 1]);
      var e := events[|events| - 1];
      (Step(m, n, e), log + Showing(m, n, e))
  }

  ghost predicate FairEvents(n: nat, events: seq<Event>) {
    forall i | 0 <= i < |events| && events[i].Turn? :: IsDeal(events[i].shuffled, n)
  }

  class CreditsModal {
    const deck: ProseDeck
    var open: bool
    var stage: Stage
    var endingDue: bool
    var prose: Option<nat>
    var rollPass: nat

    ghost function Contents(): Modal
      reads this, deck
    {
      Modal(open, stage, endingDue, prose, rollPass, deck.Contents())
    }

    constructor (deck: ProseDeck)
      requires deck.Contents() == Deck([], None)
      ensures this.deck == deck && Contents() == MOUNTED
    {
      this.deck := deck;
      open, stage, endingDue, prose, rollPass := false, Block, false, None, 0;
    }

    method OpenModal()
      modifies this
      ensures Contents() == Step(old(Contents()), deck.count, Open)
    {
      if !open {
        open := true;
        stage := Block;
        prose := None;
        rollPass := 0;
      }
    }

    method TurnRoll(random: nat -> real) returns (ghost shuffled: seq<nat>)
      requires open && (forall k :: 0.0 <= random(k) < 1.0) && (deck.count == 0 ==> deck.bag == [])
      modifies this, deck
      ensures IsDeal(shuffled, deck.count) && Contents() == Step(old(Contents()), deck.count, Turn(shuffled))
    {
      rollPass := rollPass + 1;
      shuffled := seq(deck.count, i => i);
      if stage == Finale {
        return;
      }
      if stage == Manifesto {
        stage := Finale;
        endingDue := false;
        return;
      }
      if endingDue {
        stage := Manifesto;
        return;
      }
      prose, shuffled := deck.DrawSet(random);
      stage := Prose;
      if deck.count > 0 && deck.last.Some? && deck.bag == [] {
        endingDue := true;
      }
    }
  }

  // ---------------------------------------------------------------- reading the log

  function CardOf(s: Shown): seq<nat> {
    if s.Drew? && s.card.Some? then [s.card.value] else []
  }

  /** Cards drawn since the last finale. */
  ghost function DealtSinceFinale(log: seq<Shown>): seq<nat> {
    if log == [] || log[|log| - 1].FinaleShown? then []
    else DealtSinceFinale(log[..|log| - 1]) + CardOf(log[|log| - 1])
  }

  /** All cards ever drawn. */
  ghost function Draws(log: seq<Shown>): seq<nat> {
    if log == [] then [] else Draws(log[..|log| - 1]) + CardOf(log[|log| - 1])
  }

  lemma LogSnoc(log: seq<Shown>, s: Shown)
    ensures DealtSinceFinale(log + [s]) == if s.FinaleShown? then [] else DealtSinceFinale(log) + CardOf(s)
    ensures Draws(log + [s]) == Draws(log) + CardOf(s)
  {
    assert (log + [s])[..|log|] == log;
  }

  // ---------------------------------------------------------------- what is on screen

  ghost predicate Restarts(log: seq<Shown>) { log == [] || log[|log| - 1].Opened? }

  /** What the present opening has shown so far. */
  ghost function SinceOpening(log: seq<Shown>): seq<Shown> {
    if Restarts(log) then [] else SinceOpening(log[..|log| - 1]) + [log[|log| - 1]]
  }

  /** The card of the last draw in the present opening. */
  ghost function CardOnScreen(log: seq<Shown>): Option<nat> {
    if Restarts(log) then None
    else if log[|log| - 1].Drew? then log[|log| - 1].card
    else CardOnScreen(log[..|log| - 1])
  }

  ghost function StageOnScreen(log: seq<Shown>): Stage {
    if Restarts(log) then Block
    else
      match log[|log| - 1]
      case Drew(_) => Prose
      case ManifestoShown => Manifesto
      case _ => Finale
  }

  /** Stage and prose are what was shown last in this opening, and the pass counts what it has shown, or
      more once the finale holds. */
  ghost predicate OnScreen(m: Modal, log: seq<Shown>) {
    && m.stage == StageOnScreen(log) && m.prose == CardOnScreen(log)
    && m.pass >= |SinceOpening(log)| && (m.stage != Finale ==> m.pass == |SinceOpening(log)|)
  }

  lemma ScreenSnoc(log: seq<Shown>, s: Shown)
    ensures SinceOpening(log + [s]) == if s.Opened? then [] else SinceOpening(log) + [s]
    ensures CardOnScreen(log + [s]) == if s.Opened? then None else if s.Drew? then s.card else CardOnScreen(log)
  {
    assert (log + [s])[..|log|] == log;
  }

  lemma StepKeepsScreen(m: Modal, log: seq<Shown>, n: nat, e: Event)
    requires OnScreen(m, log)
    ensures OnScreen(Step(m, n, e), log + Showing(m, n, e))
  {
    var shown := Showing(m, n, e);
    if shown == [] {
      assert log + shown == log;
    } else {
      ScreenSnoc(log, shown[0]);
      assert log + shown == log + [shown[0]];
    }
  }

  /** In every session: the screen shows what the log says, and the block is up exactly in pass zero. */
  lemma {:induction false} ScreenFollowsLog(n: nat, events: seq<Event>)
    ensures OnScreen(Run(n, events).0, Run(n, events).1)
    ensures Run(n, events).0.pass == 0 <==> Run(n, events).0.stage == Block
  {
    if events != [] {
      var front := events[..|events| - 1];
      ScreenFollowsLog(n, front);
      StepKeepsScreen(Run(n, front).0, Run(n, front).1, n, events[|events| - 1]);
    }
    ShownMeansStaged(Run(n, events).1);
  }

  lemma ShownMeansStaged(log: seq<Shown>)
    ensures SinceOpening(log) == [] <==> StageOnScreen(log) == Block
  {
  }

  /** The last opening or closing decides whether the window is open. */
  ghost function LeftOpen(events: seq<Event>): bool {
    events != [] && match events[|events| - 1] case Open => true case Close => false case Turn(_) => LeftOpen(events[..|events| - 1])
  }

  lemma {:induction false} WindowFollowsEvents(n: nat, events: seq<Event>)
    ensures Run(n, events).0.open == LeftOpen(events)
  {
    if events != [] {
      WindowFollowsEvents(n, events[..|events| - 1]);
    }
  }

  // ---------------------------------------------------------------- the invariant

  /** How the deck relates to the cards drawn: `dealt` since the last finale, `drawn` ever. Either a bag
      is being dealt, and with the cards dealt it makes up one full deal, or no bag is open. */
  ghost predicate DeckConsistent(d: Deck, dealt: seq<nat>, drawn: seq<nat>, n: nat) {
    && (d.last == if drawn == [] then None else Some(drawn[|drawn| - 1]))
    && (if dealt == [] then d.bag == [] else IsDeal(dealt + d.bag, n) && drawn != [] && drawn[|drawn| - 1] == dealt[|dealt| - 1])
  }

  /** No card is ever followed by itself, unless it is the only one. */
  ghost predicate NoRepeats(drawn: seq<nat>, n: nat) {
    n > 1 ==> forall i | 0 < i < |drawn| :: drawn[i] != drawn[i - 1]
  }

  /** How the machine relates to what it has shown. */
  ghost predicate Consistent(m: Modal, log: seq<Shown>, n: nat) {
    var dealt := DealtSinceFinale(log);
    && DeckConsistent(m.deck, dealt, Draws(log), n)
    && (m.endingDue <==> dealt != [] && m.deck.bag == [])
    && (m.stage == Manifesto ==> m.endingDue)
    && (m.stage == Finale ==> dealt == [])
    && NoRepeats(Draws(log), n)
  }

  lemma RefilledIsDeal(shuffled: seq<nat>, last: Option<nat>, n: nat)
    requires IsDeal(shuffled, n) && n > 0
    ensures IsDeal(Refilled(shuffled, last), n)
    ensures n > 1 ==> last != Some(Refilled(shuffled, last)[n - 1])
  {
  }

  /** Dealing moves the end of the bag to the end of what was dealt. */
  lemma DealOne(dealt: seq<nat>, bag: seq<nat>, n: nat)
    requires IsDeal(dealt + bag, n) && bag != []
    ensures IsDeal(dealt + [bag[|bag| - 1]] + bag[..|bag| - 1], n)
    ensures dealt != [] && n > 1 ==> bag[|bag| - 1] != dealt[|dealt| - 1]
  {
    var all := dealt + bag;
    var moved := dealt + [bag[|bag| - 1]] + bag[..|bag| - 1];
    assert all[n - 1] == bag[|bag| - 1];
    assert dealt != [] ==> all[|dealt| - 1] == dealt[|dealt| - 1];
    assert forall i | 0 <= i < n :: moved[i] == all[if i < |dealt| then i else if i == |dealt| then n - 1 else i - 1];
  }

  /** A draw shows a card not yet shown in this deal, and keeps the deck consistent. */
  lemma DrawKeepsDeck(d: Deck, shuffled: seq<nat>, dealt: seq<nat>, drawn: seq<nat>, n: nat)
    requires n > 0 && IsDeal(shuffled, n) && DeckConsistent(d, dealt, drawn, n) && NoRepeats(drawn, n)
    requires dealt != [] ==> d.bag != []
    ensures Draw(d, shuffled).1.Some?
    ensures var (d', card) := Draw(d, shuffled);
            DeckConsistent(d', dealt + [card.value], drawn + [card.value], n) && NoRepeats(drawn + [card.value], n)
  {
    var bag := if d.bag == [] then Refilled(shuffled, d.last) else d.bag;
    RefilledIsDeal(shuffled, d.last, n);
    assert dealt == [] ==> dealt + bag == bag;
    DealOne(dealt, bag, n);
  }

  /** A turn that draws keeps the machine consistent with its log. */
  lemma DrawKeepsConsistent(m: Modal, log: seq<Shown>, n: nat, shuffled: seq<nat>)
    requires Consistent(m, log, n) && IsDeal(shuffled, n) && !m.endingDue && m.stage != Manifesto && m.stage != Finale
    ensures Consistent(Advance(m, n, shuffled), log + [Drew(Draw(m.deck, shuffled).1)], n)
  {
    var card := Draw(m.deck, shuffled).1;
    LogSnoc(log, Drew(card));
    if n > 0 {
      DrawKeepsDeck(m.deck, shuffled, DealtSinceFinale(log), Draws(log), n);
    } else {
      assert |DealtSinceFinale(log) + m.deck.bag| == 0 || DealtSinceFinale(log) == [];
    }
  }

  /** Every event keeps the machine consistent with its log. */
  lemma StepKeepsConsistent(m: Modal, log: seq<Shown>, n: nat, e: Event)
    requires Consistent(m, log, n) && (e.Turn? ==> IsDeal(e.shuffled, n))
    ensures Consistent(Step(m, n, e), log + Showing(m, n, e), n)
  {
    var shown := Showing(m, n, e);
    if shown == [] {
      assert log + shown == log;
    } else if shown[0].Drew? {
      DrawKeepsConsistent(m.(pass := m.pass + 1), log, n, e.shuffled);
    } else {
      LogSnoc(log, shown[0]);
      assert DealtSinceFinale(log) + [] == DealtSinceFinale(log) && Draws(log) + [] == Draws(log);
    }
  }

  lemma {:induction false} RunIsConsistent(n: nat, events: seq<Event>)
    requires FairEvents(n, events)
    ensures Consistent(Run(n, events).0, Run(n, events).1, n)
  {
    if events != [] {
      var front := events[..|events| - 1];
      RunIsConsistent(n, front);
      StepKeepsConsistent(Run(n, front).0, Run(n, front).1, n, events[|events| - 1]);
    }
  }

  // ---------------------------------------------------------------- main results

  /** The ending never appears early: over any interleaving of openings, closings and turns, whenever the
      manifesto or the finale is shown, every set has been drawn since the last finale, each exactly once. */
  lemma {:induction false} EndingNeverEarly(n: nat, events: seq<Event>, k: nat)
    requires FairEvents(n, events) && k < |Run(n, events).1|
    requires Run(n, events).1[k].ManifestoShown? || Run(n, events).1[k].FinaleShown?
    ensures n > 0 && IsDeal(DealtSinceFinale(Run(n, events).1[..k]), n)
  {
    var front := events[..|events| - 1];
    var (m, log) := Run(n, front);
    var whole := Run(n, events).1;
    if k < |log| {
      assert whole[..k] == log[..k];
      EndingNeverEarly(n, front, k);
    } else {
      RunIsConsistent(n, front);
      assert whole[..k] == log;
      assert DealtSinceFinale(log) + m.deck.bag == DealtSinceFinale(log);
    }
  }

  /** Back-to-back repeats are impossible, across bags, openings and endings alike. */
  lemma NoSetTwiceInARow(n: nat, events: seq<Event>, i: nat)
    requires FairEvents(n, events) && n > 1 && 0 < i < |Draws(Run(n, events).1)|
    ensures Draws(Run(n, events).1)[i] != Draws(Run(n, events).1)[i - 1]
  {
    RunIsConsistent(n, events);
  }

  /** Turns still needed to reach the finale. */
  function Remaining(m: Modal, n: nat): nat {
    match m.stage
    case Finale => 0
    case Manifesto => 1
    case _ => 2 + (if m.endingDue then 0 else if m.deck.bag == [] then n else |m.deck.bag|)
  }

  /** A turn brings the finale exactly one turn closer and the finale absorbs; closing loses nothing;
      an opening restarts the whole run only after a finale. */
  lemma EachTurnCountsDown(m: Modal, log: seq<Shown>, n: nat, e: Event)
    requires n > 0 && Consistent(m, log, n) && (e.Turn? ==> IsDeal(e.shuffled, n))
    ensures e.Turn? && m.open ==> Remaining(Step(m, n, e), n) == if Remaining(m, n) == 0 then 0 else Remaining(m, n) - 1
    ensures e.Close? || (e.Turn? && !m.open) || (e.Open? && m.open) ==> Remaining(Step(m, n, e), n) == Remaining(m, n)
    ensures e.Open? && !m.open ==>
              Remaining(Step(m, n, e), n) == match m.stage case Finale => n + 2 case Manifesto => 2 case _ => Remaining(m, n)
  {
    if e.Turn? && m.open && m.stage != Finale && m.stage != Manifesto && !m.endingDue {
      DrawKeepsDeck(m.deck, e.shuffled, DealtSinceFinale(log), Draws(log), n);
    }
  }

  function Turns(m: Modal, n: nat, shuffles: seq<seq<nat>>): Modal {
    if shuffles == [] then m else Step(Turns(m, n, shuffles[..|shuffles| - 1]), n, Turn(shuffles[|shuffles| - 1]))
  }

  lemma {:induction false} TurnsCountDown(m: Modal, log: seq<Shown>, n: nat, shuffles: seq<seq<nat>>) returns (log': seq<Shown>)
    requires n > 0 && m.open && Consistent(m, log, n) && forall i | 0 <= i < |shuffles| :: IsDeal(shuffles[i], n)
    ensures var m' := Turns(m, n, shuffles);
            && m'.open && Consistent(m', log', n)
            && Remaining(m', n) == if |shuffles| <= Remaining(m, n) then Remaining(m, n) - |shuffles| else 0
  {
    if shuffles == [] {
      log' := log;
    } else {
      var front, last := shuffles[..|shuffles| - 1], Turn(shuffles[|shuffles| - 1]);
      log' := TurnsCountDown(m, log, n, front);
      EachTurnCountsDown(Turns(m, n, front), log', n, last);
      StepKeepsConsistent(Turns(m, n, front), log', n, last);
      log' := log' + Showing(Turns(m, n, front), n, last);
    }
  }

  /** From any reachable open state the finale is on screen after exactly `Remaining` turns or more. */
  lemma FinaleAfterExactlyRemaining(n: nat, events: seq<Event>, shuffles: seq<seq<nat>>)
    requires n > 0 && FairEvents(n, events) && Run(n, events).0.open
    requires forall i | 0 <= i < |shuffles| :: IsDeal(shuffles[i], n)
    ensures Turns(Run(n, events).0, n, shuffles).stage == Finale <==> |shuffles| >= Remaining(Run(n, events).0, n)
  {
    RunIsConsistent(n, events);
    var log := TurnsCountDown(Run(n, events).0, Run(n, events).1, n, shuffles);
  }

  /** An uninterrupted fresh run of an N-set deck ends in exactly N + 2 turns. */
  lemma FreshRunTakesNPlusTwo(n: nat, shuffles: seq<seq<nat>>)
    requires n > 0 && forall i | 0 <= i < |shuffles| :: IsDeal(shuffles[i], n)
    ensures Turns(Run(n, [Open]).0, n, shuffles).stage == Finale <==> |shuffles| >= n + 2
  {
    assert [Open][..0] == [];
    assert Run(n, [Open]).0 == MOUNTED.(open := true);
    FinaleAfterExactlyRemaining(n, [Open], shuffles);
  }

  /** With no prose to deal there is no ending: the machine never leaves the block and the prose. */
  lemma {:induction false} EmptyDeckNeverEnds(events: seq<Event>)
    requires FairEvents(0, events)
    ensures Run(0, events).0.stage == Block || Run(0, events).0.stage == Prose
  {
    RunIsConsistent(0, events);
    if events != [] {
      EmptyDeckNeverEnds(events[..|events| - 1]);
      RunIsConsistent(0, events[..|events| - 1]);
    }
  }
}
