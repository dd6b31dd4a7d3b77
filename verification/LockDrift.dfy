/** Is what is installed what the lockfile pins, judged for the executing platform. */
module LockDrift {
  import opened Wrappers
  import opened FlatMaps
  import opened Ordering
  import opened LockParser

  /** npm `os` / `cpu` fields: absent, a list of allowed values, or a list of `!value` exclusions. */
  type Constraint = Option<seq<string>>

  datatype Package = Package(name: string, version: string, os: Constraint, cpu: Constraint)

  datatype Platform = Platform(os: string, cpu: string)

  datatype DriftRow = DriftRow(name: string, lock: string, installed: string)

  datatype Report = Report(compared: nat, drift: seq<DriftRow>, skippedPlatform: nat, notInLock: nat, uncovered: seq<string>)

  predicate Negated(entry: string) { entry != "" && entry[0] == '!' }

  predicate MatchesPlatform(constraint: Constraint, value: string) {
    match constraint
    case None => true
    case Some(entries) =>
      if entries == [] then true
      else if forall e | e in entries :: Negated(e) then !exists e | e in entries :: e[1..] == value
      else exists e | e in entries :: e == value
  }

  /** What a constraint rules out, read off its entries: a list of exclusions what it names, any other
      nonempty list what it does not. */
  ghost predicate RulesOut(constraint: Constraint, value: string) {
    && constraint.Some? && constraint.value != []
    && if forall e | e in constraint.value :: Negated(e) then "!" + value in constraint.value else value !in constraint.value
  }

  /** A constraint admits exactly what it does not rule out; absent or empty it admits everything, and a
      list that mixes both kinds ignores its exclusions. */
  lemma MatchesPlatformMeaning(constraint: Constraint, value: string)
    ensures MatchesPlatform(constraint, value) <==> !RulesOut(constraint, value)
  {
    if constraint.Some? {
      var entries := constraint.value;
      if exists e | e in entries :: Negated(e) && e[1..] == value {
        var e :| e in entries && Negated(e) && e[1..] == value;
        assert e == "!" + value;
      }
      assert ("!" + value)[1..] == value;
    }
  }

  predicate RunsHere(p: Package, platform: Platform) {
    MatchesPlatform(p.os, platform.os) && MatchesPlatform(p.cpu, platform.cpu)
  }

  /** A package runs here exactly when neither of its lists rules this platform out. */
  lemma RunsHereMeaning(p: Package, platform: Platform)
    ensures RunsHere(p, platform) <==> !RulesOut(p.os, platform.os) && !RulesOut(p.cpu, platform.cpu)
  {
    MatchesPlatformMeaning(p.os, platform.os);
    MatchesPlatformMeaning(p.cpu, platform.cpu);
  }

  /** A package without constraints runs everywhere. */
  lemma UnconstrainedRunsEverywhere(p: Package, platform: Platform)
    requires p.os in {None, Some([])} && p.cpu in {None, Some([])}
    ensures RunsHere(p, platform)
  {
    RunsHereMeaning(p, platform);
  }

  // ---------------------------------------------------------------- classification

  datatype Fate = Skipped | NotInLock | Compared

  function FateOf(p: Package, lock: LockMap, platform: Platform): Fate {
    if !RunsHere(p, platform) then Skipped
    else if p.name !in lock || lock[p.name] == [] then NotInLock
    else Compared
  }

  function Join(parts: seq<string>, separator: string): string {
    if parts == [] then "" else if |parts| == 1 then parts[0] else parts[0] + separator + Join(parts[1..], separator)
  }

  /** The drift rows one package contributes: one if it is compared and off-lock, else none. */
  function RowsOf(p: Package, lock: LockMap, platform: Platform): seq<DriftRow> {
    if FateOf(p, lock, platform) == Compared && p.version !in lock[p.name]
    then [DriftRow(p.name, Join(lock[p.name], ","), p.version)]
    else []
  }

  function WithFate(installed: seq<Package>, fate: Fate, lock: LockMap, platform: Platform): seq<Package> {
    FlatMap(installed, (p: Package) => if FateOf(p, lock, platform) == fate then [p] else [])
  }

  function Drifted(installed: seq<Package>, lock: LockMap, platform: Platform): seq<DriftRow> {
    FlatMap(installed, (p: Package) => RowsOf(p, lock, platform))
  }

  /** Names the comparison reached: compared, or for another platform. */
  function Reached(installed: seq<Package>, lock: LockMap, platform: Platform): set<string> {
    set p | p in installed && FateOf(p, lock, platform) != NotInLock :: p.name
  }

  function Missing(required: seq<string>, reached: set<string>): seq<string> {
    FlatMap(required, (name: string) => if name in reached then [] else [name])
  }

  function RowName(row: DriftRow): string { row.name }

  function ReportOf(installed: seq<Package>, lock: LockMap, platform: Platform, required: seq<string>): Report {
    Report(|WithFate(installed, Compared, lock, platform)|,
           SortBy(Drifted(installed, lock, platform), RowName),
           |WithFate(installed, Skipped, lock, platform)|,
           |WithFate(installed, NotInLock, lock, platform)|,
           Sort(Missing(required, Reached(installed, lock, platform))))
  }

  lemma WithFateSnoc(front: seq<Package>, last: Package, fate: Fate, lock: LockMap, platform: Platform)
    ensures |WithFate(front + [last], fate, lock, platform)|
         == |WithFate(front, fate, lock, platform)| + if FateOf(last, lock, platform) == fate then 1 else 0
  {
    assert (front + [last])[..|front|] == front;
  }

  /** The pass's running state over the packages seen so far. */
  datatype Tally = Tally(compared: nat, skippedPlatform: nat, notInLock: nat, drift: seq<DriftRow>, reached: set<string>)

  function TallyOf(seen: seq<Package>, lock: LockMap, platform: Platform): Tally {
    Tally(|WithFate(seen, Compared, lock, platform)|, |WithFate(seen, Skipped, lock, platform)|,
          |WithFate(seen, NotInLock, lock, platform)|, Drifted(seen, lock, platform), Reached(seen, lock, platform))
  }

  lemma TallySnoc(seen: seq<Package>, p: Package, lock: LockMap, platform: Platform)
    ensures var t, fate := TallyOf(seen, lock, platform), FateOf(p, lock, platform);
            TallyOf(seen + [p], lock, platform)
            == match fate
               case Skipped => t.(skippedPlatform := t.skippedPlatform + 1, reached := t.reached + {p.name})
               case NotInLock => t.(notInLock := t.notInLock + 1)
               case Compared =>
                 t.(compared := t.compared + 1, reached := t.reached + {p.name}, drift := t.drift + RowsOf(p, lock, platform))
  {
    WithFateSnoc(seen, p, Compared, lock, platform);
    WithFateSnoc(seen, p, Skipped, lock, platform);
    WithFateSnoc(seen, p, NotInLock, lock, platform);
    assert (seen + [p])[..|seen|] == seen;
    ReachedSnoc(seen, p, lock, platform);
  }

  lemma ReachedSnoc(seen: seq<Package>, p: Package, lock: LockMap, platform: Platform)
    ensures Reached(seen + [p], lock, platform)
         == Reached(seen, lock, platform) + if FateOf(p, lock, platform) != NotInLock then {p.name} else {}
  {
    assert forall q :: q in seen + [p] <==> q in seen || q == p;
  }

  /** The source's single pass over the tree, then its two sorts. */
  method Classify(installed: seq<Package>, lock: LockMap, platform: Platform, required: seq<string>) returns (report: Report)
    ensures report == ReportOf(installed, lock, platform, required)
  {
    var drift: seq<DriftRow> := [];
    var reached: set<string> := {};
    var compared, skippedPlatform, notInLock := 0, 0, 0;
    for i := 0 to |installed|
      invariant Tally(compared, skippedPlatform, notInLock, drift, reached) == TallyOf(installed[..i], lock, platform)
    {
      var p := installed[i];
      TallySnoc(installed[..i], p, lock, platform);
      assert installed[..i + 1] == installed[..i] + [p];
      if !RunsHere(p, platform) {
        skippedPlatform := skippedPlatform + 1;
        reached := reached + {p.name};
      } else if p.name !in lock || lock[p.name] == [] {
        notInLock := notInLock + 1;
      } else {
        compared := compared + 1;
        reached := reached + {p.name};
        if p.version !in lock[p.name] {
          drift := drift + [DriftRow(p.name, Join(lock[p.name], ","), p.version)];
        }
      }
    }
    assert installed[..|installed|] == installed;
    report := Report(compared, SortBy(drift, RowName), skippedPlatform, notInLock, Sort(Missing(required, reached)));
  }

  /** Joining is associative: a list joins to its halves with one separator between them. */
  lemma {:induction false} JoinAppend(a: seq<string>, b: seq<string>, separator: string)
    ensures a != [] && b != [] ==> Join(a + b, separator) == Join(a, separator) + separator + Join(b, separator)
    ensures forall x :: Join([x], separator) == x
    decreases |a|
  {
    if |a| > 1 && b != [] {
      JoinAppend(a[1..], b, separator);
      assert (a + b)[1..] == a[1..] + b;
      JoinParts(a[0], separator, Join(a[1..], separator), Join(b, separator));
    } else if |a| == 1 {
      assert (a + b)[1..] == b;
    }
  }

  lemma JoinParts(x: string, s: string, y: string, z: string)
    ensures x + s + (y + s + z) == x + s + y + s + z
  {
  }

  ghost predicate Locked(lock: LockMap, name: string) { name in lock && lock[name] != [] }

  /** An installed package that runs here and whose version its lock entry does not hold. */
  ghost predicate OffLock(p: Package, lock: LockMap, platform: Platform) {
    RunsHere(p, platform) && Locked(lock, p.name) && p.version !in lock[p.name]
  }

  /** The row that reports it: its name, what the lock holds, what is installed. */
  ghost predicate Reports(row: DriftRow, p: Package, lock: LockMap) {
    p.name in lock && row.name == p.name && row.lock == Join(lock[p.name], ",") && row.installed == p.version
  }

  lemma RowsReport(p: Package, lock: LockMap, platform: Platform, row: DriftRow)
    ensures row in RowsOf(p, lock, platform) <==> OffLock(p, lock, platform) && Reports(row, p, lock)
  {
  }

  lemma DriftedReports(installed: seq<Package>, lock: LockMap, platform: Platform, row: DriftRow)
    ensures row in Drifted(installed, lock, platform)
       <==> exists p :: p in installed && OffLock(p, lock, platform) && Reports(row, p, lock)
  {
    FlatMapMembers(installed, (p: Package) => RowsOf(p, lock, platform), row);
    forall p
      ensures row in RowsOf(p, lock, platform) <==> OffLock(p, lock, platform) && Reports(row, p, lock)
    {
      RowsReport(p, lock, platform, row);
    }
  }

  /** No installed package of this name was compared or belongs to another platform. */
  ghost predicate NeverReached(name: string, installed: seq<Package>, lock: LockMap, platform: Platform) {
    forall p | p in installed && p.name == name :: RunsHere(p, platform) && !Locked(lock, name)
  }

  lemma MissingAreNeverReached(
      required: seq<string>, installed: seq<Package>, lock: LockMap, platform: Platform, name: string)
    ensures name in Missing(required, Reached(installed, lock, platform))
       <==> name in required && NeverReached(name, installed, lock, platform)
  {
    FlatMapMembers(required, (n: string) => if n in Reached(installed, lock, platform) then [] else [n], name);
    assert name in Reached(installed, lock, platform) <==> !NeverReached(name, installed, lock, platform);
  }

  /** The report names exactly the off-lock packages, each with what the lock holds and what is installed,
      and the dependencies never reached, both in name order. */
  lemma ReportNamesTheOffenders(installed: seq<Package>, lock: LockMap, platform: Platform, required: seq<string>)
    ensures var r := ReportOf(installed, lock, platform, required);
            && Ordered(r.drift, RowName) && Ordered(r.uncovered, Identity)
            && (forall row :: row in r.drift <==> exists p :: p in installed && OffLock(p, lock, platform) && Reports(row, p, lock))
            && (forall name :: name in r.uncovered <==> name in required && NeverReached(name, installed, lock, platform))
  {
    var drift, missing := Drifted(installed, lock, platform), Missing(required, Reached(installed, lock, platform));
    SortOrders(drift, RowName);
    SortOrders(missing, Identity);
    forall row
      ensures row in SortBy(drift, RowName)
         <==> exists p :: p in installed && OffLock(p, lock, platform) && Reports(row, p, lock)
    {
      SortKeepsMembers(drift, RowName, row);
      DriftedReports(installed, lock, platform, row);
    }
    forall name
      ensures name in Sort(missing) <==> name in required && NeverReached(name, installed, lock, platform)
    {
      SortKeepsMembers(missing, Identity, name);
      MissingAreNeverReached(required, installed, lock, platform, name);
    }
  }

  lemma SortKeepsMembers<T>(s: seq<T>, key: T -> string, x: T)
    ensures x in SortBy(s, key) <==> x in s
  {
    assert x in SortBy(s, key) <==> x in multiset(SortBy(s, key));
    assert x in s <==> x in multiset(s);
  }

  /** The positions at which a property holds. */
  ghost function Where<T>(s: seq<T>, holds: T -> bool): set<int> {
    set i | 0 <= i < |s| && holds(s[i])
  }

  lemma WhereSnoc<T>(front: seq<T>, last: T, holds: T -> bool)
    ensures |Where(front + [last], holds)| == |Where(front, holds)| + if holds(last) then 1 else 0
  {
    var all := front + [last];
    assert Where(all, holds) == Where(front, holds) + if holds(last) then {|front|} else {};
  }

  lemma WhereAgrees<T(!new)>(s: seq<T>, p: T -> bool, q: T -> bool)
    requires forall x :: p(x) == q(x)
    ensures Where(s, p) == Where(s, q)
  {
  }

  ghost function HasFate(fate: Fate, lock: LockMap, platform: Platform): Package -> bool {
    p => FateOf(p, lock, platform) == fate
  }

  lemma {:induction false} WithFateCounts(installed: seq<Package>, fate: Fate, lock: LockMap, platform: Platform)
    ensures |WithFate(installed, fate, lock, platform)| == |Where(installed, HasFate(fate, lock, platform))|
  {
    if installed == [] {
      assert Where(installed, HasFate(fate, lock, platform)) == {};
    } else {
      var front, last := installed[..|installed| - 1], installed[|installed| - 1];
      WithFateCounts(front, fate, lock, platform);
      WithFateSnoc(front, last, fate, lock, platform);
      WhereSnoc(front, last, HasFate(fate, lock, platform));
      assert front + [last] == installed;
    }
  }

  /** The three counts: packages for another platform, packages that run here with no lock entry, and
      packages that run here and have one. */
  lemma CountsMeanTheFates(installed: seq<Package>, lock: LockMap, platform: Platform, required: seq<string>)
    ensures var r := ReportOf(installed, lock, platform, required);
            && r.skippedPlatform == |Where(installed, (p: Package) => !RunsHere(p, platform))|
            && r.notInLock == |Where(installed, (p: Package) => RunsHere(p, platform) && !Locked(lock, p.name))|
            && r.compared == |Where(installed, (p: Package) => RunsHere(p, platform) && Locked(lock, p.name))|
  {
    WithFateCounts(installed, Skipped, lock, platform);
    WithFateCounts(installed, NotInLock, lock, platform);
    WithFateCounts(installed, Compared, lock, platform);
    WhereAgrees(installed, HasFate(Skipped, lock, platform), (p: Package) => !RunsHere(p, platform));
    WhereAgrees(installed, HasFate(NotInLock, lock, platform), (p: Package) => RunsHere(p, platform) && !Locked(lock, p.name));
    WhereAgrees(installed, HasFate(Compared, lock, platform), (p: Package) => RunsHere(p, platform) && Locked(lock, p.name));
  }

  lemma {:induction false} FatesPartition(installed: seq<Package>, lock: LockMap, platform: Platform)
    ensures |WithFate(installed, Compared, lock, platform)| + |WithFate(installed, Skipped, lock, platform)|
          + |WithFate(installed, NotInLock, lock, platform)| == |installed|
  {
    if installed != [] {
      var front, last := installed[..|installed| - 1], installed[|installed| - 1];
      FatesPartition(front, lock, platform);
      WithFateSnoc(front, last, Compared, lock, platform);
      WithFateSnoc(front, last, Skipped, lock, platform);
      WithFateSnoc(front, last, NotInLock, lock, platform);
      assert front + [last] == installed;
    }
  }

  /** Each installed package is counted in exactly one of the three columns. */
  lemma EveryPackageIsCountedOnce(installed: seq<Package>, lock: LockMap, platform: Platform, required: seq<string>)
    ensures var r := ReportOf(installed, lock, platform, required);
            r.compared + r.skippedPlatform + r.notInLock == |installed|
  {
    FatesPartition(installed, lock, platform);
  }

  // ---------------------------------------------------------------- order independence

  function PackageName(p: Package): string { p.name }

  lemma {:induction false} DriftNamesAreDistinct(installed: seq<Package>, lock: LockMap, platform: Platform)
    requires DistinctKeys(installed, PackageName)
    ensures DistinctKeys(Drifted(installed, lock, platform), RowName)
  {
    if installed != [] {
      var front, last := installed[..|installed| - 1], installed[|installed| - 1];
      DriftNamesAreDistinct(front, lock, platform);
      var rows := Drifted(front, lock, platform);
      forall i | 0 <= i < |rows|
        ensures rows[i].name != last.name
      {
        FlatMapMembers(front, (p: Package) => RowsOf(p, lock, platform), rows[i]);
        assert rows[i] in rows;
        var p :| p in front && rows[i] in RowsOf(p, lock, platform);
      }
    }
  }

  lemma CountIgnoresOrder(a: seq<Package>, b: seq<Package>, fate: Fate, lock: LockMap, platform: Platform)
    requires multiset(a) == multiset(b)
    ensures |WithFate(a, fate, lock, platform)| == |WithFate(b, fate, lock, platform)|
  {
    FlatMapPermutes(a, b, (p: Package) => if FateOf(p, lock, platform) == fate then [p] else []);
    assert |multiset(WithFate(a, fate, lock, platform))| == |multiset(WithFate(b, fate, lock, platform))|;
  }

  lemma DriftIgnoresOrder(a: seq<Package>, b: seq<Package>, lock: LockMap, platform: Platform)
    requires DistinctKeys(a, PackageName) && multiset(a) == multiset(b)
    ensures SortBy(Drifted(a, lock, platform), RowName) == SortBy(Drifted(b, lock, platform), RowName)
  {
    DistinctKeysPermute(a, b, PackageName);
    FlatMapPermutes(a, b, (p: Package) => RowsOf(p, lock, platform));
    DriftNamesAreDistinct(a, lock, platform);
    DriftNamesAreDistinct(b, lock, platform);
    SortIsCanonical(Drifted(a, lock, platform), Drifted(b, lock, platform), RowName);
  }

  lemma ReachedIgnoresOrder(a: seq<Package>, b: seq<Package>, lock: LockMap, platform: Platform)
    requires multiset(a) == multiset(b)
    ensures Reached(a, lock, platform) == Reached(b, lock, platform)
  {
    forall p: Package
      ensures p in a <==> p in b
    {
      assert p in a <==> p in multiset(a);
      assert p in b <==> p in multiset(b);
    }
  }

  /** For distinct names the report is the same for every ordering of the tree. */
  lemma ReportIgnoresOrder(a: seq<Package>, b: seq<Package>, lock: LockMap, platform: Platform, required: seq<string>)
    requires DistinctKeys(a, PackageName) && multiset(a) == multiset(b)
    ensures ReportOf(a, lock, platform, required) == ReportOf(b, lock, platform, required)
  {
    CountIgnoresOrder(a, b, Compared, lock, platform);
    CountIgnoresOrder(a, b, Skipped, lock, platform);
    CountIgnoresOrder(a, b, NotInLock, lock, platform);
    DriftIgnoresOrder(a, b, lock, platform);
    ReachedIgnoresOrder(a, b, lock, platform);
  }

  // ---------------------------------------------------------------- the verdict

  datatype Reason = MeasuredNothing | NeverCompared(names: seq<string>) | InstalledOffLock(count: nat)

  datatype Verdict = Ok | NotOk(reason: Reason)

  function VerdictOf(r: Report): Verdict {
    if r.compared == 0 then NotOk(MeasuredNothing)
    else if |r.uncovered| > 0 then NotOk(NeverCompared(r.uncovered))
    else if |r.drift| > 0 then NotOk(InstalledOffLock(|r.drift|))
    else Ok
  }

  /** What a green gate is supposed to mean. */
  ghost predicate TreeMatchesLock(installed: seq<Package>, lock: LockMap, platform: Platform, required: seq<string>) {
    && (exists p :: p in installed && RunsHere(p, platform) && Locked(lock, p.name))
    && (forall p | p in installed && RunsHere(p, platform) && Locked(lock, p.name) :: p.version in lock[p.name])
    && (forall name | name in required ::
          exists p :: p in installed && p.name == name && (!RunsHere(p, platform) || Locked(lock, name)))
  }

  /** The verdict is green exactly when something was compared, everything compared is at a locked
      version, and every direct dependency was compared or belongs to another platform. */
  lemma OkIffTreeMatchesLock(installed: seq<Package>, lock: LockMap, platform: Platform, required: seq<string>)
    ensures VerdictOf(ReportOf(installed, lock, platform, required)) == Ok
       <==> TreeMatchesLock(installed, lock, platform, required)
  {
    ComparedIffSome(installed, lock, platform);
    NoDriftIff(installed, lock, platform);
    NothingMissingIff(installed, lock, platform, required);
    var r := ReportOf(installed, lock, platform, required);
    assert |multiset(r.drift)| == |multiset(Drifted(installed, lock, platform))|;
    assert |multiset(r.uncovered)| == |multiset(Missing(required, Reached(installed, lock, platform)))|;
  }

  /** Why a tree is refused: nothing was compared; or else some dependencies were never reached, and these
      are named; or else packages are off-lock, and so many. */
  lemma RefusalsAreAccurate(installed: seq<Package>, lock: LockMap, platform: Platform, required: seq<string>)
    ensures var r := ReportOf(installed, lock, platform, required);
            var nothing := !exists p :: p in installed && RunsHere(p, platform) && Locked(lock, p.name);
            && (VerdictOf(r) == NotOk(MeasuredNothing) <==> nothing)
            && (VerdictOf(r) == NotOk(NeverCompared(r.uncovered)) <==> !nothing && r.uncovered != [])
            && (VerdictOf(r) == NotOk(InstalledOffLock(|r.drift|)) <==> !nothing && r.uncovered == [] && r.drift != [])
  {
    ComparedIffSome(installed, lock, platform);
  }

  lemma ComparedIffSome(installed: seq<Package>, lock: LockMap, platform: Platform)
    ensures |WithFate(installed, Compared, lock, platform)| > 0
       <==> exists p :: p in installed && RunsHere(p, platform) && Locked(lock, p.name)
  {
    var f := (p: Package) => if FateOf(p, lock, platform) == Compared then [p] else [];
    var all := FlatMap(installed, f);
    if all != [] {
      FlatMapMembers(installed, f, all[0]);
    }
    if exists p :: p in installed && RunsHere(p, platform) && Locked(lock, p.name) {
      var p :| p in installed && RunsHere(p, platform) && Locked(lock, p.name);
      FlatMapMembers(installed, f, p);
      assert p in f(p);
    }
  }

  lemma NoDriftIff(installed: seq<Package>, lock: LockMap, platform: Platform)
    ensures Drifted(installed, lock, platform) == []
       <==> forall p | p in installed && RunsHere(p, platform) && Locked(lock, p.name) :: p.version in lock[p.name]
  {
    var f := (p: Package) => RowsOf(p, lock, platform);
    var rows := FlatMap(installed, f);
    if rows != [] {
      FlatMapMembers(installed, f, rows[0]);
    } else {
      forall p | p in installed && RunsHere(p, platform) && Locked(lock, p.name)
        ensures p.version in lock[p.name]
      {
        FlatMapMembers(installed, f, DriftRow(p.name, Join(lock[p.name], ","), p.version));
      }
    }
  }

  lemma NothingMissingIff(installed: seq<Package>, lock: LockMap, platform: Platform, required: seq<string>)
    ensures Missing(required, Reached(installed, lock, platform)) == []
       <==> forall name | name in required ::
              exists p :: p in installed && p.name == name && (!RunsHere(p, platform) || Locked(lock, name))
  {
    var reached := Reached(installed, lock, platform);
    var f := (name: string) => if name in reached then [] else [name];
    var missing := FlatMap(required, f);
    forall name
      ensures name in reached <==> exists p :: p in installed && p.name == name && (!RunsHere(p, platform) || Locked(lock, name))
    {
    }
    if missing != [] {
      FlatMapMembers(required, f, missing[0]);
    } else {
      forall name | name in required
        ensures name in reached
      {
        FlatMapMembers(required, f, name);
        assert name in f(name) || name in reached;
      }
    }
  }

  /** The tree agrees with the pins a text spells, with no parser in between. */
  ghost predicate TreeMatchesText(tokens: seq<string>, installed: seq<Package>, platform: Platform, required: seq<string>) {
    && (exists p :: p in installed && RunsHere(p, platform) && HasPin(tokens, p.name))
    && (forall p | p in installed && RunsHere(p, platform) && HasPin(tokens, p.name) :: Pinned(tokens, p.name, p.version))
    && (forall name | name in required ::
          exists p :: p in installed && p.name == name && (!RunsHere(p, platform) || HasPin(tokens, name)))
  }

  /** The map holds exactly the pins of these tokens. */
  ghost predicate Spells(lock: LockMap, tokens: seq<string>) {
    forall name ::
      && (Locked(lock, name) <==> HasPin(tokens, name))
      && (name in lock ==> forall v :: v in lock[name] <==> Pinned(tokens, name, v))
  }

  lemma RenderedLockSpells(gap0: string, entries: seq<Entry>)
    requires WellFormed(gap0, entries)
    ensures Spells(Collect(Tokens(gap0 + Render(entries))), TokensOf(entries))
  {
    forall name
      ensures Locked(Collect(Tokens(gap0 + Render(entries))), name) <==> HasPin(TokensOf(entries), name)
      ensures name in Collect(Tokens(gap0 + Render(entries))) ==>
                forall v :: v in Collect(Tokens(gap0 + Render(entries)))[name] <==> Pinned(TokensOf(entries), name, v)
    {
      LockRoundTrip(gap0, entries, name);
    }
  }

  lemma AgreeingWithPins(
      lock: LockMap, tokens: seq<string>, installed: seq<Package>, platform: Platform, required: seq<string>)
    requires Spells(lock, tokens)
    ensures TreeMatchesLock(installed, lock, platform, required) <==> TreeMatchesText(tokens, installed, platform, required)
  {
    assert forall p | p in installed :: Locked(lock, p.name) <==> HasPin(tokens, p.name);
    assert forall p | p in installed && Locked(lock, p.name) :: p.version in lock[p.name] <==> Pinned(tokens, p.name, p.version);
    assert forall name | name in required :: Locked(lock, name) <==> HasPin(tokens, name);
  }

  /** End to end, over the lockfile's text: for any rendering of its pins the gate is green exactly when
      the tree agrees with them. */
  lemma GreenOverRenderedLock(
      gap0: string, entries: seq<Entry>, installed: seq<Package>, platform: Platform, required: seq<string>)
    requires WellFormed(gap0, entries)
    ensures VerdictOf(ReportOf(installed, Collect(Tokens(gap0 + Render(entries))), platform, required)) == Ok
       <==> TreeMatchesText(TokensOf(entries), installed, platform, required)
  {
    var lock := Collect(Tokens(gap0 + Render(entries)));
    OkIffTreeMatchesLock(installed, lock, platform, required);
    RenderedLockSpells(gap0, entries);
    AgreeingWithPins(lock, TokensOf(entries), installed, platform, required);
  }
}
