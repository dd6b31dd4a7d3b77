/** The admin's network editor: a draft per row, a strict cap parser, and a PATCH that carries only
    what the operator changed. */
module NetworkDraft {
  import opened Wrappers
  import Decimal

  // ---------------------------------------------------------------- caps

  /** An admission cap; `None` is unlimited. */
  type Cap = Option<nat>

  const MAX_CAP: nat := 0x7fff_ffff

  datatype ParseResult = Parsed(cap: Cap) | Bad

  predicate IsSpace(c: char) {
    || '\t' <= c <= '\r' || c == ' ' || c == '\U{00A0}' || c == '\U{1680}' || '\U{2000}' <= c <= '\U{200A}'
    || c == '\U{2028}' || c == '\U{2029}' || c == '\U{202F}' || c == '\U{205F}' || c == '\U{3000}' || c == '\U{FEFF}'
  }

  function Trim(s: string): string
    decreases |s|
  {
    if s != "" && IsSpace(s[0]) then Trim(s[1..])
    else if s != "" && IsSpace(s[|s| - 1]) then Trim(s[..|s| - 1])
    else s
  }

  function ParseCap(raw: string): ParseResult {
    var trimmed := Trim(raw);
    if trimmed == "" then Parsed(None)
    else if !Decimal.IsNumeral(trimmed) then Bad
    else
      var n := Decimal.Value(trimmed);
      if n > MAX_CAP then Bad else Parsed(Some(n))
  }

  ghost predicate Blank(s: string) { forall i | 0 <= i < |s| :: IsSpace(s[i]) }

  ghost predicate Tight(s: string) { s == "" || (!IsSpace(s[0]) && !IsSpace(s[|s| - 1])) }

  /** `raw` is `core` between two stretches of white space. */
  ghost predicate Around(raw: string, before: string, core: string, behind: string) {
    raw == before + core + behind && Blank(before) && Blank(behind)
  }

  lemma {:induction false} TrimSplits(s: string) returns (before: string, behind: string)
    ensures Around(s, before, Trim(s), behind) && Tight(Trim(s))
    decreases |s|
  {
    if s != "" && IsSpace(s[0]) {
      before, behind := TrimSplits(s[1..]);
      before := [s[0]] + before;
    } else if s != "" && IsSpace(s[|s| - 1]) {
      before, behind := TrimSplits(s[..|s| - 1]);
      behind := behind + [s[|s| - 1]];
    } else {
      before, behind := "", "";
    }
  }

  /** Trimming takes all the white space off both ends and nothing else. */
  lemma {:induction false} TrimStrips(raw: string, before: string, core: string, behind: string)
    requires Around(raw, before, core, behind) && Tight(core)
    ensures Trim(raw) == core
    decreases |raw|
  {
    if before != "" {
      assert raw[1..] == before[1..] + core + behind;
      TrimStrips(raw[1..], before[1..], core, behind);
    } else if core == "" && behind != "" {
      assert raw[1..] == "" + "" + behind[1..];
      TrimStrips(raw[1..], "", "", behind[1..]);
    } else if behind != "" {
      var shorter := behind[..|behind| - 1];
      assert raw == core + behind && raw[..|raw| - 1] == "" + core + shorter;
      TrimStrips(raw[..|raw| - 1], "", core, shorter);
    } else {
      assert raw == core;
    }
  }

  /** The three answers: blank input is unlimited, a numeral of at most 2^31-1 between white space is that
      cap, and everything else is bad. */
  lemma ParseCapMeaning(raw: string, n: nat)
    ensures ParseCap(raw) == Parsed(None) <==> Blank(raw)
    ensures ParseCap(raw) == Parsed(Some(n))
       <==> n <= 2147483647 && exists a, d, b :: Around(raw, a, d, b) && Decimal.IsNumeral(d) && Decimal.Value(d) == n
  {
    var before, behind := TrimSplits(raw);
    assert Trim(raw) == "" ==> Blank(before + "" + behind);
    if Blank(raw) {
      TrimStrips(raw, raw, "", "");
    }
    forall a, d, b | Around(raw, a, d, b) && Decimal.IsNumeral(d)
      ensures Trim(raw) == d
    {
      assert Decimal.IsDigit(d[0]) && Decimal.IsDigit(d[|d| - 1]);
      TrimStrips(raw, a, d, b);
    }
  }

  function CapToInput(cap: Cap): string {
    match cap case None => "" case Some(n) => Decimal.Show(n)
  }

  ghost predicate Fits(cap: Cap) { cap.None? || cap.value <= MAX_CAP }

  /** The parser inverts the printer on every cap up to the maximum, and refuses any other. */
  lemma ParsePrintedCap(cap: Cap)
    ensures ParseCap(CapToInput(cap)) == if Fits(cap) then Parsed(cap) else Bad
  {
    if cap.Some? {
      Decimal.ShowReadsBack(cap.value);
      var s := CapToInput(cap);
      assert Decimal.IsDigit(s[0]) && Decimal.IsDigit(s[|s| - 1]);
    }
  }

  // ---------------------------------------------------------------- rows, drafts, patches

  datatype Flavor = Azzurra | Atheme | Oftc | Unknown

  datatype Row = Row(maxVisitors: Cap, maxUsers: Cap, maxPerIp: Cap, enabled: bool, autoconnect: bool, flavor: Option<Flavor>)

  /** The operator's raw text for the caps, closed values for the rest; no flavor is "unclassified". */
  datatype RowEdit = RowEdit(
    maxVisitors: string, maxUsers: string, maxPerIp: string, enabled: bool, autoconnect: bool, flavor: Option<Flavor>)

  /** A keys-optional body: an absent key keeps the row's value, `Some(None)` clears it. */
  datatype Patch = Patch(
    maxVisitors: Option<Cap>, maxUsers: Option<Cap>, maxPerIp: Option<Cap>,
    enabled: Option<bool>, autoconnect: Option<bool>, flavor: Option<Option<Flavor>>)

  const EMPTY_PATCH: Patch := Patch(None, None, None, None, None, None)

  datatype Field = MaxVisitors | MaxUsers | MaxPerIp | Enabled | Autoconnect | FlavorField

  function KeysOf(p: Patch): set<Field> {
    (if p.maxVisitors.Some? then {MaxVisitors} else {})
    + (if p.maxUsers.Some? then {MaxUsers} else {})
    + (if p.maxPerIp.Some? then {MaxPerIp} else {})
    + (if p.enabled.Some? then {Enabled} else {})
    + (if p.autoconnect.Some? then {Autoconnect} else {})
    + (if p.flavor.Some? then {FlavorField} else {})
  }

  function Seed(row: Row): RowEdit {
    RowEdit(CapToInput(row.maxVisitors), CapToInput(row.maxUsers), CapToInput(row.maxPerIp),
            row.enabled, row.autoconnect, row.flavor)
  }

  /** The row a draft describes, if all its caps parse. */
  function Described(edit: RowEdit): Option<Row> {
    var v, u, i := ParseCap(edit.maxVisitors), ParseCap(edit.maxUsers), ParseCap(edit.maxPerIp);
    if v.Bad? || u.Bad? || i.Bad? then None
    else Some(Row(v.cap, u.cap, i.cap, edit.enabled, edit.autoconnect, edit.flavor))
  }

  function Changed<T(==)>(was: T, now: T): Option<T> {
    if now != was then Some(now) else None
  }

  function Difference(net: Row, row: Row): Patch {
    Patch(Changed(net.maxVisitors, row.maxVisitors), Changed(net.maxUsers, row.maxUsers), Changed(net.maxPerIp, row.maxPerIp),
          Changed(net.enabled, row.enabled), Changed(net.autoconnect, row.autoconnect), Changed(net.flavor, row.flavor))
  }

  /** The body a save sends; `None` when a cap does not parse. */
  function PatchBody(net: Row, edit: RowEdit): Option<Patch> {
    match Described(edit) case None => None case Some(row) => Some(Difference(net, row))
  }

  /** The source's builder: parse the three caps, then fill the body key by key. */
  method BuildPatchBody(net: Row, edit: RowEdit) returns (body: Option<Patch>)
    ensures body == PatchBody(net, edit)
  {
    var visitorSessions := ParseCap(edit.maxVisitors);
    if visitorSessions.Bad? { return None; }
    var userSessions := ParseCap(edit.maxUsers);
    if userSessions.Bad? { return None; }
    var perIp := ParseCap(edit.maxPerIp);
    if perIp.Bad? { return None; }
    var keys := EMPTY_PATCH;
    if visitorSessions.cap != net.maxVisitors {
      keys := keys.(maxVisitors := Some(visitorSessions.cap));
    }
    if userSessions.cap != net.maxUsers {
      keys := keys.(maxUsers := Some(userSessions.cap));
    }
    if perIp.cap != net.maxPerIp {
      keys := keys.(maxPerIp := Some(perIp.cap));
    }
    if edit.enabled != net.enabled {
      keys := keys.(enabled := Some(edit.enabled));
    }
    if edit.autoconnect != net.autoconnect {
      keys := keys.(autoconnect := Some(edit.autoconnect));
    }
    if edit.flavor != net.flavor {
      keys := keys.(flavor := Some(edit.flavor));
    }
    return Some(keys);
  }

  predicate IsDirtyAndValid(net: Row, edit: RowEdit) {
    var body := PatchBody(net, edit);
    body.Some? && body.value != EMPTY_PATCH
  }

  function Or<T>(key: Option<T>, otherwise: T): T {
    match key case Some(v) => v case None => otherwise
  }

  /** The server's side: unsupplied keys keep their current value. */
  function Apply(p: Patch, row: Row): Row {
    Row(Or(p.maxVisitors, row.maxVisitors), Or(p.maxUsers, row.maxUsers), Or(p.maxPerIp, row.maxPerIp),
        Or(p.enabled, row.enabled), Or(p.autoconnect, row.autoconnect), Or(p.flavor, row.flavor))
  }

  // ---------------------------------------------------------------- the patch as a merge

  /** A freshly seeded draft is pristine exactly when every cap of the row fits; otherwise it does not
      even parse. Either way there is nothing to save. */
  lemma FreshDraftIsPristine(row: Row)
    ensures PatchBody(row, Seed(row))
         == if Fits(row.maxVisitors) && Fits(row.maxUsers) && Fits(row.maxPerIp) then Some(EMPTY_PATCH) else None
    ensures !IsDirtyAndValid(row, Seed(row))
  {
    ParsePrintedCap(row.maxVisitors);
    ParsePrintedCap(row.maxUsers);
    ParsePrintedCap(row.maxPerIp);
  }

  /** Where it is not pristine: a row the server holds with a cap of 2^31 cannot be saved until the
      operator retypes that cap, whatever else is edited. */
  lemma OverlargeCapBlocksSaving(row: Row, edit: RowEdit)
    requires row.maxUsers == Some(MAX_CAP + 1) && edit.maxUsers == Seed(row).maxUsers
    ensures PatchBody(row, edit) == None && !IsDirtyAndValid(row, edit)
  {
    ParsePrintedCap(row.maxUsers);
  }

  /** Applied to the row it was built on, the patch gives exactly the row the draft describes, and it is
      the least such patch: any other that does carries at least its keys. */
  lemma PatchIsLeast(net: Row, edit: RowEdit, other: Patch)
    requires Described(edit).Some?
    ensures PatchBody(net, edit).Some? && Apply(PatchBody(net, edit).value, net) == Described(edit).value
    ensures Apply(other, net) == Described(edit).value ==> KeysOf(PatchBody(net, edit).value) <= KeysOf(other)
  {
    var target := Described(edit).value;
    DifferenceApplies(net, target);
    if Apply(other, net) == target {
      DifferenceIsLeast(net, target, other);
    }
  }

  lemma DifferenceApplies(net: Row, target: Row)
    ensures Apply(Difference(net, target), net) == target
  {
  }

  lemma DifferenceIsLeast(net: Row, target: Row, other: Patch)
    requires Apply(other, net) == target
    ensures KeysOf(Difference(net, target)) <= KeysOf(other)
  {
    KeysSay(Difference(net, target));
    KeysSay(other);
    forall f | f in KeysOf(Difference(net, target))
      ensures f in KeysOf(other)
    {
      match f
      case MaxVisitors => assert Or(other.maxVisitors, net.maxVisitors) != net.maxVisitors;
      case MaxUsers => assert Or(other.maxUsers, net.maxUsers) != net.maxUsers;
      case MaxPerIp => assert Or(other.maxPerIp, net.maxPerIp) != net.maxPerIp;
      case Enabled => assert Or(other.enabled, net.enabled) != net.enabled;
      case Autoconnect => assert Or(other.autoconnect, net.autoconnect) != net.autoconnect;
      case FlavorField => assert Or(other.flavor, net.flavor) != net.flavor;
    }
  }

  /** The Save button is live exactly when the draft parses and describes a different row. */
  lemma SaveIsLiveIff(net: Row, edit: RowEdit)
    ensures IsDirtyAndValid(net, edit) <==> Described(edit).Some? && Described(edit).value != net
  {
    if Described(edit).Some? {
      PatchIsLeast(net, edit, EMPTY_PATCH);
    }
  }

  /** One field of a three-way merge. */
  function Merge<T(==)>(base: T, mine: T, theirs: T): T {
    if mine == base then theirs else mine
  }

  /** Applied to a row somebody else changed meanwhile, the patch keeps their value on every field the
      operator left alone and takes the draft's elsewhere. */
  lemma PatchIsThreeWayMerge(net: Row, edit: RowEdit, current: Row)
    requires Described(edit).Some?
    ensures var mine, after := Described(edit).value, Apply(PatchBody(net, edit).value, current);
            && after.maxVisitors == Merge(net.maxVisitors, mine.maxVisitors, current.maxVisitors)
            && after.maxUsers == Merge(net.maxUsers, mine.maxUsers, current.maxUsers)
            && after.maxPerIp == Merge(net.maxPerIp, mine.maxPerIp, current.maxPerIp)
            && after.enabled == Merge(net.enabled, mine.enabled, current.enabled)
            && after.autoconnect == Merge(net.autoconnect, mine.autoconnect, current.autoconnect)
            && after.flavor == Merge(net.flavor, mine.flavor, current.flavor)
  {
  }

  /** Patches without a common key commute. */
  lemma DisjointPatchesCommute(p: Patch, q: Patch, row: Row)
    requires KeysOf(p) !! KeysOf(q)
    ensures Apply(p, Apply(q, row)) == Apply(q, Apply(p, row))
  {
    KeysSay(p);
    KeysSay(q);
    assert forall f | f in KeysOf(p) :: f !in KeysOf(q);
    assert Or(p.maxVisitors, Or(q.maxVisitors, row.maxVisitors)) == Or(q.maxVisitors, Or(p.maxVisitors, row.maxVisitors));
  }

  lemma KeysSay(p: Patch)
    ensures MaxVisitors in KeysOf(p) <==> p.maxVisitors.Some?
    ensures MaxUsers in KeysOf(p) <==> p.maxUsers.Some?
    ensures MaxPerIp in KeysOf(p) <==> p.maxPerIp.Some?
    ensures Enabled in KeysOf(p) <==> p.enabled.Some?
    ensures Autoconnect in KeysOf(p) <==> p.autoconnect.Some?
    ensures FlavorField in KeysOf(p) <==> p.flavor.Some?
  {
  }

  // ---------------------------------------------------------------- the draft store

  datatype CapField = VisitorSessions | UserSessions | PerIp
  datatype ToggleField = VisitorEnabled | VisitorAutoconnect

  function WithCap(edit: RowEdit, field: CapField, text: string): RowEdit {
    match field
    case VisitorSessions => edit.(maxVisitors := text)
    case UserSessions => edit.(maxUsers := text)
    case PerIp => edit.(maxPerIp := text)
  }

  /** Revoking visitor access also clears autoconnect, in the draft. */
  function WithToggle(edit: RowEdit, field: ToggleField, checked: bool): RowEdit {
    match field
    case VisitorEnabled => edit.(enabled := checked, autoconnect := edit.autoconnect && checked)
    case VisitorAutoconnect => edit.(autoconnect := checked)
  }

  /** The autoconnect checkbox is disabled while the draft does not allow visitors. */
  predicate Locked(edit: RowEdit, field: ToggleField) { field == VisitorAutoconnect && !edit.enabled }

  function WithFlavor(edit: RowEdit, value: Option<Flavor>): RowEdit {
    edit.(flavor := value)
  }

  ghost predicate FittingCaps(row: Row) { Fits(row.maxVisitors) && Fits(row.maxUsers) && Fits(row.maxPerIp) }

  lemma SeedDescribes(row: Row)
    requires FittingCaps(row)
    ensures ParseCap(Seed(row).maxVisitors) == Parsed(row.maxVisitors) && ParseCap(Seed(row).maxUsers) == Parsed(row.maxUsers)
    ensures ParseCap(Seed(row).maxPerIp) == Parsed(row.maxPerIp)
  {
    ParsePrintedCap(row.maxVisitors);
    ParsePrintedCap(row.maxUsers);
    ParsePrintedCap(row.maxPerIp);
  }

  /** Typing a cap into a pristine draft sends that cap and nothing else. */
  lemma EditedCapIsSent(row: Row, cap: Cap)
    requires FittingCaps(row) && Fits(cap)
    ensures PatchBody(row, WithCap(Seed(row), VisitorSessions, CapToInput(cap)))
         == Some(EMPTY_PATCH.(maxVisitors := Changed(row.maxVisitors, cap)))
    ensures PatchBody(row, WithCap(Seed(row), UserSessions, CapToInput(cap)))
         == Some(EMPTY_PATCH.(maxUsers := Changed(row.maxUsers, cap)))
    ensures PatchBody(row, WithCap(Seed(row), PerIp, CapToInput(cap)))
         == Some(EMPTY_PATCH.(maxPerIp := Changed(row.maxPerIp, cap)))
  {
    SeedDescribes(row);
    ParsePrintedCap(cap);
  }

  /** Flipping one control of a pristine draft sends that control and nothing else, save that revoking
      visitors also sends autoconnect off where it was on. */
  lemma EditedControlIsSent(row: Row, checked: bool, flavor: Option<Flavor>)
    requires FittingCaps(row)
    ensures PatchBody(row, WithToggle(Seed(row), VisitorEnabled, checked))
         == Some(EMPTY_PATCH.(enabled := Changed(row.enabled, checked),
                              autoconnect := if row.autoconnect && !checked then Some(false) else None))
    ensures PatchBody(row, WithToggle(Seed(row), VisitorAutoconnect, checked))
         == Some(EMPTY_PATCH.(autoconnect := Changed(row.autoconnect, checked)))
    ensures PatchBody(row, WithFlavor(Seed(row), flavor)) == Some(EMPTY_PATCH.(flavor := Changed(row.flavor, flavor)))
  {
    SeedDescribes(row);
  }

  /** And what is sent is the new value, exactly when it is new. */
  lemma ChangedIff<T>(was: T, now: T, v: T)
    ensures Changed(was, now) == Some(v) <==> v == now && now != was
    ensures Changed(was, now) == None <==> now == was
  {
  }

  type Drafts = map<string, RowEdit>

  function Seeded(rows: seq<(string, Row)>): Drafts {
    if rows == [] then map[]
    else Seeded(rows[..|rows| - 1])[rows[|rows| - 1].0 := Seed(rows[|rows| - 1].1)]
  }

  /** The store the handlers mutate, one draft per slug. */
  class DraftStore {
    var edits: Drafts

    method SeedEditsFromServer(rows: seq<(string, Row)>)
      modifies this
      ensures edits == Seeded(rows)
    {
      edits := map[];
      for i := 0 to |rows|
        invariant edits == Seeded(rows[..i])
      {
        assert rows[..i + 1][..i] == rows[..i];
        edits := edits[rows[i].0 := Seed(rows[i].1)];
      }
      assert rows[..|rows|] == rows;
    }

    method OnEditCap(slug: string, field: CapField, value: string)
      modifies this
      ensures edits == if slug in old(edits) then old(edits)[slug := WithCap(old(edits)[slug], field, value)] else old(edits)
    {
      if slug in edits {
        edits := edits[slug := WithCap(edits[slug], field, value)];
      }
    }

    method OnEditToggle(slug: string, field: ToggleField, checked: bool)
      modifies this
      ensures edits == if slug in old(edits) then old(edits)[slug := WithToggle(old(edits)[slug], field, checked)] else old(edits)
    {
      if slug !in edits {
        return;
      }
      var row := edits[slug];
      row := if field == VisitorEnabled then row.(enabled := checked) else row.(autoconnect := checked);
      if field == VisitorEnabled && !checked {
        row := row.(autoconnect := false);
      }
      edits := edits[slug := row];
    }

    method OnEditFlavor(slug: string, value: Option<Flavor>)
      modifies this
      ensures edits == if slug in old(edits) then old(edits)[slug := WithFlavor(old(edits)[slug], value)] else old(edits)
    {
      if slug in edits {
        edits := edits[slug := WithFlavor(edits[slug], value)];
      }
    }
  }

  // ---------------------------------------------------------------- sessions

  /** One admin's page: the row it was drawn from, and the draft over it. */
  datatype Page = Page(net: Row, edit: RowEdit)

  function Fresh(row: Row): Page { Page(row, Seed(row)) }

  /** What an admin does; a save is followed by a refetch, which may fail and leave the page as it was. */
  datatype Action =
    | EditCap(capField: CapField, text: string)
    | EditToggle(toggleField: ToggleField, checked: bool)
    | EditFlavor(value: Option<Flavor>)
    | Save(refetched: bool)
    | Refresh

  datatype World = World(server: Row, pages: seq<Page>)

  function Act(w: World, who: nat, a: Action): World
    requires who < |w.pages|
  {
    var page := w.pages[who];
    match a
    case EditCap(field, text) => w.(pages := w.pages[who := page.(edit := WithCap(page.edit, field, text))])
    case EditToggle(field, checked) =>
      if Locked(page.edit, field) then w
      else w.(pages := w.pages[who := page.(edit := WithToggle(page.edit, field, checked))])
    case EditFlavor(value) => w.(pages := w.pages[who := page.(edit := WithFlavor(page.edit, value))])
    case Refresh => w.(pages := w.pages[who := Fresh(w.server)])
    case Save(refetched) =>
      if !IsDirtyAndValid(page.net, page.edit) then w
      else
        var server := Apply(PatchBody(page.net, page.edit).value, w.server);
        World(server, if refetched then w.pages[who := Fresh(server)] else w.pages)
  }

  /** An admin changes no page but their own, and the server only by saving; a refresh and a refetched save
      leave the page as drawn from the server's row. */
  lemma ActIsLocal(w: World, who: nat, a: Action)
    requires who < |w.pages|
    ensures |Act(w, who, a).pages| == |w.pages| && forall i | 0 <= i < |w.pages| && i != who :: Act(w, who, a).pages[i] == w.pages[i]
    ensures !a.Save? ==> Act(w, who, a).server == w.server
    ensures !a.Save? && !a.Refresh? ==> Act(w, who, a).pages[who].net == w.pages[who].net
    ensures a.Save? && !a.refetched ==> Act(w, who, a).pages == w.pages
    ensures a.Refresh? || (a.Save? && a.refetched && IsDirtyAndValid(w.pages[who].net, w.pages[who].edit)) ==>
              Act(w, who, a).pages[who] == Fresh(Act(w, who, a).server)
  {
  }

  ghost predicate ForPages(steps: seq<(nat, Action)>, pages: nat) {
    forall i | 0 <= i < |steps| :: steps[i].0 < pages
  }

  function Session(w: World, steps: seq<(nat, Action)>): World
    requires ForPages(steps, |w.pages|)
    ensures |Session(w, steps).pages| == |w.pages|
  {
    if steps == [] then w
    else
      var last := steps[|steps| - 1];
      Act(Session(w, steps[..|steps| - 1]), last.0, last.1)
  }

  /** Autoconnect only where visitors are allowed. */
  ghost predicate Sound(row: Row) { row.autoconnect ==> row.enabled }
  ghost predicate SoundDraft(edit: RowEdit) { edit.autoconnect ==> edit.enabled }

  ghost predicate AllDraftsSound(w: World) {
    forall i | 0 <= i < |w.pages| :: SoundDraft(w.pages[i].edit)
  }

  lemma ActKeepsDraftsSound(w: World, who: nat, a: Action)
    requires who < |w.pages| && AllDraftsSound(w) && Sound(w.server) && Sound(Act(w, who, a).server)
    ensures AllDraftsSound(Act(w, who, a))
  {
  }

  lemma SessionUnfolds(w: World, steps: seq<(nat, Action)>)
    requires steps != [] && ForPages(steps, |w.pages|)
    ensures var front, last := steps[..|steps| - 1], steps[|steps| - 1];
            Session(w, steps) == Act(Session(w, front), last.0, last.1)
  {
  }

  /** Over any run of edits that respects the lock, by any number of admins, no draft ever holds the
      stranded pair, as long as the server's row never does when a page is drawn from it. */
  lemma {:induction false} DraftsStaySound(w: World, steps: seq<(nat, Action)>)
    requires ForPages(steps, |w.pages|) && AllDraftsSound(w)
    requires forall k | 0 <= k <= |steps| :: Sound(Session(w, steps[..k]).server)
    ensures AllDraftsSound(Session(w, steps))
  {
    if steps != [] {
      var front, last := steps[..|steps| - 1], steps[|steps| - 1];
      forall k | 0 <= k <= |front|
        ensures Sound(Session(w, front[..k]).server)
      {
        assert front[..k] == steps[..k];
      }
      DraftsStaySound(w, front);
      SessionUnfolds(w, steps);
      assert steps[..|steps|] == steps;
      ActKeepsDraftsSound(Session(w, front), last.0, last.1);
    }
  }

  /** The page is alone, shows the server's row, and neither holds the stranded pair. */
  ghost predicate InStep(w: World) {
    |w.pages| == 1 && w.pages[0].net == w.server && Sound(w.server) && SoundDraft(w.pages[0].edit)
  }

  lemma ActKeepsInStep(w: World, a: Action)
    requires InStep(w) && (a.Save? ==> a.refetched)
    ensures InStep(Act(w, 0, a))
  {
    var page := w.pages[0];
    if a.Save? && IsDirtyAndValid(page.net, page.edit) {
      PatchIsLeast(page.net, page.edit, EMPTY_PATCH);
    }
  }

  /** A lone admin whose refetches succeed: the server's row and the page's agree, and stay sound. */
  lemma {:induction false} LoneAdminKeepsRowSound(row: Row, steps: seq<(nat, Action)>)
    requires Sound(row) && ForPages(steps, 1)
    requires forall i | 0 <= i < |steps| && steps[i].1.Save? :: steps[i].1.refetched
    ensures InStep(Session(World(row, [Fresh(row)]), steps))
  {
    if steps != [] {
      var front, last := steps[..|steps| - 1], steps[|steps| - 1];
      LoneAdminKeepsRowSound(row, front);
      assert last.0 == 0;
      ActKeepsInStep(Session(World(row, [Fresh(row)]), front), last.1);
    }
  }

  /** Exactly when a save strands the pair on a sound row: one side of it was changed here, and the other
      side moved underneath since the page was drawn. */
  lemma SaveStrandsIff(net: Row, edit: RowEdit, current: Row)
    requires Described(edit).Some? && Sound(net) && SoundDraft(edit) && Sound(current)
    ensures !Sound(Apply(PatchBody(net, edit).value, current))
       <==> || (edit.autoconnect && !net.autoconnect && net.enabled && !current.enabled)
            || (!edit.enabled && net.enabled && !net.autoconnect && current.autoconnect)
  {
    PatchIsThreeWayMerge(net, edit, current);
  }

  function Toggled(row: Row, enabled: bool, autoconnect: bool): Row {
    row.(enabled := enabled, autoconnect := autoconnect)
  }

  function ToggledDraft(row: Row, enabled: bool, autoconnect: bool): RowEdit {
    Seed(row).(enabled := enabled, autoconnect := autoconnect)
  }

  /** A page with only its toggles changed still saves, and what it sends is the toggles' difference. */
  lemma ToggledDraftSends(row: Row, enabled: bool, autoconnect: bool)
    requires FittingCaps(row)
    ensures PatchBody(row, ToggledDraft(row, enabled, autoconnect)) == Some(Difference(row, Toggled(row, enabled, autoconnect)))
  {
    ParsePrintedCap(row.maxVisitors);
    ParsePrintedCap(row.maxUsers);
    ParsePrintedCap(row.maxPerIp);
  }

  /** Two sound pages over one row, the one ticking autoconnect and the other revoking visitors: saving
      both strands the pair. */
  lemma TwoSavesStrand(row: Row, w: World)
    requires FittingCaps(row) && row.enabled && !row.autoconnect && w.server == row && |w.pages| == 2
    requires w.pages[0] == Page(row, ToggledDraft(row, true, true)) && w.pages[1] == Page(row, ToggledDraft(row, false, false))
    ensures Act(Act(w, 0, Save(true)), 1, Save(true)).server == Toggled(row, false, true)
  {
    ToggledDraftSends(row, true, true);
    ToggledDraftSends(row, false, false);
    var first := Act(w, 0, Save(true));
    assert first.server == Toggled(row, true, true) && first.pages[1] == w.pages[1];
  }

  /** Minimal patches alone do not keep the pair: one admin ticks autoconnect while another revokes
      visitors, each from a sound page, and the row ends up stranded. */
  lemma TwoAdminsStrandTheRow(row: Row)
    requires FittingCaps(row) && row.enabled && !row.autoconnect
    ensures var steps := [(0, EditToggle(VisitorAutoconnect, true)), (1, EditToggle(VisitorEnabled, false)),
                         (0, Save(true)), (1, Save(true))];
            var after := Session(World(row, [Fresh(row), Fresh(row)]), steps).server;
            Sound(row) && after == Toggled(row, false, true) && !Sound(after)
  {
    var a, b := (0, EditToggle(VisitorAutoconnect, true)), (1, EditToggle(VisitorEnabled, false));
    var c, d := (0, Save(true)), (1, Save(true));
    var w := World(row, [Fresh(row), Fresh(row)]);
    TwoSteps(w, [], a, b);
    assert [] + [a, b] == [a, b];
    TwoSavesStrand(row, Session(w, [a, b]));
    TwoSteps(w, [a, b], c, d);
    assert [a, b] + [c, d] == [a, b, c, d];
  }

  /** A page that still shows the row from before its first save: saving the second toggle strands the pair. */
  lemma StaleSaveStrands(row: Row, w: World)
    requires FittingCaps(row) && row.enabled && !row.autoconnect && |w.pages| == 1
    requires w.server == Toggled(row, true, true) && w.pages[0] == Page(row, ToggledDraft(row, true, true))
    ensures Act(Act(w, 0, EditToggle(VisitorEnabled, false)), 0, Save(false)).server == Toggled(row, false, true)
  {
    ToggledDraftSends(row, false, false);
    var edited := Act(w, 0, EditToggle(VisitorEnabled, false));
    assert edited.server == w.server && edited.pages[0] == Page(row, ToggledDraft(row, false, false));
  }

  lemma FirstSaveLeavesThePageStale(row: Row, w: World)
    requires FittingCaps(row) && row.enabled && !row.autoconnect && w == World(row, [Fresh(row)])
    ensures var after := Act(Act(w, 0, EditToggle(VisitorAutoconnect, true)), 0, Save(false));
            after.server == Toggled(row, true, true) && after.pages == [Page(row, ToggledDraft(row, true, true))]
  {
    ToggledDraftSends(row, true, true);
    var edited := Act(w, 0, EditToggle(VisitorAutoconnect, true));
    assert edited.server == row && edited.pages == [Page(row, ToggledDraft(row, true, true))];
  }

  /** One admin is enough once a refetch fails: the page still shows the row from before the first save. */
  lemma FailedRefetchStrandsTheRow(row: Row)
    requires FittingCaps(row) && row.enabled && !row.autoconnect
    ensures var steps := [(0, EditToggle(VisitorAutoconnect, true)), (0, Save(false)),
                         (0, EditToggle(VisitorEnabled, false)), (0, Save(false))];
            var after := Session(World(row, [Fresh(row)]), steps).server;
            Sound(row) && after == Toggled(row, false, true) && !Sound(after)
  {
    var a, b := (0, EditToggle(VisitorAutoconnect, true)), (0, Save(false));
    var c, d := (0, EditToggle(VisitorEnabled, false)), (0, Save(false));
    var w := World(row, [Fresh(row)]);
    TwoSteps(w, [], a, b);
    assert [] + [a, b] == [a, b];
    FirstSaveLeavesThePageStale(row, w);
    TwoSteps(w, [a, b], c, d);
    StaleSaveStrands(row, Session(w, [a, b]));
    assert [a, b] + [c, d] == [a, b, c, d];
  }

  lemma TwoSteps(w: World, steps: seq<(nat, Action)>, a: (nat, Action), b: (nat, Action))
    requires ForPages(steps, |w.pages|) && a.0 < |w.pages| && b.0 < |w.pages|
    ensures ForPages(steps + [a, b], |w.pages|)
    ensures Session(w, steps + [a, b]) == Act(Act(Session(w, steps), a.0, a.1), b.0, b.1)
  {
    SessionSnoc(w, steps, a);
    SessionSnoc(w, steps + [a], b);
    assert steps + [a] + [b] == steps + [a, b];
  }

  lemma SessionSnoc(w: World, steps: seq<(nat, Action)>, last: (nat, Action))
    requires ForPages(steps, |w.pages|) && last.0 < |w.pages|
    ensures ForPages(steps + [last], |w.pages|)
    ensures Session(w, steps + [last]) == Act(Session(w, steps), last.0, last.1)
  {
    assert (steps + [last])[..|steps|] == steps;
  }
}
