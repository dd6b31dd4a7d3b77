/** The vendored-logo sync: a mirror directory, a generated map that is its receipt, and the runs that
    update both. */
module MirrorSync {
  import opened Wrappers
  import opened Bytes
  import opened FlatMaps
  import opened Ordering
  import opened Strings

  const RADIO_LOGO_DIR: string := "/radio-logos"

  // ---------------------------------------------------------------- naming

  /** A station's artwork URL: none published, not a URL at all, or a URL with this pathname. */
  datatype Logo = NoLogo | Unparseable | At(pathname: string)

  /** The extension of a file name; none without a dot that has something on both sides. */
  function NameExtension(name: string): Option<string> {
    var dot := LastIndexOf(name, '.');
    if dot <= 0 || dot == |name| - 1 then None else Some(Lower(name[dot + 1..]))
  }

  /** The stored extension; `None` where the source throws. */
  function ExtensionOf(logo: Logo): Option<string> {
    match logo
    case NoLogo => Some("svg")
    case Unparseable => None
    case At(pathname) =>
      NameExtension(pathname[LastIndexOf(pathname, '/') + 1..])
  }

  /** The file name of a pathname: what follows its last slash. */
  ghost predicate FileNamed(pathname: string, name: string) {
    '/' !in name && (pathname == name || exists dir :: pathname == dir + "/" + name)
  }

  lemma FileNameIsWhatFollows(pathname: string, name: string)
    ensures FileNamed(pathname, name) <==> name == pathname[LastIndexOf(pathname, '/') + 1..]
  {
    var at := LastIndexOf(pathname, '/');
    TailAvoids(pathname, '/');
    if at >= 0 {
      assert pathname == pathname[..at] + "/" + pathname[at + 1..];
    } else {
      assert pathname[at + 1..] == pathname;
    }
    if FileNamed(pathname, name) && pathname != name {
      var dir :| pathname == dir + "/" + name;
      LastIndexAfter(dir, '/', name);
    }
  }

  /** A file name with something on both sides of its last dot, `ext` behind it. */
  ghost predicate EndsIn(name: string, ext: string) {
    ext != "" && '.' !in ext && exists stem :: stem != "" && name == stem + "." + ext
  }

  lemma NameExtensionFound(name: string, stem: string, ext: string)
    requires name == stem + "." + ext && stem != "" && ext != "" && '.' !in ext
    ensures NameExtension(name) == Some(Lower(ext))
  {
    LastIndexAfter(stem, '.', ext);
    assert name[|stem| + 1..] == ext;
  }

  lemma NameExtensionEnds(name: string) returns (ext: string)
    requires NameExtension(name).Some?
    ensures EndsIn(name, ext) && NameExtension(name) == Some(Lower(ext))
  {
    var dot := LastIndexOf(name, '.');
    ext := name[dot + 1..];
    TailAvoids(name, '.');
    assert name == name[..dot] + "." + ext;
  }

  lemma ExtensionFound(pathname: string, name: string, ext: string)
    requires FileNamed(pathname, name) && EndsIn(name, ext)
    ensures ExtensionOf(At(pathname)) == Some(Lower(ext))
  {
    FileNameIsWhatFollows(pathname, name);
    var stem :| stem != "" && name == stem + "." + ext;
    NameExtensionFound(name, stem, ext);
  }

  lemma ExtensionEnds(pathname: string) returns (name: string, ext: string)
    requires ExtensionOf(At(pathname)).Some?
    ensures FileNamed(pathname, name) && EndsIn(name, ext) && ExtensionOf(At(pathname)) == Some(Lower(ext))
  {
    name := pathname[LastIndexOf(pathname, '/') + 1..];
    FileNameIsWhatFollows(pathname, name);
    ext := NameExtensionEnds(name);
  }

  /** The stored extension is the lower-cased text behind the last dot of the file name, provided there is
      something on both sides of that dot. */
  lemma ExtensionIff(pathname: string, e: string)
    ensures ExtensionOf(At(pathname)) == Some(e)
       <==> exists name, ext :: FileNamed(pathname, name) && EndsIn(name, ext) && e == Lower(ext)
  {
    if exists name, ext :: FileNamed(pathname, name) && EndsIn(name, ext) && e == Lower(ext) {
      var name, ext :| FileNamed(pathname, name) && EndsIn(name, ext) && e == Lower(ext);
      ExtensionFound(pathname, name, ext);
    } else if ExtensionOf(At(pathname)).Some? {
      var name, ext := ExtensionEnds(pathname);
    }
  }

  function VendoredPath(id: string, extension: string): string {
    RADIO_LOGO_DIR + "/" + id + ['.'] + extension
  }

  /** An extension is never empty and holds no dot and no slash. */
  lemma ExtensionIsPlain(logo: Logo)
    requires ExtensionOf(logo).Some?
    ensures var e := ExtensionOf(logo).value; e != "" && '.' !in e && '/' !in e
  {
    if logo.At? {
      var last := logo.pathname[LastIndexOf(logo.pathname, '/') + 1..];
      var dot := LastIndexOf(last, '.');
      TailAvoids(logo.pathname, '/');
      TailAvoids(last, '.');
      SuffixAvoids(last, '/', dot + 1);
      LowerAvoids(last[dot + 1..], '.');
      LowerAvoids(last[dot + 1..], '/');
    } else {
      assert ExtensionOf(logo).value == "svg";
    }
  }

  lemma PathIsSpelled(id: string, extension: string)
    ensures VendoredPath(id, extension) == "/radio-logos/" + id + "." + extension
  {
    assert RADIO_LOGO_DIR + "/" == "/radio-logos/";
  }

  /** Two stations share a mirror path only if they share both id and extension. */
  lemma PathsNeverCollide(id1: string, logo1: Logo, id2: string, logo2: Logo)
    requires ExtensionOf(logo1).Some? && ExtensionOf(logo2).Some?
    requires VendoredPath(id1, ExtensionOf(logo1).value) == VendoredPath(id2, ExtensionOf(logo2).value)
    ensures id1 == id2 && ExtensionOf(logo1) == ExtensionOf(logo2)
  {
    var e1, e2 := ExtensionOf(logo1).value, ExtensionOf(logo2).value;
    ExtensionIsPlain(logo1);
    ExtensionIsPlain(logo2);
    NamesAgree(RADIO_LOGO_DIR + "/", id1, e1, id2, e2);
  }

  lemma NamesAgree(dir: string, id1: string, e1: string, id2: string, e2: string)
    requires dir + id1 + ['.'] + e1 == dir + id2 + ['.'] + e2 && '.' !in e1 && '.' !in e2
    ensures id1 == id2 && e1 == e2
  {
    LastDotSplits(dir + id1, e1, dir + id2, e2);
    PartsAgree(dir, id1, dir, id2);
  }

  lemma LastDotSplits(h1: string, e1: string, h2: string, e2: string)
    requires h1 + ['.'] + e1 == h2 + ['.'] + e2 && '.' !in e1 && '.' !in e2
    ensures h1 == h2 && e1 == e2
  {
    LastIndexAfter(h1, '.', e1);
    LastIndexAfter(h2, '.', e2);
    PartsAgree(h1 + ['.'], e1, h2 + ['.'], e2);
    PartsAgree(h1, ['.'], h2, ['.']);
  }

  lemma PartsAgree(a: string, b: string, c: string, d: string)
    requires a + b == c + d && |a| == |c|
    ensures a == c && b == d
  {
    assert a == (a + b)[..|a|] && b == (a + b)[|a|..];
    assert c == (c + d)[..|c|] && d == (c + d)[|c|..];
  }

  /** Extension to the content type upstream must answer with. */
  function WantedType(extension: string): Option<string> {
    if extension == "jpg" || extension == "jpeg" then Some("image/jpeg")
    else if extension == "png" then Some("image/png")
    else if extension == "gif" then Some("image/gif")
    else if extension == "webp" then Some("image/webp")
    else if extension == "svg" then Some("image/svg+xml")
    else None
  }

  /** The types are the image subtypes named after the extension, `jpg` being JPEG and `svg` an XML format;
      there is no other. */
  lemma WantedTypeMeaning(extension: string)
    ensures WantedType(extension)
         == if extension in {"jpeg", "png", "gif", "webp"} then Some("image/" + extension)
            else if extension == "jpg" then WantedType("jpeg")
            else if extension == "svg" then Some("image/" + extension + "+xml")
            else None
  {
    assert "image/" + "jpeg" == "image/jpeg" && "image/" + "png" == "image/png";
    assert "image/" + "gif" == "image/gif" && "image/" + "webp" == "image/webp";
    assert "image/" + "svg" + "+xml" == "image/svg+xml";
  }

  // ---------------------------------------------------------------- one run

  /** The generated tile of a station without artwork; never empty. */
  type Tile = t: seq<Byte> | t != [] witness [0x3c]

  /** What the network does for one station: no response, a response, or an exception past the fetch. */
  datatype Answer = NoAnswer | Response(status: nat, contentType: string, body: seq<Byte>) | Throws

  datatype Visit = Visit(id: string, logo: Logo, answer: Answer, tile: Tile)

  /** The bytes to store for a station, or `None` for a failure. */
  function Payload(v: Visit, extension: string): Option<seq<Byte>>
    requires !v.answer.Throws?
  {
    if v.logo.NoLogo? then Some(v.tile)
    else
      match v.answer
      case NoAnswer => None
      case Response(status, contentType, body) =>
        if status < 200 || status >= 300 then None
        else if WantedType(extension).None? || !(WantedType(extension).value <= contentType) then None
        else if body == [] then None
        else Some(body)
  }

  /** A visit that ends the whole script: a name with no extension, or an uncaught exception. */
  predicate Aborts(v: Visit) {
    ExtensionOf(v.logo).None? || v.answer.Throws?
  }

  datatype Row = Row(id: string, path: string)

  type Files = map<string, seq<Byte>>

  /** The mirror's files by path, and the rows of the generated map. */
  datatype State = State(files: Files, rows: seq<Row>)

  /** A run: the stations in table order, and how many removals it survives before it is killed between
      the fetches and the map write, if it is. */
  datatype Run = Run(visits: seq<Visit>, killedAfter: Option<nat>)

  datatype Progress = Progress(files: Files, logos: seq<Row>, failures: nat)

  function RowOf(v: Visit): Row
    requires ExtensionOf(v.logo).Some?
  {
    Row(v.id, VendoredPath(v.id, ExtensionOf(v.logo).value))
  }

  /** Progress after one station was stored under `row`, or failed. */
  function Record(p: Progress, row: Row, got: Option<seq<Byte>>): Progress {
    match got
    case Some(bytes) => Progress(p.files[row.path := bytes], p.logos + [row], p.failures)
    case None => p.(failures := p.failures + 1)
  }

  function VisitStep(p: Progress, v: Visit): Progress
    requires !Aborts(v)
  {
    Record(p, RowOf(v), Payload(v, ExtensionOf(v.logo).value))
  }

  /** The fetch loop; the flag says whether every station was visited. */
  function FetchAll(p: Progress, visits: seq<Visit>): (Progress, bool)
    decreases |visits|
  {
    if visits == [] then (p, true)
    else if Aborts(visits[0]) then (p, false)
    else FetchAll(VisitStep(p, visits[0]), visits[1..])
  }

  function Fetched(files: Files, run: Run): (Progress, bool) {
    FetchAll(Progress(files, [], 0), run.visits)
  }

  function PathsOf(rows: seq<Row>): set<string> {
    set r | r in rows :: r.path
  }

  /** Files no station claims, sorted. */
  function Orphans(present: seq<string>, claimed: set<string>): seq<string> {
    Sort(FlatMap(present, (p: string) => if p in claimed then [] else [p]))
  }

  /** A directory listing: each file once, in any order. */
  ghost predicate Lists(present: seq<string>, files: Files) {
    (forall p :: p in present <==> p in files) && forall i, j | 0 <= i < j < |present| :: present[i] != present[j]
  }

  ghost function Listing(names: set<string>): (present: seq<string>)
    ensures forall p :: p in present <==> p in names
    ensures forall i, j | 0 <= i < j < |present| :: present[i] != present[j]
  {
    if names == {} then []
    else
      var p :| p in names;
      Listing(names - {p}) + [p]
  }

  function RowId(row: Row): string { row.id }

  function FirstOf(s: seq<string>, k: Option<nat>): (r: seq<string>)
    ensures r <= s
  {
    if k.Some? && k.value <= |s| then s[..k.value] else s
  }

  function Without(files: Files, gone: seq<string>): Files {
    map p | p in files && p !in gone :: files[p]
  }

  ghost predicate Clean(files: Files, run: Run) {
    var (p, finished) := Fetched(files, run);
    finished && p.failures == 0
  }

  /** The orphans a run removes before it ends or is killed. */
  ghost function Removed(files: Files, run: Run): seq<string> {
    var p := Fetched(files, run).0;
    if Clean(files, run) then FirstOf(Orphans(Listing(p.files.Keys), PathsOf(p.logos)), run.killedAfter) else []
  }

  /** The whole effect of one run. */
  ghost function Step(st: State, run: Run): State {
    var p := Fetched(st.files, run).0;
    if !Clean(st.files, run) then State(p.files, st.rows)
    else
      var files := Without(p.files, Removed(st.files, run));
      if run.killedAfter.Some? then State(files, st.rows) else State(files, SortBy(p.logos, RowId))
  }

  // ---------------------------------------------------------------- the script's loops

  /** A directory listing, in whatever order the files come. */
  method ReadDir(files: Files) returns (present: seq<string>)
    ensures Lists(present, files)
  {
    present := [];
    var left := files.Keys;
    while left != {}
      invariant left <= files.Keys
      invariant forall p :: p in present <==> p in files && p !in left
      invariant forall i, j | 0 <= i < j < |present| :: present[i] != present[j]
      decreases left
    {
      var p :| p in left;
      present := present + [p];
      left := left - {p};
    }
  }

  class Mirror {
    var files: Files
    var rows: seq<Row>

    ghost function Contents(): State
      reads this
    {
      State(files, rows)
    }

    /** Storing what one station's fetch brought. */
    method Store(row: Row, got: Option<seq<Byte>>, logos: seq<Row>, failures: nat) returns (logos': seq<Row>, failures': nat)
      modifies this`files
      ensures Progress(files, logos', failures') == Record(Progress(old(files), logos, failures), row, got)
    {
      if got.None? {
        logos', failures' := logos, failures + 1;
      } else {
        files := files[row.path := got.value];
        logos', failures' := logos + [row], failures;
      }
    }

    /** The fetch loop: bytes are stored as they arrive, failures are counted, an exception ends it. */
    method FetchLogos(visits: seq<Visit>) returns (logos: seq<Row>, failures: nat, finished: bool)
      modifies this`files
      ensures (Progress(files, logos, failures), finished) == FetchAll(Progress(old(files), [], 0), visits)
    {
      logos, failures, finished := [], 0, true;
      ghost var all := FetchAll(Progress(files, [], 0), visits);
      var i := 0;
      assert visits[0..] == visits;
      while i < |visits|
        invariant i <= |visits| && FetchAll(Progress(files, logos, failures), visits[i..]) == all
      {
        FetchAllStep(Progress(files, logos, failures), visits, i);
        if Aborts(visits[i]) {
          finished := false;
          return;
        }
        var v := visits[i];
        logos, failures := Store(RowOf(v), Payload(v, ExtensionOf(v.logo).value), logos, failures);
        i := i + 1;
      }
    }

    /** The prune loop: removes the orphans one by one unless the script is killed on the way. */
    method Prune(orphans: seq<string>, killedAfter: Option<nat>)
      modifies this`files
      ensures files == Without(old(files), FirstOf(orphans, killedAfter))
    {
      var k := 0;
      while k < |orphans| && killedAfter != Some(k)
        invariant k <= |orphans| && (killedAfter.Some? ==> k <= killedAfter.value)
        invariant files == Without(old(files), orphans[..k])
      {
        WithoutOneMore(old(files), orphans, k);
        files := files - {orphans[k]};
        k := k + 1;
      }
      assert orphans[..|orphans|] == orphans;
    }

    /** Fetch every station, then prune, then write the map. With a failure or an exception behind it
        the run ends before anything is deleted. */
    method Sync(run: Run)
      modifies this
      ensures Contents() == Step(old(Contents()), run)
    {
      var logos, failures, finished := FetchLogos(run.visits);
      if !finished || failures > 0 {
        return;
      }
      var present := ReadDir(files);
      OrphansAreCanonical(present, Listing(files.Keys), files, PathsOf(logos));
      Prune(Orphans(present, PathsOf(logos)), run.killedAfter);
      if run.killedAfter.None? {
        rows := SortBy(logos, RowId);
      }
    }
  }

  lemma FetchAllStep(p: Progress, visits: seq<Visit>, i: nat)
    requires i < |visits|
    ensures FetchAll(p, visits[i..])
         == if Aborts(visits[i]) then (p, false) else FetchAll(VisitStep(p, visits[i]), visits[i + 1..])
  {
    assert visits[i..][1..] == visits[i + 1..];
  }

  lemma WithoutOneMore(files: Files, gone: seq<string>, k: nat)
    requires k < |gone|
    ensures Without(files, gone[..k]) - {gone[k]} == Without(files, gone[..k + 1])
  {
    assert gone[..k + 1] == gone[..k] + [gone[k]];
  }

  lemma OrphanMembers(present: seq<string>, claimed: set<string>, p: string)
    ensures p in Orphans(present, claimed) <==> p in present && p !in claimed
  {
    var f := (p: string) => if p in claimed then [] else [p];
    FlatMapMembers(present, f, p);
    assert p in Orphans(present, claimed) <==> p in multiset(Orphans(present, claimed));
    assert p in FlatMap(present, f) <==> p in multiset(FlatMap(present, f));
  }

  /** The order in which the directory is listed does not matter. */
  lemma OrphansAreCanonical(a: seq<string>, b: seq<string>, files: Files, claimed: set<string>)
    requires Lists(a, files) && Lists(b, files)
    ensures Orphans(a, claimed) == Orphans(b, claimed)
  {
    var f := (p: string) => if p in claimed then [] else [p];
    SameElementsPermute(a, b, Identity);
    FlatMapPermutes(a, b, f);
    KeptAreDistinct(a, f);
    KeptAreDistinct(b, f);
    SortIsCanonical(FlatMap(a, f), FlatMap(b, f), Identity);
  }

  lemma {:induction false} KeptAreDistinct(s: seq<string>, f: string -> seq<string>)
    requires DistinctKeys(s, Identity) && forall p :: f(p) == [] || f(p) == [p]
    ensures DistinctKeys(FlatMap(s, f), Identity)
  {
    if s != [] {
      var front, last := s[..|s| - 1], s[|s| - 1];
      KeptAreDistinct(front, f);
      var kept := FlatMap(front, f);
      forall i | 0 <= i < |kept|
        ensures kept[i] != last
      {
        FlatMapMembers(front, f, kept[i]);
        assert kept[i] in kept;
      }
    }
  }

  // ---------------------------------------------------------------- what a clean run is

  /** A visit that stores a file. */
  predicate Succeeds(v: Visit) {
    !Aborts(v) && Payload(v, ExtensionOf(v.logo).value).Some?
  }

  ghost predicate AllSucceed(visits: seq<Visit>) {
    forall i | 0 <= i < |visits| :: Succeeds(visits[i])
  }

  /** One row per station, in table order. */
  function RowsFor(visits: seq<Visit>): (rows: seq<Row>)
    requires AllSucceed(visits)
    ensures |rows| == |visits| && forall i | 0 <= i < |rows| :: rows[i] == RowOf(visits[i])
  {
    if visits == [] then [] else [RowOf(visits[0])] + RowsFor(visits[1..])
  }

  lemma {:induction false} FetchAllCleanIff(p: Progress, visits: seq<Visit>)
    ensures var (q, finished) := FetchAll(p, visits);
            && (finished && q.failures == p.failures <==> AllSucceed(visits))
            && q.failures >= p.failures
    decreases |visits|
  {
    if visits != [] {
      AllSucceedSplits(visits);
      if !Aborts(visits[0]) {
        FetchAllCleanIff(VisitStep(p, visits[0]), visits[1..]);
      }
    }
  }

  lemma AllSucceedSplits(visits: seq<Visit>)
    requires visits != []
    ensures AllSucceed(visits) <==> Succeeds(visits[0]) && AllSucceed(visits[1..])
  {
    assert forall i | 1 <= i < |visits| :: visits[i] == visits[1..][i - 1];
  }

  lemma {:induction false} CleanFetchRecords(p: Progress, visits: seq<Visit>)
    requires AllSucceed(visits)
    ensures FetchAll(p, visits).0.logos == p.logos + RowsFor(visits)
    decreases |visits|
  {
    if visits != [] {
      AllSucceedSplits(visits);
      var v, rest := visits[0], visits[1..];
      CleanFetchRecords(VisitStep(p, v), rest);
      RowsAppend(p.logos, RowOf(v), RowsFor(rest));
    }
  }

  lemma RowsAppend(a: seq<Row>, row: Row, b: seq<Row>)
    ensures a + [row] + b == a + ([row] + b)
  {
  }

  /** A run is clean exactly when every station's visit stores a file; its history plays no part. */
  lemma CleanIffAllSucceed(files: Files, run: Run)
    ensures Clean(files, run) <==> AllSucceed(run.visits)
    ensures Clean(files, run) ==> Fetched(files, run).0.logos == RowsFor(run.visits)
  {
    FetchAllCleanIff(Progress(files, [], 0), run.visits);
    if AllSucceed(run.visits) {
      CleanFetchRecords(Progress(files, [], 0), run.visits);
      assert [] + RowsFor(run.visits) == RowsFor(run.visits);
    }
  }

  /** A good answer for a file of this extension: a 2xx response with a body, of the image type named after it. */
  ghost predicate Serves(answer: Answer, extension: string) {
    && answer.Response? && 200 <= answer.status <= 299 && answer.body != []
    && WantedType(extension).Some? && WantedType(extension).value <= answer.contentType
  }

  lemma PayloadIsTheBodyServed(v: Visit, extension: string)
    requires !v.logo.NoLogo? && !v.answer.Throws?
    ensures Payload(v, extension) == if Serves(v.answer, extension) then Some(v.answer.body) else None
  {
  }

  /** When a visit succeeds, and what it stores: a station that publishes artwork needs a URL with an extension
      and a good answer, and stores its body; one that publishes none gets its tile, as `svg`,
      unless an exception ends the run. */
  lemma SucceedsIff(v: Visit)
    ensures Succeeds(v)
       <==> if v.logo.NoLogo? then !v.answer.Throws? else ExtensionOf(v.logo).Some? && Serves(v.answer, ExtensionOf(v.logo).value)
    ensures Succeeds(v) ==>
              Payload(v, ExtensionOf(v.logo).value) == Some(if v.logo.NoLogo? then v.tile else v.answer.body)
    ensures v.logo.NoLogo? ==> ExtensionOf(v.logo) == Some("svg")
    ensures v.logo.Unparseable? ==> !Succeeds(v)
  {
    if !Aborts(v) && !v.logo.NoLogo? {
      PayloadIsTheBodyServed(v, ExtensionOf(v.logo).value);
    }
  }

  // ---------------------------------------------------------------- what the fetches leave

  /** Every row recorded so far names a nonempty file. */
  ghost predicate Backed(rows: seq<Row>, files: Files) {
    forall r | r in rows :: r.path in files && files[r.path] != []
  }

  /** Fetching only ever adds or replaces files by nonempty ones, under the paths it records. */
  lemma {:induction false} FetchAllOnlyAdds(p: Progress, visits: seq<Visit>, path: string)
    requires Backed(p.logos, p.files)
    ensures var q := FetchAll(p, visits).0;
            && Backed(q.logos, q.files) && p.logos <= q.logos
            && (path in p.files ==> path in q.files)
            && (path in p.files && p.files[path] != [] ==> q.files[path] != [])
            && (path in q.files && path !in PathsOf(q.logos) ==> path in p.files && q.files[path] == p.files[path])
    decreases |visits|
  {
    if visits != [] && !Aborts(visits[0]) {
      var next := VisitStep(p, visits[0]);
      assert Backed(next.logos, next.files);
      FetchAllOnlyAdds(next, visits[1..], path);
      if next.logos != p.logos {
        assert next.logos[|p.logos|] in FetchAll(p, visits).0.logos;
      }
    }
  }

  // ---------------------------------------------------------------- main results

  /** The receipt is honest: every path the generated map names is a nonempty file in the mirror. */
  ghost predicate Honest(st: State) { Backed(st.rows, st.files) }

  /** A run that fails or is cut short while fetching deletes nothing and leaves the map alone. */
  lemma FailingRunDeletesNothing(st: State, run: Run)
    requires !AllSucceed(run.visits)
    ensures Step(st, run).rows == st.rows && st.files.Keys <= Step(st, run).files.Keys
  {
    CleanIffAllSucceed(st.files, run);
    forall path | path in st.files
      ensures path in Step(st, run).files
    {
      FetchAllOnlyAdds(Progress(st.files, [], 0), run.visits, path);
    }
  }

  lemma RemovedAreUnclaimed(st: State, run: Run, path: string)
    requires AllSucceed(run.visits)
    ensures path in Removed(st.files, run) ==> path !in PathsOf(RowsFor(run.visits))
    ensures run.killedAfter.None? ==>
              (path in Removed(st.files, run) <==> path in Fetched(st.files, run).0.files && path !in PathsOf(RowsFor(run.visits)))
  {
    CleanIffAllSucceed(st.files, run);
    var p := Fetched(st.files, run).0;
    var orphans := Orphans(Listing(p.files.Keys), PathsOf(p.logos));
    OrphanMembers(Listing(p.files.Keys), PathsOf(p.logos), path);
    assert Removed(st.files, run) <= orphans;
  }

  /** A clean run ends with exactly one row per station, and the mirror holds exactly the files the map
      names; with distinct ids the rows ascend. */
  lemma CleanRunMirrorsTheTable(st: State, run: Run)
    requires AllSucceed(run.visits) && run.killedAfter.None?
    ensures var after := Step(st, run);
            && multiset(after.rows) == multiset(RowsFor(run.visits)) && |after.rows| == |run.visits|
            && after.files.Keys == PathsOf(after.rows) && Honest(after)
            && (DistinctKeys(RowsFor(run.visits), RowId) ==> Ascending(after.rows, RowId))
  {
    CleanIffAllSucceed(st.files, run);
    var rows, after, p := RowsFor(run.visits), Step(st, run), Fetched(st.files, run).0;
    assert |multiset(after.rows)| == |multiset(rows)|;
    SameMembers(after.rows, rows);
    forall path
      ensures path in after.files <==> path in PathsOf(rows)
      ensures path in after.files ==> after.files[path] != []
    {
      RemovedAreUnclaimed(st, run, path);
      FetchAllOnlyAdds(Progress(st.files, [], 0), run.visits, path);
    }
    if DistinctKeys(rows, RowId) {
      SortAscends(rows, RowId);
    }
  }

  lemma SameMembers(a: seq<Row>, b: seq<Row>)
    requires multiset(a) == multiset(b)
    ensures PathsOf(a) == PathsOf(b)
  {
    forall r
      ensures r in a <==> r in b
    {
      assert r in a <==> r in multiset(a);
      assert r in b <==> r in multiset(b);
    }
  }

  // ---------------------------------------------------------------- killed runs

  /** The paths a table claims, whatever its fetches will bring. */
  function TablePaths(visits: seq<Visit>): set<string> {
    set v | v in visits && ExtensionOf(v.logo).Some? :: RowOf(v).path
  }

  /** The files a table has no use for, in the order a prune would remove them. */
  ghost function Unclaimed(files: Files, visits: seq<Visit>): seq<string> {
    Sort(Listing(files.Keys - TablePaths(visits)))
  }

  lemma {:induction false} TablePathsAreClaimed(visits: seq<Visit>)
    requires AllSucceed(visits)
    ensures TablePaths(visits) == PathsOf(RowsFor(visits))
  {
    forall path
      ensures path in TablePaths(visits) <==> path in PathsOf(RowsFor(visits))
    {
      if path in TablePaths(visits) {
        var v :| v in visits && ExtensionOf(v.logo).Some? && RowOf(v).path == path;
        var i :| 0 <= i < |visits| && visits[i] == v;
        assert RowsFor(visits)[i] in RowsFor(visits);
      }
      if path in PathsOf(RowsFor(visits)) {
        var i :| 0 <= i < |visits| && RowsFor(visits)[i].path == path;
        assert visits[i] in visits && Succeeds(visits[i]);
      }
    }
  }

  /** What a run will remove can be told before it starts, from the mirror and the table. */
  lemma RemovedIsForeseen(files: Files, run: Run)
    requires AllSucceed(run.visits)
    ensures Removed(files, run) == FirstOf(Unclaimed(files, run.visits), run.killedAfter)
  {
    CleanIffAllSucceed(files, run);
    TablePathsAreClaimed(run.visits);
    var fetched, claimed := Fetched(files, run).0.files, TablePaths(run.visits);
    forall path
      ensures path in fetched && path !in claimed <==> path in files && path !in claimed
    {
      FetchAllOnlyAdds(Progress(files, [], 0), run.visits, path);
    }
    OrphansAreWhatIsLeft(Listing(fetched.Keys), claimed, Listing(files.Keys - claimed));
  }

  lemma OrphansAreWhatIsLeft(present: seq<string>, claimed: set<string>, left: seq<string>)
    requires DistinctKeys(present, Identity) && DistinctKeys(left, Identity)
    requires forall p :: p in left <==> p in present && p !in claimed
    ensures Orphans(present, claimed) == Sort(left)
  {
    var f := (p: string) => if p in claimed then [] else [p];
    forall p
      ensures p in FlatMap(present, f) <==> p in left
    {
      FlatMapMembers(present, f, p);
    }
    KeptAreDistinct(present, f);
    SameElementsPermute(FlatMap(present, f), left, Identity);
    SortIsCanonical(FlatMap(present, f), left, Identity);
  }

  /** One run keeps the receipt honest exactly when it is not a clean one killed after removing, of the
      files its table has no use for, one that the old map still names. All of it can be told beforehand. */
  lemma HonestUnlessKilledWhilePruning(st: State, run: Run)
    requires Honest(st)
    ensures Honest(Step(st, run))
       <==> (AllSucceed(run.visits) && run.killedAfter.Some? ==>
               forall r | r in st.rows :: r.path !in FirstOf(Unclaimed(st.files, run.visits), run.killedAfter))
  {
    CleanIffAllSucceed(st.files, run);
    forall r | r in st.rows
      ensures r.path in Fetched(st.files, run).0.files && Fetched(st.files, run).0.files[r.path] != []
    {
      FetchAllOnlyAdds(Progress(st.files, [], 0), run.visits, r.path);
    }
    if AllSucceed(run.visits) {
      RemovedIsForeseen(st.files, run);
      if run.killedAfter.None? {
        CleanRunMirrorsTheTable(st, run);
      }
    }
  }

  /** The table still claims every path the map names. */
  ghost predicate StillClaimed(st: State, visits: seq<Visit>) {
    PathsOf(st.rows) <= TablePaths(visits)
  }

  lemma UnclaimedMembers(files: Files, visits: seq<Visit>, path: string)
    ensures path in Unclaimed(files, visits) <==> path in files && path !in TablePaths(visits)
  {
    var left := Listing(files.Keys - TablePaths(visits));
    assert path in Sort(left) <==> path in multiset(Sort(left));
    assert path in left <==> path in multiset(left);
  }

  /** Whenever the table has dropped a station, a clean run killed just before it writes the map leaves the
      old map naming a file that is gone. */
  lemma KilledRunLosesDroppedStation(st: State, run: Run, r: Row)
    requires Honest(st) && r in st.rows && AllSucceed(run.visits) && r.path !in TablePaths(run.visits)
    requires run.killedAfter.Some? && run.killedAfter.value >= |Unclaimed(st.files, run.visits)|
    ensures !Honest(Step(st, run))
  {
    UnclaimedMembers(st.files, run.visits, r.path);
    HonestUnlessKilledWhilePruning(st, run);
  }

  /** A kill is harmless at every point of a run exactly when the run does not get to pruning or its table
      still claims every path the map names. */
  lemma KillIsHarmlessIff(st: State, visits: seq<Visit>)
    requires Honest(st)
    ensures (forall killedAfter: Option<nat> :: Honest(Step(st, Run(visits, killedAfter))))
       <==> (AllSucceed(visits) ==> StillClaimed(st, visits))
  {
    if AllSucceed(visits) && !StillClaimed(st, visits) {
      var r :| r in st.rows && r.path !in TablePaths(visits);
      var run := Run(visits, Some(|Unclaimed(st.files, visits)|));
      KilledRunLosesDroppedStation(st, run, r);
    } else {
      forall killedAfter: Option<nat>
        ensures Honest(Step(st, Run(visits, killedAfter)))
      {
        KillIsHarmless(st, Run(visits, killedAfter));
      }
    }
  }

  lemma KillIsHarmless(st: State, run: Run)
    requires Honest(st) && (AllSucceed(run.visits) && run.killedAfter.Some? ==> StillClaimed(st, run.visits))
    ensures Honest(Step(st, run))
  {
    HonestUnlessKilledWhilePruning(st, run);
    forall r | r in st.rows && AllSucceed(run.visits) && run.killedAfter.Some?
      ensures r.path !in FirstOf(Unclaimed(st.files, run.visits), run.killedAfter)
    {
      UnclaimedMembers(st.files, run.visits, r.path);
      assert r.path in PathsOf(st.rows);
    }
  }

  ghost function RunAll(st: State, runs: seq<Run>): State {
    if runs == [] then st else Step(RunAll(st, runs[..|runs| - 1]), runs[|runs| - 1])
  }

  /** Each clean run that is killed finds a map whose every path its own table still claims. */
  ghost predicate KillsAreHarmless(st: State, runs: seq<Run>) {
    forall i | 0 <= i < |runs| && AllSucceed(runs[i].visits) && runs[i].killedAfter.Some? ::
      StillClaimed(RunAll(st, runs[..i]), runs[i].visits)
  }

  /** Over any sequence of runs, with changing tables, failing fetches, exceptions and kills anywhere, the
      receipt stays honest as long as no run is killed over a map that names a path its table dropped. */
  lemma {:induction false} ReceiptStaysHonest(st: State, runs: seq<Run>)
    requires Honest(st) && KillsAreHarmless(st, runs)
    ensures Honest(RunAll(st, runs))
  {
    if runs != [] {
      var front, last := runs[..|runs| - 1], runs[|runs| - 1];
      forall i | 0 <= i < |front| && AllSucceed(front[i].visits) && front[i].killedAfter.Some?
        ensures StillClaimed(RunAll(st, front[..i]), front[i].visits)
      {
        assert front[..i] == runs[..i];
      }
      ReceiptStaysHonest(st, front);
      KillIsHarmless(RunAll(st, front), last);
    }
  }

  /** The tables of these runs only grow, from at least what the map names now. */
  ghost predicate TablesOnlyGrow(st: State, runs: seq<Run>) {
    && (forall i | 0 <= i < |runs| :: StillClaimed(st, runs[i].visits))
    && (forall i, j | 0 <= i < j < |runs| :: TablePaths(runs[i].visits) <= TablePaths(runs[j].visits))
  }

  lemma {:induction false} RowsComeFromTables(st: State, runs: seq<Run>, visits: seq<Visit>)
    requires StillClaimed(st, visits) && forall i | 0 <= i < |runs| :: TablePaths(runs[i].visits) <= TablePaths(visits)
    ensures StillClaimed(RunAll(st, runs), visits)
  {
    if runs != [] {
      var front, last := runs[..|runs| - 1], runs[|runs| - 1];
      var before := RunAll(st, front);
      RowsComeFromTables(st, front, visits);
      CleanIffAllSucceed(before.files, last);
      if AllSucceed(last.visits) && last.killedAfter.None? {
        CleanRunMirrorsTheTable(before, last);
        SameMembers(Step(before, last).rows, RowsFor(last.visits));
        TablePathsAreClaimed(last.visits);
      }
    }
  }

  /** While no station is ever dropped or renamed, no kill at any point of any run harms the receipt. */
  lemma GrowingTablesSurviveKills(st: State, runs: seq<Run>)
    requires Honest(st) && TablesOnlyGrow(st, runs)
    ensures Honest(RunAll(st, runs))
  {
    forall i | 0 <= i < |runs| && AllSucceed(runs[i].visits) && runs[i].killedAfter.Some?
      ensures StillClaimed(RunAll(st, runs[..i]), runs[i].visits)
    {
      RowsComeFromTables(st, runs[..i], runs[i].visits);
    }
    ReceiptStaysHonest(st, runs);
  }

  lemma {:induction false} FetchForgets(p1: Progress, p2: Progress, visits: seq<Visit>)
    requires p1.logos == p2.logos && p1.failures == p2.failures && AgreeOnClaimed(p1, p2)
    ensures var (q1, f1) := FetchAll(p1, visits);
            var (q2, f2) := FetchAll(p2, visits);
            f1 == f2 && q1.logos == q2.logos && q1.failures == q2.failures && AgreeOnClaimed(q1, q2)
    decreases |visits|
  {
    if visits != [] && !Aborts(visits[0]) {
      var row, got := RowOf(visits[0]), Payload(visits[0], ExtensionOf(visits[0].logo).value);
      RecordForgets(p1, p2, row, got);
      FetchForgets(Record(p1, row, got), Record(p2, row, got), visits[1..]);
    }
  }

  lemma RecordForgets(p1: Progress, p2: Progress, row: Row, got: Option<seq<Byte>>)
    requires p1.logos == p2.logos && p1.failures == p2.failures && AgreeOnClaimed(p1, p2)
    ensures var q1, q2 := Record(p1, row, got), Record(p2, row, got);
            q1.logos == q2.logos && q1.failures == q2.failures && AgreeOnClaimed(q1, q2)
  {
  }

  /** Two progresses hold the same bytes under every path recorded by the first. */
  ghost predicate AgreeOnClaimed(p1: Progress, p2: Progress) {
    forall x | x in PathsOf(p1.logos) :: x in p1.files && x in p2.files && p1.files[x] == p2.files[x]
  }

  lemma {:induction false} FetchLeavesOtherPaths(p: Progress, visits: seq<Visit>, path: string)
    requires AllSucceed(visits) && path in p.files
    requires forall i | 0 <= i < |visits| :: RowsFor(visits)[i].path != path
    ensures path in FetchAll(p, visits).0.files && FetchAll(p, visits).0.files[path] == p.files[path]
    decreases |visits|
  {
    if visits != [] {
      AllSucceedSplits(visits);
      assert RowsFor(visits)[0].path != path;
      assert forall i | 0 <= i < |visits| - 1 :: RowsFor(visits[1..])[i] == RowsFor(visits)[i + 1];
      FetchLeavesOtherPaths(VisitStep(p, visits[0]), visits[1..], path);
    }
  }

  /** With distinct ids no later station writes over the first one's file. */
  lemma FirstPathIsItsOwn(visits: seq<Visit>, i: nat)
    requires visits != [] && AllSucceed(visits) && AllSucceed(visits[1..]) && DistinctKeys(RowsFor(visits), RowId)
    requires i < |visits| - 1
    ensures RowsFor(visits[1..])[i].path != RowOf(visits[0]).path
  {
    var v, w := visits[0], visits[i + 1];
    assert visits[1..][i] == w && Succeeds(v) && Succeeds(w);
    assert RowId(RowsFor(visits)[0]) != RowId(RowsFor(visits)[i + 1]);
    if RowOf(w).path == RowOf(v).path {
      PathsNeverCollide(w.id, w.logo, v.id, v.logo);
    }
  }

  lemma {:induction false} FetchStoresPayload(p: Progress, visits: seq<Visit>, k: nat)
    requires AllSucceed(visits) && k < |visits| && DistinctKeys(RowsFor(visits), RowId)
    ensures var path, q := RowsFor(visits)[k].path, FetchAll(p, visits).0;
            path in q.files && Some(q.files[path]) == Payload(visits[k], ExtensionOf(visits[k].logo).value)
    decreases |visits|
  {
    AllSucceedSplits(visits);
    var v, rest := visits[0], visits[1..];
    var next := VisitStep(p, v);
    if k > 0 {
      assert forall i | 0 <= i < |rest| :: RowsFor(rest)[i] == RowsFor(visits)[i + 1];
      FetchStoresPayload(next, rest, k - 1);
    } else {
      forall i | 0 <= i < |rest|
        ensures RowsFor(rest)[i].path != RowOf(v).path
      {
        FirstPathIsItsOwn(visits, i);
      }
      FetchLeavesOtherPaths(next, rest, RowOf(v).path);
    }
  }

  /** With distinct ids every station's path holds the bytes its own visit brought. */
  lemma CleanRunStoresEachPayload(st: State, run: Run, k: nat)
    requires AllSucceed(run.visits) && run.killedAfter.None?
    requires k < |run.visits| && DistinctKeys(RowsFor(run.visits), RowId)
    ensures var v := run.visits[k];
            var path := RowOf(v).path;
            path in Step(st, run).files && Some(Step(st, run).files[path]) == Payload(v, ExtensionOf(v.logo).value)
  {
    FetchStoresPayload(Progress(st.files, [], 0), run.visits, k);
    assert RowsFor(run.visits)[k] in RowsFor(run.visits);
    CleanRunKeepsWhatItFetched(st, run, RowsFor(run.visits)[k].path);
  }

  /** Station by station: after a clean run the map sends each one to its own file, named after its id and
      extension, and that file holds what the network answered, or the station's tile. */
  lemma EveryStationIsServed(st: State, run: Run, k: nat)
    requires AllSucceed(run.visits) && run.killedAfter.None?
    requires k < |run.visits| && DistinctKeys(RowsFor(run.visits), RowId)
    ensures var v, after := run.visits[k], Step(st, run);
            ExtensionOf(v.logo).Some?
            && var path := "/radio-logos/" + v.id + "." + ExtensionOf(v.logo).value;
               && Row(v.id, path) in after.rows && path in after.files
               && after.files[path] == (if v.logo.NoLogo? then v.tile else if v.answer.Response? then v.answer.body else [])
  {
    var v, rows := run.visits[k], RowsFor(run.visits);
    assert Succeeds(v);
    PathIsSpelled(v.id, ExtensionOf(v.logo).value);
    SucceedsIff(v);
    CleanRunStoresEachPayload(st, run, k);
    CleanRunKeepsWhatItFetched(st, run, "");
    assert rows[k] in rows && rows[k] == RowOf(v);
    assert rows[k] in multiset(SortBy(rows, RowId));
  }

  /** What a clean run leaves depends on that run alone: it repairs any earlier damage, and repeating it
      changes nothing. */
  lemma CleanRunForgetsHistory(st1: State, st2: State, run: Run)
    requires AllSucceed(run.visits) && run.killedAfter.None?
    ensures Step(st1, run) == Step(st2, run)
    ensures Step(Step(st1, run), run) == Step(st1, run)
  {
    CleanRunsAgree(st1, st2, run);
    CleanRunsAgree(st1, Step(st1, run), run);
  }

  lemma CleanRunsAgree(st1: State, st2: State, run: Run)
    requires AllSucceed(run.visits) && run.killedAfter.None?
    ensures Step(st1, run) == Step(st2, run)
  {
    forall path
      ensures path in Step(st1, run).files <==> path in Step(st2, run).files
      ensures path in Step(st1, run).files ==> Step(st1, run).files[path] == Step(st2, run).files[path]
    {
      CleanFileAgrees(st1, st2, run, path);
    }
    SameFiles(Step(st1, run).files, Step(st2, run).files);
    CleanRunKeepsWhatItFetched(st1, run, "");
    CleanRunKeepsWhatItFetched(st2, run, "");
  }

  lemma SameFiles(a: Files, b: Files)
    requires forall p :: p in a <==> p in b
    requires forall p | p in a :: a[p] == b[p]
    ensures a == b
  {
  }

  lemma CleanFileAgrees(st1: State, st2: State, run: Run, path: string)
    requires AllSucceed(run.visits) && run.killedAfter.None?
    ensures path in Step(st1, run).files <==> path in PathsOf(RowsFor(run.visits))
    ensures path in Step(st2, run).files <==> path in PathsOf(RowsFor(run.visits))
    ensures path in Step(st1, run).files ==> Step(st1, run).files[path] == Step(st2, run).files[path]
  {
    CleanRunKeepsWhatItFetched(st1, run, path);
    CleanRunKeepsWhatItFetched(st2, run, path);
    FetchForgets(Progress(st1.files, [], 0), Progress(st2.files, [], 0), run.visits);
  }

  lemma CleanRunKeepsWhatItFetched(st: State, run: Run, path: string)
    requires AllSucceed(run.visits) && run.killedAfter.None?
    ensures Fetched(st.files, run).0.logos == RowsFor(run.visits) && Step(st, run).rows == SortBy(RowsFor(run.visits), RowId)
    ensures path in Step(st, run).files <==> path in PathsOf(RowsFor(run.visits))
    ensures path in Step(st, run).files ==>
              path in Fetched(st.files, run).0.files && Step(st, run).files[path] == Fetched(st.files, run).0.files[path]
  {
    CleanIffAllSucceed(st.files, run);
    RemovedAreUnclaimed(st, run, path);
    FetchAllOnlyAdds(Progress(st.files, [], 0), run.visits, path);
  }

  /** With distinct ids, two clean runs over reorderings of one table write the same rows. */
  lemma MapIsCanonical(st: State, a: Run, b: Run)
    requires AllSucceed(a.visits) && AllSucceed(b.visits) && a.killedAfter.None? && b.killedAfter.None?
    requires multiset(a.visits) == multiset(b.visits) && DistinctKeys(RowsFor(a.visits), RowId)
    ensures Step(st, a).rows == Step(st, b).rows
  {
    CleanIffAllSucceed(st.files, a);
    CleanIffAllSucceed(st.files, b);
    var f := (v: Visit) => if ExtensionOf(v.logo).Some? then [RowOf(v)] else [];
    FlatMapPermutes(a.visits, b.visits, f);
    RowsAreFlatMap(a.visits, f);
    RowsAreFlatMap(b.visits, f);
    DistinctKeysPermute(RowsFor(a.visits), RowsFor(b.visits), RowId);
    SortIsCanonical(RowsFor(a.visits), RowsFor(b.visits), RowId);
  }

  lemma {:induction false} RowsAreFlatMap(visits: seq<Visit>, f: Visit -> seq<Row>)
    requires AllSucceed(visits) && forall v: Visit | ExtensionOf(v.logo).Some? :: f(v) == [RowOf(v)]
    ensures RowsFor(visits) == FlatMap(visits, f)
  {
    if visits != [] {
      var v, rest := visits[0], visits[1..];
      AllSucceedSplits(visits);
      RowsAreFlatMap(rest, f);
      assert visits == [v] + rest;
      FlatMapAppend([v], rest, f);
      FlatMapSingle(v, f);
    }
  }

  /** The kill is real: station "a" is replaced by "b", neither publishing artwork, and the run is killed
      just before it writes the map. */
  lemma DanglingPathExample(tile: Tile) returns (st: State, run: Run)
    ensures |st.rows| == 1 && |run.visits| == 1 && Honest(st) && AllSucceed(run.visits) && !Honest(Step(st, run))
  {
    var row := Row("a", VendoredPath("a", "svg"));
    st := State(map[row.path := tile], [row]);
    var visits := [Visit("b", NoLogo, NoAnswer, tile)];
    run := Run(visits, Some(|Unclaimed(st.files, visits)|));
    if row.path in TablePaths(visits) {
      PathsNeverCollide("a", NoLogo, "b", NoLogo);
    }
    KilledRunLosesDroppedStation(st, run, row);
  }
}
