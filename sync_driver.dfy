/** The per-entry loop of the catalog sync: for every catalog entry that passes the
    id, limit and area filters, either skip it (it already has real pars), or search
    for it remotely, pick the best match, choose a tee and commit eighteen pars; the
    run keeps attempted / updated / skipped / failed counters and an error log. */
module SyncDriver {
  import opened JsText
  import opened SyncArgs
  import opened SyncNames
  import opened Resolve

  /** A catalog entry as the loop sees it. areaCodes is None when the record holds a
      value other than an array there (a missing or null value reads as the empty list):
      the area filter lets such an entry through, and formatCsv would throw on it when
      the CSV is written, which CsvFormat.CourseFields does not model. */
  datatype Entry = Entry(
    id: string,
    name: string,
    nameKana: string,
    prefecture: string,
    areaCodes: Option<seq<string>>,
    holeCount: Option<int>,
    parTotal: Option<int>,
    pars: seq<int>,
    parOut: Option<int>,
    parIn: Option<int>,
    parSource: Option<string>,
    parTeeName: Option<string>,
    golfcourseapiId: Option<string>)

  /** The options the loop reads: --limit, --tee, --allow-fallback, --force, --areas. */
  datatype Config = Config(
    limit: int,
    teeName: string,
    allowFallback: bool,
    force: bool,
    areaFilter: Option<seq<string>>)

  /** What one search request gives: an error thrown by the fetch, or the courses. */
  datatype SearchResponse = SearchFailed(message: string) | Found(courses: seq<RemoteCourse>)

  datatype FailReason =
    | EmptySearchQuery
    | NoSearchResults(queries: seq<string>)
    | LowMatchScore(query: string)
    | TeeNotFound(query: string)
    | HolesMissing(query: string)
    | RequestFailed(message: string)

  datatype SyncError = SyncError(id: string, reason: FailReason)

  datatype Report = Report(attempted: nat, updated: nat, skipped: nat, failed: nat, errors: seq<SyncError>)

  /** What happened to one entry. */
  datatype Outcome = Skipped | Failed(reason: FailReason) | Updated(next: Entry)

  const NoReport := Report(0, 0, 0, 0, [])

  /** The score a match needs before its pars are taken. */
  const MinMatchScore: real := 0.35

  const ParSource: string := "golfcourseapi"

  // -------------------------------------------------------------------- filters

  /** The area filter: no filter, or an entry without an array of codes, passes;
      otherwise one of its codes must be in the filter. */
  predicate InArea(e: Entry, areaFilter: Option<seq<string>>) {
    areaFilter.None? || e.areaCodes.None?
    || exists c :: c in e.areaCodes.value && c in areaFilter.value
  }

  /** Eighteen pars that are not the all-4 placeholder. */
  predicate HasRealPars(e: Entry) {
    |e.pars| == 18 && !IsLikelyEstimatedPars(e.pars)
  }

  // ---------------------------------------------------------------- the queries

  datatype QueryOutcome = QueryFailed(message: string) | QueryResults(results: seq<RemoteCourse>, usedQuery: string)

  /** The queries are tried in order until one returns courses; a failing request
      ends the search; when none returns courses the results are empty and no query
      counts as used. */
  function RunQueries(queries: seq<string>, search: string -> SearchResponse): QueryOutcome {
    if queries == [] then QueryResults([], "")
    else
      match search(queries[0])
      case SearchFailed(m) => QueryFailed(m)
      case Found(results) =>
        if results != [] then QueryResults(results, queries[0]) else RunQueries(queries[1..], search)
  }

  method SearchInOrder(queries: seq<string>, search: string -> SearchResponse) returns (outcome: QueryOutcome)
    ensures outcome == RunQueries(queries, search)
  {
    var results: seq<RemoteCourse> := [];
    var usedQuery := "";
    var i := 0;
    while i < |queries|
      invariant 0 <= i <= |queries|
      invariant results == [] && usedQuery == ""
      invariant RunQueries(queries, search) == RunQueries(queries[i..], search)
    {
      assert queries[i..][1..] == queries[i + 1..];
      var response := search(queries[i]);
      match response {
        case SearchFailed(m) =>
          return QueryFailed(m);
        case Found(courses) =>
          results := courses;
      }
      if results != [] {
        usedQuery := queries[i];
        return QueryResults(results, usedQuery);
      }
      i := i + 1;
    }
    return QueryResults(results, usedQuery);
  }

  /** A failed query never follows a query with results: the used query is one that
      was tried and returned courses, and all earlier ones returned none. */
  lemma {:induction false} RunQueriesProps(queries: seq<string>, search: string -> SearchResponse)
    ensures match RunQueries(queries, search)
      case QueryResults(results, used) =>
        (results == [] ==> used == [] && forall j :: 0 <= j < |queries| ==> search(queries[j]) == Found([]))
        && (results != [] ==>
              (exists k :: 0 <= k < |queries| && queries[k] == used
                 && search(used) == Found(results)
                 && forall j :: 0 <= j < k ==> search(queries[j]) == Found([])))
      case QueryFailed(m) => exists k :: 0 <= k < |queries| && search(queries[k]) == SearchFailed(m)
    decreases |queries|
  {
    if queries != [] && search(queries[0]).Found? && search(queries[0]).courses == [] {
      RunQueriesProps(queries[1..], search);
      match RunQueries(queries[1..], search)
      case QueryResults(results, used) =>
        if results == [] {
          forall j | 0 <= j < |queries|
            ensures search(queries[j]) == Found([])
          {
            if j > 0 {
              assert queries[j] == queries[1..][j - 1];
            }
          }
        } else {
          var k :| 0 <= k < |queries[1..]| && queries[1..][k] == used
              && search(used) == Found(results)
              && forall j :: 0 <= j < k ==> search(queries[1..][j]) == Found([]);
          assert queries[k + 1] == used;
          assert forall j :: 0 <= j < k + 1 ==> search(queries[j]) == Found([]) by {
            forall j | 0 <= j < k + 1
              ensures search(queries[j]) == Found([])
            {
              if j > 0 {
                assert queries[j] == queries[1..][j - 1];
              }
            }
          }
        }
      case QueryFailed(m) =>
        var k :| 0 <= k < |queries[1..]| && search(queries[1..][k]) == SearchFailed(m);
        assert queries[k + 1] == queries[1..][k];
    }
  }

  // ----------------------------------------------------------- one entry, commit

  /** The fields written on commit: the eighteen pars, the nine-hole sums and the
      total, the source, the tee name (the preferred name when the tee has none),
      the remote id and a hole count of 18. */
  function Commit(e: Entry, pars: seq<int>, tee: Tee, remote: RemoteCourse, cfg: Config): Entry
    requires |pars| == 18
  {
    e.(pars := pars,
       parOut := Some(SumPars(pars[..9])),
       parIn := Some(SumPars(pars[9..18])),
       parTotal := Some(SumPars(pars)),
       parSource := Some(ParSource),
       parTeeName := Some(if tee.teeName != [] then tee.teeName else cfg.teeName),
       golfcourseapiId := remote.id,
       holeCount := Some(18))
  }

  /** The invariant every committed entry satisfies, relative to the entry it came
      from: its identity is untouched and its par fields are consistent. */
  predicate CommittedFrom(before: Entry, after: Entry) {
    && after.id == before.id && after.name == before.name && after.nameKana == before.nameKana
    && after.prefecture == before.prefecture && after.areaCodes == before.areaCodes
    && |after.pars| == 18
    && after.parOut == Some(SumPars(after.pars[..9]))
    && after.parIn == Some(SumPars(after.pars[9..]))
    && after.parTotal == Some(SumPars(after.pars))
    && after.parTotal.value == after.parOut.value + after.parIn.value
    && after.holeCount == Some(18)
    && after.parSource == Some(ParSource)
  }

  lemma CommitProps(e: Entry, pars: seq<int>, tee: Tee, remote: RemoteCourse, cfg: Config)
    requires |pars| == 18
    ensures CommittedFrom(e, Commit(e, pars, tee, remote, cfg))
  {
    assert pars[9..18] == pars[9..];
    assert pars == pars[..9] + pars[9..];
    SumParsAppend(pars[..9], pars[9..]);
  }

  /** The decision for one entry that passed the filters. */
  ghost function Process(e: Entry, cfg: Config, search: string -> SearchResponse, toRomaji: string -> string): Outcome {
    if !cfg.force && e.parSource == Some(ParSource) && HasRealPars(e) then Skipped
    else if !cfg.force && HasRealPars(e) then Skipped
    else
      var queries := BuildSearchQueries(e.name, e.nameKana, toRomaji);
      if queries == [] then Failed(EmptySearchQuery)
      else
        match RunQueries(queries, search)
        case QueryFailed(m) => Failed(RequestFailed(m))
        case QueryResults(results, used) =>
          if results == [] then Failed(NoSearchResults(queries))
          else
            match BestMatch(results, NonEmpty([e.name, e.nameKana, used]))
            case None => Failed(LowMatchScore(used))
            case Some(best) =>
              if best.score < MinMatchScore then Failed(LowMatchScore(used))
              else
                match SelectTee(best.course, cfg.teeName, cfg.allowFallback)
                case None => Failed(TeeNotFound(used))
                case Some(tee) =>
                  match ExtractPars(tee)
                  case None => Failed(HolesMissing(used))
                  case Some(pars) => Updated(Commit(e, pars, tee, best.course, cfg))
  }

  method ProcessEntry(e: Entry, cfg: Config, search: string -> SearchResponse, toRomaji: string -> string)
    returns (outcome: Outcome)
    ensures outcome == Process(e, cfg, search, toRomaji)
  {
    var hasRealPars := |e.pars| == 18 && !IsLikelyEstimatedPars(e.pars);
    if !cfg.force && e.parSource == Some(ParSource) && hasRealPars {
      return Skipped;
    }
    if !cfg.force && hasRealPars {
      return Skipped;
    }
    var queries := BuildSearchQueries(e.name, e.nameKana, toRomaji);
    if queries == [] {
      return Failed(EmptySearchQuery);
    }
    var found := SearchInOrder(queries, search);
    if found.QueryFailed? {
      return Failed(RequestFailed(found.message));
    }
    var results, used := found.results, found.usedQuery;
    if results == [] {
      return Failed(NoSearchResults(queries));
    }
    var best := PickBestMatch(results, NonEmpty([e.name, e.nameKana, used]));
    if best.None? || best.value.score < MinMatchScore {
      return Failed(LowMatchScore(used));
    }
    var tee := SelectTeeBox(best.value.course, cfg.teeName, cfg.allowFallback);
    if tee.None? {
      return Failed(TeeNotFound(used));
    }
    var pars := ExtractPars(tee.value);
    if pars.None? {
      return Failed(HolesMissing(used));
    }
    return Updated(Commit(e, pars.value, tee.value, best.value.course, cfg));
  }

  /** An entry is changed only when a match scoring at least 0.35 was found, a tee
      was chosen and eighteen pars were read from it; the result is then committed
      with consistent par fields. */
  lemma ProcessUpdated(e: Entry, cfg: Config, search: string -> SearchResponse, toRomaji: string -> string)
    requires Process(e, cfg, search, toRomaji).Updated?
    ensures CommittedFrom(e, Process(e, cfg, search, toRomaji).next)
    ensures cfg.force || !HasRealPars(e)
    ensures var queries := BuildSearchQueries(e.name, e.nameKana, toRomaji);
      && RunQueries(queries, search).QueryResults?
      && var found := RunQueries(queries, search);
      && found.results != []
      && var best := BestMatch(found.results, NonEmpty([e.name, e.nameKana, found.usedQuery]));
      && best.Some? && best.value.score >= MinMatchScore
      && SelectTee(best.value.course, cfg.teeName, cfg.allowFallback).Some?
      && ExtractPars(SelectTee(best.value.course, cfg.teeName, cfg.allowFallback).value).Some?
  {
    var queries := BuildSearchQueries(e.name, e.nameKana, toRomaji);
    var found := RunQueries(queries, search);
    var best := BestMatch(found.results, NonEmpty([e.name, e.nameKana, found.usedQuery]));
    var tee := SelectTee(best.value.course, cfg.teeName, cfg.allowFallback);
    CommitProps(e, ExtractPars(tee.value).value, tee.value, best.value.course, cfg);
  }

  // ------------------------------------------------------------------ the loop

  /** The counters and the log after one entry's outcome: an empty query is a
      failure that does not count as attempted. */
  function Tally(r: Report, id: string, o: Outcome): Report {
    match o
    case Skipped => r.(skipped := r.skipped + 1)
    case Failed(EmptySearchQuery) => r.(failed := r.failed + 1, errors := r.errors + [SyncError(id, EmptySearchQuery)])
    case Failed(reason) =>
      r.(failed := r.failed + 1, errors := r.errors + [SyncError(id, reason)], attempted := r.attempted + 1)
    case Updated(_) => r.(updated := r.updated + 1, attempted := r.attempted + 1)
  }

  function Apply(e: Entry, o: Outcome): Entry {
    if o.Updated? then o.next else e
  }

  /** The loop from position i on: entries without an id are passed over, the loop
      stops once the limit of attempts is reached, entries outside the areas are
      passed over, and every other entry is processed in place. */
  ghost function RunFrom(es: seq<Entry>, i: nat, cfg: Config, search: string -> SearchResponse,
                         toRomaji: string -> string, r: Report): (res: (seq<Entry>, Report))
    requires i <= |es|
    ensures |res.0| == |es|
    decreases |es| - i
  {
    if i == |es| then (es, r)
    else if es[i].id == [] then RunFrom(es, i + 1, cfg, search, toRomaji, r)
    else if cfg.limit > 0 && r.attempted >= cfg.limit then (es, r)
    else if !InArea(es[i], cfg.areaFilter) then RunFrom(es, i + 1, cfg, search, toRomaji, r)
    else
      var o := Process(es[i], cfg, search, toRomaji);
      RunFrom(es[i := Apply(es[i], o)], i + 1, cfg, search, toRomaji, Tally(r, es[i].id, o))
  }

  /** One step of the run at an entry that passes the filters. */
  lemma RunFromProcessed(es: seq<Entry>, i: nat, cfg: Config, search: string -> SearchResponse,
                         toRomaji: string -> string, r: Report)
    requires i < |es| && es[i].id != [] && !(cfg.limit > 0 && r.attempted >= cfg.limit)
    requires InArea(es[i], cfg.areaFilter)
    ensures var o := Process(es[i], cfg, search, toRomaji);
      RunFrom(es, i, cfg, search, toRomaji, r)
      == RunFrom(es[i := Apply(es[i], o)], i + 1, cfg, search, toRomaji, Tally(r, es[i].id, o))
  {
  }

  /** The whole run over the catalog, updating the entries in place. */
  method SyncCatalog(courses: array<Entry>, cfg: Config, search: string -> SearchResponse, toRomaji: string -> string)
    returns (report: Report)
    modifies courses
    ensures (courses[..], report) == RunFrom(old(courses[..]), 0, cfg, search, toRomaji, NoReport)
  {
    report := NoReport;
    var i := 0;
    while i < courses.Length
      invariant 0 <= i <= courses.Length
      invariant RunFrom(courses[..], i, cfg, search, toRomaji, report)
             == RunFrom(old(courses[..]), 0, cfg, search, toRomaji, NoReport)
    {
      var course := courses[i];
      if course.id == [] {
        i := i + 1;
        continue;
      }
      if cfg.limit > 0 && report.attempted >= cfg.limit {
        break;
      }
      if !InArea(course, cfg.areaFilter) {
        i := i + 1;
        continue;
      }
      var outcome := ProcessEntry(course, cfg, search, toRomaji);
      ghost var before := courses[..];
      RunFromProcessed(before, i, cfg, search, toRomaji, report);
      if outcome.Updated? {
        courses[i] := outcome.next;
      }
      assert courses[..] == before[i := Apply(course, outcome)];
      report := Tally(report, course.id, outcome);
      i := i + 1;
    }
  }

  // -------------------------------------------------------------- accounting

  /** The errors that also count as attempts: all but the empty-query ones. */
  function AttemptedErrors(errors: seq<SyncError>): nat {
    if errors == [] then 0
    else AttemptedErrors(errors[..|errors| - 1]) + if errors[|errors| - 1].reason == EmptySearchQuery then 0 else 1
  }

  /** Every failure logs exactly one error, and every attempt ends in an update or
      in a failure other than an empty query. */
  predicate Consistent(r: Report) {
    |r.errors| == r.failed && r.attempted == r.updated + AttemptedErrors(r.errors)
  }

  /** One outcome adds exactly one to updated, skipped or failed, at most one attempt,
      and keeps the report consistent. */
  lemma TallyProps(r: Report, id: string, o: Outcome)
    requires Consistent(r)
    ensures var t := Tally(r, id, o);
      && Consistent(t)
      && t.updated + t.skipped + t.failed == r.updated + r.skipped + r.failed + 1
      && r.attempted <= t.attempted <= r.attempted + 1
      && r.errors <= t.errors
  {
    var t := Tally(r, id, o);
    if o.Failed? {
      assert t.errors[..|t.errors| - 1] == r.errors;
    }
  }

  /** The run keeps the report consistent. */
  lemma {:induction false} RunFromConsistent(es: seq<Entry>, i: nat, cfg: Config, search: string -> SearchResponse,
                                              toRomaji: string -> string, r: Report)
    requires i <= |es| && Consistent(r)
    ensures Consistent(RunFrom(es, i, cfg, search, toRomaji, r).1)
    decreases |es| - i
  {
    if i < |es| {
      if es[i].id == [] || !InArea(es[i], cfg.areaFilter) {
        if !(es[i].id != [] && cfg.limit > 0 && r.attempted >= cfg.limit) {
          RunFromConsistent(es, i + 1, cfg, search, toRomaji, r);
        }
      } else if !(cfg.limit > 0 && r.attempted >= cfg.limit) {
        var o := Process(es[i], cfg, search, toRomaji);
        TallyProps(r, es[i].id, o);
        RunFromConsistent(es[i := Apply(es[i], o)], i + 1, cfg, search, toRomaji, Tally(r, es[i].id, o));
      }
    }
  }

  /** With a positive limit, the run never attempts more entries than the limit. */
  lemma {:induction false} RunFromLimit(es: seq<Entry>, i: nat, cfg: Config, search: string -> SearchResponse,
                                         toRomaji: string -> string, r: Report)
    requires i <= |es| && cfg.limit > 0 && r.attempted <= cfg.limit
    ensures RunFrom(es, i, cfg, search, toRomaji, r).1.attempted <= cfg.limit
    decreases |es| - i
  {
    if i < |es| {
      if es[i].id == [] || !InArea(es[i], cfg.areaFilter) {
        if !(es[i].id != [] && r.attempted >= cfg.limit) {
          RunFromLimit(es, i + 1, cfg, search, toRomaji, r);
        }
      } else if r.attempted < cfg.limit {
        var o := Process(es[i], cfg, search, toRomaji);
        RunFromLimit(es[i := Apply(es[i], o)], i + 1, cfg, search, toRomaji, Tally(r, es[i].id, o));
      }
    }
  }

  lemma CommittedTransitive(a: Entry, b: Entry, c: Entry)
    requires CommittedFrom(a, b) && CommittedFrom(b, c)
    ensures CommittedFrom(a, c)
  {
  }

  /** Same length, and every entry is either untouched or committed from the entry it
      replaced. */
  predicate Evolved(before: seq<Entry>, after: seq<Entry>) {
    |after| == |before|
    && forall k :: 0 <= k < |before| ==> after[k] == before[k] || CommittedFrom(before[k], after[k])
  }

  lemma EvolvedTransitive(a: seq<Entry>, b: seq<Entry>, c: seq<Entry>)
    requires Evolved(a, b) && Evolved(b, c)
    ensures Evolved(a, c)
  {
    forall k | 0 <= k < |a| && c[k] != a[k]
      ensures CommittedFrom(a[k], c[k])
    {
      if b[k] != a[k] && c[k] != b[k] {
        CommittedTransitive(a[k], b[k], c[k]);
      }
    }
  }

  /** The run changes the catalog only by commits. */
  lemma {:induction false} RunFromCommits(es: seq<Entry>, i: nat, cfg: Config, search: string -> SearchResponse,
                                           toRomaji: string -> string, r: Report)
    requires i <= |es|
    ensures Evolved(es, RunFrom(es, i, cfg, search, toRomaji, r).0)
    decreases |es| - i
  {
    if i == |es| || (es[i].id != [] && cfg.limit > 0 && r.attempted >= cfg.limit) {
      assert RunFrom(es, i, cfg, search, toRomaji, r).0 == es;
    } else if es[i].id == [] || !InArea(es[i], cfg.areaFilter) {
      RunFromCommits(es, i + 1, cfg, search, toRomaji, r);
    } else {
      var o := Process(es[i], cfg, search, toRomaji);
      var next := es[i := Apply(es[i], o)];
      RunFromProcessed(es, i, cfg, search, toRomaji, r);
      RunFromCommits(next, i + 1, cfg, search, toRomaji, Tally(r, es[i].id, o));
      if o.Updated? {
        ProcessUpdated(es[i], cfg, search, toRomaji);
      }
      assert Evolved(es, next);
      EvolvedTransitive(es, next, RunFrom(next, i + 1, cfg, search, toRomaji, Tally(r, es[i].id, o)).0);
    }
  }

  /** Without --force, a run over entries that all hold eighteen real pars skips every
      one it reaches: nothing changes and only the skipped counter moves. */
  lemma {:induction false} RerunUnchanged(es: seq<Entry>, i: nat, cfg: Config, search: string -> SearchResponse,
                                           toRomaji: string -> string, r: Report)
    requires i <= |es| && !cfg.force
    requires forall k :: i <= k < |es| ==> HasRealPars(es[k])
    ensures RunFrom(es, i, cfg, search, toRomaji, r).0 == es
    ensures var r2 := RunFrom(es, i, cfg, search, toRomaji, r).1;
      r2.attempted == r.attempted && r2.updated == r.updated && r2.failed == r.failed
      && r2.errors == r.errors && r2.skipped >= r.skipped
    decreases |es| - i
  {
    if i < |es| {
      if es[i].id == [] || !InArea(es[i], cfg.areaFilter) {
        if !(es[i].id != [] && cfg.limit > 0 && r.attempted >= cfg.limit) {
          RerunUnchanged(es, i + 1, cfg, search, toRomaji, r);
        }
      } else if !(cfg.limit > 0 && r.attempted >= cfg.limit) {
        assert Process(es[i], cfg, search, toRomaji) == Skipped;
        assert es[i := es[i]] == es;
        RerunUnchanged(es, i + 1, cfg, search, toRomaji, r.(skipped := r.skipped + 1));
      }
    }
  }

  /** A committed entry whose pars are not the placeholder holds eighteen real pars,
      so a run without --force that reads it back skips it. */
  lemma CommittedHasRealPars(before: Entry, after: Entry)
    requires CommittedFrom(before, after) && !IsLikelyEstimatedPars(after.pars)
    ensures HasRealPars(after)
  {
  }

  /** The run leaves the entries before its starting position untouched. */
  lemma {:induction false} RunFromBefore(es: seq<Entry>, i: nat, cfg: Config, search: string -> SearchResponse,
                                          toRomaji: string -> string, r: Report)
    requires i <= |es|
    ensures |RunFrom(es, i, cfg, search, toRomaji, r).0| == |es|
    ensures forall k :: 0 <= k < i ==> RunFrom(es, i, cfg, search, toRomaji, r).0[k] == es[k]
    decreases |es| - i
  {
    if i == |es| || (es[i].id != [] && cfg.limit > 0 && r.attempted >= cfg.limit) {
    } else if es[i].id == [] || !InArea(es[i], cfg.areaFilter) {
      RunFromBefore(es, i + 1, cfg, search, toRomaji, r);
    } else {
      var o := Process(es[i], cfg, search, toRomaji);
      RunFromProcessed(es, i, cfg, search, toRomaji, r);
      RunFromBefore(es[i := Apply(es[i], o)], i + 1, cfg, search, toRomaji, Tally(r, es[i].id, o));
    }
  }

  /** An entry the run changed is one it reached and processed to a commit, and its
      new value is exactly that commit. */
  lemma {:induction false} RunFromChanged(es: seq<Entry>, i: nat, cfg: Config, search: string -> SearchResponse,
                                           toRomaji: string -> string, r: Report, k: nat)
    requires i <= |es| && k < |es|
    requires RunFrom(es, i, cfg, search, toRomaji, r).0[k] != es[k]
    ensures i <= k
    ensures Process(es[k], cfg, search, toRomaji) == Updated(RunFrom(es, i, cfg, search, toRomaji, r).0[k])
    decreases |es| - i
  {
    RunFromBefore(es, i, cfg, search, toRomaji, r);
    if i == |es| || (es[i].id != [] && cfg.limit > 0 && r.attempted >= cfg.limit) {
    } else if es[i].id == [] || !InArea(es[i], cfg.areaFilter) {
      RunFromChanged(es, i + 1, cfg, search, toRomaji, r, k);
    } else {
      var o := Process(es[i], cfg, search, toRomaji);
      var next := es[i := Apply(es[i], o)];
      var r2 := Tally(r, es[i].id, o);
      RunFromProcessed(es, i, cfg, search, toRomaji, r);
      RunFromBefore(next, i + 1, cfg, search, toRomaji, r2);
      if k == i {
        assert RunFrom(next, i + 1, cfg, search, toRomaji, r2).0[k] == next[k];
      } else {
        RunFromChanged(next, i + 1, cfg, search, toRomaji, r2, k);
      }
    }
  }

  // ------------------------------------------------------------- what is saved

  /** The catalog the JSON output holds after a run: the output is the parsed input
      with only its meta block added, so a later run reads every entry as it was
      before this run; the commits reach the CSV only. */
  function SavedJson(before: seq<Entry>, after: seq<Entry>): seq<Entry> {
    before
  }

  /** The catalog the JSON output would hold if the committed fields were written
      back: the entries as the run left them. */
  function SavedJsonCorrected(before: seq<Entry>, after: seq<Entry>): seq<Entry> {
    after
  }

  /** As written, an entry the run committed is, in the saved JSON, still the entry it
      was: it lacks real pars (or --force was set), so a later run with the same
      options and the same remote answers searches for it again and commits the same
      pars again instead of skipping it. */
  lemma RerunRepeatsCommit(es: seq<Entry>, cfg: Config, search: string -> SearchResponse,
                           toRomaji: string -> string, k: nat)
    requires k < |es|
    requires RunFrom(es, 0, cfg, search, toRomaji, NoReport).0[k] != es[k]
    ensures var after := RunFrom(es, 0, cfg, search, toRomaji, NoReport).0;
      var saved := SavedJson(es, after);
      && |saved| == |after|
      && saved[k] != after[k]
      && (cfg.force || !HasRealPars(saved[k]))
      && Process(saved[k], cfg, search, toRomaji) == Updated(after[k])
  {
    RunFromBefore(es, 0, cfg, search, toRomaji, NoReport);
    RunFromChanged(es, 0, cfg, search, toRomaji, NoReport, k);
    ProcessUpdated(es[k], cfg, search, toRomaji);
  }

  /** With the committed fields saved, an entry the run committed with pars other than
      the all-4 placeholder carries the sync's source tag and real pars, so any later
      run without --force skips it whatever the remote answers. */
  lemma RerunSkipsCommitted(es: seq<Entry>, cfg: Config, search: string -> SearchResponse,
                            toRomaji: string -> string, k: nat,
                            cfg2: Config, search2: string -> SearchResponse, toRomaji2: string -> string)
    requires k < |es| && !cfg2.force
    requires RunFrom(es, 0, cfg, search, toRomaji, NoReport).0[k] != es[k]
    requires !IsLikelyEstimatedPars(RunFrom(es, 0, cfg, search, toRomaji, NoReport).0[k].pars)
    ensures var saved := SavedJsonCorrected(es, RunFrom(es, 0, cfg, search, toRomaji, NoReport).0);
      && k < |saved|
      && saved[k].parSource == Some(ParSource)
      && HasRealPars(saved[k])
      && Process(saved[k], cfg2, search2, toRomaji2) == Skipped
  {
    var after := RunFrom(es, 0, cfg, search, toRomaji, NoReport).0;
    RunFromBefore(es, 0, cfg, search, toRomaji, NoReport);
    RunFromChanged(es, 0, cfg, search, toRomaji, NoReport, k);
    ProcessUpdated(es[k], cfg, search, toRomaji);
    CommittedHasRealPars(es[k], after[k]);
  }
}
