/** The file/session matrix: parsed, sorted by resource and handed out page by page. */
module CoordinationView {
  import opened Wrappers
  import Sorting

  const MAX_ROWS := 4096
  const MAX_TEXT := 4096

  datatype ViewError = InvalidArgument | StaleRegistry

  /** One row; `details` stands for the columns beside the resource. */
  datatype Row = Row(resource: string, details: string)

  /** What decoding a cursor's text can give. */
  datatype Cursor = Garbled | Cursor(revision: nat, lastResource: string)

  datatype Filter = Filter(limit: int, cursor: Option<Cursor>)

  datatype Projection = Unavailable(reason: string) | Available(rows: seq<Row>, truncated: bool, cursor: Option<Cursor>)

  /** The observation inside a snapshot: unknown, or rows that still have to be checked. */
  datatype Observation = Unknown(reason: string) | Known(rows: seq<Row>)

  datatype RuntimeSnapshot = RuntimeSnapshot(revision: nat, coordination: Observation)

  function ResourceOf(r: Row): string {
    r.resource
  }

  /** Rows that parse: few enough, short names, no resource twice. */
  predicate WellFormed(rows: seq<Row>) {
    && |rows| <= MAX_ROWS
    && (forall r :: r in rows ==> |r.resource| <= MAX_TEXT)
    && forall i, j :: 0 <= i < j < |rows| ==> rows[i].resource != rows[j].resource
  }

  /** `parseCoordinationValue`: all rows sorted by resource, or an error. */
  method ParseRows(rows: seq<Row>) returns (r: Result<seq<Row>, ViewError>)
    ensures r == if WellFormed(rows) then Ok(Sorting.SortBy(rows, ResourceOf)) else Err(InvalidArgument)
  {
    if |rows| > MAX_ROWS { return Err(InvalidArgument); }
    var resources: set<string> := {};
    for k := 0 to |rows|
      invariant forall name :: name in resources <==> exists i :: 0 <= i < k && rows[i].resource == name
      invariant forall i, j :: 0 <= i < j < k ==> rows[i].resource != rows[j].resource
      invariant forall i :: 0 <= i < k ==> |rows[i].resource| <= MAX_TEXT
    {
      if |rows[k].resource| > MAX_TEXT { return Err(InvalidArgument); }
      if rows[k].resource in resources { return Err(InvalidArgument); }
      resources := resources + {rows[k].resource};
    }
    return Ok(Sorting.SortBy(rows, ResourceOf));
  }

  function ValidateFilter(f: Filter): Result<Filter, ViewError> {
    if f.limit < 1 || f.limit > MAX_ROWS then Err(InvalidArgument) else Ok(f)
  }

  function DecodeCursor(c: Cursor, revision: nat): Result<string, ViewError> {
    match c
    case Garbled => Err(InvalidArgument)
    case Cursor(r, last) =>
      if |last| > MAX_TEXT then Err(InvalidArgument)
      else if r != revision then Err(StaleRegistry)
      else Ok(last)
  }

  /** The first row after `last`, or the end. */
  function FirstAfter(rows: seq<Row>, last: string): nat {
    if rows == [] || !Sorting.Le(rows[0].resource, last) then 0 else 1 + FirstAfter(rows[1..], last)
  }

  function Start(rows: seq<Row>, last: Option<string>): nat {
    if last == None then 0 else FirstAfter(rows, last.value)
  }

  function Page(rows: seq<Row>, start: nat, limit: nat): seq<Row>
    requires start <= |rows|
  {
    rows[start..if start + limit <= |rows| then start + limit else |rows|]
  }

  function ProjectRows(rows: seq<Row>, revision: nat, last: Option<string>, limit: nat): Projection
    requires limit >= 1 && Start(rows, last) <= |rows|
  {
    var start := Start(rows, last);
    var page := Page(rows, start, limit);
    var truncated := start + |page| < |rows|;
    Available(page, truncated,
              if !truncated || page == [] then None else Some(Cursor(revision, page[|page| - 1].resource)))
  }

  lemma {:induction false} FirstAfterIsFirst(rows: seq<Row>, last: string)
    ensures FirstAfter(rows, last) <= |rows|
    ensures forall k :: 0 <= k < FirstAfter(rows, last) ==> Sorting.Le(rows[k].resource, last)
    ensures FirstAfter(rows, last) < |rows| ==> !Sorting.Le(rows[FirstAfter(rows, last)].resource, last)
  {
    if rows != [] && Sorting.Le(rows[0].resource, last) {
      FirstAfterIsFirst(rows[1..], last);
    }
  }

  method TakePage(rows: seq<Row>, revision: nat, last: Option<string>, limit: nat) returns (page: Projection)
    requires limit >= 1 && Start(rows, last) <= |rows|
    ensures page == ProjectRows(rows, revision, last, limit)
  {
    var firstIndex := if last == None then 0 else FirstAfter(rows, last.value);
    var end := if firstIndex + limit <= |rows| then firstIndex + limit else |rows|;
    var taken := rows[firstIndex..end];
    var truncated := firstIndex + |taken| < |rows|;
    var nextCursor: Option<Cursor> := None;
    if truncated && taken != [] {
      nextCursor := Some(Cursor(revision, taken[|taken| - 1].resource));
    }
    return Available(taken, truncated, nextCursor);
  }

  /** `projectFileSessionMatrix`. */
  method ProjectFileSessionMatrix(snapshot: RuntimeSnapshot, filter: Filter) returns (r: Result<Projection, ViewError>)
    ensures r == Projected(snapshot, filter)
  {
    var f := ValidateFilter(filter);
    if f.Err? { return Err(f.error); }
    if snapshot.coordination.Unknown? { return Ok(Unavailable(snapshot.coordination.reason)); }
    var parsed := ParseRows(snapshot.coordination.rows);
    if parsed.Err? { return Err(parsed.error); }
    var last: Option<string> := None;
    if filter.cursor.Some? {
      var decoded := DecodeCursor(filter.cursor.value, snapshot.revision);
      if decoded.Err? { return Err(decoded.error); }
      last := Some(decoded.value);
      FirstAfterIsFirst(parsed.value, decoded.value);
    }
    var page := TakePage(parsed.value, snapshot.revision, last, filter.limit);
    return Ok(page);
  }

  function Projected(snapshot: RuntimeSnapshot, filter: Filter): Result<Projection, ViewError> {
    match ValidateFilter(filter)
    case Err(e) => Err(e)
    case Ok(_) =>
      match snapshot.coordination
      case Unknown(reason) => Ok(Unavailable(reason))
      case Known(rows) =>
        if !WellFormed(rows) then Err(InvalidArgument)
        else
          match if filter.cursor == None then Ok("") else DecodeCursor(filter.cursor.value, snapshot.revision)
          case Err(e) => Err(e)
          case Ok(last) =>
            var sorted := Sorting.SortBy(rows, ResourceOf);
            var from := if filter.cursor == None then None else Some(last);
            FirstAfterIsFirst(sorted, last);
            Ok(ProjectRows(sorted, snapshot.revision, from, filter.limit))
  }

  // ----- Following cursors

  ghost predicate StrictlySorted(rows: seq<Row>) {
    forall i, j :: 0 <= i < j < |rows| ==> !Sorting.Le(rows[j].resource, rows[i].resource)
  }

  lemma ParsedIsStrictlySorted(rows: seq<Row>)
    requires WellFormed(rows)
    ensures StrictlySorted(Sorting.SortBy(rows, ResourceOf))
    ensures forall r :: r in Sorting.SortBy(rows, ResourceOf) <==> r in rows
    ensures |Sorting.SortBy(rows, ResourceOf)| == |rows|
  {
    var sorted := Sorting.SortBy(rows, ResourceOf);
    Sorting.SortSorts(rows, ResourceOf);
    Sorting.SortKeepsElements(rows, ResourceOf);
    assert Sorting.HasDistinctKeys(rows, ResourceOf);
    Sorting.DistinctKeysAfterReordering(rows, sorted, ResourceOf);
    forall i, j | 0 <= i < j < |sorted| ensures !Sorting.Le(sorted[j].resource, sorted[i].resource) {
      assert ResourceOf(sorted[i]) != ResourceOf(sorted[j]);
      assert Sorting.Le(ResourceOf(sorted[i]), ResourceOf(sorted[j]));
      if Sorting.Le(sorted[j].resource, sorted[i].resource) {
        Sorting.LeAntisymmetric(sorted[i].resource, sorted[j].resource);
      }
    }
  }

  /** In a strictly sorted list only row `k + 1` can be the first one after row `k`. */
  lemma OnlyTheNextRow(rows: seq<Row>, k: nat, f: nat)
    requires StrictlySorted(rows) && k < |rows| && f <= |rows|
    requires forall j :: 0 <= j < f ==> Sorting.Le(rows[j].resource, rows[k].resource)
    requires f < |rows| ==> !Sorting.Le(rows[f].resource, rows[k].resource)
    ensures f == k + 1
  {
    Sorting.LeReflexive(rows[k].resource);
    assert k + 1 < |rows| ==> !Sorting.Le(rows[k + 1].resource, rows[k].resource);
    if f < k { Sorting.LeTotal(rows[f].resource, rows[k].resource); }
  }

  /** The cursor after row `k` leads to row `k + 1`. */
  lemma CursorLeadsOn(rows: seq<Row>, k: nat)
    requires StrictlySorted(rows) && k < |rows|
    ensures FirstAfter(rows, rows[k].resource) == k + 1
  {
    FirstAfterIsFirst(rows, rows[k].resource);
    OnlyTheNextRow(rows, k, FirstAfter(rows, rows[k].resource));
  }

  ghost predicate LimitsAreValid(limits: nat -> int) {
    forall i: nat :: 1 <= limits(i) <= MAX_ROWS
  }

  /** A server answers filters; a snapshot is one. */
  type Server = Filter -> Result<Projection, ViewError>

  function ServerOf(snapshot: RuntimeSnapshot): Server {
    (f: Filter) => Projected(snapshot, f)
  }

  /** A client that starts at `cursor`, asks for `limits(i)`, `limits(i + 1)`, ... rows and follows
      each cursor it is given receives exactly these pages. */
  ghost predicate Walk(server: Server, cursor: Option<Cursor>, limits: nat -> int, i: nat, pages: seq<seq<Row>>)
    decreases |pages|
  {
    pages != [] &&
    match server(Filter(limits(i), cursor))
    case Err(_) => false
    case Ok(Unavailable(_)) => false
    case Ok(Available(page, _, next)) =>
      page == pages[0] && if next == None then |pages| == 1 else Walk(server, next, limits, i + 1, pages[1..])
  }

  function Concat(pages: seq<seq<Row>>): seq<Row> {
    if pages == [] then [] else pages[0] + Concat(pages[1..])
  }

  /** A cursor that follows the first `start` rows. */
  ghost predicate PointsAt(rows: seq<Row>, revision: nat, cursor: Option<Cursor>, start: nat) {
    if cursor == None then start == 0
    else 0 < start < |rows| && cursor == Some(Cursor(revision, rows[start - 1].resource))
  }

  function PageFrom(rows: seq<Row>, revision: nat, start: nat, limit: nat): Projection
    requires start <= |rows| && limit >= 1
  {
    var end := if start + limit <= |rows| then start + limit else |rows|;
    Available(rows[start..end], end < |rows|,
              if end < |rows| then Some(Cursor(revision, rows[end - 1].resource)) else None)
  }

  /** Every request in the middle of a walk is answered with the rows that follow. */
  ghost predicate Serves(server: Server, rows: seq<Row>, revision: nat) {
    forall cursor, start: nat, limit: nat :: PointsAt(rows, revision, cursor, start) && 1 <= limit <= MAX_ROWS ==>
      server(Filter(limit, cursor)) == Ok(PageFrom(rows, revision, start, limit))
  }

  lemma RowsFollow(rows: seq<Row>, revision: nat, last: Option<string>, start: nat, limit: nat)
    requires StrictlySorted(rows) && 1 <= limit
    requires if last == None then start == 0 else 0 < start < |rows| && last == Some(rows[start - 1].resource)
    ensures Start(rows, last) == start
      && ProjectRows(rows, revision, last, limit) == PageFrom(rows, revision, start, limit)
  {
    if last.Some? { CursorLeadsOn(rows, start - 1); }
  }

  lemma SnapshotAnswers(
    snapshot: RuntimeSnapshot, rows: seq<Row>, sorted: seq<Row>, cursor: Option<Cursor>, start: nat, limit: nat)
    requires snapshot.coordination == Known(rows) && WellFormed(rows) && sorted == Sorting.SortBy(rows, ResourceOf)
    requires StrictlySorted(sorted) && forall r :: r in sorted ==> |r.resource| <= MAX_TEXT
    requires PointsAt(sorted, snapshot.revision, cursor, start) && 1 <= limit <= MAX_ROWS
    ensures Projected(snapshot, Filter(limit, cursor)) == Ok(PageFrom(sorted, snapshot.revision, start, limit))
  {
    var last := if cursor == None then None else Some(sorted[start - 1].resource);
    RowsFollow(sorted, snapshot.revision, last, start, limit);
    if cursor.Some? { assert sorted[start - 1] in sorted; }
  }

  lemma SnapshotServes(snapshot: RuntimeSnapshot, sorted: seq<Row>)
    requires snapshot.coordination.Known? && WellFormed(snapshot.coordination.rows)
    requires sorted == Sorting.SortBy(snapshot.coordination.rows, ResourceOf)
    ensures Serves(ServerOf(snapshot), sorted, snapshot.revision)
  {
    ParsedIsStrictlySorted(snapshot.coordination.rows);
    forall cursor, start: nat, limit: nat | PointsAt(sorted, snapshot.revision, cursor, start) && 1 <= limit <= MAX_ROWS
      ensures ServerOf(snapshot)(Filter(limit, cursor)) == Ok(PageFrom(sorted, snapshot.revision, start, limit))
    {
      SnapshotAnswers(snapshot, snapshot.coordination.rows, sorted, cursor, start, limit);
    }
  }

  /** Whatever the page sizes, the pages of a walk are the remaining rows, each once and in order. */
  lemma {:induction false} WalkFrom(
    server: Server, rows: seq<Row>, revision: nat, cursor: Option<Cursor>, start: nat, limits: nat -> int, i: nat,
    pages: seq<seq<Row>>)
    requires Serves(server, rows, revision) && PointsAt(rows, revision, cursor, start) && LimitsAreValid(limits)
    requires Walk(server, cursor, limits, i, pages)
    ensures Concat(pages) == rows[start..]
    decreases |pages|
  {
    var end := if start + limits(i) <= |rows| then start + limits(i) else |rows|;
    assert server(Filter(limits(i), cursor)) == Ok(PageFrom(rows, revision, start, limits(i)));
    if end < |rows| {
      WalkFrom(server, rows, revision, Some(Cursor(revision, rows[end - 1].resource)), end, limits, i + 1, pages[1..]);
      assert rows[start..] == rows[start..end] + rows[end..];
    } else {
      assert pages[1..] == [];
    }
  }

  lemma {:induction false} WalkEnds(
    server: Server, rows: seq<Row>, revision: nat, cursor: Option<Cursor>, start: nat, limits: nat -> int, i: nat)
    returns (pages: seq<seq<Row>>)
    requires Serves(server, rows, revision) && PointsAt(rows, revision, cursor, start) && LimitsAreValid(limits)
    ensures Walk(server, cursor, limits, i, pages) && |pages| <= |rows| - start + 1
    decreases |rows| - start
  {
    var end := if start + limits(i) <= |rows| then start + limits(i) else |rows|;
    assert server(Filter(limits(i), cursor)) == Ok(PageFrom(rows, revision, start, limits(i)));
    pages := [rows[start..end]];
    if end < |rows| {
      var rest := WalkEnds(server, rows, revision, Some(Cursor(revision, rows[end - 1].resource)), end, limits, i + 1);
      assert (pages + rest)[1..] == rest;
      pages := pages + rest;
    }
  }

  /** Following cursors from none to none ends, and yields every row of the observation exactly
      once, in resource order, for any valid page sizes. */
  lemma EveryRowOnce(snapshot: RuntimeSnapshot, limits: nat -> int)
    requires snapshot.coordination.Known? && WellFormed(snapshot.coordination.rows) && LimitsAreValid(limits)
    ensures exists pages :: Walk(ServerOf(snapshot), None, limits, 0, pages)
    ensures forall pages :: Walk(ServerOf(snapshot), None, limits, 0, pages) ==>
      && multiset(Concat(pages)) == multiset(snapshot.coordination.rows)
      && StrictlySorted(Concat(pages))
  {
    var rows := snapshot.coordination.rows;
    var sorted := Sorting.SortBy(rows, ResourceOf);
    var server := ServerOf(snapshot);
    SnapshotServes(snapshot, sorted);
    var _ := WalkEnds(server, sorted, snapshot.revision, None, 0, limits, 0);
    ParsedIsStrictlySorted(rows);
    Sorting.SortSorts(rows, ResourceOf);
    forall pages | Walk(server, None, limits, 0, pages) ensures Concat(pages) == sorted {
      WalkFrom(server, sorted, snapshot.revision, None, 0, limits, 0, pages);
      assert sorted[0..] == sorted;
    }
  }

  // ----- What any request is answered

  predicate ByName(a: Row, b: Row) {
    Sorting.Le(a.resource, b.resource) && a.resource != b.resource
  }

  /** The rows of the observation in the order of their resources. */
  ghost predicate IsSorting(all: seq<Row>, rows: seq<Row>) {
    multiset(all) == multiset(rows) && forall i, j :: 0 <= i < j < |all| ==> ByName(all[i], all[j])
  }

  /** A row comes after the place the cursor names; without a cursor every row does. */
  predicate ComesAfter(r: Row, cursor: Option<Cursor>) {
    cursor.Some? && cursor.value.Cursor? ==>
      Sorting.Le(cursor.value.lastResource, r.resource) && cursor.value.lastResource != r.resource
  }

  /** The first `limit` of the rows after the cursor; if some are left over, a cursor behind the last one given. */
  ghost predicate IsPage(p: Projection, all: seq<Row>, revision: nat, cursor: Option<Cursor>, limit: int, start: int)
    requires limit >= 1
  {
    && 0 <= start <= |all|
    && (forall k :: 0 <= k < |all| ==> (ComesAfter(all[k], cursor) <==> start <= k))
    && p.Available? && |p.rows| == (if |all| - start < limit then |all| - start else limit)
    && p.rows == all[start..start + |p.rows|]
    && (p.truncated <==> start + |p.rows| < |all|)
    && p.cursor == (if p.truncated then Some(Cursor(revision, p.rows[|p.rows| - 1].resource)) else None)
  }

  ghost predicate IsPageOf(p: Projection, rows: seq<Row>, revision: nat, cursor: Option<Cursor>, limit: int)
    requires limit >= 1
  {
    exists all, start :: IsSorting(all, rows) && IsPage(p, all, revision, cursor, limit, start)
  }

  predicate LastNameIsLong(c: Cursor) {
    c.Cursor? && |c.lastResource| > 4096
  }

  predicate BadRows(rows: seq<Row>) {
    |rows| > 4096 || (exists r :: r in rows && |r.resource| > 4096)
    || exists i, j :: 0 <= i < j < |rows| && rows[i].resource == rows[j].resource
  }

  /** The answer to a request: a wrong limit, an observation that is not there, rows that cannot be, a cursor that
      cannot be read, and a cursor of another revision are told, in this order; otherwise the page is given. */
  ghost predicate Answered(snapshot: RuntimeSnapshot, filter: Filter, r: Result<Projection, ViewError>) {
    if !(1 <= filter.limit <= 4096) then r == Err(InvalidArgument)
    else if snapshot.coordination.Unknown? then r == Ok(Unavailable(snapshot.coordination.reason))
    else if BadRows(snapshot.coordination.rows) then r == Err(InvalidArgument)
    else if filter.cursor.Some? && (filter.cursor.value.Garbled? || LastNameIsLong(filter.cursor.value)) then
      r == Err(InvalidArgument)
    else if filter.cursor.Some? && filter.cursor.value.revision != snapshot.revision then r == Err(StaleRegistry)
    else r.Ok? && IsPageOf(r.value, snapshot.coordination.rows, snapshot.revision, filter.cursor, filter.limit)
  }

  lemma NotLeIsAfter(a: string, b: string)
    ensures !Sorting.Le(a, b) <==> Sorting.Le(b, a) && a != b
  {
    Sorting.LeTotal(a, b);
    Sorting.LeReflexive(a);
    if Sorting.Le(a, b) && Sorting.Le(b, a) { Sorting.LeAntisymmetric(a, b); }
  }

  lemma SortingIsSorting(rows: seq<Row>)
    requires WellFormed(rows)
    ensures IsSorting(Sorting.SortBy(rows, ResourceOf), rows)
  {
    var all := Sorting.SortBy(rows, ResourceOf);
    Sorting.SortSorts(rows, ResourceOf);
    ParsedIsStrictlySorted(rows);
    forall i, j | 0 <= i < j < |all| ensures ByName(all[i], all[j]) {
      NotLeIsAfter(all[j].resource, all[i].resource);
    }
  }

  /** What comes after a place in a sorted list is what follows its first element that does. */
  lemma AfterIsBehind(all: seq<Row>, last: string)
    requires forall i, j :: 0 <= i < j < |all| ==> ByName(all[i], all[j])
    ensures FirstAfter(all, last) <= |all|
    ensures forall k :: 0 <= k < |all| ==> (!Sorting.Le(all[k].resource, last) <==> FirstAfter(all, last) <= k)
  {
    var f := FirstAfter(all, last);
    FirstAfterIsFirst(all, last);
    forall k | f <= k < |all| ensures !Sorting.Le(all[k].resource, last) {
      if Sorting.Le(all[k].resource, last) && f < k {
        assert ByName(all[f], all[k]);
        Sorting.LeTransitive(all[f].resource, all[k].resource, last);
      }
    }
  }

  lemma RowsAreThePage(all: seq<Row>, revision: nat, cursor: Option<Cursor>, last: Option<string>, limit: nat)
    requires (forall i, j :: 0 <= i < j < |all| ==> ByName(all[i], all[j])) && limit >= 1
    requires if cursor == None then last == None else cursor.value.Cursor? && last == Some(cursor.value.lastResource)
    requires Start(all, last) <= |all|
    ensures IsPage(ProjectRows(all, revision, last, limit), all, revision, cursor, limit, Start(all, last))
  {
    if last.Some? {
      AfterIsBehind(all, last.value);
      forall k | 0 <= k < |all| ensures ComesAfter(all[k], cursor) <==> !Sorting.Le(all[k].resource, last.value) {
        NotLeIsAfter(all[k].resource, last.value);
      }
    }
  }

  /** Whatever the snapshot and the filter, the projection is that answer. */
  lemma RequestsAreAnswered(snapshot: RuntimeSnapshot, filter: Filter)
    ensures Answered(snapshot, filter, Projected(snapshot, filter))
  {
    if 1 <= filter.limit <= 4096 && snapshot.coordination.Known? && WellFormed(snapshot.coordination.rows) {
      var rows := snapshot.coordination.rows;
      var all := Sorting.SortBy(rows, ResourceOf);
      SortingIsSorting(rows);
      if filter.cursor == None {
        RowsAreThePage(all, snapshot.revision, None, None, filter.limit);
      } else if DecodeCursor(filter.cursor.value, snapshot.revision).Ok? {
        var last := filter.cursor.value.lastResource;
        FirstAfterIsFirst(all, last);
        RowsAreThePage(all, snapshot.revision, filter.cursor, Some(last), filter.limit);
      }
    }
  }
}
