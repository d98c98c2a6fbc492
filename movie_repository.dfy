/** The movie table behind `MovieRepository` (a Spring Data JPA repository),
    as the storage port the catalog calls: lookup by id, save with identity
    id generation, delete, and paged and sorted reads. The repository's code
    is generated by the framework; what is here is the behaviour the catalog
    relies on, stated as a model. */
module Repository {
  import opened Common
  import opened Entities

  /** The rows in storage order and the next identity value. */
  datatype RepoState = RepoState(rows: seq<Movie>, nextId: int)

  /** A persisted row: an id the store handed out, and the entity's constraints. */
  predicate StoredRow(m: Movie, nextId: int) {
    m.idMovie.Some? && 1 <= m.idMovie.value < nextId && SatisfiesConstraints(m)
  }

  predicate DistinctIds(rows: seq<Movie>) {
    forall i, j :: 0 <= i < j < |rows| ==> rows[i].idMovie != rows[j].idMovie
  }

  /** What the store guarantees about its table at all times. */
  predicate RepoInvariant(s: RepoState) {
    && 1 <= s.nextId
    && (forall i :: 0 <= i < |s.rows| ==> StoredRow(s.rows[i], s.nextId))
    && DistinctIds(s.rows)
  }

  /** The position of the first row with this id, or -1. */
  function IndexOfId(rows: seq<Movie>, id: int): (k: int)
    ensures -1 <= k < |rows|
    ensures k >= 0 ==> rows[k].idMovie == Some(id)
    ensures k >= 0 ==> forall i :: 0 <= i < k ==> rows[i].idMovie != Some(id)
    ensures k < 0 ==> forall i :: 0 <= i < |rows| ==> rows[i].idMovie != Some(id)
  {
    if |rows| == 0 then -1
    else if rows[0].idMovie == Some(id) then 0
    else
      var k := IndexOfId(rows[1..], id);
      if k < 0 then -1 else k + 1
  }

  /** `findById`. */
  function RowWithId(rows: seq<Movie>, id: int): (r: Option<Movie>)
    ensures r.Some? <==> exists i :: 0 <= i < |rows| && rows[i].idMovie == Some(id)
    ensures r.Some? ==> r.value in rows && r.value.idMovie == Some(id)
  {
    var k := IndexOfId(rows, id);
    if k < 0 then None else Some(rows[k])
  }

  /** With ids unique, the row found is the one row carrying that id. */
  lemma RowWithIdIsThe(rows: seq<Movie>, i: int)
    requires DistinctIds(rows)
    requires 0 <= i < |rows| && rows[i].idMovie.Some?
    ensures RowWithId(rows, rows[i].idMovie.value) == Some(rows[i])
    ensures IndexOfId(rows, rows[i].idMovie.value) == i
  {
  }

  /** `save(entity)`. A new entity (no id) is inserted at the end with the next
      identity value; an entity with an id overwrites that row in place. A row
      that breaks the entity's constraints is refused and nothing changes. */
  function SaveRow(s: RepoState, m: Movie): (out: (Result<Movie, Error>, RepoState))
    requires m.idMovie.Some? ==> IndexOfId(s.rows, m.idMovie.value) >= 0
  {
    if !SatisfiesConstraints(m) then (Failure(ConstraintViolation), s)
    else match m.idMovie
      case None =>
        var saved := m.(idMovie := Some(s.nextId));
        (Success(saved), RepoState(s.rows + [saved], s.nextId + 1))
      case Some(id) =>
        (Success(m), RepoState(s.rows[IndexOfId(s.rows, id) := m], s.nextId))
  }

  /** `delete(entity)`: removes the row with the entity's id; a new entity or
      one that is not stored is ignored. */
  function DeleteRow(s: RepoState, m: Movie): RepoState {
    match m.idMovie
    case None => s
    case Some(id) =>
      var k := IndexOfId(s.rows, id);
      if k < 0 then s else s.(rows := s.rows[..k] + s.rows[k + 1..])
  }

  /** Saving keeps the table's guarantees. */
  lemma SaveKeepsInvariant(s: RepoState, m: Movie)
    requires RepoInvariant(s)
    requires m.idMovie.Some? ==> IndexOfId(s.rows, m.idMovie.value) >= 0
    ensures RepoInvariant(SaveRow(s, m).1)
  {
    var (r, s') := SaveRow(s, m);
    if r.Success? && m.idMovie.Some? {
      var k := IndexOfId(s.rows, m.idMovie.value);
      forall i, j | 0 <= i < j < |s'.rows| ensures s'.rows[i].idMovie != s'.rows[j].idMovie {
        if i == k || j == k {
          RowWithIdIsThe(s.rows, if i == k then j else i);
        }
      }
    }
  }

  /** A successful save is seen by the next lookup, and every other id still
      finds what it found before. */
  lemma SaveThenFind(s: RepoState, m: Movie, other: int)
    requires RepoInvariant(s)
    requires m.idMovie.Some? ==> IndexOfId(s.rows, m.idMovie.value) >= 0
    requires SaveRow(s, m).0.Success?
    ensures var saved := SaveRow(s, m).0.value;
            saved.idMovie.Some? &&
            RowWithId(SaveRow(s, m).1.rows, saved.idMovie.value) == Some(saved)
    ensures var saved := SaveRow(s, m).0.value;
            saved.idMovie != Some(other) ==>
            RowWithId(SaveRow(s, m).1.rows, other) == RowWithId(s.rows, other)
  {
    SaveKeepsInvariant(s, m);
    var (r, s') := SaveRow(s, m);
    var saved := r.value;
    var k := if m.idMovie.None? then |s.rows| else IndexOfId(s.rows, m.idMovie.value);
    assert s'.rows[k] == saved;
    RowWithIdIsThe(s'.rows, k);
    if saved.idMovie != Some(other) {
      var before := IndexOfId(s.rows, other);
      if before >= 0 {
        RowWithIdIsThe(s.rows, before);
        assert s'.rows[before] == s.rows[before];
        RowWithIdIsThe(s'.rows, before);
      } else {
        assert forall i :: 0 <= i < |s'.rows| ==> s'.rows[i].idMovie != Some(other) by {
          forall i | 0 <= i < |s'.rows| ensures s'.rows[i].idMovie != Some(other) {
            if i != k {
              assert s'.rows[i] == s.rows[i];
            }
          }
        }
      }
    }
  }

  /** Deleting keeps the table's guarantees. */
  lemma DeleteKeepsInvariant(s: RepoState, m: Movie)
    requires RepoInvariant(s)
    ensures RepoInvariant(DeleteRow(s, m))
  {
    var s' := DeleteRow(s, m);
    if m.idMovie.Some? && IndexOfId(s.rows, m.idMovie.value) >= 0 {
      var k := IndexOfId(s.rows, m.idMovie.value);
      assert forall i :: 0 <= i < |s'.rows| ==> s'.rows[i] == s.rows[if i < k then i else i + 1];
    }
  }

  /** After a delete the id is gone and every other id finds what it found before. */
  lemma DeleteThenFind(s: RepoState, m: Movie, other: int)
    requires RepoInvariant(s)
    requires m.idMovie.Some?
    ensures RowWithId(DeleteRow(s, m).rows, m.idMovie.value) == None
    ensures m.idMovie != Some(other) ==> RowWithId(DeleteRow(s, m).rows, other) == RowWithId(s.rows, other)
  {
    var s' := DeleteRow(s, m);
    var k := IndexOfId(s.rows, m.idMovie.value);
    if k >= 0 {
      assert forall i :: 0 <= i < |s'.rows| ==> s'.rows[i] == s.rows[if i < k then i else i + 1];
      forall i | 0 <= i < |s'.rows| ensures s'.rows[i].idMovie != m.idMovie {
        var j := if i < k then i else i + 1;
        assert s'.rows[i] == s.rows[j] && j != k;
      }
      if m.idMovie != Some(other) {
        var before := IndexOfId(s.rows, other);
        if before >= 0 {
          RowWithIdIsThe(s.rows, before);
          DeleteKeepsInvariant(s, m);
          var i := if before < k then before else before - 1;
          assert s'.rows[i] == s.rows[before];
          RowWithIdIsThe(s'.rows, i);
        }
      }
    }
  }

  // ---------------------------------------------------------------------------
  // Paging and sorting (Spring Data's PageRequest, Sort and Page)

  datatype Direction = Ascending | Descending

  /** `Sort.by(property)` with a direction. */
  datatype Sort = Sort(property: string, direction: Direction)

  /** `PageRequest.of(pageNumber, pageSize[, sort])`. */
  datatype PageRequest = PageRequest(pageNumber: int, pageSize: int, sort: Option<Sort>)

  /** `Page<Movie>`: one page of rows and the figures about the whole table. */
  datatype Page = Page(content: seq<Movie>, totalElements: int, totalPages: int, isLast: bool)

  /** `Character.isWhitespace`: the ASCII controls it names, and the Unicode
      space, line and paragraph separators except the non-breaking ones
      (U+00A0, U+2007, U+202F). */
  predicate IsWhitespace(c: char) {
    || c == ' ' || '\t' <= c <= '\r' || '\U{1C}' <= c <= '\U{1F}'
    || c == '\U{1680}' || '\U{2000}' <= c <= '\U{2006}' || '\U{2008}' <= c <= '\U{200A}'
    || c == '\U{2028}' || c == '\U{2029}' || c == '\U{205F}' || c == '\U{3000}'
  }

  /** `StringUtils.hasText`. */
  predicate HasText(s: string) {
    exists i :: 0 <= i < |s| && !IsWhitespace(s[i])
  }

  /** `Sort.by(property)`: the property must have text. */
  function SortBy(property: string, direction: Direction): (r: Result<Sort, Error>)
    ensures r.Success? <==> HasText(property)
    ensures r.Success? ==> r.value == Sort(property, direction)
  {
    if HasText(property) then Success(Sort(property, direction))
    else Failure(IllegalArgument("Property must not be null or empty"))
  }

  /** `PageRequest.of`: a page index below zero or a size below one is refused. */
  function PageRequestOf(pageNumber: int, pageSize: int, sort: Option<Sort>): (r: Result<PageRequest, Error>)
    ensures r.Success? <==> 0 <= pageNumber && 1 <= pageSize
    ensures r.Success? ==> r.value == PageRequest(pageNumber, pageSize, sort)
  {
    if pageNumber < 0 then Failure(IllegalArgument("Page index must not be less than zero"))
    else if pageSize < 1 then Failure(IllegalArgument("Page size must not be less than one"))
    else Success(PageRequest(pageNumber, pageSize, sort))
  }

  function Min(a: int, b: int): int {
    if a <= b then a else b
  }

  /** The rows of page `pageNumber` when pages hold `pageSize` rows. */
  function Slice(rows: seq<Movie>, pageNumber: nat, pageSize: nat): (r: seq<Movie>)
    requires 1 <= pageSize
    ensures |r| <= pageSize
    ensures pageNumber * pageSize <= |rows| ==> r == rows[pageNumber * pageSize..Min((pageNumber + 1) * pageSize, |rows|)]
    ensures pageNumber * pageSize >= |rows| ==> r == []
  {
    var lo := Min(pageNumber * pageSize, |rows|);
    var hi := Min(pageNumber * pageSize + pageSize, |rows|);
    rows[lo..hi]
  }

  /** The number of pages: `ceil(total / size)`. */
  function TotalPages(total: nat, pageSize: nat): nat
    requires 1 <= pageSize
  {
    (total + pageSize - 1) / pageSize
  }

  /** The page a request selects from rows already in query order. */
  function PageOf(rows: seq<Movie>, req: PageRequest): (p: Page)
    requires 0 <= req.pageNumber && 1 <= req.pageSize
    ensures p.totalElements == |rows|
    ensures |p.content| <= req.pageSize
  {
    var total := TotalPages(|rows|, req.pageSize);
    Page(Slice(rows, req.pageNumber, req.pageSize), |rows|, total, !(req.pageNumber + 1 < total))
  }

  /** Sorting by a collection or by a name Movie has no property for is not supported. */
  const SortableProperties: set<string> := {"idMovie", "title", "director", "studio", "releaseYear", "poster"}

  /** A sort key: null sorts first, then numbers, then text. */
  datatype Key = NullKey | IntKey(n: int) | StrKey(s: string)

  function KeyOf(m: Movie, property: string): Key {
    if property == "idMovie" then (if m.idMovie.Some? then IntKey(m.idMovie.value) else NullKey)
    else if property == "releaseYear" then (if m.releaseYear.Some? then IntKey(m.releaseYear.value) else NullKey)
    else if property == "title" then StrKey(m.title)
    else if property == "director" then StrKey(m.director)
    else if property == "studio" then StrKey(m.studio)
    else StrKey(m.poster)
  }

  /** Lexicographic order on character codes. */
  predicate StrLeq(a: string, b: string) {
    |a| == 0 || (|b| > 0 && (a[0] < b[0] || (a[0] == b[0] && StrLeq(a[1..], b[1..]))))
  }

  lemma {:induction false} StrLeqTotal(a: string, b: string)
    ensures StrLeq(a, b) || StrLeq(b, a)
  {
    if |a| > 0 && |b| > 0 && a[0] == b[0] {
      StrLeqTotal(a[1..], b[1..]);
    }
  }

  lemma {:induction false} StrLeqTransitive(a: string, b: string, c: string)
    requires StrLeq(a, b) && StrLeq(b, c)
    ensures StrLeq(a, c)
  {
    if |a| > 0 && a[0] == b[0] && b[0] == c[0] {
      StrLeqTransitive(a[1..], b[1..], c[1..]);
    }
  }

  predicate KeyLeq(a: Key, b: Key) {
    match a
    case NullKey => true
    case IntKey(x) => (b.IntKey? && x <= b.n) || b.StrKey?
    case StrKey(x) => b.StrKey? && StrLeq(x, b.s)
  }

  /** `x` may come before `y` in the order the sort asks for. */
  predicate Precedes(sort: Sort, x: Movie, y: Movie) {
    match sort.direction
    case Ascending => KeyLeq(KeyOf(x, sort.property), KeyOf(y, sort.property))
    case Descending => KeyLeq(KeyOf(y, sort.property), KeyOf(x, sort.property))
  }

  lemma PrecedesTotal(sort: Sort, x: Movie, y: Movie)
    ensures Precedes(sort, x, y) || Precedes(sort, y, x)
  {
    var a, b := KeyOf(x, sort.property), KeyOf(y, sort.property);
    if a.StrKey? && b.StrKey? {
      StrLeqTotal(a.s, b.s);
    }
  }

  lemma PrecedesTransitive(sort: Sort, x: Movie, y: Movie, z: Movie)
    requires Precedes(sort, x, y) && Precedes(sort, y, z)
    ensures Precedes(sort, x, z)
  {
    var a, b, c := KeyOf(x, sort.property), KeyOf(y, sort.property), KeyOf(z, sort.property);
    if a.StrKey? && b.StrKey? && c.StrKey? {
      if sort.direction == Ascending {
        StrLeqTransitive(a.s, b.s, c.s);
      } else {
        StrLeqTransitive(c.s, b.s, a.s);
      }
    }
  }

  ghost predicate SortedBy(sort: Sort, s: seq<Movie>) {
    forall i, j :: 0 <= i < j < |s| ==> Precedes(sort, s[i], s[j])
  }

  /** Inserts `m` after every row that may precede it (so equal keys keep their order). */
  function Insert(sort: Sort, m: Movie, s: seq<Movie>): seq<Movie> {
    if |s| == 0 then [m]
    else if Precedes(sort, s[0], m) then [s[0]] + Insert(sort, m, s[1..])
    else [m] + s
  }

  /** The table in the order the sort asks for; rows with equal keys keep storage order. */
  function SortRows(sort: Sort, rows: seq<Movie>): seq<Movie> {
    if |rows| == 0 then [] else Insert(sort, rows[|rows| - 1], SortRows(sort, rows[..|rows| - 1]))
  }

  lemma {:induction false} InsertSorted(sort: Sort, m: Movie, s: seq<Movie>)
    requires SortedBy(sort, s)
    ensures SortedBy(sort, Insert(sort, m, s))
    ensures multiset(Insert(sort, m, s)) == multiset(s) + multiset{m}
  {
    if |s| > 0 {
      if Precedes(sort, s[0], m) {
        InsertSorted(sort, m, s[1..]);
        var t := Insert(sort, m, s[1..]);
        assert s == [s[0]] + s[1..];
        forall j | 0 <= j < |t| ensures Precedes(sort, s[0], t[j]) {
          assert t[j] in multiset(s[1..]) + multiset{m};
          if t[j] != m {
            assert t[j] in s[1..];
          }
        }
      } else {
        PrecedesTotal(sort, s[0], m);
        forall j | 0 <= j < |s| ensures Precedes(sort, m, s[j]) {
          if j > 0 {
            PrecedesTransitive(sort, m, s[0], s[j]);
          }
        }
      }
    }
  }

  /** Sorting yields the same rows, in the order the sort asks for. */
  lemma {:induction false} SortRowsCorrect(sort: Sort, rows: seq<Movie>)
    ensures SortedBy(sort, SortRows(sort, rows))
    ensures multiset(SortRows(sort, rows)) == multiset(rows)
  {
    if |rows| > 0 {
      var init := rows[..|rows| - 1];
      SortRowsCorrect(sort, init);
      InsertSorted(sort, rows[|rows| - 1], SortRows(sort, init));
      assert rows == init + [rows[|rows| - 1]];
    }
  }

  /** `findAll(pageable)`: the query orders the table as the request's sort
      asks (storage order when there is none) and returns the requested page. */
  function FindAllPage(rows: seq<Movie>, req: PageRequest): (r: Result<Page, Error>)
    requires 0 <= req.pageNumber && 1 <= req.pageSize
    ensures r.Failure? <==> req.sort.Some? && req.sort.value.property !in SortableProperties
  {
    match req.sort
    case None => Success(PageOf(rows, req))
    case Some(sort) =>
      if sort.property !in SortableProperties then Failure(PropertyReference(sort.property))
      else Success(PageOf(SortRows(sort, rows), req))
  }

  /** The pages of the table, read one after another from page 0, give back
      the table. */
  function PagesUpTo(rows: seq<Movie>, pageSize: nat, count: nat): seq<Movie>
    requires 1 <= pageSize
  {
    if count == 0 then [] else PagesUpTo(rows, pageSize, count - 1) + Slice(rows, count - 1, pageSize)
  }

  lemma {:induction false} PagesUpToPrefix(rows: seq<Movie>, pageSize: nat, count: nat)
    requires 1 <= pageSize
    ensures PagesUpTo(rows, pageSize, count) == rows[..Min(count * pageSize, |rows|)]
  {
    if count > 0 {
      PagesUpToPrefix(rows, pageSize, count - 1);
      var a := Min((count - 1) * pageSize, |rows|);
      var b := Min(count * pageSize, |rows|);
      assert (count - 1) * pageSize + pageSize == count * pageSize;
      assert rows[..a] + rows[a..b] == rows[..b];
    }
  }

  /** Every row is on exactly one page: concatenating pages `0 .. totalPages - 1`
      gives the table in query order. */
  lemma PagesCoverTable(rows: seq<Movie>, pageSize: nat)
    requires 1 <= pageSize
    ensures PagesUpTo(rows, pageSize, TotalPages(|rows|, pageSize)) == rows
  {
    var n := TotalPages(|rows|, pageSize);
    PagesUpToPrefix(rows, pageSize, n);
    TotalPagesEnough(|rows|, pageSize);
    assert rows[..|rows|] == rows;
  }

  lemma TotalPagesEnough(total: nat, pageSize: nat)
    requires 1 <= pageSize
    ensures TotalPages(total, pageSize) * pageSize >= total
  {
    var q := total + pageSize - 1;
    var n := q / pageSize;
    var r := q % pageSize;
    assert q == n * pageSize + r && r < pageSize;
  }

  /** The table behind the repository. */
  class MovieRepository {
    var rows: seq<Movie>
    var nextId: int

    constructor ()
      ensures State() == RepoState([], 1) && Valid()
    {
      rows := [];
      nextId := 1;
    }

    function State(): RepoState
      reads this
    {
      RepoState(rows, nextId)
    }

    predicate Valid()
      reads this
    {
      RepoInvariant(State())
    }

    function FindById(id: int): Option<Movie>
      reads this
    {
      RowWithId(rows, id)
    }

    method Save(m: Movie) returns (r: Result<Movie, Error>)
      requires Valid()
      requires m.idMovie.Some? ==> IndexOfId(rows, m.idMovie.value) >= 0
      modifies this
      ensures Valid()
      ensures (r, State()) == SaveRow(old(State()), m)
    {
      SaveKeepsInvariant(State(), m);
      var out := SaveRow(State(), m);
      r := out.0;
      rows, nextId := out.1.rows, out.1.nextId;
    }

    method Delete(m: Movie)
      requires Valid()
      modifies this
      ensures Valid()
      ensures State() == DeleteRow(old(State()), m)
    {
      DeleteKeepsInvariant(State(), m);
      rows := DeleteRow(State(), m).rows;
    }

    method FindAll() returns (all: seq<Movie>)
      ensures all == rows
    {
      all := rows;
    }

    method FindAllPaged(req: PageRequest) returns (r: Result<Page, Error>)
      requires 0 <= req.pageNumber && 1 <= req.pageSize
      ensures r == FindAllPage(rows, req)
    {
      r := FindAllPage(rows, req);
    }
  }
}
