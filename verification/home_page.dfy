/** The home page: the catalog's load state, the filter predicate, the
    timestamp comparator, and what the page shows. */
module HomePage {
  import opened Options
  import opened Books
  import opened Strings
  import Sorting
  import opened SeqLemmas
  import BookGrid

  datatype SortOrder = Newest | Oldest

  /** The four inputs of the filtered view. */
  datatype Query = Query(searchTerm: string, selectedCategory: string, minScore: int, sortOrder: SortOrder)

  // ---------------------------------------------------------------------------
  // Filtering
  // ---------------------------------------------------------------------------

  /** Case-insensitive substring search over the name and both categories. */
  predicate MatchesSearch(b: Book, term: string) {
    var t := Lower(term);
    Contains(Lower(b.bookName), t) || Contains(Lower(b.cateLevel1), t) || Contains(Lower(b.cateLeaf), t)
  }

  /** The empty category selects every book. */
  predicate MatchesCategory(b: Book, category: string) {
    category == "" || b.cateLevel1 == category
  }

  /** A missing or zero score passes any threshold. */
  predicate MatchesScore(b: Book, minScore: int) {
    !b.HasScore() || b.score.value >= minScore
  }

  predicate Keeps(q: Query, b: Book) {
    MatchesSearch(b, q.searchTerm) && MatchesCategory(b, q.selectedCategory) && MatchesScore(b, q.minScore)
  }

  /** `books.filter(...)`: the kept books, each as often as the catalog holds it. */
  function Filter(books: seq<Book>, q: Query): (r: seq<Book>)
    ensures forall b :: multiset(r)[b] == if Keeps(q, b) then multiset(books)[b] else 0
    ensures forall i :: 0 <= i < |r| ==> Keeps(q, r[i])
  {
    if |books| == 0 then []
    else
      var rest := Filter(books[1..], q);
      assert books == [books[0]] + books[1..];
      if Keeps(q, books[0]) then [books[0]] + rest else rest
  }

  /** A single book is kept iff the query keeps it. */
  lemma FilterSingle(b: Book, q: Query)
    ensures Filter([b], q) == if Keeps(q, b) then [b] else []
  {
    assert [b][1..] == [];
  }

  /** Filtering distributes over concatenation, so together with
      `FilterSingle` the kept books come out in catalog order. */
  lemma {:induction false} FilterAppend(a: seq<Book>, b: seq<Book>, q: Query)
    ensures Filter(a + b, q) == Filter(a, q) + Filter(b, q)
  {
    if |a| == 0 {
      assert a + b == b;
    } else {
      FilterAppend(a[1..], b, q);
      ConsAppend(a, b);
      FilterCons(a[0], a[1..] + b, q);
      FilterCons(a[0], a[1..], q);
      Associative(if Keeps(q, a[0]) then [a[0]] else [], Filter(a[1..], q), Filter(b, q));
    }
  }


  lemma FilterCons(x: Book, t: seq<Book>, q: Query)
    ensures Filter([x] + t, q) == (if Keeps(q, x) then [x] else []) + Filter(t, q)
  {
    assert ([x] + t)[0] == x && ([x] + t)[1..] == t;
  }

  /** A book is shown iff it is in the catalog and all three predicates hold. */
  lemma FilterMembership(books: seq<Book>, q: Query, b: Book)
    ensures b in Filter(books, q) <==> b in books && Keeps(q, b)
  {
    assert b in Filter(books, q) <==> multiset(Filter(books, q))[b] > 0;
    assert b in books <==> multiset(books)[b] > 0;
  }

  /** Filtering the filtered list again with the same inputs changes nothing. */
  lemma {:induction false} FilterIdempotent(books: seq<Book>, q: Query)
    ensures Filter(Filter(books, q), q) == Filter(books, q)
  {
    if |books| > 0 {
      FilterIdempotent(books[1..], q);
    }
  }

  /** An empty search term matches every book. */
  lemma EmptySearchMatchesAll(b: Book)
    ensures MatchesSearch(b, "")
  {
    assert OccursAt(Lower(b.bookName), Lower(""), 0);
  }

  /** A score of `s` survives the threshold `s` and not the threshold `s + 1`;
      a missing or zero score survives every threshold. */
  lemma ScoreThreshold(b: Book, minScore: int)
    ensures b.HasScore() ==> MatchesScore(b, b.score.value) && !MatchesScore(b, b.score.value + 1)
    ensures !b.HasScore() ==> MatchesScore(b, minScore)
  {
  }

  // ---------------------------------------------------------------------------
  // Sorting
  // ---------------------------------------------------------------------------

  function Time(b: Book): int
    requires b.IsDated()
  {
    b.mtime.value.time
  }

  /** The comparator: undated books go last and compare equal among
      themselves; dated books by time, newest or oldest first. */
  function Compare(order: SortOrder, a: Book, b: Book): int {
    if !a.IsDated() && !b.IsDated() then 0
    else if !a.IsDated() then 1
    else if !b.IsDated() then -1
    else if order == Newest then Time(b) - Time(a)
    else Time(a) - Time(b)
  }

  /** `a` may stay in front of `b`. */
  function Precedes(order: SortOrder): (Book, Book) -> bool {
    (a: Book, b: Book) => Compare(order, a, b) <= 0
  }

  lemma CompareIsTotalPreorder(order: SortOrder)
    ensures Sorting.TotalPreorder(Precedes(order))
  {
    var le := Precedes(order);
    forall a: Book, b: Book ensures le(a, b) || le(b, a) {
      assert Compare(order, a, b) == -Compare(order, b, a);
    }
  }

  /** The page's book list: the filtered books, sorted by `q.sortOrder`. */
  function Visible(books: seq<Book>, q: Query): (r: seq<Book>)
    ensures multiset(r) == multiset(Filter(books, q))
    ensures forall i, j :: 0 <= i < j < |r| && r[j].IsDated() ==> r[i].IsDated()
    ensures q.sortOrder == Newest ==>
      forall i, j :: 0 <= i < j < |r| && r[j].IsDated() ==> Time(r[i]) >= Time(r[j])
    ensures q.sortOrder == Oldest ==>
      forall i, j :: 0 <= i < j < |r| && r[j].IsDated() ==> Time(r[i]) <= Time(r[j])
    ensures UndatedOf(r) == UndatedOf(Filter(books, q))
    ensures UndatedOf(r) == Filter(UndatedOf(books), q)
  {
    SortedByTime(Filter(books, q), q.sortOrder);
    SortKeepsUndatedOrder(Filter(books, q), q.sortOrder);
    UndatedFilterCommute(books, q);
    Sorting.Sort(Filter(books, q), Precedes(q.sortOrder))
  }

  /** What sorting by the comparator means for dates and times. */
  lemma SortedByTime(s: seq<Book>, order: SortOrder)
    ensures Sorting.TotalPreorder(Precedes(order))
    ensures var r := Sorting.Sort(s, Precedes(order));
      && multiset(r) == multiset(s)
      && (forall i, j :: 0 <= i < j < |r| && r[j].IsDated() ==> r[i].IsDated())
      && (order == Newest ==> forall i, j :: 0 <= i < j < |r| && r[j].IsDated() ==> Time(r[i]) >= Time(r[j]))
      && (order == Oldest ==> forall i, j :: 0 <= i < j < |r| && r[j].IsDated() ==> Time(r[i]) <= Time(r[j]))
  {
    CompareIsTotalPreorder(order);
    var r := Sorting.Sort(s, Precedes(order));
    assert forall i, j :: 0 <= i < j < |r| ==> Compare(order, r[i], r[j]) <= 0 by {
      assert Sorting.SortedBy(r, Precedes(order));
    }
  }

  /** The books without a usable date, in order. */
  function UndatedOf(books: seq<Book>): (r: seq<Book>)
    ensures forall i :: 0 <= i < |r| ==> !r[i].IsDated()
  {
    if |books| == 0 then []
    else (if books[0].IsDated() then [] else [books[0]]) + UndatedOf(books[1..])
  }

  lemma UndatedCons(x: Book, t: seq<Book>)
    ensures UndatedOf([x] + t) == (if x.IsDated() then [] else [x]) + UndatedOf(t)
  {
    assert ([x] + t)[0] == x && ([x] + t)[1..] == t;
  }

  /** Keeping the undated books and filtering can be done in either order:
      the undated books a query keeps appear in catalog order. */
  lemma {:induction false} UndatedFilterCommute(books: seq<Book>, q: Query)
    ensures UndatedOf(Filter(books, q)) == Filter(UndatedOf(books), q)
  {
    if |books| > 0 {
      var x, t := books[0], books[1..];
      UndatedFilterCommute(t, q);
      ConsAppend(books, []);
      FilterCons(x, t, q);
      UndatedCons(x, t);
      if Keeps(q, x) {
        UndatedCons(x, Filter(t, q));
      } else {
        assert Filter(books, q) == Filter(t, q);
      }
      if !x.IsDated() {
        FilterCons(x, UndatedOf(t), q);
      } else {
        assert UndatedOf(books) == UndatedOf(t);
      }
    }
  }

  /** The sort is stable and every undated book is equivalent to every other,
      so the undated books keep their catalog order. */
  lemma SortKeepsUndatedOrder(s: seq<Book>, order: SortOrder)
    ensures Sorting.TotalPreorder(Precedes(order))
    ensures UndatedOf(Sorting.Sort(s, Precedes(order))) == UndatedOf(s)
  {
    CompareIsTotalPreorder(order);
    var u := Book("", "", "", "", "", "", None, None, None);
    var r := Sorting.Sort(s, Precedes(order));
    UndatedAreEquivalents(s, u, order);
    UndatedAreEquivalents(r, u, order);
  }

  /** The books equivalent to an undated one are exactly the undated books. */
  lemma {:induction false} UndatedAreEquivalents(s: seq<Book>, u: Book, order: SortOrder)
    requires !u.IsDated()
    ensures Sorting.EquivalentsOf(s, u, Precedes(order)) == UndatedOf(s)
  {
    if |s| > 0 {
      UndatedAreEquivalents(s[1..], u, order);
      assert Sorting.Equivalent(s[0], u, Precedes(order)) <==> !s[0].IsDated();
    }
  }

  /** A book is visible iff the catalog holds it and the query keeps it. */
  lemma VisibleMembership(books: seq<Book>, q: Query, b: Book)
    ensures b in Visible(books, q) <==> b in books && Keeps(q, b)
  {
    FilterMembership(books, q, b);
    var r := Visible(books, q);
    assert b in r <==> multiset(r)[b] > 0;
    assert b in Filter(books, q) <==> multiset(Filter(books, q))[b] > 0;
  }

  // ---------------------------------------------------------------------------
  // Loading the catalog
  // ---------------------------------------------------------------------------

  const LoadFailed := "无法加载书籍数据，请稍后重试"

  datatype CatalogState = CatalogState(books: seq<Book>, loading: bool, error: string)

  /** The state on first render. */
  const Initial := CatalogState([], true, "")

  /** `fetchBooks` before its request resolves: loading, error cleared. */
  function BeginFetch(st: CatalogState): (r: CatalogState)
    ensures r.loading && r.error == "" && r.books == st.books
  {
    st.(loading := true, error := "")
  }

  /** `fetchBooks` after its request for the catalog's `metaData.json` resolved
      with `outcome`. */
  function EndFetch(st: CatalogState, outcome: Fetched<seq<Book>>): (r: CatalogState)
    ensures !r.loading
    ensures outcome.Succeeded() ==> r.books == outcome.body.value && r.error == st.error
    ensures !outcome.Succeeded() ==> r.books == st.books && r.error == LoadFailed
  {
    if outcome.Succeeded() then st.(books := outcome.body.value, loading := false)
    else st.(error := LoadFailed, loading := false)
  }

  /** One whole `fetchBooks` call; the retry button runs the same call. */
  function FetchBooks(st: CatalogState, outcome: Fetched<seq<Book>>): CatalogState {
    EndFetch(BeginFetch(st), outcome)
  }

  /** A success replaces the books wholesale and clears the error; a failure
      keeps the books and shows the error; loading ends either way. */
  lemma FetchBooksOutcome(st: CatalogState, outcome: Fetched<seq<Book>>)
    ensures !FetchBooks(st, outcome).loading
    ensures outcome.Succeeded() ==>
      FetchBooks(st, outcome) == CatalogState(outcome.body.value, false, "")
    ensures !outcome.Succeeded() ==>
      FetchBooks(st, outcome) == CatalogState(st.books, false, LoadFailed)
  {
  }

  // ---------------------------------------------------------------------------
  // The page
  // ---------------------------------------------------------------------------

  datatype HomeView =
    | FailurePage(message: string)
    | Browse(totalBooks: nat, filtersShown: bool, grid: BookGrid.GridView)

  function Render(st: CatalogState, q: Query): (v: HomeView)
    ensures st.error != "" <==> v.FailurePage?
    ensures v.FailurePage? ==> v.message == st.error
    ensures v.Browse? ==> (v.filtersShown <==> !st.loading && |st.books| > 0)
    ensures v.Browse? ==> v.grid == BookGrid.Render(Visible(st.books, q), st.loading)
  {
    if st.error != "" then FailurePage(st.error)
    else Browse(|st.books|, !st.loading && |st.books| > 0, BookGrid.Render(Visible(st.books, q), st.loading))
  }

  /** The first render, before the first fetch resolves, shows the eight
      placeholder cards and no filter bars. */
  lemma InitialRender(q: Query)
    ensures Render(Initial, q) == Browse(0, false, BookGrid.Placeholders(BookGrid.PlaceholderCount))
  {
  }

  /** A failed load shows the failure page; retrying with a successful
      response brings back the browsing view over the loaded catalog. */
  lemma RetryAfterFailure(st: CatalogState, failed: Fetched<seq<Book>>, ok: Fetched<seq<Book>>, q: Query)
    requires !failed.Succeeded() && ok.Succeeded()
    ensures Render(FetchBooks(st, failed), q) == FailurePage(LoadFailed)
    ensures Render(FetchBooks(FetchBooks(st, failed), ok), q).Browse?
    ensures FetchBooks(FetchBooks(st, failed), ok).books == ok.body.value
  {
  }

  // ---------------------------------------------------------------------------
  // Example
  // ---------------------------------------------------------------------------

  function Dated(name: string, text: string, time: int): Book {
    Book(name, "", "", "", "", "", None, Some(Timestamp(text, time)), None)
  }

  const Book2023 := Dated("a", "2023-01-01", 1672531200000)
  const Book2024 := Dated("b", "2024-01-01", 1704067200000)
  const Undated := Book("c", "", "", "", "", "", None, None, None)

  /** With no search term, no category and no minimum score every book with
      no negative score is kept, in catalog order. */
  lemma {:induction false} KeepAll(books: seq<Book>, order: SortOrder)
    requires forall i :: 0 <= i < |books| && books[i].score.Some? ==> books[i].score.value >= 0
    ensures Filter(books, Query("", "", 0, order)) == books
  {
    if |books| > 0 {
      KeepAll(books[1..], order);
      EmptySearchMatchesAll(books[0]);
      assert books == [books[0]] + books[1..];
    }
  }

  lemma SortedTail(order: SortOrder)
    ensures Sorting.TotalPreorder(Precedes(order)) &&
      Sorting.Sort([Book2024, Undated], Precedes(order)) == [Book2024, Undated]
  {
    CompareIsTotalPreorder(order);
    var le := Precedes(order);
    assert [Book2024, Undated][1..] == [Undated];
    assert [Undated][1..] == [];
    assert Sorting.Sort([Undated], le) == Sorting.Insert(Undated, [], le) == [Undated];
    assert le(Book2024, Undated);
  }

  lemma SortedNewest()
    ensures Sorting.TotalPreorder(Precedes(Newest)) &&
      Sorting.Sort([Book2023, Book2024, Undated], Precedes(Newest)) == [Book2024, Book2023, Undated]
  {
    SortedTail(Newest);
    var le := Precedes(Newest);
    assert [Book2023, Book2024, Undated][1..] == [Book2024, Undated];
    assert !le(Book2023, Book2024);
    assert [Book2024, Undated][1..] == [Undated];
    assert le(Book2023, Undated);
    assert Sorting.Insert(Book2023, [Undated], le) == [Book2023, Undated];
    assert Sorting.Insert(Book2023, [Book2024, Undated], le) == [Book2024, Book2023, Undated];
  }

  lemma SortedOldest()
    ensures Sorting.TotalPreorder(Precedes(Oldest)) &&
      Sorting.Sort([Book2023, Book2024, Undated], Precedes(Oldest)) == [Book2023, Book2024, Undated]
  {
    SortedTail(Oldest);
    var le := Precedes(Oldest);
    assert [Book2023, Book2024, Undated][1..] == [Book2024, Undated];
    assert le(Book2023, Book2024);
    assert Sorting.Insert(Book2023, [Book2024, Undated], le) == [Book2023, Book2024, Undated];
  }

  /** Books of 2023, 2024 and no date: newest first gives 2024, 2023, undated;
      oldest first gives 2023, 2024, undated. */
  lemma SortExample()
    ensures Visible([Book2023, Book2024, Undated], Query("", "", 0, Newest)) == [Book2024, Book2023, Undated]
    ensures Visible([Book2023, Book2024, Undated], Query("", "", 0, Oldest)) == [Book2023, Book2024, Undated]
  {
    KeepAll([Book2023, Book2024, Undated], Newest);
    KeepAll([Book2023, Book2024, Undated], Oldest);
    SortedNewest();
    SortedOldest();
  }
}
