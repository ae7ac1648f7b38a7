/** The score and time bar: an "All" button and one button per distinct
    non-zero score, ascending; then the newest-first and oldest-first buttons. */
module ScoreFilter {
  import opened Options
  import opened Books
  import opened Controls
  import Sorting
  import HomePage

  /** Some book of `books` has the score `v`. */
  predicate IsScoreOf(books: seq<Book>, v: int) {
    exists k :: 0 <= k < |books| && books[k].score == Some(v)
  }

  /** The present, non-zero scores of `books` in catalog order
      (`books.map(b => b.score).filter(Boolean)`). */
  function PresentScores(books: seq<Book>): (r: seq<int>)
    ensures forall i :: 0 <= i < |r| ==> r[i] != 0
    ensures forall i :: 0 <= i < |r| ==> IsScoreOf(books, r[i])
    ensures forall k :: 0 <= k < |books| && books[k].HasScore() ==> books[k].score.value in r
  {
    if |books| == 0 then []
    else
      var rest := PresentScores(books[1..]);
      assert forall k :: 1 <= k < |books| ==> books[k] == books[1..][k - 1];
      if books[0].HasScore() then [books[0].score.value] + rest else rest
  }

  /** The comparator `(a, b) => a - b` as an order. */
  function NumericLe(a: int, b: int): bool {
    a - b <= 0
  }

  lemma NumericLeIsTotalPreorder()
    ensures Sorting.TotalPreorder(NumericLe)
  {
  }

  /** `Array.from(new Set(scores)).sort((a, b) => a - b)`. */
  function Scores(books: seq<Book>): (r: seq<int>)
    ensures forall i, j :: 0 <= i < j < |r| ==> r[i] < r[j]
    ensures forall i :: 0 <= i < |r| ==> r[i] != 0
    ensures forall i :: 0 <= i < |r| ==> IsScoreOf(books, r[i])
    ensures forall k :: 0 <= k < |books| && books[k].HasScore() ==> books[k].score.value in r
  {
    var present := PresentScores(books);
    var r := SortDistinct(present);
    forall i | 0 <= i < |r| ensures IsScoreOf(books, r[i]) {
      var m :| 0 <= m < |present| && present[m] == r[i];
    }
    r
  }

  /** The distinct elements of `s`, ascending. */
  function SortDistinct(s: seq<int>): (r: seq<int>)
    ensures forall i, j :: 0 <= i < j < |r| ==> r[i] < r[j]
    ensures forall i :: 0 <= i < |r| ==> r[i] in s
    ensures forall i :: 0 <= i < |s| ==> s[i] in r
  {
    var distinct := Sorting.Dedup(s);
    NumericLeIsTotalPreorder();
    var r := Sorting.Sort(distinct, NumericLe);
    Sorting.SameElements(distinct, r);
    Ascending(r);
    r
  }

  /** Sorted by `(a, b) => a - b` without repeats means strictly ascending. */
  lemma Ascending(r: seq<int>)
    requires Sorting.SortedBy(r, NumericLe) && Sorting.NoDuplicates(r)
    ensures forall i, j :: 0 <= i < j < |r| ==> r[i] < r[j]
  {
    forall i, j | 0 <= i < j < |r| ensures r[i] < r[j] {
      assert NumericLe(r[i], r[j]);
    }
  }

  datatype ScoreBar = ScoreBar(scoreRow: Option<seq<Choice<int>>>, timeRow: seq<Choice<HomePage.SortOrder>>)

  /** The bar: the score row only when some score is listed ("All" sets 0,
      each score button sets exactly its score), and the two time buttons. */
  function Render(books: seq<Book>, minScore: int, order: HomePage.SortOrder): (v: ScoreBar)
    ensures v.scoreRow.Some? <==> |Scores(books)| > 0
    ensures v.scoreRow.Some? ==> |v.scoreRow.value| == |Scores(books)| + 1
    ensures v.scoreRow.Some? ==> v.scoreRow.value[0].value == 0
    ensures v.scoreRow.Some? ==> forall i :: 0 < i < |v.scoreRow.value| ==> v.scoreRow.value[i].value == Scores(books)[i - 1]
    ensures v.scoreRow.Some? ==> forall i :: 0 <= i < |v.scoreRow.value| ==> (v.scoreRow.value[i].active <==> v.scoreRow.value[i].value == minScore)
    ensures |v.timeRow| == 2 && v.timeRow[0].value == HomePage.Newest && v.timeRow[1].value == HomePage.Oldest
    ensures forall i :: 0 <= i < 2 ==> (v.timeRow[i].active <==> v.timeRow[i].value == order)
  {
    var scores := Scores(books);
    var row := if |scores| == 0 then None else Some(ChoicesFor([0] + scores, minScore));
    ScoreBar(row, ChoicesFor([HomePage.Newest, HomePage.Oldest], order))
  }

  /** Clicking a listed score, with no search term and no category, never
      empties the page: some shown book has exactly that score. The page
      shows precisely the catalog's unscored books and those scoring at least
      the chosen value. */
  lemma ChosenScoreThreshold(books: seq<Book>, i: nat, order: HomePage.SortOrder)
    requires i < |Scores(books)|
    ensures IsScoreOf(HomePage.Filter(books, HomePage.Query("", "", Scores(books)[i], order)), Scores(books)[i])
    ensures forall b :: b in HomePage.Filter(books, HomePage.Query("", "", Scores(books)[i], order))
                        <==> b in books && (!b.HasScore() || b.score.value >= Scores(books)[i])
  {
    ThresholdShows(books, Scores(books)[i], order);
  }

  /** The page under a threshold that is some book's non-zero score. */
  lemma ThresholdShows(books: seq<Book>, v: int, order: HomePage.SortOrder)
    requires IsScoreOf(books, v) && v != 0
    ensures IsScoreOf(HomePage.Filter(books, HomePage.Query("", "", v, order)), v)
    ensures forall b :: b in HomePage.Filter(books, HomePage.Query("", "", v, order))
                        <==> b in books && (!b.HasScore() || b.score.value >= v)
  {
    var q := HomePage.Query("", "", v, order);
    var shown := HomePage.Filter(books, q);
    forall b ensures b in shown <==> b in books && (!b.HasScore() || b.score.value >= v) {
      HomePage.EmptySearchMatchesAll(b);
      HomePage.FilterMembership(books, q, b);
    }
    var k :| 0 <= k < |books| && books[k].score == Some(v);
    assert books[k] in books;
    var m :| 0 <= m < |shown| && shown[m] == books[k];
  }
}
