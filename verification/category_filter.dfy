/** The category bar: one "All" button and one button per distinct top-level
    category, in the default string order. */
module CategoryFilter {
  import opened Books
  import opened Controls
  import Sorting
  import TextOrder

  /** Some book of `books` has the top-level category `c`. */
  predicate IsCategoryOf(books: seq<Book>, c: string) {
    exists k :: 0 <= k < |books| && books[k].cateLevel1 == c
  }

  /** `Array.from(new Set(books.map(b => b.cateLevel1))).sort()`. */
  function Categories(books: seq<Book>): (r: seq<string>)
    ensures Sorting.NoDuplicates(r)
    ensures Sorting.SortedBy(r, TextOrder.Le)
    ensures forall i :: 0 <= i < |r| ==> IsCategoryOf(books, r[i])
    ensures forall k :: 0 <= k < |books| ==> books[k].cateLevel1 in r
    ensures |r| <= |books|
  {
    var all := seq(|books|, k requires 0 <= k < |books| => books[k].cateLevel1);
    var distinct := Sorting.Dedup(all);
    TextOrder.LeIsTotalPreorder();
    var r := Sorting.Sort(distinct, TextOrder.Le);
    Sorting.SameElements(distinct, r);
    assert forall i :: 0 <= i < |r| ==> r[i] in all;
    assert forall k :: 0 <= k < |all| ==> all[k] in r by {
      forall k | 0 <= k < |all| ensures all[k] in r {
        assert all[k] in distinct;
      }
    }
    CategoriesOf(books, all, r);
    r
  }

  /** The list holds the categories of `books`, when it holds exactly the
      elements of `all`, their categories one by one. */
  lemma CategoriesOf(books: seq<Book>, all: seq<string>, r: seq<string>)
    requires |all| == |books| && forall k :: 0 <= k < |books| ==> all[k] == books[k].cateLevel1
    requires forall i :: 0 <= i < |r| ==> r[i] in all
    requires forall k :: 0 <= k < |all| ==> all[k] in r
    ensures forall i :: 0 <= i < |r| ==> IsCategoryOf(books, r[i])
    ensures forall k :: 0 <= k < |books| ==> books[k].cateLevel1 in r
  {
    forall i | 0 <= i < |r| ensures IsCategoryOf(books, r[i]) {
      var m :| 0 <= m < |all| && all[m] == r[i];
      assert books[m].cateLevel1 == r[i];
    }
    forall k | 0 <= k < |books| ensures books[k].cateLevel1 in r {
      assert all[k] in r;
    }
  }

  /** The buttons in order: "All" selects `""`, then each category selects
      exactly its own name; a button is active iff its value is selected. */
  function Buttons(books: seq<Book>, selected: string): (r: seq<Choice<string>>)
    ensures |r| == |Categories(books)| + 1
    ensures r[0].value == ""
    ensures forall i :: 0 < i < |r| ==> r[i].value == Categories(books)[i - 1]
    ensures forall i :: 0 <= i < |r| ==> (r[i].active <==> r[i].value == selected)
  {
    ChoicesFor([""] + Categories(books), selected)
  }

  /** Clicking a button selects its value, which then shows that button as active. */
  lemma ClickActivates(books: seq<Book>, selected: string, i: nat)
    requires i < |Buttons(books, selected)|
    ensures Buttons(books, Buttons(books, selected)[i].value)[i].active
  {
  }
}
