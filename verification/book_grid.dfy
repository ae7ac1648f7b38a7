/** The grid of book cards: loading placeholders, the no-results view, or one
    card per book, each navigating to the book's detail route. */
module BookGrid {
  import opened Options
  import opened Books
  import UriComponent

  /** The number of skeleton cards shown while the catalog loads. */
  const PlaceholderCount := 8

  const DetailPrefix := "/book/"

  /** Where a click on `b`'s card navigates: the detail prefix followed by
      `encodeURIComponent(b.bookName)`, which is one path segment. */
  function Route(b: Book): (path: string)
    ensures |path| >= |DetailPrefix| && path[..|DetailPrefix|] == DetailPrefix
    ensures UriComponent.IsEscaped(path[|DetailPrefix|..])
    ensures '/' !in path[|DetailPrefix|..]
    ensures UriComponent.Decode(path[|DetailPrefix|..]) == Some(b.bookName)
  {
    var key := UriComponent.Encode(b.bookName);
    UriComponent.EscapedHasNoSlash(key);
    UriComponent.DecodeEncode(b.bookName);
    assert (DetailPrefix + key)[|DetailPrefix|..] == key;
    DetailPrefix + key
  }

  datatype Card = Card(book: Book, route: string)

  datatype GridView =
    | Placeholders(count: nat)
    | NoResults
    | Cards(cards: seq<Card>)

  /** What the grid shows for `books` (already filtered and sorted). */
  function Render(books: seq<Book>, loading: bool): (v: GridView)
    ensures loading ==> v == Placeholders(PlaceholderCount)
    ensures !loading && |books| == 0 ==> v == NoResults
    ensures !loading && |books| > 0 ==> v.Cards? && |v.cards| == |books|
    ensures v.Cards? ==> forall i :: 0 <= i < |v.cards| ==>
      v.cards[i].book == books[i] && v.cards[i].route == Route(books[i])
  {
    if loading then Placeholders(PlaceholderCount)
    else if |books| == 0 then NoResults
    else Cards(seq(|books|, i requires 0 <= i < |books| => Card(books[i], Route(books[i]))))
  }
}
