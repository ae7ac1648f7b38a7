/** The catalog record. Fields keep the feed's JSON keys in camel case:
    `cateLevel1` is the feed's top-level category and `cateLeaf` its leaf
    category. */
module Books {
  import opened Options

  /** A last-modified stamp: the feed's text and the instant
      `new Date(text).getTime()` gives for it. */
  datatype Timestamp = Timestamp(text: string, time: int)

  datatype Book = Book(
    bookName: string,
    doubanUrl: string,
    bookCover: string,
    cateLevel1: string,
    cateLeaf: string,
    githubUrl: string,
    score: Option<int>,
    mtime: Option<Timestamp>,
    tags: Option<seq<string>>)
  {
    /** `!!book.score`: present and non-zero. */
    predicate HasScore() {
      score.Some? && score.value != 0
    }

    /** `!!book.mtime`: present and not the empty string. */
    predicate IsDated() {
      mtime.Some? && mtime.value.text != ""
    }
  }

  /** The outcome of one `fetch` followed by reading its body: an HTTP
      response whose body parsed (`Some`) or did not (`None`), or a
      rejected request. */
  datatype Fetched<T> = Response(status: int, body: Option<T>) | NetworkError
  {
    /** `response.ok` held and the body was read: the `try` block ran to its end. */
    predicate Succeeded() {
      Response? && 200 <= status <= 299 && body.Some?
    }
  }
}
