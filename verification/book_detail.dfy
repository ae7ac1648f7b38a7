/** The detail page of one book: resolving the route key to a catalog entry,
    loading the book's note from its GitHub address, and classifying the
    note's code elements. */
module BookDetail {
  import opened Options
  import opened Books
  import opened Strings
  import UriComponent
  import BookGrid
  import FrontMatter
  import Outline

  // ---------------------------------------------------------------------------
  // Route resolution
  // ---------------------------------------------------------------------------

  /** The index of the first book from `from` on named `name`. */
  function FindFrom(books: seq<Book>, name: string, from: nat): (r: Option<nat>)
    ensures r.Some? ==> from <= r.value < |books| && books[r.value].bookName == name
    ensures r.Some? ==> forall j :: from <= j < r.value ==> books[j].bookName != name
    ensures r.None? ==> forall j :: from <= j < |books| ==> books[j].bookName != name
    decreases |books| - from
  {
    if from >= |books| then None
    else if books[from].bookName == name then Some(from)
    else FindFrom(books, name, from + 1)
  }

  /** `books.find(b => b.bookName === name)`: the first book with that exact name. */
  function Find(books: seq<Book>, name: string): (r: Option<Book>)
    ensures r.None? <==> forall j :: 0 <= j < |books| ==> books[j].bookName != name
    ensures r.Some? ==> exists i ::
      && 0 <= i < |books| && books[i] == r.value && r.value.bookName == name
      && forall j :: 0 <= j < i ==> books[j].bookName != name
  {
    match FindFrom(books, name, 0)
    case None => None
    case Some(i) => Some(books[i])
  }

  /** What the route key leads to. `decodeURIComponent` throws on a malformed
      key while the page renders; that is `Malformed`. */
  datatype Resolution = Malformed | NotFound | Found(book: Book)

  /** `bookName ? decodeURIComponent(bookName) : ''` followed by the lookup;
      `key` is `None` when the route has no parameter. */
  function Resolve(books: seq<Book>, key: Option<string>): (r: Resolution)
    ensures r.Malformed? <==> key.Some? && key.value != "" && UriComponent.Decode(key.value).None?
    ensures r.Found? ==> r.book in books
    ensures (key.None? || key == Some("")) ==> r == if Find(books, "").Some? then Found(Find(books, "").value) else NotFound
    ensures forall name :: key.Some? && UriComponent.Decode(key.value) == Some(name) ==>
      r == if Find(books, name).Some? then Found(Find(books, name).value) else NotFound
  {
    var decoded := if key.Some? && key.value != "" then UriComponent.Decode(key.value) else Some("");
    match decoded
    case None => Malformed
    case Some(name) =>
      match Find(books, name)
      case None => NotFound
      case Some(b) => Found(b)
  }

  /** Following a book's card resolves to a book with the same name: the first
      one in the catalog, which is the clicked book when names are unique. */
  lemma ClickResolvesToBook(books: seq<Book>, k: nat)
    requires k < |books|
    ensures var key := BookGrid.Route(books[k])[|BookGrid.DetailPrefix|..];
      && Resolve(books, Some(key)).Found?
      && Resolve(books, Some(key)).book.bookName == books[k].bookName
    ensures (forall i, j :: 0 <= i < j < |books| ==> books[i].bookName != books[j].bookName) ==>
      Resolve(books, Some(BookGrid.Route(books[k])[|BookGrid.DetailPrefix|..])) == Found(books[k])
  {
    var key := BookGrid.Route(books[k])[|BookGrid.DetailPrefix|..];
    assert UriComponent.Decode(key) == Some(books[k].bookName);
    var r := Resolve(books, Some(key));
    assert Find(books, books[k].bookName).Some?;
  }

  // ---------------------------------------------------------------------------
  // Loading the note
  // ---------------------------------------------------------------------------

  const GithubHost := "github.com"
  const RawHost := "raw.githubusercontent.com"

  /** The address of the file's raw content: the first `github.com` becomes
      `raw.githubusercontent.com`, then the first `/blob/` becomes `/`. */
  function RawUrl(githubUrl: string): (r: string)
    ensures !Contains(githubUrl, GithubHost) && !Contains(githubUrl, "/blob/") ==> r == githubUrl
  {
    ReplaceFirst(ReplaceFirst(githubUrl, GithubHost, RawHost), "/blob/", "/")
  }

  /** The blob address of a repository file becomes its raw address, as long
      as neither the owner nor the repository is itself named `blob`. */
  lemma RawUrlOfBlob(owner: string, repo: string, path: string)
    requires '/' !in owner && '/' !in repo && owner != "blob" && repo != "blob"
    ensures RawUrl("https://" + GithubHost + "/" + owner + "/" + repo + "/blob/" + path)
         == "https://" + RawHost + "/" + owner + "/" + repo + "/" + path
  {
    var tail := owner + "/" + repo + "/blob/" + path;
    Regroup("https://" + GithubHost + "/", owner, repo, path);
    HostStep(tail);
    Regroup("https://" + RawHost + "/", owner, repo, path);
    PathStep(owner, repo, path);
  }

  /** With an owner named `blob` the owner segment is what is dropped, so the
      rest of the address, its own `/blob/` included, is kept as it is. */
  lemma RawUrlOfBlobOwner(rest: string)
    ensures RawUrl("https://" + GithubHost + "/blob/" + rest) == "https://" + RawHost + "/" + rest
  {
    assert "https://" + GithubHost + "/blob/" + rest == "https://" + GithubHost + "/" + ("blob/" + rest) by {
      assert "/blob/" == "/" + "blob/";
    }
    HostStep("blob/" + rest);
    BlobOwnerPathStep(rest);
  }

  lemma Regroup(p: string, owner: string, repo: string, path: string)
    ensures p + owner + "/" + repo + "/blob/" + path == p + (owner + "/" + repo + "/blob/" + path)
  {
  }

  /** Replacing the first occurrence of `pat` when it follows `a`. */
  lemma ReplaceAt(a: string, pat: string, rep: string, b: string)
    requires FirstOccurrence(a + pat + b, pat, |a|)
    ensures ReplaceFirst(a + pat + b, pat, rep) == a + rep + b
  {
    var s := a + pat + b;
    assert s[..|a|] == a;
    assert s[|a| + |pat|..] == b;
  }

  /** The first `github.com` of a GitHub address is its host. */
  lemma HostStep(tail: string)
    ensures ReplaceFirst("https://" + GithubHost + "/" + tail, GithubHost, RawHost)
         == "https://" + RawHost + "/" + tail
  {
    assert GithubHost[0] !in "https://";
    ReplaceHost("https://", GithubHost, RawHost, tail);
  }

  /** A host whose first character the scheme lacks is where the host is
      first found. */
  lemma ReplaceHost(scheme: string, host: string, rep: string, tail: string)
    requires |host| > 0 && host[0] !in scheme
    ensures ReplaceFirst(scheme + host + "/" + tail, host, rep) == scheme + rep + "/" + tail
  {
    assert scheme + host + "/" + tail == scheme + host + ("/" + tail);
    assert scheme + rep + "/" + tail == scheme + rep + ("/" + tail);
    FirstAfter(scheme, host, "/" + tail);
    ReplaceAt(scheme, host, rep, "/" + tail);
  }

  /** The first `/blob/` of a raw address follows the owner and the repository
      when neither is named `blob`. */
  lemma PathStep(owner: string, repo: string, path: string)
    requires '/' !in owner && '/' !in repo && owner != "blob" && repo != "blob"
    ensures ReplaceFirst("https://" + RawHost + "/" + owner + "/" + repo + "/blob/" + path, "/blob/", "/")
         == "https://" + RawHost + "/" + owner + "/" + repo + "/" + path
  {
    var h := "https://" + RawHost;
    HostSegments(h + "/" + owner + "/" + repo + "/blob/" + path, owner + "/" + repo + "/blob/" + path);
    SegmentsStep(h, owner, repo, path);
  }

  /** After a prefix in which no `/blob/` starts, the first `/blob/` follows
      the next two segments unless one of them is named `blob`. */
  lemma SegmentsStep(h: string, owner: string, repo: string, path: string)
    requires '/' !in owner && '/' !in repo && owner != "blob" && repo != "blob"
    requires forall j: nat :: j < |h| ==> !OccursAt(h + "/" + owner + "/" + repo + "/blob/" + path, "/blob/", j)
    ensures ReplaceFirst(h + "/" + owner + "/" + repo + "/blob/" + path, "/blob/", "/")
         == h + "/" + owner + "/" + repo + "/" + path
  {
    OwnerRepoSegments(h, owner, repo, path);
    FirstAfterPrefix(h + "/" + owner + "/" + repo, "/blob/", path);
    ReplaceAt(h + "/" + owner + "/" + repo, "/blob/", "/", path);
  }

  /** No `/blob/` starts in the owner or the repository segment. */
  lemma OwnerRepoSegments(h: string, owner: string, repo: string, path: string)
    requires '/' !in owner && '/' !in repo && owner != "blob" && repo != "blob"
    ensures forall j: nat :: |h| <= j < |h + "/" + owner + "/" + repo| ==>
      !OccursAt(h + "/" + owner + "/" + repo + "/blob/" + path, "/blob/", j)
  {
    var v := h + "/" + owner + "/" + repo + "/blob/" + path;
    assert v == h + "/" + owner + "/" + (repo + "/blob/" + path);
    NoBlobInSegment(h, owner, repo + "/blob/" + path);
    assert v == (h + "/" + owner) + "/" + repo + "/" + ("blob/" + path);
    NoBlobInSegment(h + "/" + owner, repo, "blob/" + path);
  }

  /** On a raw address whose first segment is `blob`, that segment goes. */
  lemma BlobOwnerPathStep(rest: string)
    ensures ReplaceFirst("https://" + RawHost + "/" + ("blob/" + rest), "/blob/", "/")
         == "https://" + RawHost + "/" + rest
  {
    var h := "https://" + RawHost;
    HostSegments(h + "/" + ("blob/" + rest), "blob/" + rest);
    assert h + "/" + ("blob/" + rest) == h + "/blob/" + rest by {
      assert "/" + "blob/" == "/blob/";
    }
    FirstAfterPrefix(h, "/blob/", rest);
    ReplaceAt(h, "/blob/", "/", rest);
  }

  /** No `/blob/` starts inside `https://raw.githubusercontent.com`. */
  lemma HostSegments(v: string, tail: string)
    requires v == "https://" + RawHost + "/" + tail
    ensures forall j: nat :: j < |"https://" + RawHost| ==> !OccursAt(v, "/blob/", j)
  {
    assert "https://" == "https:" + "/" + "" + "/";
    assert '/' !in RawHost && RawHost != "blob";
    SchemeHostSegments(RawHost, tail);
  }

  /** No `/blob/` starts in `https://` followed by a host without `/`. */
  lemma SchemeHostSegments(host: string, tail: string)
    requires '/' !in host && host != "blob"
    ensures forall j: nat :: j < 8 + |host| ==> !OccursAt("https:" + "/" + "" + "/" + host + "/" + tail, "/blob/", j)
  {
    var s := "https:" + "/" + "" + "/" + host + "/" + tail;
    assert s == "https:" + ("/" + "" + "/" + host + "/" + tail);
    NoBlobBeforeSlashFree("https:", "/" + "" + "/" + host + "/" + tail);
    assert s == "https:" + "/" + "" + "/" + (host + "/" + tail);
    NoBlobInSegment("https:", "", host + "/" + tail);
    NoBlobInSegment("https:" + "/" + "", host, tail);
  }

  /** No `/blob/` starts inside a slash-free prefix. */
  lemma NoBlobBeforeSlashFree(a: string, x: string)
    requires '/' !in a
    ensures forall j: nat :: j < |a| ==> !OccursAt(a + x, "/blob/", j)
  {
    var s := a + x;
    forall j: nat | j < |a| ensures !OccursAt(s, "/blob/", j) {
      if j + 6 <= |s| {
        assert s[j..j + 6][0] == s[j] == a[j];
      }
    }
  }

  /** No `/blob/` starts at the slash in front of a slash-delimited segment
      other than `blob`, nor inside it. */
  lemma NoBlobInSegment(a: string, seg: string, rest: string)
    requires '/' !in seg && seg != "blob"
    ensures forall j: nat :: |a| <= j <= |a| + |seg| ==> !OccursAt(a + "/" + seg + "/" + rest, "/blob/", j)
  {
    var s := a + "/" + seg + "/" + rest;
    var n := |a| + 1 + |seg|;
    assert s[n] == '/';
    forall j: nat | |a| <= j <= |a| + |seg| ensures !OccursAt(s, "/blob/", j) {
      if j + 6 <= |s| {
        var w := s[j..j + 6];
        if j > |a| {
          assert w[0] == s[j] == seg[j - |a| - 1];
        } else if |seg| < 4 {
          assert w[n - j] == s[n] == '/';
          assert "/blob/"[n - j] != '/';
        } else if |seg| > 4 {
          assert w[5] == s[j + 5] == seg[4];
        } else {
          assert w[1..5] == seg;
        }
      }
    }
  }

  /** A pattern whose first character does not occur in `a` is first found
      right after `a`. */
  lemma FirstAfter(a: string, pat: string, b: string)
    requires |pat| > 0 && pat[0] !in a
    ensures FirstOccurrence(a + pat + b, pat, |a|)
  {
    var s := a + pat + b;
    assert s[|a|..|a| + |pat|] == pat;
    forall j: nat | j < |a| ensures !OccursAt(s, pat, j) {
      assert s[j..j + |pat|][0] == s[j] == a[j];
    }
  }

  /** A pattern that starts nowhere in `a` is first found right after `a`. */
  lemma FirstAfterPrefix(a: string, pat: string, b: string)
    requires forall j: nat :: j < |a| ==> !OccursAt(a + pat + b, pat, j)
    ensures FirstOccurrence(a + pat + b, pat, |a|)
  {
    var s := a + pat + b;
    assert s[|a|..|a| + |pat|] == pat;
  }

  /** The effect: a note is requested only for a found book with a GitHub
      address, and from that address's raw form. */
  function NoteRequest(r: Resolution): (url: Option<string>)
    ensures url.Some? <==> r.Found? && r.book.githubUrl != ""
    ensures url.Some? ==> url.value == RawUrl(r.book.githubUrl)
  {
    if r.Found? && r.book.githubUrl != "" then Some(RawUrl(r.book.githubUrl)) else None
  }

  const NoteFailed := "无法加载笔记内容，请稍后重试"

  datatype NoteState = NoteState(markdown: string, loading: bool, error: string)

  /** The state on first render. */
  const InitialNote := NoteState("", false, "")

  /** `fetchMarkdownContent` before its request resolves. */
  function BeginNote(st: NoteState): (r: NoteState)
    ensures r.loading && r.error == "" && r.markdown == st.markdown
  {
    st.(loading := true, error := "")
  }

  /** `fetchMarkdownContent` after the request resolved with `outcome`: the
      body without its front matter on success, the fixed message otherwise. */
  function EndNote(st: NoteState, outcome: Fetched<string>): (r: NoteState)
    ensures !r.loading
    ensures outcome.Succeeded() ==> r.markdown == FrontMatter.Strip(outcome.body.value) && r.error == st.error
    ensures !outcome.Succeeded() ==> r.markdown == st.markdown && r.error == NoteFailed
  {
    if outcome.Succeeded() then st.(markdown := FrontMatter.Strip(outcome.body.value), loading := false)
    else st.(error := NoteFailed, loading := false)
  }

  function LoadNote(st: NoteState, outcome: Fetched<string>): NoteState {
    EndNote(BeginNote(st), outcome)
  }

  /** The spinner and the error message are never shown together: no state
      reachable from the first render is loading with an error. */
  predicate Consistent(st: NoteState) {
    st.loading ==> st.error == ""
  }

  /** The loads of a page visit, in order. */
  function LoadAll(st: NoteState, outcomes: seq<Fetched<string>>): NoteState
    decreases |outcomes|
  {
    if |outcomes| == 0 then st else LoadAll(LoadNote(st, outcomes[0]), outcomes[1..])
  }

  /** Every state any sequence of loads reaches from the first render is
      consistent. */
  lemma ReachableConsistent(outcomes: seq<Fetched<string>>)
    ensures Consistent(LoadAll(InitialNote, outcomes))
  {
    LoadsStayConsistent(InitialNote, outcomes);
  }

  lemma {:induction false} LoadsStayConsistent(st: NoteState, outcomes: seq<Fetched<string>>)
    requires Consistent(st)
    ensures Consistent(LoadAll(st, outcomes))
    decreases |outcomes|
  {
    if |outcomes| > 0 {
      LoadKeepsConsistent(st, outcomes[0]);
      LoadsStayConsistent(LoadNote(st, outcomes[0]), outcomes[1..]);
    }
  }

  lemma LoadKeepsConsistent(st: NoteState, outcome: Fetched<string>)
    requires Consistent(st)
    ensures Consistent(BeginNote(st)) && Consistent(EndNote(BeginNote(st), outcome))
    ensures outcome.Succeeded() ==> LoadNote(st, outcome) == NoteState(FrontMatter.Strip(outcome.body.value), false, "")
    ensures !outcome.Succeeded() ==> LoadNote(st, outcome) == NoteState(st.markdown, false, NoteFailed)
  {
  }

  // ---------------------------------------------------------------------------
  // Code elements
  // ---------------------------------------------------------------------------

  /** How a code element of the note is drawn. */
  datatype CodeView =
    | Diagram(chart: string)
    | InlineCode(text: string)
    | CodeBlock(caption: Option<string>, text: string)

  /** `className?.replace('language-', '') || ''`. */
  function Language(className: Option<string>): (lang: string)
    ensures className.None? ==> lang == ""
    ensures className.Some? && !Contains(className.value, "language-") ==> lang == className.value
  {
    if className.None? then "" else ReplaceFirst(className.value, "language-", "")
  }

  /** The renderer's `code` component: the diagram test comes before the
      inline test, and an empty class name counts as no class name. */
  function Code(className: Option<string>, text: string): (v: CodeView)
    ensures Language(className) == "mermaid" <==> v.Diagram?
    ensures v.InlineCode? <==> Language(className) != "mermaid" && (className.None? || className == Some(""))
    ensures v.CodeBlock? ==> (v.caption.Some? <==> Language(className) != "")
    ensures v.CodeBlock? && v.caption.Some? ==> v.caption.value == Language(className)
  {
    var lang := Language(className);
    if lang == "mermaid" then Diagram(text)
    else if className.None? || className.value == "" then InlineCode(text)
    else CodeBlock(if lang != "" then Some(lang) else None, text)
  }

  /** A fenced block's `language-L` class names the language `L`. */
  lemma LanguageOfFence(l: string)
    ensures Language(Some("language-" + l)) == l
  {
    var c := "language-" + l;
    FirstAfter("", "language-", l);
    assert "" + "language-" + l == c;
    assert c[9..] == l;
  }

  /** A fence labelled `mermaid` is a diagram; any other labelled fence is a
      block with that label, and a bare `language-` class a block without one. */
  lemma FenceClassification(l: string, text: string)
    ensures l == "mermaid" ==> Code(Some("language-" + l), text) == Diagram(text)
    ensures l != "mermaid" && l != "" ==> Code(Some("language-" + l), text) == CodeBlock(Some(l), text)
    ensures l == "" ==> Code(Some("language-" + l), text) == CodeBlock(None, text)
  {
    LanguageOfFence(l);
  }

  // ---------------------------------------------------------------------------
  // The page
  // ---------------------------------------------------------------------------

  datatype DetailView =
    | NotFoundPage
    | Page(book: Book, outline: Option<Outline.View>, spinner: bool, message: Option<string>, content: Option<string>)

  /** The page for a resolved key. The outline and the note body appear
      together, only for a non-empty note that is not loading and has no error. */
  function Render(r: Resolution, st: NoteState): (v: DetailView)
    requires !r.Malformed?
    ensures r.NotFound? <==> v.NotFoundPage?
    ensures v.Page? ==> v.book == r.book && v.spinner == st.loading
    ensures v.Page? ==> (v.message.Some? <==> st.error != "") && (v.message.Some? ==> v.message.value == st.error)
    ensures v.Page? ==> (v.content.Some? <==> st.markdown != "" && !st.loading && st.error == "")
    ensures v.Page? ==> (v.outline.Some? <==> v.content.Some?)
    ensures v.Page? && v.content.Some? ==> v.content.value == st.markdown && v.outline.value == Outline.Render(st.markdown)
  {
    match r
    case NotFound => NotFoundPage
    case Found(b) =>
      var shown := st.markdown != "" && !st.loading && st.error == "";
      Page(b,
        if shown then Some(Outline.Render(st.markdown)) else None,
        st.loading,
        if st.error != "" then Some(st.error) else None,
        if shown then Some(st.markdown) else None)
  }

  /** A failed load hides the note and shows the message, even when an earlier
      load had succeeded. */
  lemma FailureHidesNote(b: Book, st: NoteState, outcome: Fetched<string>)
    requires Consistent(st) && !outcome.Succeeded()
    ensures Render(Found(b), LoadNote(st, outcome)).message == Some(NoteFailed)
    ensures Render(Found(b), LoadNote(st, outcome)).content.None?
    ensures LoadNote(st, outcome).markdown == st.markdown
  {
  }
}
