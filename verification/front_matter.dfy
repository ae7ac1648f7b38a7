/** Removal of a leading YAML front-matter block with the regular expression
    `^---\s*\n[\s\S]*?\n---\s*\n`, replaced by the empty string.

    A match is fixed by three positions of the text `s`:
      - `open`, the newline ending the opening line (`---` then whitespace);
      - `close`, the newline in front of the closing `---`;
      - `end`, the newline ending the closing line (whitespace after `---`).
    Several position triples can fit one text, because `\s` also matches a
    newline. The regular expression engine takes the first that fits in its
    backtracking order: the greedy `\s*` tries the largest `open` first, for it
    the lazy `[\s\S]*?` tries the smallest `close`, and for that the greedy
    `\s*` tries the largest `end`. */
module FrontMatter {
  import opened Options
  import opened Strings

  datatype Delimiters = Delimiters(open: nat, close: nat, end: nat)

  /** `^---\s*\n` with the `\n` at `j`. */
  predicate OpensAt(s: string, j: nat) {
    3 <= j < |s| && s[..3] == "---" && AllWhitespace(s[3..j]) && s[j] == '\n'
  }

  /** `\n---` starting at `k`. */
  predicate ClosesAt(s: string, k: nat) {
    k + 4 <= |s| && s[k] == '\n' && s[k + 1..k + 4] == "---"
  }

  /** `\s*\n` after the closing `---` at `k`, with the `\n` at `e`. */
  predicate EndsAt(s: string, k: nat, e: nat) {
    k + 4 <= e < |s| && AllWhitespace(s[k + 4..e]) && s[e] == '\n'
  }

  /** The whole pattern matches `s[..d.end + 1]` with these positions. */
  predicate Fits(s: string, d: Delimiters) {
    OpensAt(s, d.open) && d.open < d.close && ClosesAt(s, d.close) && EndsAt(s, d.close, d.end)
  }

  /** `a` is tried before `b` when the engine backtracks. */
  predicate TriedBefore(a: Delimiters, b: Delimiters) {
    || a.open > b.open
    || (a.open == b.open && a.close < b.close)
    || (a.open == b.open && a.close == b.close && a.end > b.end)
  }

  /** The match the engine reports: a fitting triple no other fitting triple precedes. */
  ghost predicate Reported(s: string, d: Delimiters) {
    Fits(s, d) && forall d' :: Fits(s, d') ==> !TriedBefore(d', d)
  }

  /** The largest `e` below `bound` that ends the closing line at `k`. */
  function LastEnd(s: string, k: nat, bound: nat): (r: Option<nat>)
    requires bound <= |s|
    ensures r.Some? ==> EndsAt(s, k, r.value) && r.value < bound
    ensures r.Some? ==> forall e :: r.value < e < bound ==> !EndsAt(s, k, e)
    ensures r.None? ==> forall e: nat :: e < bound ==> !EndsAt(s, k, e)
    decreases bound
  {
    if bound == 0 then None
    else if EndsAt(s, k, bound - 1) then Some(bound - 1)
    else LastEnd(s, k, bound - 1)
  }

  /** A closing line that can end starts at `k`. */
  predicate CanClose(s: string, k: nat) {
    ClosesAt(s, k) && LastEnd(s, k, |s|).Some?
  }

  /** The smallest `k` from `from` on at which a closing line that can end starts. */
  function FirstClose(s: string, from: nat): (r: Option<nat>)
    ensures r.Some? ==> from <= r.value && CanClose(s, r.value)
    ensures r.Some? ==> forall k: nat :: from <= k < r.value ==> !CanClose(s, k)
    ensures r.None? ==> forall k: nat :: from <= k ==> !CanClose(s, k)
    decreases |s| - from
  {
    if from >= |s| then None
    else if CanClose(s, from) then Some(from)
    else FirstClose(s, from + 1)
  }

  /** An opening line ends at `j` and a block opened there can be closed. */
  predicate CanOpen(s: string, j: nat) {
    OpensAt(s, j) && FirstClose(s, j + 1).Some?
  }

  /** The largest `j` below `bound` that opens a block which can be closed. */
  function LastOpen(s: string, bound: nat): (r: Option<nat>)
    ensures r.Some? ==> r.value < bound && CanOpen(s, r.value)
    ensures r.Some? ==> forall j: nat :: r.value < j < bound ==> !CanOpen(s, j)
    ensures r.None? ==> forall j: nat :: j < bound ==> !CanOpen(s, j)
    decreases bound
  {
    if bound == 0 then None
    else if CanOpen(s, bound - 1) then Some(bound - 1)
    else LastOpen(s, bound - 1)
  }

  /** The positions of the match of the front-matter pattern, if there is one. */
  function Find(s: string): (r: Option<Delimiters>)
    ensures r.Some? ==> Reported(s, r.value)
    ensures r.None? ==> forall d :: !Fits(s, d)
  {
    match LastOpen(s, |s|)
    case None =>
      forall d | Fits(s, d) ensures false {
        FitsCanOpen(s, d);
      }
      None
    case Some(j) =>
      var k := FirstClose(s, j + 1).value;
      var e := LastEnd(s, k, |s|).value;
      var d := Delimiters(j, k, e);
      forall d' | Fits(s, d') ensures !TriedBefore(d', d) {
        FitsCanOpen(s, d');
      }
      Some(d)
  }

  /** A fitting triple opens a block that can be closed, at a closing line
      that can end. */
  lemma FitsCanOpen(s: string, d: Delimiters)
    requires Fits(s, d)
    ensures CanClose(s, d.close) && CanOpen(s, d.open)
  {
    assert LastEnd(s, d.close, |s|).Some?;
    assert CanClose(s, d.close);
    assert FirstClose(s, d.open + 1).Some?;
  }

  /** `content.replace(frontMatterPattern, '')`. */
  function Strip(s: string): (r: string)
    ensures (forall d :: !Fits(s, d)) ==> r == s
    ensures forall d :: Reported(s, d) ==> r == s[d.end + 1..]
  {
    match Find(s)
    case None => s
    case Some(d) =>
      forall d' | Reported(s, d') ensures d' == d {
        assert !TriedBefore(d', d) && !TriedBefore(d, d');
      }
      s[d.end + 1..]
  }

  /** The strip only ever removes a prefix. */
  lemma StripIsSuffix(s: string)
    ensures |Strip(s)| <= |s| && Strip(s) == s[|s| - |Strip(s)|..]
  {
    match Find(s)
    case None =>
    case Some(d) =>
  }

  /** Text that does not begin with `---` is left as it is. */
  lemma NoLeadingFence(s: string)
    requires |s| < 3 || s[..3] != "---"
    ensures Strip(s) == s
  {
  }

  /** A note that opens with `---`, one line of metadata starting with a
      non-blank, and `---`, loses exactly those three lines, as long as its
      first following line starts with a non-blank. */
  lemma StripBlock(body: string, rest: string)
    requires |body| > 0 && !IsWhitespace(body[0]) && '\n' !in body
    requires |rest| > 0 && !IsWhitespace(rest[0])
    ensures Strip("---\n" + body + "\n---\n" + rest) == rest
  {
    var s := "---\n" + body + "\n---\n" + rest;
    var k := 4 + |body|;
    BlockShape(body, rest);
    var d := Delimiters(3, k, k + 4);
    assert s[3..3] == [] && s[k + 4..k + 4] == [];
    assert Fits(s, d);
    forall d' | Fits(s, d') ensures !TriedBefore(d', d) {
      BlockOnlyFit(body, rest, d');
    }
    assert Reported(s, d);
  }

  /** Where the parts of such a note sit. */
  lemma BlockShape(body: string, rest: string)
    ensures var s := "---\n" + body + "\n---\n" + rest;
      var k := 4 + |body|;
      && |s| == k + 5 + |rest|
      && s[..3] == "---" && s[3] == '\n'
      && (forall i :: 4 <= i < k ==> s[i] == body[i - 4])
      && s[k] == '\n' && s[k + 1..k + 4] == "---" && s[k + 4] == '\n'
      && s[k + 5..] == rest
  {
    var s := "---\n" + body + "\n---\n" + rest;
    var k := 4 + |body|;
    assert s == "---\n" + (body + ("\n---\n" + rest));
    assert s[..3] == "---";
    assert s[k..k + 5] == "\n---\n";
    assert s[k + 1..k + 4] == s[k..k + 5][1..4];
  }

  /** Every fitting triple of such a note opens after the first `---`, and
      closes at the first `---` line, with nothing after it on that line, or
      later. */
  lemma BlockOnlyFit(body: string, rest: string, d: Delimiters)
    requires |body| > 0 && !IsWhitespace(body[0]) && '\n' !in body
    requires |rest| > 0 && !IsWhitespace(rest[0])
    requires Fits("---\n" + body + "\n---\n" + rest, d)
    ensures d.open == 3 && d.close >= 4 + |body|
    ensures d.close == 4 + |body| ==> d.end == 8 + |body|
  {
    var s := "---\n" + body + "\n---\n" + rest;
    var k := 4 + |body|;
    BlockShape(body, rest);
    assert s[4] == body[0];
    WhitespaceSlice(s, 3, d.open);
    assert d.open == 3;
    if d.close == k {
      assert s[k + 5] == rest[0];
      WhitespaceSlice(s, k + 4, d.end);
    }
  }
}
