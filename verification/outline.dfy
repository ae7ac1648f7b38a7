/** The outline beside a note: one entry per line of the form
    `^(#{1,6})\s+(.+)$`, a simplified ATX heading (section 4.2 of CommonMark
    describes the full form, which this is not).

    The pattern has no multiline flag and is applied to one line of
    `markdown.split('\n')`. A match is fixed by `h`, the length of the `#`
    run, and `w`, the length of the whitespace run after it; the rest of the
    line is the captured text, which `.+$` requires to be non-empty and free
    of line terminators. The engine tries the largest `h` first and, for it,
    the largest `w`. */
module Outline {
  import opened Options
  import opened Strings

  // ---------------------------------------------------------------------------
  // One line
  // ---------------------------------------------------------------------------

  predicate AllHashes(s: string) {
    forall i :: 0 <= i < |s| ==> s[i] == '#'
  }

  /** No character `.` refuses. */
  predicate NoLineTerminator(s: string) {
    forall i :: 0 <= i < |s| ==> !IsLineTerminator(s[i])
  }

  /** The pattern matches `line` with a `#` run of `h` and a whitespace run of `w`. */
  predicate Fits(line: string, h: int, w: int) {
    && 1 <= h <= 6 && 1 <= w && h + w < |line|
    && AllHashes(line[..h])
    && AllWhitespace(line[h..h + w])
    && NoLineTerminator(line[h + w..])
  }

  /** The two capture groups, as the level and the raw heading text. */
  datatype Capture = Capture(level: nat, raw: string)

  /** The largest `w` below `bound` that completes a match with `h`. */
  function LastGap(line: string, h: nat, bound: nat): (r: Option<nat>)
    ensures r.Some? ==> r.value < bound && Fits(line, h, r.value)
    decreases bound
  {
    if bound == 0 then None
    else if Fits(line, h, bound - 1) then Some(bound - 1)
    else LastGap(line, h, bound - 1)
  }

  lemma {:induction false} LastGapSpec(line: string, h: nat, bound: nat)
    ensures var r := LastGap(line, h, bound);
      && (r.Some? ==> Fits(line, h, r.value))
      && (r.Some? ==> forall w :: r.value < w < bound ==> !Fits(line, h, w))
      && (r.None? ==> forall w: nat :: w < bound ==> !Fits(line, h, w))
    decreases bound
  {
    if bound > 0 && !Fits(line, h, bound - 1) {
      LastGapSpec(line, h, bound - 1);
    }
  }

  /** The largest `h` below `bound` with which the line matches. */
  function LastRun(line: string, bound: nat): (r: Option<nat>)
    ensures r.Some? ==> r.value < bound
    decreases bound
  {
    if bound == 0 then None
    else if LastGap(line, bound - 1, |line|).Some? then Some(bound - 1)
    else LastRun(line, bound - 1)
  }

  lemma {:induction false} LastRunSpec(line: string, bound: nat)
    ensures var r := LastRun(line, bound);
      && (r.Some? ==> LastGap(line, r.value, |line|).Some?)
      && (r.Some? ==> forall h :: r.value < h < bound ==> LastGap(line, h, |line|).None?)
      && (r.None? ==> forall h: nat :: h < bound ==> LastGap(line, h, |line|).None?)
    decreases bound
  {
    if bound > 0 && LastGap(line, bound - 1, |line|).None? {
      LastRunSpec(line, bound - 1);
    }
  }

  /** The positions the engine reports for `line`: a match, and no match
      with a longer `#` group or, with the same one, a longer whitespace run. */
  ghost predicate Reported(line: string, h: int, w: int) {
    Fits(line, h, w) && forall h', w' :: Fits(line, h', w') ==> h' < h || (h' == h && w' <= w)
  }

  /** `line.match(/^(#{1,6})\s+(.+)$/)`, as the two capture groups. */
  function MatchLine(line: string): Option<Capture>
  {
    match LastRun(line, 7)
    case None => None
    case Some(h) =>
      var w := LastGap(line, h, |line|).value;
      Some(Capture(h, line[h + w..]))
  }

  /** The line matches iff some positions fit, and the capture is the one the
      backtracking order reports. */
  lemma MatchLineReportsFirst(line: string)
    ensures MatchLine(line).None? <==> forall h, w :: !Fits(line, h, w)
    ensures MatchLine(line).Some? ==> exists h, w ::
      Reported(line, h, w) && MatchLine(line).value == Capture(h, line[h + w..])
  {
    LastRunSpec(line, 7);
    forall h: nat | h < 7 {
      LastGapSpec(line, h, |line|);
    }
    match LastRun(line, 7)
    case None =>
    case Some(h) =>
      var w := LastGap(line, h, |line|).value;
      forall h', w' | Fits(line, h', w') ensures h' < h || (h' == h && w' <= w) {
        assert LastGap(line, h', |line|).Some?;
      }
      assert Reported(line, h, w);
  }

  /** The length of the `#` run a line starts with. */
  function LeadingHashes(line: string): (n: nat)
    ensures n <= |line| && AllHashes(line[..n])
    ensures n < |line| ==> line[n] != '#'
  {
    if |line| == 0 || line[0] != '#' then 0
    else
      var n := 1 + LeadingHashes(line[1..]);
      assert line[..n] == [line[0]] + line[1..][..n - 1];
      n
  }

  /** In any match the `#` group is the whole leading run of `#`. */
  lemma FitsAtHashRun(line: string, h: int, w: int)
    requires Fits(line, h, w)
    ensures h == LeadingHashes(line) && IsWhitespace(line[h])
    ensures !IsLineTerminator(line[|line| - 1])
  {
    var n := LeadingHashes(line);
    assert line[|line| - 1] == line[h + w..][|line| - 1 - (h + w)];
    HashesAt(line, n);
    HashesAt(line, h);
    assert line[h] == line[h..h + w][0];
    assert line[h] != '#';
  }

  /** Every character of an all-`#` prefix is `#`. */
  lemma HashesAt(line: string, n: int)
    requires 0 <= n <= |line| && AllHashes(line[..n])
    ensures forall i :: 0 <= i < n ==> line[i] == '#'
  {
    forall i | 0 <= i < n ensures line[i] == '#' {
      assert line[..n][i] == line[i];
    }
  }

  /** The level is the number of leading `#`, between 1 and 6. */
  lemma LevelIsHashCount(line: string)
    requires MatchLine(line).Some?
    ensures MatchLine(line).value.level == LeadingHashes(line)
    ensures 1 <= MatchLine(line).value.level <= 6
  {
    MatchLineReportsFirst(line);
    var h, w :| Reported(line, h, w) && MatchLine(line).value == Capture(h, line[h + w..]);
    FitsAtHashRun(line, h, w);
  }

  /** A run of seven or more `#` is not a heading. */
  lemma TooManyHashes(line: string)
    requires LeadingHashes(line) >= 7
    ensures MatchLine(line).None?
  {
    MatchLineReportsFirst(line);
    forall h, w | Fits(line, h, w) ensures false {
      FitsAtHashRun(line, h, w);
    }
  }

  /** Without whitespace right after the `#` run, a line is not a heading. */
  lemma NoGapAfterHashes(line: string)
    requires LeadingHashes(line) == |line| || !IsWhitespace(line[LeadingHashes(line)])
    ensures MatchLine(line).None?
  {
    MatchLineReportsFirst(line);
    forall h, w | Fits(line, h, w) ensures false {
      FitsAtHashRun(line, h, w);
    }
  }

  /** A line ending in `\r` (a CRLF line after splitting on `\n`) is not a heading. */
  lemma CarriageReturnLine(line: string)
    requires |line| > 0 && line[|line| - 1] == '\r'
    ensures MatchLine(line).None?
  {
    MatchLineReportsFirst(line);
    forall h, w | Fits(line, h, w) ensures false {
      FitsAtHashRun(line, h, w);
    }
  }

  /** `n` marks, one space and a text that starts with a non-space and holds
      no line terminator form a heading of level `n` capturing that text. */
  lemma SimpleHeading(marks: string, t: string)
    requires 1 <= |marks| <= 6 && AllHashes(marks)
    requires |t| > 0 && !IsWhitespace(t[0]) && NoLineTerminator(t)
    ensures MatchLine(marks + " " + t) == Some(Capture(|marks|, t))
  {
    var line, n := marks + " " + t, |marks|;
    SimpleHeadingShape(marks, t);
    LastGapSpec(line, n, |line|);
    assert LastGap(line, n, |line|).Some?;
    LastRunSpec(line, 7);
    var h := LastRun(line, 7).value;
    var w := LastGap(line, h, |line|).value;
    LastGapSpec(line, h, |line|);
    SimpleHeadingFit(marks, t, h, w);
  }

  /** Such a heading fits the pattern in one way only. */
  lemma SimpleHeadingFit(marks: string, t: string, h: nat, w: nat)
    requires 1 <= |marks| <= 6 && AllHashes(marks)
    requires |t| > 0 && !IsWhitespace(t[0]) && NoLineTerminator(t)
    requires Fits(marks + " " + t, h, w)
    ensures h == |marks| && w == 1
  {
    var line := marks + " " + t;
    SimpleHeadingShape(marks, t);
    FitsAtHashRun(line, h, w);
    WhitespaceSlice(line, h, h + w);
  }

  /** The positions of a heading made of marks, one space and a text. */
  lemma SimpleHeadingShape(marks: string, t: string)
    requires 1 <= |marks| <= 6 && AllHashes(marks)
    requires |t| > 0 && !IsWhitespace(t[0]) && NoLineTerminator(t)
    ensures var line := marks + " " + t;
      && Fits(line, |marks|, 1) && LeadingHashes(line) == |marks|
      && line[|marks| + 1..] == t && !IsWhitespace(line[|marks| + 1])
  {
    var line := marks + " " + t;
    var n := |marks|;
    assert line[..n] == marks && line[n..n + 1] == " " && line[n + 1..] == t;
    assert line[n] == ' ';
  }

  // ---------------------------------------------------------------------------
  // Heading text
  // ---------------------------------------------------------------------------

  /** No two adjacent `*`. */
  predicate NoDoubleStar(s: string) {
    forall i :: 0 <= i < |s| - 1 ==> !(s[i] == '*' && s[i + 1] == '*')
  }

  lemma NoDoubleStarMeansNoBold(s: string)
    ensures NoDoubleStar(s) <==> !Contains(s, "**")
  {
    if NoDoubleStar(s) {
      forall i | 0 <= i <= |s| - 2 ensures !OccursAt(s, "**", i) {
        assert s[i..i + 2][0] == s[i] && s[i..i + 2][1] == s[i + 1];
      }
    } else {
      var i :| 0 <= i < |s| - 1 && s[i] == '*' && s[i + 1] == '*';
      assert s[i..i + 2] == "**";
      assert OccursAt(s, "**", i);
    }
  }

  /** The characters of `s` other than `*`, in order. */
  function Unstarred(s: string): (r: string)
    ensures '*' !in r
  {
    if |s| == 0 then "" else if s[0] == '*' then Unstarred(s[1..]) else [s[0]] + Unstarred(s[1..])
  }

  /** `s.replaceAll('**', "")`: occurrences found left to right, without
      overlap, removed; none is left afterwards, and only `*` is removed, so
      every other character of the text stays, in order. */
  function StripBold(s: string): (r: string)
    ensures |r| <= |s|
    ensures NoDoubleStar(r)
    ensures |s| > 0 && s[0] != '*' ==> |r| > 0 && r[0] == s[0]
    ensures Unstarred(r) == Unstarred(s)
  {
    if |s| == 0 then ""
    else if |s| >= 2 && s[0] == '*' && s[1] == '*' then
      assert s[1..][1..] == s[2..];
      StripBold(s[2..])
    else
      var rest := StripBold(s[1..]);
      var r := [s[0]] + rest;
      assert forall i :: 0 < i < |r| ==> r[i] == rest[i - 1];
      assert r[1..] == rest;
      r
  }

  /** Text without `*` in front of the rest passes through untouched. */
  lemma {:induction false} StripBoldStarless(a: string, t: string)
    requires '*' !in a
    ensures StripBold(a + t) == a + StripBold(t)
  {
    if |a| > 0 {
      assert a[0] in a;
      StripBoldStarless(a[1..], t);
      assert a == [a[0]] + a[1..];
      Regroup([a[0]], a[1..], t);
      Regroup([a[0]], a[1..], StripBold(t));
      StripBoldCons(a[0], a[1..] + t);
    } else {
      assert a + t == t;
    }
  }

  lemma Regroup(p: string, u: string, t: string)
    ensures p + u + t == p + (u + t)
  {
  }

  /** A character other than `*` is kept in front of the rest. */
  lemma StripBoldCons(x: char, u: string)
    requires x != '*'
    ensures StripBold([x] + u) == [x] + StripBold(u)
  {
    assert ([x] + u)[0] == x && ([x] + u)[1..] == u;
  }

  /** The first `**` is removed and the search resumes right after it. */
  lemma StripBoldPair(a: string, t: string)
    requires '*' !in a
    ensures StripBold(a + "**" + t) == a + StripBold(t)
  {
    StripBoldStarless(a, "**" + t);
    Regroup(a, "**", t);
    assert ("**" + t)[2..] == t;
  }

  /** A `*` not followed by another stays, with the character after it. */
  lemma StripBoldLoneStar(a: string, c: char, t: string)
    requires '*' !in a && c != '*'
    ensures StripBold(a + ['*', c] + t) == a + ['*', c] + StripBold(t)
  {
    StripBoldStarless(a, ['*', c] + t);
    Regroup(a, ['*', c], t);
    LoneStarHead(c, t);
    Regroup(a, ['*', c], StripBold(t));
  }

  /** A `*` that ends the text stays. */
  lemma StripBoldTrailingStar(a: string)
    requires '*' !in a
    ensures StripBold(a + "*") == a + "*"
  {
    StripBoldStarless(a, "*");
  }

  lemma LoneStarHead(c: char, t: string)
    requires c != '*'
    ensures StripBold(['*', c] + t) == ['*', c] + StripBold(t)
  {
    var s := ['*', c] + t;
    assert s[0] == '*' && s[1] == c && s[1..] == [c] + t;
    assert ([c] + t)[0] == c && ([c] + t)[1..] == t;
    assert StripBold([c] + t) == [c] + StripBold(t);
  }

  /** Text without `**` is left as it is. */
  lemma {:induction false} StripBoldFixed(s: string)
    requires NoDoubleStar(s)
    ensures StripBold(s) == s
  {
    if |s| > 0 {
      assert NoDoubleStar(s[1..]) by {
        forall i | 0 <= i < |s[1..]| - 1 ensures !(s[1..][i] == '*' && s[1..][i + 1] == '*') {
          assert s[1..][i] == s[i + 1] && s[1..][i + 1] == s[i + 2];
        }
      }
      StripBoldFixed(s[1..]);
    }
  }

  /** Stripping twice is stripping once. */
  lemma StripBoldIdempotent(s: string)
    ensures StripBold(StripBold(s)) == StripBold(s)
  {
    StripBoldFixed(StripBold(s));
  }

  // ---------------------------------------------------------------------------
  // The outline of a note
  // ---------------------------------------------------------------------------

  datatype Heading = Heading(id: string, text: string, level: nat)

  /** `heading-${index}` for the zero-based line index. */
  function HeadingId(index: nat): (id: string)
    ensures |id| > 8 && id[..8] == "heading-"
  {
    "heading-" + Decimal(index)
  }

  /** The entry a matching line produces. */
  function HeadingOf(index: nat, c: Capture): Heading {
    Heading(HeadingId(index), StripBold(Trim(c.raw)), c.level)
  }

  /** The indices, from `from` on, of the lines that match, in line order. */
  function MatchingLines(lines: seq<string>, from: nat): (ix: seq<nat>)
    ensures forall n, m :: 0 <= n < m < |ix| ==> ix[n] < ix[m]
    ensures forall n :: 0 <= n < |ix| ==> from <= ix[n] < |lines| && MatchLine(lines[ix[n]]).Some?
    ensures forall i :: from <= i < |lines| && MatchLine(lines[i]).Some? ==> i in ix
    decreases |lines| - from
  {
    if from >= |lines| then []
    else
      var rest := MatchingLines(lines, from + 1);
      if MatchLine(lines[from]).Some? then [from] + rest else rest
  }

  /** The `forEach` over the lines from index `from`: one entry per matching
      line, in line order. */
  function Collect(lines: seq<string>, from: nat): (hs: seq<Heading>)
    ensures |hs| == |MatchingLines(lines, from)|
    ensures forall n :: 0 <= n < |hs| ==>
      hs[n] == HeadingOf(MatchingLines(lines, from)[n], MatchLine(lines[MatchingLines(lines, from)[n]]).value)
    decreases |lines| - from
  {
    if from >= |lines| then []
    else
      var rest := Collect(lines, from + 1);
      if MatchLine(lines[from]).Some? then
        EntriesCons(lines, from, MatchingLines(lines, from + 1), rest);
        [HeadingOf(from, MatchLine(lines[from]).value)] + rest
      else rest
  }

  /** Entries for the matching lines `ix`. */
  ghost predicate EntriesOf(lines: seq<string>, ix: seq<nat>, hs: seq<Heading>) {
    && |hs| == |ix|
    && forall n :: 0 <= n < |ix| ==>
         ix[n] < |lines| && MatchLine(lines[ix[n]]).Some? && hs[n] == HeadingOf(ix[n], MatchLine(lines[ix[n]]).value)
  }

  lemma EntriesCons(lines: seq<string>, i: nat, ix: seq<nat>, hs: seq<Heading>)
    requires i < |lines| && MatchLine(lines[i]).Some?
    requires EntriesOf(lines, ix, hs)
    ensures EntriesOf(lines, [i] + ix, [HeadingOf(i, MatchLine(lines[i]).value)] + hs)
  {
    var ix', hs' := [i] + ix, [HeadingOf(i, MatchLine(lines[i]).value)] + hs;
    forall n | 0 < n < |ix'| ensures ix'[n] == ix[n - 1] && hs'[n] == hs[n - 1] { }
  }

  /** The outline of a note. */
  function Headings(markdown: string): (hs: seq<Heading>)
    ensures var lines := Split(markdown, '\n');
      && |hs| == |MatchingLines(lines, 0)|
      && forall n :: 0 <= n < |hs| ==> hs[n] == HeadingOf(MatchingLines(lines, 0)[n], MatchLine(lines[MatchingLines(lines, 0)[n]]).value)
  {
    Collect(Split(markdown, '\n'), 0)
  }

  /** Each entry's level is its line's `#` count, and entries have distinct
      ids that follow the line order. */
  lemma HeadingsWellFormed(markdown: string)
    ensures forall n :: 0 <= n < |Headings(markdown)| ==> 1 <= Headings(markdown)[n].level <= 6
    ensures forall n, m :: 0 <= n < m < |Headings(markdown)| ==> Headings(markdown)[n].id != Headings(markdown)[m].id
  {
    var lines := Split(markdown, '\n');
    var ix := MatchingLines(lines, 0);
    var hs := Headings(markdown);
    forall n | 0 <= n < |hs| ensures 1 <= hs[n].level <= 6 {
      LevelIsHashCount(lines[ix[n]]);
    }
    forall n, m | 0 <= n < m < |hs| ensures hs[n].id != hs[m].id {
      DecimalInjective(ix[n], ix[m]);
      assert hs[n].id[8..] == Decimal(ix[n]);
      assert hs[m].id[8..] == Decimal(ix[m]);
    }
  }

  /** What the outline panel shows. */
  datatype View = NoOutline | Entries(headings: seq<Heading>)

  /** The panel for a note split into `lines`: the placeholder exactly when no
      line is a heading, the entries otherwise. */
  function RenderLines(lines: seq<string>): (v: View)
    ensures v.NoOutline? <==> forall i :: 0 <= i < |lines| ==> MatchLine(lines[i]).None?
    ensures v.Entries? ==> v.headings == Collect(lines, 0) && |v.headings| > 0
  {
    var hs := Collect(lines, 0);
    NoHeadingLine(lines);
    if |hs| == 0 then NoOutline else Entries(hs)
  }

  function Render(markdown: string): View {
    RenderLines(Split(markdown, '\n'))
  }

  /** No entry exactly when no line matches. */
  lemma NoHeadingLine(lines: seq<string>)
    ensures |MatchingLines(lines, 0)| == 0 <==> forall i :: 0 <= i < |lines| ==> MatchLine(lines[i]).None?
  {
    var ix := MatchingLines(lines, 0);
    if |ix| > 0 {
      assert MatchLine(lines[ix[0]]).Some?;
    }
  }

  /** The example note splits into four lines, the last one empty. */
  lemma ExampleLines()
    ensures Split("# A\nsome text\n## B\n", '\n') == ["# A", "some text", "## B", ""]
  {
    var lines := ["# A", "some text", "## B", ""];
    assert Join(lines, '\n') == "# A\nsome text\n## B\n";
    SplitJoin(lines, '\n');
  }

  /** Which of those lines match, and what they capture. */
  lemma ExampleMatches()
    ensures MatchLine("# A") == Some(Capture(1, "A"))
    ensures MatchLine("some text").None?
    ensures MatchLine("## B") == Some(Capture(2, "B"))
    ensures MatchLine("").None?
  {
    SimpleHeading("#", "A");
    SimpleHeading("##", "B");
    assert "#" + " " + "A" == "# A";
    assert "##" + " " + "B" == "## B";
    NoGapAfterHashes("some text");
    NoGapAfterHashes("");
  }

  /** Of those lines, 0 and 2 are headings. */
  lemma ExampleMatchingLines()
    ensures MatchingLines(["# A", "some text", "## B", ""], 0) == [0, 2]
  {
    var lines := ["# A", "some text", "## B", ""];
    ExampleMatches();
    assert MatchingLines(lines, 4) == [];
    assert MatchingLines(lines, 3) == [];
    assert MatchingLines(lines, 2) == [2];
    assert MatchingLines(lines, 1) == [2];
  }

  /** Text with no whitespace at either end and no `**` is shown as captured. */
  lemma PlainHeadingText(t: string)
    requires |t| > 0 && !IsWhitespace(t[0]) && !IsWhitespace(t[|t| - 1]) && NoDoubleStar(t)
    ensures StripBold(Trim(t)) == t
  {
    var i, j :| 0 <= i <= j <= |t| && Trim(t) == t[i..j] && AllWhitespace(t[..i]) && AllWhitespace(t[j..]);
    assert t[..i] == t[0..i] && t[j..] == t[j..|t|];
    WhitespaceSlice(t, 0, i);
    WhitespaceSlice(t, j, |t|);
    assert i == 0 && j == |t|;
    assert Trim(t) == t;
    StripBoldFixed(t);
  }

  /** The entries for the two heading lines. */
  lemma ExampleEntries()
    ensures HeadingOf(0, Capture(1, "A")) == Heading("heading-0", "A", 1)
    ensures HeadingOf(2, Capture(2, "B")) == Heading("heading-2", "B", 2)
  {
    PlainHeadingText("A");
    PlainHeadingText("B");
    assert HeadingId(0) == "heading-0" && HeadingId(2) == "heading-2";
  }

  lemma ExampleHeadings()
    ensures Collect(["# A", "some text", "## B", ""], 0) ==
      [Heading("heading-0", "A", 1), Heading("heading-2", "B", 2)]
  {
    var lines := ["# A", "some text", "## B", ""];
    ExampleMatches();
    ExampleMatchingLines();
    ExampleEntries();
    var hs := Collect(lines, 0);
    assert hs[0] == HeadingOf(0, Capture(1, "A"));
    assert hs[1] == HeadingOf(2, Capture(2, "B"));
  }

  /** `"# A\nsome text\n## B\n"` has entries for lines 0 and 2. */
  lemma Example()
    ensures Headings("# A\nsome text\n## B\n") ==
      [Heading("heading-0", "A", 1), Heading("heading-2", "B", 2)]
  {
    ExampleLines();
    ExampleHeadings();
  }
}
