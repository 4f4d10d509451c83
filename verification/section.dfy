/** The backlinks section of a note: how it is rendered, found, appended
    and replaced by `update_files_with_backlinks`.

    A section is found by `## Backlinks\n\n.*?(?:\n\n|$)` with DOTALL. The
    heading is literal; the lazy `.*?` then stops at the first position
    that holds `\n\n` (the block takes it along) or where `$` holds, which
    without MULTILINE is the end of the text or the position of a final
    `\n`. Because `$` always holds at the end, the search succeeds exactly
    when the heading occurs somewhere. */
module Section {
  import opened Common
  import opened WikiLinks

  const Heading: string := "## Backlinks\n\n"

  /** One entry: `- [[title]]` on its own line. */
  function EntryLine(t: string): string
  {
    "- [[" + t + "]]\n"
  }

  function EntryLines(titles: seq<string>): string
    decreases |titles|
  {
    if |titles| == 0 then "" else EntryLine(titles[0]) + EntryLines(titles[1..])
  }

  /** `new_section`: the heading, one line per source title, a blank line. */
  function RenderSection(titles: seq<string>): (s: string)
    ensures |s| > |Heading| && s[..|Heading|] == Heading && s[|s| - 1] == '\n'
  {
    Heading + EntryLines(titles) + "\n"
  }

  predicate NoLineBreak(t: string)
  {
    forall k :: 0 <= k < |t| ==> t[k] != '\n'
  }

  /** The heading occurs at `i`. */
  predicate HeadingAt(c: string, i: int)
  {
    0 <= i && i + |Heading| <= |c| && c[i..i + |Heading|] == Heading
  }

  /** The leftmost heading at or after `from`. */
  function FindHeading(c: string, from: nat): (r: Option<nat>)
    requires from <= |c|
    ensures r.Some? ==> from <= r.value && HeadingAt(c, r.value)
    ensures r.Some? ==> forall q :: from <= q < r.value ==> !HeadingAt(c, q)
    ensures r.None? ==> forall q :: from <= q ==> !HeadingAt(c, q)
    decreases |c| - from
  {
    if from + |Heading| > |c| then None
    else if HeadingAt(c, from) then Some(from)
    else FindHeading(c, from + 1)
  }

  /** `re.search(backlink_section_pattern, content, re.DOTALL)` succeeds. */
  function HasSection(c: string): (b: bool)
    ensures b <==> exists i :: HeadingAt(c, i)
  {
    FindHeading(c, 0).Some?
  }

  /** `\n\n` starts at `k`. */
  predicate BreakAt(c: string, k: int)
  {
    0 <= k && k + 1 < |c| && c[k] == '\n' && c[k + 1] == '\n'
  }

  /** `$` without MULTILINE holds at `k`: the end of the text, or a final `\n`. */
  predicate EndAt(c: string, k: int)
  {
    k == |c| || (0 <= k == |c| - 1 && c[k] == '\n')
  }

  /** A block body that starts at `p` may stop at `k`. */
  predicate StopAt(c: string, k: int)
  {
    BreakAt(c, k) || EndAt(c, k)
  }

  /** Where the lazy `.*?` of a block body that starts at `p` stops: the
      first position where `\n\n` or `$` holds. */
  function BodyStop(c: string, p: nat): (k: nat)
    requires p <= |c|
    ensures p <= k <= |c| && StopAt(c, k)
    ensures forall j :: p <= j < k ==> !StopAt(c, j)
    decreases |c| - p
  {
    if StopAt(c, p) then p else BodyStop(c, p + 1)
  }

  /** Where a block whose body starts at `p` ends: `\n\n` is tried first
      and belongs to the block; `$` matches the empty string. */
  function BlockEnd(c: string, p: nat): (e: nat)
    requires p <= |c|
    ensures p <= e <= |c|
    ensures (p + 2 <= e && BreakAt(c, e - 2) && forall j :: p <= j < e - 2 ==> !StopAt(c, j)) ||
            (EndAt(c, e) && !BreakAt(c, e) && forall j :: p <= j < e ==> !StopAt(c, j))
  {
    var k := BodyStop(c, p);
    if BreakAt(c, k) then k + 2 else k
  }

  /** `re.sub(backlink_section_pattern, sec, c, flags=re.DOTALL)`: every
      block, leftmost first, is replaced by `sec`, and the search resumes
      behind the block. The pattern has no look-behind, so resuming at `e`
      is searching `c[e..]`. */
  function ReplaceSections(c: string, sec: string): (r: string)
    ensures !HasSection(c) ==> r == c
    decreases |c|
  {
    match FindHeading(c, 0)
    case None => c
    case Some(h) => c[..h] + sec + ReplaceSections(c[BlockEnd(c, h + |Heading|)..], sec)
  }

  /** The text ends in a blank line: `content.endswith('\n\n')`. */
  predicate EndsInBlankLine(s: string)
  {
    |s| >= 2 && s[|s| - 2] == '\n' && s[|s| - 1] == '\n'
  }

  /** The separator that the append branch puts between the content and the
      section: the shortest run of line breaks after which the text ends in
      a blank line. */
  function Padding(c: string): (r: string)
    ensures forall k :: 0 <= k < |r| ==> r[k] == '\n'
    ensures EndsInBlankLine(c + r)
    ensures forall k :: 0 <= k < |r| ==> !EndsInBlankLine(c + r[..k])
  {
    if EndsInBlankLine(c) then ""
    else if |c| >= 1 && c[|c| - 1] == '\n' then
      assert c + "\n"[..0] == c;
      "\n"
    else
      assert c + "\n\n"[..0] == c;
      assert c + "\n\n"[..1] == c + "\n";
      "\n\n"
  }

  /** The append branch: pad, then add the section. */
  function AppendSection(c: string, sec: string): (r: string)
    ensures |c| + |sec| <= |r| <= |c| + 2 + |sec|
    ensures r[..|c|] == c
    ensures r[|r| - |sec|..] == sec && EndsInBlankLine(r[..|r| - |sec|])
    ensures forall k :: |c| <= k < |r| - |sec| ==> r[k] == '\n'
    ensures forall k :: |c| <= k < |r| - |sec| ==> !EndsInBlankLine(r[..k])
  {
    var pad := Padding(c);
    var pc := c + pad;
    var r := pc + sec;
    assert r[..|c|] == c;
    assert r[..|pc|] == pc;
    forall k | |c| <= k < |pc|
      ensures r[k] == '\n' && !EndsInBlankLine(r[..k])
    {
      assert r[k] == pad[k - |c|];
      assert r[..k] == c + pad[..k - |c|];
    }
    r
  }

  /** No heading starts in `[i, j)`. */
  ghost predicate HeadingFree(c: string, i: int, j: int)
  {
    forall q :: i <= q < j ==> !HeadingAt(c, q)
  }

  /** The leftmost heading is the one the search finds. */
  lemma LeftmostHeading(c: string, h: nat)
    requires HeadingAt(c, h) && HeadingFree(c, 0, h)
    ensures FindHeading(c, 0) == Some(h)
  {
  }

  /** The first `\n\n` after the heading, with no end of text before it,
      ends the block behind it. */
  lemma FirstBreak(c: string, p: nat, k: nat)
    requires p <= k && BreakAt(c, k)
    requires forall j :: p <= j < k ==> !StopAt(c, j)
    ensures BlockEnd(c, p) == k + 2
  {
    var b := BodyStop(c, p);
    assert k < b ==> !StopAt(c, k);
  }

  /** Whether a heading starts at `q` depends only on the text up to `q + 14`. */
  lemma HeadingAtPrefix(c: string, d: nat, q: nat)
    requires q + |Heading| <= d <= |c|
    ensures HeadingAt(c, q) <==> HeadingAt(c[..d], q)
  {
    assert c[..d][q..q + |Heading|] == c[q..q + |Heading|];
  }

  /** The heading does not overlap itself, so text without a heading does
      not get one that ends inside a heading put behind it. */
  lemma NoSpanningHeading(x: string)
    requires !HasSection(x)
    ensures HeadingFree(x + Heading, 0, |x|)
  {
    var c := x + Heading;
    forall q | 0 <= q < |x| ensures !HeadingAt(c, q) {
      if q + |Heading| <= |x| {
        HeadingAtPrefix(c, |x|, q);
        assert c[..|x|] == x;
      } else {
        // The heading's first '#' would stand at some offset `k` of an
        // earlier heading, and only offset 1 holds '#', where offset 2
        // would then need ' ' to be '#'.
        var k := |x| - q;
        assert c[q + k] == Heading[0];
        assert c[q + 2] == (if k == 1 then Heading[1] else c[q + 2]);
        assert c[q..q + |Heading|][k] == c[q + k] && c[q..q + |Heading|][2] == c[q + 2];
        assert k != 1 ==> Heading[k] != Heading[0];
        assert Heading[2] != Heading[1];
      }
    }
  }

  /** No blank line inside `s`. */
  ghost predicate NoBlankLine(s: string)
  {
    forall j :: !BreakAt(s, j)
  }

  /** The entry lines of titles without line breaks: they start with '-',
      end with a line break and contain no blank line. */
  lemma {:induction false} EntryLinesShape(titles: seq<string>)
    requires |titles| > 0
    requires forall k :: 0 <= k < |titles| ==> NoLineBreak(titles[k])
    ensures var l := EntryLines(titles); |l| > 0 && l[0] == '-' && l[|l| - 1] == '\n' && NoBlankLine(l)
    decreases |titles|
  {
    var line := EntryLine(titles[0]);
    var rest := EntryLines(titles[1..]);
    var l := line + rest;
    assert forall k :: 0 <= k < |titles[1..]| ==> titles[1..][k] == titles[k + 1];
    if |titles| > 1 {
      EntryLinesShape(titles[1..]);
    }
    assert forall j :: 0 <= j < |line| - 1 ==> line[j] != '\n';
    forall j | 0 <= j && j + 1 < |l| ensures !BreakAt(l, j) {
      if j + 1 < |line| {
        assert l[j] == line[j];
      } else if j + 1 == |line| {
        assert l[j + 1] == rest[0];
      } else {
        assert l[j] == rest[j - |line|] && l[j + 1] == rest[j - |line| + 1];
        assert !BreakAt(rest, j - |line|);
      }
    }
  }

  /** The body of a rendered section has no blank line before its last two
      characters, which form one. */
  lemma SectionShape(titles: seq<string>)
    requires |titles| > 0
    requires forall k :: 0 <= k < |titles| ==> NoLineBreak(titles[k])
    ensures var s := RenderSection(titles);
      BreakAt(s, |s| - 2) && forall j :: |Heading| <= j < |s| - 2 ==> !BreakAt(s, j)
  {
    var l := EntryLines(titles);
    var s := RenderSection(titles);
    EntryLinesShape(titles);
    assert s == Heading + l + "\n";
    forall j | |Heading| <= j < |s| - 2 ensures !BreakAt(s, j) {
      assert s[j] == l[j - |Heading|] && s[j + 1] == l[j - |Heading| + 1];
      assert !BreakAt(l, j - |Heading|);
    }
  }

  /** A rendered section, wherever it stands, is one whole block. */
  lemma SectionBlockEnd(x: string, titles: seq<string>, y: string)
    requires |titles| > 0
    requires forall k :: 0 <= k < |titles| ==> NoLineBreak(titles[k])
    ensures var s := RenderSection(titles);
      BlockEnd(x + s + y, |x| + |Heading|) == |x| + |s|
  {
    var s := RenderSection(titles);
    var c := x + s + y;
    SectionShape(titles);
    forall j | |x| + |Heading| <= j < |x| + |s| - 2 ensures !StopAt(c, j) {
      assert c[j] == s[j - |x|] && c[j + 1] == s[j - |x| + 1];
      assert !BreakAt(s, j - |x|);
    }
    assert c[|x| + |s| - 2] == s[|s| - 2] && c[|x| + |s| - 1] == s[|s| - 1];
    FirstBreak(c, |x| + |Heading|, |x| + |s| - 2);
  }

  /** Any block, hand-edited or not: text before the leftmost heading is
      kept, the block from the heading to its end is replaced by `sec`, and
      the search resumes behind the block. */
  lemma BlockThenRest(x: string, b: string, y: string, sec: string)
    requires HeadingFree(x + Heading, 0, |x|)
    requires BlockEnd(x + Heading + b + y, |x| + |Heading|) == |x| + |Heading| + |b|
    ensures ReplaceSections(x + Heading + b + y, sec) == x + sec + ReplaceSections(y, sec)
  {
    var c := x + Heading + b + y;
    assert c[..|x| + |Heading|] == x + Heading;
    forall q | 0 <= q < |x| ensures !HeadingAt(c, q) {
      HeadingAtPrefix(c, |x| + |Heading|, q);
    }
    assert c[|x|..|x| + |Heading|] == Heading;
    LeftmostHeading(c, |x|);
    assert c[..|x|] == x;
    assert c[|x| + |Heading| + |b|..] == y;
  }

  /** A block body without a blank line before its closing `\n\n` ends
      behind that `\n\n`. */
  lemma BreakEndedBlockEnd(body: string, c: string)
    requires NoBlankLine(body + "\n")
    requires |Heading| + |body| + 2 <= |c|
    requires c[|Heading|..|Heading| + |body| + 2] == body + "\n\n"
    ensures BlockEnd(c, |Heading|) == |Heading| + |body| + 2
  {
    var p := |Heading|;
    var b := body + "\n\n";
    forall j | p <= j < p + |body| ensures !StopAt(c, j) {
      assert c[j] == b[j - p] && c[j + 1] == b[j - p + 1];
      assert b[j - p] == (body + "\n")[j - p] && b[j - p + 1] == (body + "\n")[j - p + 1];
      assert !BreakAt(body + "\n", j - p);
    }
    assert c[p + |body|] == b[|body|] && c[p + |body| + 1] == b[|body| + 1];
    FirstBreak(c, p, p + |body|);
  }

  /** A block whose body has no blank line before its closing `\n\n`,
      followed by text without a heading: only the block is replaced. */
  lemma BreakEndedBlock(body: string, y: string, sec: string)
    requires NoBlankLine(body + "\n")
    requires !HasSection(y)
    ensures ReplaceSections(Heading + body + "\n\n" + y, sec) == sec + y
  {
    assert ReplaceSections(y, sec) == y;
    var b := body + "\n\n";
    var c := "" + Heading + b + y;
    assert Heading + body + "\n\n" + y == c;
    assert c[|Heading|..|Heading| + |body| + 2] == b;
    BreakEndedBlockEnd(body, c);
    assert HeadingFree("" + Heading, 0, 0);
    BlockThenRest("", b, y, sec);
    assert "" + sec + y == sec + y;
  }

  /** A hand-edited block: the note under the entries goes with the block,
      the text behind its blank line stays. */
  lemma EditedBlockExample(sec: string)
    ensures ReplaceSections(Heading + "- [[A]]\nmy note" + "\n\n" + "rest", sec) == sec + "rest"
  {
    var body := "- [[A]]\nmy note";
    assert forall j :: 0 <= j < |body| - 1 ==> !(body[j] == '\n' && body[j + 1] == '\n');
    assert NoBlankLine(body + "\n");
    assert !HeadingAt("rest", 0);
    BreakEndedBlock(body, "rest", sec);
  }

  /** Text without a heading, then a rendered section, then more text: the
      section is the first block and is replaced as a whole. */
  lemma SectionThenRest(x: string, titles: seq<string>, y: string, sec: string)
    requires HeadingFree(x + Heading, 0, |x|)
    requires |titles| > 0
    requires forall k :: 0 <= k < |titles| ==> NoLineBreak(titles[k])
    ensures ReplaceSections(x + RenderSection(titles) + y, sec) == x + sec + ReplaceSections(y, sec)
  {
    var s := RenderSection(titles);
    var c := x + s + y;
    assert c[..|x| + |Heading|] == x + Heading;
    forall q | 0 <= q < |x| ensures !HeadingAt(c, q) {
      HeadingAtPrefix(c, |x| + |Heading|, q);
    }
    assert c[|x|..|x| + |Heading|] == Heading;
    LeftmostHeading(c, |x|);
    SectionBlockEnd(x, titles, y);
    assert c[..|x|] == x;
    assert c[|x| + |s|..] == y;
  }

  /** Titles that a rendered section can carry: at least one, none with a
      line break. */
  predicate Renderable(titles: seq<string>)
  {
    |titles| > 0 && forall k :: 0 <= k < |titles| ==> NoLineBreak(titles[k])
  }

  lemma Regroup(a: string, b: string, c: string, d: string, e: string)
    ensures a + b + c + d + e == a + b + (c + d + e)
  {
  }

  /** Every block is replaced, not only the first: two rendered sections
      separated by heading-free text both give way to `sec`. */
  lemma TwoSectionsBothReplaced(x: string, t1: seq<string>, y: string, t2: seq<string>, z: string, sec: string)
    requires HeadingFree(x + Heading, 0, |x|) && HeadingFree(y + Heading, 0, |y|)
    requires Renderable(t1) && Renderable(t2)
    ensures var c := x + RenderSection(t1) + y + RenderSection(t2) + z;
      ReplaceSections(c, sec) == x + sec + y + sec + ReplaceSections(z, sec)
  {
    var s1 := RenderSection(t1);
    var s2 := RenderSection(t2);
    Regroup(x, s1, y, s2, z);
    SectionThenRest(x, t1, y + s2 + z, sec);
    SectionThenRest(y, t2, z, sec);
    Regroup(x, sec, y, sec, ReplaceSections(z, sec));
  }

  /** Replacing right after appending changes nothing, provided the padding
      does not complete a heading that the content ended with. */
  lemma ReplaceAfterAppendIsFixpoint(c: string, titles: seq<string>)
    requires Renderable(titles)
    requires !HasSection(c + Padding(c))
    ensures var a := AppendSection(c, RenderSection(titles));
      ReplaceSections(a, RenderSection(titles)) == a
  {
    var x := c + Padding(c);
    var s := RenderSection(titles);
    NoSpanningHeading(x);
    SectionThenRest(x, titles, "", s);
    assert x + s + "" == x + s;
  }

  /** Replacing with the same rendered section twice is replacing once. */
  lemma {:induction false} ReplaceIsIdempotent(c: string, titles: seq<string>)
    requires Renderable(titles)
    ensures var s := RenderSection(titles);
      ReplaceSections(ReplaceSections(c, s), s) == ReplaceSections(c, s)
    decreases |c|
  {
    var s := RenderSection(titles);
    match FindHeading(c, 0)
    case None =>
    case Some(h) =>
      var e := BlockEnd(c, h + |Heading|);
      var rest := ReplaceSections(c[e..], s);
      ReplaceIsIdempotent(c[e..], titles);
      var x := c[..h];
      assert c[..h + |Heading|] == x + Heading;
      forall q | 0 <= q < h ensures !HeadingAt(x + Heading, q) {
        HeadingAtPrefix(c, h + |Heading|, q);
      }
      SectionThenRest(x, titles, rest, s);
  }

  /** A heading directly followed by another heading forms one block that
      ends with the second heading's blank line. */
  lemma DoubledHeadingBlock(y: string)
    ensures FindHeading(Heading + Heading + y, 0) == Some(0)
    ensures BlockEnd(Heading + Heading + y, |Heading|) == 2 * |Heading|
  {
    var line := "## Backlinks";
    assert Heading == line + "\n\n" && '\n' !in line;
    var a := Heading + Heading + y;
    var p := |Heading|;
    assert a[..p] == Heading;
    LeftmostHeading(a, 0);
    assert a[p..p + 12] == line;
    forall j | p <= j < p + 12 ensures !StopAt(a, j) {
      assert a[j] == line[j - p] && line[j - p] in line;
    }
    assert a[p + 12] == Heading[12] && a[p + 13] == Heading[13];
    FirstBreak(a, p, p + 12);
  }

  /** So a replace swallows both headings and keeps what follows them. */
  lemma DoubledHeading(y: string, sec: string)
    requires !HasSection(y)
    ensures ReplaceSections(Heading + Heading + y, sec) == sec + y
  {
    var a := Heading + Heading + y;
    DoubledHeadingBlock(y);
    assert a[2 * |Heading|..] == y;
    assert a[..0] + sec == sec;
  }

  /** Content that ends with the bare heading line: the append branch adds
      the blank line that completes a heading, so a later replace takes the
      old heading together with the new heading line as one block and
      leaves the entry lines behind. */
  lemma AppendThenReplaceCounterexample()
    ensures var s := RenderSection(["A"]);
      var a := AppendSection("## Backlinks", s);
      ReplaceSections(a, s) == s + "- [[A]]\n\n" && ReplaceSections(a, s) != a
  {
    var y := "- [[A]]\n\n";
    var c := "## Backlinks";
    assert c + "\n\n" == Heading;
    assert c[|c| - 1] != '\n';
    assert Padding(c) == "\n\n";
    var s := RenderSection(["A"]);
    assert EntryLines(["A"]) == "- [[A]]\n";
    assert s == Heading + y;
    assert AppendSection(c, s) == Heading + Heading + y;
    assert |y| < |Heading|;
    DoubledHeading(y, s);
  }

  /** One entry line yields its title and nothing else. */
  lemma EntryLineLinks(t: string, y: string)
    requires LinkableTitle(t)
    ensures ParseLinks(EntryLine(t) + y) == [t] + ParseLinks(y)
  {
    assert EntryLine(t) + y == "- " + ("[[" + t + "]]" + ("\n" + y));
    SkipPlainText("- ", "[[" + t + "]]" + ("\n" + y));
    LinkThenText(t, "\n" + y);
    SkipPlainText("\n", y);
  }

  /** The first line of a section, followed by the rest of it. */
  lemma EntryLinesCons(titles: seq<string>, y: string)
    requires |titles| > 0
    ensures EntryLines(titles) + y == EntryLine(titles[0]) + (EntryLines(titles[1..]) + y)
  {
  }

  /** Every title in a rendered section is read back as a link, in order. */
  lemma {:induction false} EntryLinesLinks(titles: seq<string>, y: string)
    requires forall k :: 0 <= k < |titles| ==> LinkableTitle(titles[k])
    ensures ParseLinks(EntryLines(titles) + y) == titles + ParseLinks(y)
    decreases |titles|
  {
    if |titles| == 0 {
      assert EntryLines(titles) + y == y;
    } else {
      var t, rest := titles[0], titles[1..];
      var more := EntryLines(rest);
      EntryLinesCons(titles, y);
      assert forall k :: 0 <= k < |rest| ==> rest[k] == titles[k + 1];
      EntryLinesLinks(rest, y);
      EntryLineLinks(t, more + y);
      ConsThenAppend(titles, ParseLinks(y));
    }
  }

  /** The head of a non-empty list, followed by its tail and more. */
  lemma ConsThenAppend<T>(s: seq<T>, u: seq<T>)
    requires |s| > 0
    ensures [s[0]] + (s[1..] + u) == s + u
  {
  }

  /** The links of a rendered section are exactly its titles. */
  lemma RenderedLinksRoundTrip(titles: seq<string>)
    requires forall k :: 0 <= k < |titles| ==> LinkableTitle(titles[k])
    ensures ParseLinks(RenderSection(titles)) == titles
  {
    var l := EntryLines(titles);
    assert RenderSection(titles) == Heading + (l + "\n");
    assert '[' !in Heading;
    SkipPlainText(Heading, l + "\n");
    EntryLinesLinks(titles, "\n");
    SkipPlainText("\n", "");
    assert "\n" + "" == "\n";
  }

  /** `--mode`: what to do with a note that already has a section. */
  datatype UpdateMode = AppendMode | ReplaceMode

  /** The per-note decision of `update_files_with_backlinks`: the new
      content, or `None` when the note is left as it is. */
  function UpdateContent(content: string, titles: seq<string>, mode: UpdateMode): (r: Option<string>)
    ensures r.None? <==> |titles| == 0 || (mode == AppendMode && HasSection(content))
    ensures r.Some? ==> HasSection(r.value)
    ensures |titles| > 0 && !HasSection(content) ==> r == Some(AppendSection(content, RenderSection(titles)))
    ensures |titles| > 0 && mode == ReplaceMode && HasSection(content) ==>
      r == Some(ReplaceSections(content, RenderSection(titles)))
  {
    if |titles| == 0 then None
    else
      var sec := RenderSection(titles);
      if HasSection(content) then
        match mode
        case ReplaceMode =>
          ReplaceKeepsSection(content, sec);
          Some(ReplaceSections(content, sec))
        case AppendMode => None
      else
        AppendAddsSection(content, sec);
        Some(AppendSection(content, sec))
  }

  /** Appending a section gives the text a section. */
  lemma AppendAddsSection(c: string, sec: string)
    requires |sec| >= |Heading| && sec[..|Heading|] == Heading
    ensures HasSection(AppendSection(c, sec))
  {
    var r := AppendSection(c, sec);
    assert r[|r| - |sec|..][..|Heading|] == Heading;
    assert HeadingAt(r, |r| - |sec|);
  }

  /** A text with a section still has one after the replacement. */
  lemma ReplaceKeepsSection(c: string, sec: string)
    requires HasSection(c) && |sec| >= |Heading| && sec[..|Heading|] == Heading
    ensures HasSection(ReplaceSections(c, sec))
  {
    var h := FindHeading(c, 0).value;
    var e := BlockEnd(c, h + |Heading|);
    var x, y := c[..h], ReplaceSections(c[e..], sec);
    assert ReplaceSections(c, sec) == x + sec + y;
    HeadingAfter(x, sec, y);
  }

  /** A section put behind any text is found. */
  lemma HeadingAfter(x: string, sec: string, y: string)
    requires |sec| >= |Heading| && sec[..|Heading|] == Heading
    ensures HasSection(x + sec + y)
  {
    var r := x + sec + y;
    assert r[|x|..|x| + |Heading|] == sec[..|Heading|];
    assert HeadingAt(r, |x|);
  }

  /** Running the update a second time with the same sources changes
      nothing, provided the padding does not complete a heading. */
  lemma UpdateIsStable(content: string, titles: seq<string>, mode: UpdateMode)
    requires Renderable(titles)
    requires !HasSection(content) ==> !HasSection(content + Padding(content))
    ensures var r := UpdateContent(content, titles, mode);
      r.Some? ==> UpdateContent(r.value, titles, mode) in {None, r}
  {
    var s := RenderSection(titles);
    if !HasSection(content) {
      ReplaceAfterAppendIsFixpoint(content, titles);
    } else if mode == ReplaceMode {
      ReplaceIsIdempotent(content, titles);
    }
  }
}
