/** Explicit links: `[[Target]]` and `[[Target|Display]]`, found the way
    `re.findall(r'\[\[(.*?)(?:\|.*?)?\]\]', content)` finds them.

    The scanner tries the leftmost `[[` first. The target grows one
    character at a time (the lazy `.*?`), never across a line break, and
    stops at the first position that either holds `]]` or holds `|` with a
    `]]` later on the same line. When the line has no such position the
    attempt fails and the scan retries one character later; after a match
    it resumes behind the match's `]]`. The pattern has no look-behind, so
    matching from position `e` of `c` is matching at the start of `c[e..]`. */
module WikiLinks {
  import opened Common

  predicate OpenAt(c: string, i: int)
  {
    0 <= i && i + 1 < |c| && c[i] == '[' && c[i + 1] == '['
  }

  predicate CloseAt(c: string, i: int)
  {
    0 <= i && i + 1 < |c| && c[i] == ']' && c[i + 1] == ']'
  }

  /** No line break in `c[i..j]`. */
  ghost predicate LineFree(c: string, i: int, j: int)
  {
    0 <= i <= j <= |c| && forall k :: i <= k < j ==> c[k] != '\n'
  }

  /** `q` holds a `|` whose display text is closed by a `]]` on the same line. */
  ghost predicate PipeEndAt(c: string, q: int)
  {
    0 <= q < |c| && c[q] == '|' && exists r :: q < r && CloseAt(c, r) && LineFree(c, q + 1, r)
  }

  /** A link target may end at `q`. */
  ghost predicate TargetEndAt(c: string, q: int)
  {
    CloseAt(c, q) || PipeEndAt(c, q)
  }

  /** A string that can be the target of a matched link: no line break, no
      `|` and no `]]`. */
  predicate ValidTarget(t: string)
  {
    forall k :: 0 <= k < |t| ==> t[k] != '\n' && t[k] != '|' && !CloseAt(t, k)
  }

  /** The first `]]` at or after `i` on the same line (the lazy `.*?\]\]`). */
  function FindClose(c: string, i: nat): (r: Option<nat>)
    requires i <= |c|
    ensures r.Some? ==> i <= r.value && CloseAt(c, r.value) && LineFree(c, i, r.value)
    ensures r.Some? ==> forall k :: i <= k < r.value ==> !CloseAt(c, k)
    ensures r.None? ==> forall k :: i <= k && LineFree(c, i, k) ==> !CloseAt(c, k)
    decreases |c| - i
  {
    if CloseAt(c, i) then Some(i)
    else if i < |c| && c[i] != '\n' then FindClose(c, i + 1)
    else None
  }

  /** Where the target that starts at `q` ends, and where the whole match
      ends: `(t, e)` with the target ending before `t` and `e` behind the
      closing `]]`. */
  function ScanTarget(c: string, q: nat): (r: Option<(nat, nat)>)
    requires q <= |c|
    ensures r.Some? ==> q <= r.value.0 && TargetEndAt(c, r.value.0) && LineFree(c, q, r.value.0)
    ensures r.Some? ==> forall k :: q <= k < r.value.0 ==> !TargetEndAt(c, k)
    ensures r.Some? ==> var (t, e) := r.value;
      t + 2 <= e && CloseAt(c, e - 2) && LineFree(c, t, e - 2) &&
      forall k :: t <= k < e - 2 ==> !CloseAt(c, k)
    ensures r.None? ==> forall k :: q <= k && LineFree(c, q, k) ==> !TargetEndAt(c, k)
    decreases |c| - q
  {
    if q < |c| && c[q] == '|' && FindClose(c, q + 1).Some? then
      Some((q, FindClose(c, q + 1).value + 2))
    else if CloseAt(c, q) then Some((q, q + 2))
    else if q < |c| && c[q] != '\n' then
      assert !PipeEndAt(c, q);
      ScanTarget(c, q + 1)
    else
      assert !PipeEndAt(c, q);
      None
  }

  /** The link match that starts at the beginning of `c`, if any. */
  function MatchAtStart(c: string): Option<(nat, nat)>
  {
    if OpenAt(c, 0) then ScanTarget(c, 2) else None
  }

  /** A matched target holds no line break, no `|` and no `]]`. */
  lemma MatchedTargetIsValid(c: string)
    requires MatchAtStart(c).Some?
    ensures ValidTarget(c[2..MatchAtStart(c).value.0])
  {
    var (t, e) := MatchAtStart(c).value;
    var x := c[2..t];
    forall k | 0 <= k < |x|
      ensures x[k] != '\n' && x[k] != '|' && !CloseAt(x, k)
    {
      assert x[k] == c[2 + k];
      assert !TargetEndAt(c, 2 + k);
    }
  }

  /** `parse_links`: the targets of all matched links, in document order,
      duplicates kept. */
  function ParseLinks(c: string): (r: seq<string>)
    ensures 4 * |r| <= |c|
    decreases |c|
  {
    if |c| == 0 then []
    else match MatchAtStart(c)
      case Some((t, e)) => [c[2..t]] + ParseLinks(c[e..])
      case None => ParseLinks(c[1..])
  }

  /** Every link found is a valid target. */
  lemma {:induction false} ParsedLinksAreValid(c: string)
    ensures forall k :: 0 <= k < |ParseLinks(c)| ==> ValidTarget(ParseLinks(c)[k])
    decreases |c|
  {
    if |c| > 0 {
      match MatchAtStart(c)
      case Some((t, e)) =>
        MatchedTargetIsValid(c);
        ParsedLinksAreValid(c[e..]);
      case None =>
        ParsedLinksAreValid(c[1..]);
    }
  }

  /** Text without a `[` contributes no link and does not change what follows. */
  lemma {:induction false} SkipPlainText(x: string, y: string)
    requires '[' !in x
    ensures ParseLinks(x + y) == ParseLinks(y)
    decreases |x|
  {
    if |x| > 0 {
      assert (x + y)[0] == x[0];
      assert (x + y)[1..] == x[1..] + y;
      SkipPlainText(x[1..], y);
    } else {
      assert x + y == y;
    }
  }

  /** A title that can be a target: no line break, `|` or `]`. */
  predicate LinkableTitle(t: string)
  {
    forall k :: 0 <= k < |t| ==> t[k] != '\n' && t[k] != '|' && t[k] != ']'
  }

  /** Scanning over a linkable title does not stop inside it. */
  lemma {:induction false} ScanOverTitle(c: string, q: nat, stop: nat)
    requires q <= stop < |c|
    requires LinkableTitle(c[q..stop])
    ensures ScanTarget(c, q) == ScanTarget(c, stop)
    decreases stop - q
  {
    if q < stop {
      assert c[q] == c[q..stop][0];
      assert c[q + 1..stop] == c[q..stop][1..];
      ScanOverTitle(c, q + 1, stop);
    }
  }

  /** `[[t]]` yields `t`, and scanning resumes behind it. */
  lemma LinkThenText(t: string, y: string)
    requires LinkableTitle(t)
    ensures ParseLinks("[[" + t + "]]" + y) == [t] + ParseLinks(y)
  {
    var c := "[[" + t + "]]" + y;
    assert c[2..2 + |t|] == t;
    assert c[2 + |t|] == ']' && c[3 + |t|] == ']';
    ScanOverTitle(c, 2, 2 + |t|);
    assert c[4 + |t|..] == y;
  }

  /** The search for `]]` runs over display text free of `]` and line breaks. */
  lemma {:induction false} FindCloseOverText(c: string, i: nat, stop: nat)
    requires i <= stop < |c|
    requires forall k :: i <= k < stop ==> c[k] != ']' && c[k] != '\n'
    ensures FindClose(c, i) == FindClose(c, stop)
    decreases stop - i
  {
    if i < stop {
      FindCloseOverText(c, i + 1, stop);
    }
  }

  /** A `|` followed by display text and `]]` ends the target. */
  lemma PipeClosesTarget(c: string, q: nat, stop: nat)
    requires q < stop && stop + 1 < |c|
    requires c[q] == '|' && c[stop] == ']' && c[stop + 1] == ']'
    requires forall k :: q + 1 <= k < stop ==> c[k] != ']' && c[k] != '\n'
    ensures ScanTarget(c, q) == Some((q, stop + 2))
  {
    FindCloseOverText(c, q + 1, stop);
    assert FindClose(c, stop) == Some(stop);
  }

  /** `[[t|d]]` yields `t`: the display text `d` is dropped. */
  lemma AliasedLinkThenText(t: string, d: string, y: string)
    requires LinkableTitle(t)
    requires forall k :: 0 <= k < |d| ==> d[k] != ']' && d[k] != '\n'
    ensures ParseLinks("[[" + t + "|" + d + "]]" + y) == [t] + ParseLinks(y)
  {
    var c := "[[" + t + "|" + d + "]]" + y;
    var q := 2 + |t|;
    var stop := q + 1 + |d|;
    assert c[2..q] == t;
    assert c[q] == '|';
    assert c[stop] == ']' && c[stop + 1] == ']';
    assert forall k :: q + 1 <= k < stop ==> c[k] == d[k - q - 1];
    ScanOverTitle(c, 2, q);
    PipeClosesTarget(c, q, stop);
    assert MatchAtStart(c) == Some((q, stop + 2));
    assert c[stop + 2..] == y;
  }

  /** The match starting at `c[0]` never reaches past the first line break. */
  lemma {:induction false} FindCloseStaysOnLine(x: string, y: string, i: nat)
    requires i < |x| && x[|x| - 1] == '\n'
    ensures FindClose(x + y, i) == FindClose(x, i)
    ensures FindClose(x, i).Some? ==> FindClose(x, i).value + 2 < |x|
    decreases |x| - i
  {
    if CloseAt(x, i) {
    } else if x[i] != '\n' {
      assert !CloseAt(x + y, i);
      FindCloseStaysOnLine(x, y, i + 1);
    } else {
      assert !CloseAt(x + y, i);
    }
  }

  lemma {:induction false} ScanTargetStaysOnLine(x: string, y: string, q: nat)
    requires q < |x| && x[|x| - 1] == '\n'
    ensures ScanTarget(x + y, q) == ScanTarget(x, q)
    ensures ScanTarget(x, q).Some? ==> ScanTarget(x, q).value.1 < |x|
    decreases |x| - q
  {
    var c := x + y;
    assert c[q] == x[q];
    if x[q] == '|' {
      FindCloseStaysOnLine(x, y, q + 1);
    }
    if x[q] == '|' && FindClose(x, q + 1).Some? {
    } else if CloseAt(x, q) {
    } else if x[q] != '\n' {
      assert !CloseAt(c, q);
      ScanTargetStaysOnLine(x, y, q + 1);
    } else {
      assert !CloseAt(c, q);
    }
  }

  /** A match at the start of a line ends on that line. */
  lemma MatchStaysOnLine(x: string, y: string)
    requires |x| > 0 && x[|x| - 1] == '\n'
    ensures MatchAtStart(x + y) == MatchAtStart(x)
    ensures MatchAtStart(x).Some? ==> MatchAtStart(x).value.1 < |x|
  {
    if OpenAt(x, 0) {
      assert OpenAt(x + y, 0);
      ScanTargetStaysOnLine(x, y, 2);
    } else {
      assert !OpenAt(x + y, 0);
    }
  }

  /** Links never span lines: the links of text that ends with a line break
      and the links of what follows it are found independently. */
  lemma {:induction false} LinksByLine(x: string, y: string)
    requires |x| > 0 && x[|x| - 1] == '\n'
    ensures ParseLinks(x + y) == ParseLinks(x) + ParseLinks(y)
    decreases |x|
  {
    var c := x + y;
    MatchStaysOnLine(x, y);
    match MatchAtStart(x)
    case Some((t, e)) =>
      assert c[2..t] == x[2..t];
      assert c[e..] == x[e..] + y;
      LinksByLine(x[e..], y);
      assert ParseLinks(c) == [x[2..t]] + (ParseLinks(x[e..]) + ParseLinks(y));
    case None =>
      assert c[1..] == x[1..] + y;
      if |x| == 1 {
        assert x[1..] == [];
      } else {
        LinksByLine(x[1..], y);
      }
  }

  /** Plain text, then a link: the link is the first one read. */
  lemma TextThenLink(x: string, t: string, y: string)
    requires '[' !in x && LinkableTitle(t)
    ensures ParseLinks(x + ("[[" + t + "]]" + y)) == [t] + ParseLinks(y)
  {
    SkipPlainText(x, "[[" + t + "]]" + y);
    LinkThenText(t, y);
  }

  /** Two links to the same title between plain text read as that title twice. */
  lemma TwoLinks(x1: string, t: string, x2: string, x3: string)
    requires '[' !in x1 && '[' !in x2 && '[' !in x3 && LinkableTitle(t)
    ensures ParseLinks(x1 + ("[[" + t + "]]" + (x2 + ("[[" + t + "]]" + x3)))) == [t, t]
  {
    SkipPlainText(x3, "");
    assert x3 + "" == x3;
    TextThenLink(x2, t, x3);
    TextThenLink(x1, t, x2 + ("[[" + t + "]]" + x3));
  }

  /** A note that links to B twice: "see [[B]] and [[B]] again". */
  lemma RepeatedLinkExample()
    ensures ParseLinks("see [[B]] and [[B]] again") == ["B", "B"]
  {
    assert "see [[B]] and [[B]] again" == "see " + ("[[" + "B" + "]]" + (" and " + ("[[" + "B" + "]]" + " again")));
    TwoLinks("see ", "B", " and ", " again");
  }
}
