/** Plain-text references: a known title of at least three characters that
    occurs in the content other than as `[[title` or `title]]`, the way
    `re.search(r'(?<!\[\[)' + re.escape(title) + r'(?!\]\])', content)`
    decides it. The test is a substring search, so a title inside a longer
    word counts too. */
module TextRefs {
  import opened Common

  /** Titles shorter than this are never searched for. */
  const MinTitleLength: nat := 3

  predicate OccursAt(c: string, t: string, i: int)
  {
    0 <= i && i + |t| <= |c| && c[i..i + |t|] == t
  }

  /** `t` occurs at `i`, not directly behind `[[` (the look-behind) and not
      directly before `]]` (the look-ahead). */
  predicate FreeAt(c: string, t: string, i: int)
  {
    && OccursAt(c, t, i)
    && !(i >= 2 && c[i - 2] == '[' && c[i - 1] == '[')
    && !(i + |t| + 1 < |c| && c[i + |t|] == ']' && c[i + |t| + 1] == ']')
  }

  ghost predicate HasFreeOccurrence(c: string, t: string)
  {
    exists i :: FreeAt(c, t, i)
  }

  /** The search itself: is there a free occurrence of `t` at or after `i`? */
  function SearchFrom(c: string, t: string, i: nat): (found: bool)
    ensures found <==> exists j :: i <= j && FreeAt(c, t, j)
    decreases |c| - i
  {
    if i + |t| > |c| then false
    else FreeAt(c, t, i) || SearchFrom(c, t, i + 1)
  }

  /** A title `find_text_references` keeps. */
  ghost predicate Selected(c: string, t: string)
  {
    |t| >= MinTitleLength && HasFreeOccurrence(c, t)
  }

  /** `find_text_references`: the titles with a free occurrence in `c`,
      short ones skipped, in the order of `titles` and with their
      multiplicities. */
  function FindTextReferences(c: string, titles: seq<string>): (r: seq<string>)
    ensures forall k :: 0 <= k < |r| ==> |r[k]| >= MinTitleLength
    ensures forall t :: t in r <==> t in titles && Selected(c, t)
    ensures forall t :: multiset(r)[t] == if Selected(c, t) then multiset(titles)[t] else 0
    ensures IsSubsequence(r, titles)
    decreases |titles|
  {
    if |titles| == 0 then []
    else
      var rest := FindTextReferences(c, titles[1..]);
      assert titles == [titles[0]] + titles[1..];
      assert multiset(titles) == multiset([titles[0]]) + multiset(titles[1..]);
      if |titles[0]| >= MinTitleLength && SearchFrom(c, titles[0], 0) then
        assert ([titles[0]] + rest)[1..] == rest;
        [titles[0]] + rest
      else rest
  }

  /** A title that occurs only as part of `[[title` or `title]]` is not a
      plain-text reference. */
  lemma LinkedOnlyIsNotReference(c: string, t: string, titles: seq<string>)
    requires forall i :: OccursAt(c, t, i) ==>
      (i >= 2 && c[i - 2] == '[' && c[i - 1] == '[') ||
      (i + |t| + 1 < |c| && c[i + |t|] == ']' && c[i + |t| + 1] == ']')
    ensures t !in FindTextReferences(c, titles)
  {
  }

  /** A title at the very start of the content, not followed by `]]`, is found. */
  lemma LeadingTitleIsReference(t: string, y: string, titles: seq<string>)
    requires |t| >= MinTitleLength && t in titles
    requires !(|y| >= 2 && y[0] == ']' && y[1] == ']')
    ensures t in FindTextReferences(t + y, titles)
  {
    var c := t + y;
    assert c[..|t|] == t;
    assert FreeAt(c, t, 0);
  }

  /** Wrapping a title's only occurrence in a link hides it. */
  lemma LinkedTitleExample()
    ensures FindTextReferences("[[Alpha]]", ["Alpha"]) == []
    ensures FindTextReferences("Alpha]", ["Alpha"]) == ["Alpha"]
  {
    var c := "[[Alpha]]";
    forall i | OccursAt(c, "Alpha", i) ensures i == 2 {
      assert c[i] == c[i..i + 5][0] == 'A';
      assert i <= 4;
    }
    LinkedOnlyIsNotReference(c, "Alpha", ["Alpha"]);
    LeadingTitleIsReference("Alpha", "]", ["Alpha"]);
    assert "Alpha" + "]" == "Alpha]";
  }
}
