/** The whole run over a vault: build the backlink index from every note,
    then give each note that has entries its backlinks section. The notes
    are an ordered list of (path, content) pairs; reading the vault from
    disk and writing the files back are outside the model. */
module Vault {
  import opened Common
  import opened NoteTitle
  import opened WikiLinks
  import opened TextRefs
  import opened Backlinks
  import opened Section

  /** The titles a note's section lists: its entries' source titles, in order. */
  function SourceTitles(entries: seq<Ref>): (ts: seq<string>)
    ensures |ts| == |entries|
    ensures forall k :: 0 <= k < |entries| ==> ts[k] == entries[k].title
  {
    seq(|entries|, k requires 0 <= k < |entries| => entries[k].title)
  }

  /** One turn of `update_files_with_backlinks`: the note at `n.path` with
      its new content, or unchanged when nothing is written. */
  function RewriteNote(n: Note, index: map<string, seq<Ref>>, mode: UpdateMode): (r: Note)
    ensures r.path == n.path
    ensures Lookup(index, n.path) == [] ==> r == n
    ensures mode == AppendMode && HasSection(n.content) ==> r == n
    ensures r != n ==> HasSection(r.content)
    ensures Lookup(index, n.path) != [] && !HasSection(n.content) ==>
      r.content == AppendSection(n.content, RenderSection(SourceTitles(Lookup(index, n.path))))
    ensures Lookup(index, n.path) != [] && mode == ReplaceMode && HasSection(n.content) ==>
      r.content == ReplaceSections(n.content, RenderSection(SourceTitles(Lookup(index, n.path))))
  {
    match UpdateContent(n.content, SourceTitles(Lookup(index, n.path)), mode)
    case None => n
    case Some(c) => Note(n.path, c)
  }

  /** The loop over the index: every note of the vault rewritten from the
      same index, one for one. Notes without entries keep their content,
      and every note keeps its path. */
  function RewriteVault(notes: seq<Note>, index: map<string, seq<Ref>>, mode: UpdateMode): (r: seq<Note>)
    ensures |r| == |notes|
    ensures forall k :: 0 <= k < |notes| ==> r[k] == RewriteNote(notes[k], index, mode)
    ensures forall k :: 0 <= k < |notes| ==> r[k].path == notes[k].path
    ensures forall k :: 0 <= k < |notes| && Lookup(index, notes[k].path) == [] ==> r[k] == notes[k]
  {
    seq(|notes|, k requires 0 <= k < |notes| => RewriteNote(notes[k], index, mode))
  }

  /** `main` without the file system: index the notes by their titles,
      then update every note that has backlinks. */
  method Run(notes: seq<Note>, mode: UpdateMode) returns (out: seq<Note>)
    ensures |out| == |notes|
    ensures forall k :: 0 <= k < |notes| ==> out[k].path == notes[k].path
    ensures forall k :: 0 <= k < |notes| && Entries(notes, ExtractNoteTitle, notes[k].path) == [] ==>
      out[k] == notes[k]
    ensures forall k :: 0 <= k < |notes| && mode == AppendMode && HasSection(notes[k].content) ==>
      out[k] == notes[k]
    ensures forall k :: 0 <= k < |notes| ==>
      var n, es := notes[k], Entries(notes, ExtractNoteTitle, notes[k].path);
      es != [] && !HasSection(n.content) ==> out[k].content == AppendSection(n.content, RenderSection(SourceTitles(es)))
    ensures forall k :: 0 <= k < |notes| ==>
      var n, es := notes[k], Entries(notes, ExtractNoteTitle, notes[k].path);
      es != [] && mode == ReplaceMode && HasSection(n.content) ==>
        out[k].content == ReplaceSections(n.content, RenderSection(SourceTitles(es)))
  {
    var index := GenerateBacklinks(notes, ExtractNoteTitle);
    out := RewriteVault(notes, index, mode);
    forall k | 0 <= k < |notes|
      ensures Lookup(index, notes[k].path) == Entries(notes, ExtractNoteTitle, notes[k].path)
    {
    }
  }

  /** The links of an appended section lead back to exactly the notes that
      refer to the rewritten note, in input order. */
  lemma AppendedSectionLinksBack(n: Note, index: map<string, seq<Ref>>, mode: UpdateMode)
    requires forall r :: r in Lookup(index, n.path) ==> LinkableTitle(r.title)
    requires !HasSection(n.content)
    requires RewriteNote(n, index, mode) != n
    ensures var c := RewriteNote(n, index, mode).content;
      var sec := RenderSection(SourceTitles(Lookup(index, n.path)));
      |c| >= |sec| && ParseLinks(c[|c| - |sec|..]) == SourceTitles(Lookup(index, n.path))
  {
    var titles := SourceTitles(Lookup(index, n.path));
    forall k | 0 <= k < |titles| ensures LinkableTitle(titles[k]) {
      assert Lookup(index, n.path)[k] in Lookup(index, n.path);
    }
    RenderedLinksRoundTrip(titles);
  }

  /** Source titles that a section can carry. */
  predicate LineFreeTitles(entries: seq<Ref>)
  {
    forall k :: 0 <= k < |entries| ==> NoLineBreak(entries[k].title)
  }

  /** Updating a note a second time from the same index leaves it as the
      first update left it, unless the padding completed a heading that
      the content ended with. */
  lemma RewriteNoteIsStable(n: Note, index: map<string, seq<Ref>>, mode: UpdateMode)
    requires LineFreeTitles(Lookup(index, n.path))
    requires !HasSection(n.content) ==> !HasSection(n.content + Padding(n.content))
    ensures var r := RewriteNote(n, index, mode);
      RewriteNote(r, index, mode) == r
  {
    var titles := SourceTitles(Lookup(index, n.path));
    if |titles| > 0 {
      UpdateIsStable(n.content, titles, mode);
    }
  }

  /** A small vault: A links to B twice, B links nowhere, C mentions B in
      plain text. */
  function ExampleNotes(): seq<Note>
  {
    [Note("A.md", "see [[B]] and [[B]] again"), Note("B.md", "nothing here"), Note("C.md", "B is interesting")]
  }

  lemma ExampleTitles()
    ensures ExtractNoteTitle("A.md") == "A"
    ensures ExtractNoteTitle("B.md") == "B"
    ensures ExtractNoteTitle("C.md") == "C"
  {
    assert "" + "A" + "." + "md" == "A.md";
    assert "" + "B" + "." + "md" == "B.md";
    assert "" + "C" + "." + "md" == "C.md";
    assert "A"[0] != '.' && "B"[0] != '.' && "C"[0] != '.';
    TitleOfNamedFile("", "A", "md");
    TitleOfNamedFile("", "B", "md");
    TitleOfNamedFile("", "C", "md");
  }

  /** Titles shorter than three characters contribute no plain-text
      references: a note refers to exactly what it links to. */
  lemma ShortTitlesOnlyLink(c: string, titles: seq<string>)
    requires forall k :: 0 <= k < |titles| ==> |titles[k]| < MinTitleLength
    ensures forall t :: t in ReferencedTitles(c, titles) <==> t in ParseLinks(c)
  {
  }

  /** A refers to B once, however often it links to it. */
  lemma ExampleReferencesOfA()
    ensures ReferencedTitles("see [[B]] and [[B]] again", ["A", "B", "C"]) == {"B"}
  {
    var c, titles := "see [[B]] and [[B]] again", ["A", "B", "C"];
    assert |titles[0]| == |titles[1]| == |titles[2]| == 1;
    ShortTitlesOnlyLink(c, titles);
    RepeatedLinkExample();
    RepeatedElementSet(ReferencedTitles(c, titles), ParseLinks(c), "B");
  }

  /** A set holding exactly the elements of `[x, x]` is `{x}`. */
  lemma RepeatedElementSet<T>(r: set<T>, l: seq<T>, x: T)
    requires forall y :: y in r <==> y in l
    requires l == [x, x]
    ensures r == {x}
  {
  }

  /** Text without a `[` refers to nothing when every title is short; C's
      "B" is shorter than three characters and so is no plain-text
      reference. */
  lemma PlainNoteReferencesNothing(c: string)
    requires '[' !in c
    ensures ReferencedTitles(c, ["A", "B", "C"]) == {}
  {
    SkipPlainText(c, "");
    assert c + "" == c;
    ShortTitlesOnlyLink(c, ["A", "B", "C"]);
  }

  /** The lists that sources build when only source `i` lands anywhere,
      and only on `p`. */
  lemma {:induction false} CollectSingle(targets: seq<set<string>>, sources: seq<Ref>, p: string, i: nat, q: string, n: nat)
    requires n <= |targets| == |sources|
    requires forall j :: 0 <= j < |targets| ==> targets[j] == if j == i then {p} else {}
    ensures Collect(targets, sources, q, n) == if q == p && i < n then [sources[i]] else []
    ensures CollectKeys(targets, n) == if i < n then {p} else {}
  {
    if n > 0 {
      CollectSingle(targets, sources, p, i, q, n - 1);
    }
  }

  /** When one note lands on one path and no other note lands anywhere,
      the index holds that path alone, with that note's entry. */
  lemma SingleTargetIndex(notes: seq<Note>, titleOf: string -> string, i: nat, p: string)
    requires i < |notes|
    requires forall j :: 0 <= j < |notes| ==> NoteTargets(notes, titleOf, j) == if j == i then {p} else {}
    ensures BacklinkIndex(notes, titleOf) == map[p := [SourceRef(notes[i], titleOf)]]
  {
    var targets := TargetList(notes, titleOf);
    var sources := SourceRefs(notes, titleOf);
    assert forall j :: 0 <= j < |notes| ==> targets[j] == NoteTargets(notes, titleOf, j);
    CollectSingle(targets, sources, p, i, p, |notes|);
    assert AllTargets(notes, titleOf) == {p};
    assert Entries(notes, titleOf, p) == [SourceRef(notes[i], titleOf)];
  }

  lemma ExampleTitleList(titleOf: string -> string)
    requires titleOf("A.md") == "A" && titleOf("B.md") == "B" && titleOf("C.md") == "C"
    ensures NoteTitles(ExampleNotes(), titleOf) == ["A", "B", "C"]
  {
  }

  /** B is the note registered under title "B". */
  lemma ExampleTitleMap(titleOf: string -> string)
    requires titleOf("A.md") == "A" && titleOf("B.md") == "B" && titleOf("C.md") == "C"
    ensures "B" in TitleMap(ExampleNotes(), titleOf)
    ensures TitleMap(ExampleNotes(), titleOf)["B"] == "B.md"
  {
    assert LastWithTitle(ExampleNotes(), titleOf, "B") == Some(1);
  }

  /** A lands on B. */
  lemma ExampleTargetsOfA(titleOf: string -> string)
    requires titleOf("A.md") == "A" && titleOf("B.md") == "B" && titleOf("C.md") == "C"
    ensures NoteTargets(ExampleNotes(), titleOf, 0) == {"B.md"}
  {
    ExampleReferencesOfA();
    ExampleTitleList(titleOf);
    ExampleTitleMap(titleOf);
  }

  /** B and C land nowhere. */
  lemma ExampleTargetsOfPlain(titleOf: string -> string, j: nat)
    requires titleOf("A.md") == "A" && titleOf("B.md") == "B" && titleOf("C.md") == "C"
    requires j == 1 || j == 2
    ensures NoteTargets(ExampleNotes(), titleOf, j) == {}
  {
    var c := ExampleNotes()[j].content;
    assert '[' !in c;
    PlainNoteReferencesNothing(c);
    ExampleTitleList(titleOf);
  }

  /** A lands on B; B and C land nowhere. */
  lemma ExampleTargets(titleOf: string -> string)
    requires titleOf("A.md") == "A" && titleOf("B.md") == "B" && titleOf("C.md") == "C"
    ensures forall j :: 0 <= j < 3 ==> NoteTargets(ExampleNotes(), titleOf, j) == if j == 0 then {"B.md"} else {}
  {
    forall j | 0 <= j < 3
      ensures NoteTargets(ExampleNotes(), titleOf, j) == if j == 0 then {"B.md"} else {}
    {
      if j == 0 {
        ExampleTargetsOfA(titleOf);
      } else {
        ExampleTargetsOfPlain(titleOf, j);
      }
    }
  }

  /** The index of the example: only B has backlinks, one entry from A. */
  lemma ExampleIndex(titleOf: string -> string)
    requires titleOf("A.md") == "A" && titleOf("B.md") == "B" && titleOf("C.md") == "C"
    ensures BacklinkIndex(ExampleNotes(), titleOf) == map["B.md" := [Ref("A", "A.md")]]
  {
    ExampleTargets(titleOf);
    SingleTargetIndex(ExampleNotes(), titleOf, 0, "B.md");
  }

  /** B has no section yet: the append branch pads it with a blank line
      and adds a section listing A. */
  lemma ExampleSectionOfB()
    ensures UpdateContent("nothing here", ["A"], AppendMode) == Some("nothing here\n\n## Backlinks\n\n- [[A]]\n\n")
  {
    var c := "nothing here";
    var s := RenderSection(["A"]);
    assert EntryLines(["A"]) == "- [[A]]\n";
    assert s == "## Backlinks\n\n- [[A]]\n\n";
    assert c + "\n\n" + s == "nothing here\n\n## Backlinks\n\n- [[A]]\n\n";
    assert !HasSection(c);
    assert Padding(c) == "\n\n";
    assert AppendSection(c, s) == c + "\n\n" + s;
  }

  /** B after the update: a blank line, then a section listing A. */
  function ExampleUpdatedB(): Note
  {
    Note("B.md", "nothing here\n\n## Backlinks\n\n- [[A]]\n\n")
  }

  lemma ExampleRewriteOfB()
    ensures RewriteNote(ExampleNotes()[1], map["B.md" := [Ref("A", "A.md")]], AppendMode) == ExampleUpdatedB()
  {
    var index := map["B.md" := [Ref("A", "A.md")]];
    assert SourceTitles(Lookup(index, "B.md")) == ["A"];
    ExampleSectionOfB();
  }

  /** Notes without entries are left as they are: when only note `i` has
      entries, the rewrite touches that note alone. */
  lemma RewriteOnlyIndexed(notes: seq<Note>, index: map<string, seq<Ref>>, mode: UpdateMode, i: nat)
    requires i < |notes|
    requires forall j :: 0 <= j < |notes| && j != i ==> Lookup(index, notes[j].path) == []
    ensures RewriteVault(notes, index, mode) == notes[i := RewriteNote(notes[i], index, mode)]
  {
  }

  lemma ReplaceMiddle<T>(s: seq<T>, x: T)
    requires |s| == 3
    ensures s[1 := x] == [s[0], x, s[2]]
  {
  }

  /** Append mode on the example index: B gets a section listing A; A and
      C are left as they are. */
  lemma ExampleRewrite()
    ensures var notes := ExampleNotes();
      RewriteVault(notes, map["B.md" := [Ref("A", "A.md")]], AppendMode) == [notes[0], ExampleUpdatedB(), notes[2]]
  {
    var notes := ExampleNotes();
    var index := map["B.md" := [Ref("A", "A.md")]];
    ReplaceMiddle(notes, ExampleUpdatedB());
    assert notes[0].path == "A.md" && notes[2].path == "C.md";
    assert forall j :: 0 <= j < |notes| && j != 1 ==> Lookup(index, notes[j].path) == [];
    RewriteOnlyIndexed(notes, index, AppendMode, 1);
    ExampleRewriteOfB();
  }

  /** The whole run on the example, with titles taken from the file names. */
  lemma ExampleUpdate()
    ensures var notes := ExampleNotes();
      RewriteVault(notes, BacklinkIndex(notes, ExtractNoteTitle), AppendMode) == [notes[0], ExampleUpdatedB(), notes[2]]
  {
    ExampleTitles();
    ExampleIndex(ExtractNoteTitle);
    ExampleRewrite();
  }
}
