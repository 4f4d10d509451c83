# ObsidianBackLinker in Dafny

A model of the backlink engine of `app.py`. The program scans a vault of
Markdown notes and finds which notes refer to which. It then gives every note
that is referred to a `## Backlinks` section listing the notes that refer to it.

The vault is modelled as an ordered list of notes, each a path and its
content. Walking the directory and reading and writing files are left to the
caller. What remains is modelled as pure functions, plus methods for the
loops: `AddReferences`, `RecordNote` and `GenerateBacklinks` for those of
`generate_backlinks`, and `Vault.Run` for the pipeline of `main`:

- `NoteTitle` (`title.dfy`): `extract_note_title`. This is the base name of the
  path without its last extension, the way `os.path.splitext` and
  `os.path.basename` compute it. A leading run of dots does not start an
  extension.
- `WikiLinks` (`links.dfy`): `parse_links`. It is a scanner with the
  semantics of `re.findall(r'\[\[(.*?)(?:\|.*?)?\]\]')`:
  - the leftmost `[[` is tried first;
  - the target grows lazily and never crosses a line break;
  - a `|` ends the target only when a `]]` follows on the same line;
  - scanning resumes behind the match.
- `TextRefs` (`textrefs.dfy`): `find_text_references`. It keeps the titles of at
  least three characters that occur in the content, except where preceded by
  `[[` (the look-behind) or followed by `]]` (the look-ahead).
- `Backlinks` (`backlinks.dfy`): `generate_backlinks`.
  - The title map is last-wins.
  - A note's references are the *set* of its links plus its text references.
  - Every referenced title that the map knows appends the note's
    `(title, path)` to the list of the note that the title resolves to.
  - `GenerateBacklinks` is the loop over the notes and over the reference set,
    the set walked in any order. It is proved equal to a declarative index,
    `BacklinkIndex`.
- `Section` (`section.dfy`): the section logic of `update_files_with_backlinks`.
  - Rendering.
  - Detection with `## Backlinks\n\n.*?(?:\n\n|$)` under DOTALL. The lazy body
    stops at the first `\n\n`, which it takes along, or where `$` holds.
  - `re.sub`, which replaces *every* block.
  - The padding of the append branch.
  - The per-note decision `UpdateContent`:
    - with no references, nothing is written;
    - in append mode, a note that already has a section is left alone;
    - in replace mode, the blocks are replaced;
    - otherwise the section is appended.
  - `--mode` is the two-valued `UpdateMode` (`app.py:108`). `argparse`
    refuses any other value, so no third case exists.
- `Vault` (`vault.dfy`): the pipeline of `main` (`Run`), and the three-note
  example vault worked through to its final contents.

Behaviours of `app.py` that are easy to misread, as the model states them:

- Plain-text references are always computed. The comment at `app.py:56` calls
  them optional and `--text-refs` is declared with a help text
  (`app.py:110-111`), but the flag is never read (`app.py:57`).
- A title shorter than three characters is never a text reference. In the
  example vault, `C.md` ("B is interesting") does not refer to `B`
  (`app.py:31-32`; `Vault.PlainNoteReferencesNothing`).
- Replace mode replaces every block that the pattern matches, not only the
  first (`app.py:91`; `Section.TwoSectionsBothReplaced`).
- Duplicates are removed per source note: each note's references form a set
  (`app.py:60`). There is no deduplication by source title across notes. Two
  notes with the same title in different folders both appear
  (`Backlinks.EntryCount`).

## Model

| member | source | states |
|---|---|---|
| NoteTitle.LastIndexOf | app.py:18 | the position found holds the character and none follows it; with no position, the character does not occur (`rfind`) |
| NoteTitle.Basename | app.py:18 | the base name has no '/', is a suffix of the path, and is the whole path or stands right behind a '/' |
| NoteTitle.StripExtension | app.py:18 | the stem is a prefix of the name; it is the whole name exactly when no dot qualifies as an extension dot, and otherwise it is cut at the last dot that has something other than dots before it |
| NoteTitle.ExtractNoteTitle | app.py:16-18 | the title has no '/', is a prefix of the base name, and is the base name cut at its extension dot, or the whole base name when it has none |
| NoteTitle.TitleOfNamedFile | app.py:16-18 | a note stored as `dir/stem.ext` has title `stem`, whatever the directory, when the extension has no dot and the stem is not only dots |
| NoteTitle.TitleExample | app.py:16-18 | `dir/Note.md` has title `Note` |
| NoteTitle.HiddenNameExample | app.py:18 | `.md` keeps its leading dot: its title is `.md` |
| WikiLinks.FindClose | app.py:23 | the lazy `.*?\]\]`: the first `]]` at or after the start on the same line, or none on that line |
| WikiLinks.ScanTarget | app.py:23 | the target ends at the first position on the line that holds `]]`, or a pipe followed by a `]]` on the same line; the match ends behind the first `]]` from there; no end means no such position on the line |
| WikiLinks.MatchedTargetIsValid | app.py:23 | a matched target contains no line break, no pipe and no `]]` |
| WikiLinks.ParseLinks | app.py:20-24 | every link consumes at least the four bracket characters, so a text has at most a quarter of its length in links |
| WikiLinks.ParsedLinksAreValid | app.py:20-24 | every link returned is such a target |
| WikiLinks.SkipPlainText | app.py:23 | text without `[` adds no link and does not change the links of what follows |
| WikiLinks.LinkThenText | app.py:23 | `[[t]]` yields `t` and scanning resumes behind it |
| WikiLinks.AliasedLinkThenText | app.py:23 | `[[t` + pipe + `d]]` yields `t`; the display text is dropped |
| WikiLinks.PipeClosesTarget | app.py:23 | a pipe with a `]]` after it on the same line ends the target there |
| WikiLinks.LinksByLine | app.py:23 | no link spans a line break: the links of lines read separately, concatenated, are the links of the text |
| WikiLinks.TwoLinks | app.py:20-24 | two links to one title between plain text give that title twice: duplicates are kept |
| WikiLinks.RepeatedLinkExample | app.py:20-24 | "see [[B]] and [[B]] again" gives `["B", "B"]` |
| TextRefs.SearchFrom | app.py:35-36 | the search succeeds exactly when the title occurs at or after the start neither behind `[[` nor before `]]` |
| TextRefs.FindTextReferences | app.py:26-39 | a title is kept exactly when it has at least three characters and such an occurrence; the result keeps the order and the multiplicities of the title list |
| TextRefs.LinkedOnlyIsNotReference | app.py:35-36 | a title that occurs only as `[[title` or `title]]` is not found |
| TextRefs.LeadingTitleIsReference | app.py:29-37 | a long enough title at the start of the content, not followed by `]]`, is found |
| TextRefs.LinkedTitleExample | app.py:35-36 | `[[Alpha]]` refers to nothing in plain text; `Alpha]` refers to `Alpha` |
| Backlinks.NoteTitles | app.py:44 | one title per note: the list is as long as the note list, repeats kept |
| Backlinks.TitlesAreMapped | app.py:44-45 | the title list and the keys of the title map hold the same titles: a title is listed exactly when the map knows it |
| Backlinks.LastWithTitle | app.py:45 | the position found carries the title and no later note does; with none found, no note carries it |
| Backlinks.TitleMap | app.py:45 | the map knows exactly the titles of the notes, and sends each to the path of the last note carrying it |
| Backlinks.ReferencedTitles | app.py:54-60 | a note refers to a title exactly when it links to it, or the title is known, has a plain-text occurrence and is long enough |
| Backlinks.TargetResolution | app.py:63-65 | a note lands on `p` exactly when it refers to the title of `p` and `p` is the last note registered under that title |
| Backlinks.TargetsAddOne | app.py:63-66 | one more title adds at most its own target, and that target is new, because the map is injective |
| Backlinks.TitleMapInjective | app.py:45 | different titles of the map resolve to different notes |
| Backlinks.AddReferences | app.py:63-66 | walking the reference set in any order appends the source exactly once to each target it resolves to and to no other list; the keys grow by exactly those targets |
| Backlinks.RecordNote | app.py:47-66 | one turn of the outer loop takes the index of the first `i` notes to the index of the first `i + 1` |
| Backlinks.GenerateBacklinks | app.py:41-68 | the loops build exactly the declarative backlink index: for every path, the entries of the notes that land on it, in input order |
| Backlinks.BacklinkIndex | app.py:43-68 | a path is a key of the index exactly when some note adds an entry to it (the `defaultdict` only grows by appends), and looking up any path gives the entries of the notes landing on it |
| Backlinks.CollectKeysAreNonEmpty | app.py:63-66 | the paths some source lands on are exactly those whose collected list is not empty |
| Backlinks.CollectInOrder | app.py:47-66 | a collected list is a subsequence of the sources in input order |
| Backlinks.CollectCount | app.py:60-66 | a source that occurs once is collected once when it lands on `p`, and otherwise never |
| Backlinks.EntriesMembership | app.py:41-68 | an entry of `p` is the reference of a note landing on `p`, and every such note has its entry |
| Backlinks.EntriesInInputOrder | app.py:47-66 | entries follow the input order of the notes |
| Backlinks.EntryCount | app.py:60-66 | with distinct paths, a note landing on `p` appears in its list exactly once, however often it mentions the title; otherwise it does not appear |
| Backlinks.LinkIsRecorded | app.py:54-66 | a link to a title adds the linking note to the last note registered under it, self-links included |
| Backlinks.UnregisteredHasNoEntries | app.py:63-66 | a note that its own title does not resolve to gets no entries |
| Backlinks.ShadowedNoteHasNoEntries | app.py:45 | of two notes with one title, the earlier gets no entries: the later takes them all |
| Section.RenderSection | app.py:84-87 | a section starts with the heading `## Backlinks` and a blank line, and ends with a line break |
| Section.FindHeading | app.py:80-81 | the leftmost heading at or after the start, or none at all |
| Section.HasSection | app.py:80-81 | the search succeeds exactly when the heading occurs somewhere, since `$` always matches at the end |
| Section.BodyStop | app.py:80 | the lazy body stops at the first position where `\n\n` starts or `$` holds |
| Section.BlockEnd | app.py:80 | a block ends right behind the first `\n\n` of its body, or, when `$` holds before any `\n\n`, at that end of text; no earlier position stops the body |
| Section.FirstBreak | app.py:80 | a block whose body meets `\n\n` before any end of text ends behind that `\n\n` |
| Section.Padding | app.py:97-98 | the separator is line breaks only, makes the content end in a blank line, and is the shortest that does |
| Section.AppendSection | app.py:95-99 | the content stays a prefix and the section ends the text; between them stand only line breaks, at most two, and the text ends in a blank line at the first of those positions where it can: the padding is the shortest |
| Section.ReplaceSections | app.py:90-91 | text without a heading is returned unchanged |
| Section.NoSpanningHeading | app.py:80-81 | a heading cannot start inside text without a section and end in a heading put behind it |
| Section.EntryLinesShape | app.py:85-86 | the entry lines start with '-', end with a line break and hold no blank line |
| Section.SectionShape | app.py:84-87 | a rendered section holds no blank line after the heading, except the one it ends with |
| Section.SectionBlockEnd | app.py:80-81 | a rendered section is exactly one block, wherever it stands |
| Section.BlockThenRest | app.py:80-91 | for any block, hand-edited or not: the text before the leftmost heading is kept, the block from the heading to its end becomes the new section, and the search resumes behind the block |
| Section.BreakEndedBlockEnd | app.py:80 | a block body without a blank line before its closing `\n\n` ends right behind that `\n\n`, whatever follows |
| Section.BreakEndedBlock | app.py:80-91 | a heading, a body without a blank line, `\n\n`, then text without a heading: the block becomes the new section and the text behind it is kept |
| Section.EditedBlockExample | app.py:80-91 | in "## Backlinks\n\n- [[A]]\nmy note\n\nrest" the note written under the entries is replaced together with the block, and "rest" stays |
| Section.SectionThenRest | app.py:91 | heading-free text, a rendered section, more text: the section is replaced whole and the search resumes behind it |
| Section.TwoSectionsBothReplaced | app.py:91 | two sections separated by heading-free text are both replaced: `re.sub` replaces every block |
| Section.ReplaceAfterAppendIsFixpoint | app.py:90-99 | replacing right after appending gives the same text, provided the padding completes no heading |
| Section.ReplaceIsIdempotent | app.py:91 | replacing twice with the same section is replacing once |
| Section.DoubledHeading | app.py:80-91 | a heading followed directly by another heading forms one block ending at the second heading's blank line |
| Section.AppendThenReplaceCounterexample | app.py:90-99 | content that is the bare heading line gains a second heading when the section is appended; a later replace then leaves an entry line behind, so the text changes |
| Section.EntryLineLinks | app.py:86 | one entry line yields its title as a link and nothing else |
| Section.EntryLinesLinks | app.py:85-86 | the entry lines read back as their titles, in order |
| Section.RenderedLinksRoundTrip | app.py:84-87 | the links of a rendered section are exactly its source titles, when no title has a line break, pipe or `]` |
| Section.UpdateContent | app.py:72-99 | nothing is written exactly when there are no references, or in append mode when a section exists; what is written always has a section; without a section the text written is the content with the rendered section appended; in replace mode with a section it is the content with every block replaced by the rendered section |
| Section.AppendAddsSection | app.py:95-99 | after appending, the text has a section |
| Section.ReplaceKeepsSection | app.py:90-91 | after replacing, the text still has a section |
| Section.HeadingAfter | app.py:80-81 | a section put behind any text is found |
| Section.UpdateIsStable | app.py:89-99 | updating a second time with the same sources writes nothing, or the same text again |
| Vault.RewriteNote | app.py:72-103 | the path is kept; a note without entries, or with a section in append mode, is unchanged; a note with entries and no section gets the rendered list of its entries appended; in replace mode a note with entries and a section has every block replaced by that list; a rewritten note has a section |
| Vault.RewriteVault | app.py:72-74 | every note is rewritten from the same index, one for one and in place; every path is kept and a note without entries keeps its content |
| Vault.RewriteOnlyIndexed | app.py:72-74 | when only one note has entries, no other note changes |
| Vault.Run | app.py:119-124 | the pipeline keeps every path and leaves notes without entries, and in append mode notes with a section, alone; a note with entries and no section gets the rendered list of its entries appended; in replace mode a note with entries and a section has every block replaced by that list |
| Vault.AppendedSectionLinksBack | app.py:84-99 | the links of an appended section are exactly the titles of the notes referring to the rewritten note, in input order |
| Vault.RewriteNoteIsStable | app.py:72-99 | rewriting a note twice from the same index is rewriting it once, unless the padding completes a heading |
| Vault.ShortTitlesOnlyLink | app.py:57-60 | when every title is shorter than three characters, a note refers to exactly what it links to |
| Vault.ExampleReferencesOfA | app.py:60 | A refers to B once, although it links to B twice |
| Vault.PlainNoteReferencesNothing | app.py:29-37 | text without `[` refers to nothing when the titles are `A`, `B`, `C`: C's "B" is too short |
| Vault.SingleTargetIndex | app.py:63-68 | when one note lands on one path and no other note lands anywhere, the index holds that path alone with that note's entry |
| Vault.ExampleTitles | app.py:16-18 | `A.md`, `B.md` and `C.md` have titles `A`, `B` and `C` |
| Vault.ExampleIndex | app.py:41-68 | the example's index is `B.md` with the single entry `(A, A.md)` |
| Vault.ExampleSectionOfB | app.py:95-99 | B gets `"nothing here\n\n## Backlinks\n\n- [[A]]\n\n"` |
| Vault.ExampleRewrite | app.py:70-103 | append mode on the example index rewrites B and leaves A and C alone |
| Vault.ExampleUpdate | app.py:119-124 | the whole run on the example vault, titles taken from the file names, ends with only B changed as above |

## Left out

- `find_markdown_files` (`app.py:7-14`): the directory walk is left out. The
  notes are given as a list. The `.md` filter and `os.path.join` are outside
  the model.
- File reading and writing (`app.py:48-49`, `app.py:76-77`, `app.py:102-103`)
  are not modelled. A note's content is the same string in both passes,
  because all reads finish before the first write.
- The argument parsing and printing in `main` (`app.py:105-126`) are not
  modelled. `~` expansion of the vault path is also left out.
- `--text-refs` (`app.py:110-111`) is never read by the program, so it has no
  counterpart.
- `re.sub` processes backslash escapes in the replacement string. The model
  inserts the rendered section literally, which differs only for source titles
  that contain a backslash.
- Iteration order of the reference set and of the `defaultdict`: the index is
  modelled as a map. `AddReferences` walks the set in an arbitrary order. The
  order in which target files are rewritten does not matter, because each
  target is rewritten once from the same index.
- `Backlinks.GenerateBacklinks` takes the title function as a parameter
  `titleOf`. `Vault.Run` instantiates it with `NoteTitle.ExtractNoteTitle`.
- Paths are POSIX paths: `/` is the only separator, as `os.path` uses on
  POSIX systems.
- Convergence over several runs is not stated. The links in a written
  section create new backlinks on the next run, which can change other
  notes.
- Duplicate paths in the note list cannot come from a directory walk. Lemmas
  that need distinct paths require them (`DistinctPaths`).
- Section.UpdateIsStable: requires that the padding does not complete a heading
  in content without a section. Otherwise the second update differs, as
  `Section.AppendThenReplaceCounterexample` shows. `Vault.RewriteNoteIsStable`
  carries the same requirement.
- Section.ReplaceSections: its contract states only the case without a heading.
  What it does to a block is stated by `BlockThenRest` for any block, by
  `BreakEndedBlock` for a block closed by its first blank line, and by
  `SectionThenRest` and `TwoSectionsBothReplaced` for rendered sections.
  `ReplaceIsIdempotent`, `ReplaceKeepsSection` and `DoubledHeading` state
  further properties.
- WikiLinks.ParseLinks: its own contract is only the length bound. Which links
  it finds is stated by the lemmas about it (`ParsedLinksAreValid`,
  `LinkThenText`, `AliasedLinkThenText`, `PipeClosesTarget`, `SkipPlainText`,
  `LinksByLine`, `TwoLinks`). This keeps the contract that every caller sees
  small.
- Backlinks.NoteTitles: its own contract states only the length. That the
  listed titles are exactly the titles the map knows is stated by
  `Backlinks.TitlesAreMapped`.
