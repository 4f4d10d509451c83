/** The backlink index of `generate_backlinks`, over an ordered list of
    notes (path and content) instead of files on disk.

    Every title is registered in a title map where the last note with a
    title wins. Each note's references are the set of its explicit links
    and its plain-text references; every referenced title that the map
    knows adds the note's `(title, path)` to the list of the note the title
    resolves to.

    The index is stated for any function `titleOf` from paths to titles;
    the vault pipeline uses `NoteTitle.ExtractNoteTitle`. Nothing here
    depends on how a title is derived, only on the title being a function
    of the path. */
module Backlinks {
  import opened Common
  import opened WikiLinks
  import opened TextRefs

  datatype Note = Note(path: string, content: string)

  /** A backlink entry: the source note's title and path. */
  datatype Ref = Ref(title: string, path: string)

  function SourceRef(n: Note, titleOf: string -> string): Ref
  {
    Ref(titleOf(n.path), n.path)
  }

  /** `note_titles`: every note's title, in input order, repeats kept. */
  function NoteTitles(notes: seq<Note>, titleOf: string -> string): (ts: seq<string>)
    ensures |ts| == |notes|
  {
    seq(|notes|, i requires 0 <= i < |notes| => titleOf(notes[i].path))
  }

  /** The references of every note, in input order. */
  function SourceRefs(notes: seq<Note>, titleOf: string -> string): seq<Ref>
  {
    seq(|notes|, i requires 0 <= i < |notes| => SourceRef(notes[i], titleOf))
  }

  ghost predicate DistinctPaths(notes: seq<Note>)
  {
    forall i, j :: 0 <= i < j < |notes| ==> notes[i].path != notes[j].path
  }

  /** The position of the last note whose title is `t`, if any. */
  function LastWithTitle(notes: seq<Note>, titleOf: string -> string, t: string): (r: Option<nat>)
    ensures r.Some? ==> r.value < |notes| && titleOf(notes[r.value].path) == t
    ensures r.Some? ==> forall j :: r.value < j < |notes| ==> titleOf(notes[j].path) != t
    ensures r.None? ==> forall j :: 0 <= j < |notes| ==> titleOf(notes[j].path) != t
    decreases |notes|
  {
    if |notes| == 0 then None
    else if titleOf(notes[|notes| - 1].path) == t then Some(|notes| - 1)
    else LastWithTitle(notes[..|notes| - 1], titleOf, t)
  }

  /** `p` is the note that its own title resolves to: the last note
      carrying that title has path `p`. */
  predicate Registered(notes: seq<Note>, titleOf: string -> string, p: string)
  {
    var r := LastWithTitle(notes, titleOf, titleOf(p));
    r.Some? && notes[r.value].path == p
  }

  /** `file_title_map`: every title of the list, sent to the path of the
      last note that carries it. */
  function TitleMap(notes: seq<Note>, titleOf: string -> string): (m: map<string, string>)
    ensures forall t :: t in m <==> LastWithTitle(notes, titleOf, t).Some?
    ensures forall t :: t in m ==> m[t] == notes[LastWithTitle(notes, titleOf, t).value].path
    decreases |notes|
  {
    if |notes| == 0 then map[]
    else
      var init := notes[..|notes| - 1];
      var last := notes[|notes| - 1];
      TitleMap(init, titleOf)[titleOf(last.path) := last.path]
  }

  /** The title list and the title map know the same titles. */
  lemma TitlesAreMapped(notes: seq<Note>, titleOf: string -> string)
    ensures forall t :: t in NoteTitles(notes, titleOf) <==> t in TitleMap(notes, titleOf)
  {
    var ts := NoteTitles(notes, titleOf);
    forall t | t in TitleMap(notes, titleOf)
      ensures t in ts
    {
      var i := LastWithTitle(notes, titleOf, t).value;
      assert ts[i] == t;
    }
  }

  /** `set(links + text_refs)`: what one note refers to. */
  function ReferencedTitles(content: string, titles: seq<string>): (r: set<string>)
    ensures forall t :: t in r <==> t in ParseLinks(content) || (t in titles && Selected(content, t))
  {
    set t | t in ParseLinks(content) + FindTextReferences(content, titles)
  }

  /** The paths that a set of referenced titles resolves to. */
  function Targets(refs: set<string>, tmap: map<string, string>): set<string>
  {
    set t | t in refs && t in tmap :: tmap[t]
  }

  /** The notes that note `i` adds an entry to. */
  function NoteTargets(notes: seq<Note>, titleOf: string -> string, i: nat): set<string>
    requires i < |notes|
  {
    Targets(ReferencedTitles(notes[i].content, NoteTitles(notes, titleOf)), TitleMap(notes, titleOf))
  }

  /** A note lands on `p` exactly when it refers to the title of `p` and
      `p` is the last note registered under that title. */
  lemma TargetResolution(notes: seq<Note>, titleOf: string -> string, i: nat, p: string)
    requires i < |notes|
    ensures p in NoteTargets(notes, titleOf, i) <==>
      titleOf(p) in ReferencedTitles(notes[i].content, NoteTitles(notes, titleOf)) &&
      Registered(notes, titleOf, p)
  {
    var tmap := TitleMap(notes, titleOf);
    if p in NoteTargets(notes, titleOf, i) {
      var t :| t in ReferencedTitles(notes[i].content, NoteTitles(notes, titleOf)) && t in tmap && tmap[t] == p;
      assert titleOf(p) == t;
    }
  }

  /** What note `i` adds itself to, for every note: `targets[i]` is the set
      of paths note `i` lands on. */
  function TargetList(notes: seq<Note>, titleOf: string -> string): (targets: seq<set<string>>)
    ensures |targets| == |notes|
  {
    seq(|notes|, i requires 0 <= i < |notes| => NoteTargets(notes, titleOf, i))
  }

  /** The list that the first `n` sources build for `p`: source `i` is
      appended when `p` is one of its targets. */
  function Collect(targets: seq<set<string>>, sources: seq<Ref>, p: string, n: nat): seq<Ref>
    requires n <= |targets| == |sources|
  {
    if n == 0 then []
    else Collect(targets, sources, p, n - 1) + (if p in targets[n - 1] then [sources[n - 1]] else [])
  }

  /** The paths that the first `n` sources land on. */
  function CollectKeys(targets: seq<set<string>>, n: nat): set<string>
    requires n <= |targets|
  {
    if n == 0 then {} else CollectKeys(targets, n - 1) + targets[n - 1]
  }

  /** The entries that the first `n` notes add to `p`, in input order. */
  function EntriesUpTo(notes: seq<Note>, titleOf: string -> string, p: string, n: nat): seq<Ref>
    requires n <= |notes|
  {
    Collect(TargetList(notes, titleOf), SourceRefs(notes, titleOf), p, n)
  }

  /** The list the index holds for `p`. */
  function Entries(notes: seq<Note>, titleOf: string -> string, p: string): seq<Ref>
  {
    EntriesUpTo(notes, titleOf, p, |notes|)
  }

  /** Every path some note lands on. */
  function AllTargets(notes: seq<Note>, titleOf: string -> string): set<string>
  {
    CollectKeys(TargetList(notes, titleOf), |notes|)
  }

  /** The backlink index as a value: every target with its entries. */
  function BacklinkIndex(notes: seq<Note>, titleOf: string -> string): (m: map<string, seq<Ref>>)
    ensures forall p :: p in m <==> Entries(notes, titleOf, p) != []
    ensures forall p :: Lookup(m, p) == Entries(notes, titleOf, p)
  {
    CollectKeysAreNonEmpty(TargetList(notes, titleOf), SourceRefs(notes, titleOf), |notes|);
    map p | p in AllTargets(notes, titleOf) :: Entries(notes, titleOf, p)
  }

  /** `backlinks[p]` of a `defaultdict(list)`. */
  function Lookup(index: map<string, seq<Ref>>, p: string): seq<Ref>
  {
    if p in index then index[p] else []
  }

  /** Different titles of the map resolve to different notes. */
  ghost predicate Injective(tmap: map<string, string>)
  {
    forall t, u :: t in tmap && u in tmap && tmap[t] == tmap[u] ==> t == u
  }

  /** Adding one title to a reference set adds at most its own target, and
      that target is new when the map is injective. */
  lemma TargetsAddOne(done: set<string>, t: string, tmap: map<string, string>)
    requires Injective(tmap) && t !in done
    ensures t in tmap ==> Targets(done + {t}, tmap) == Targets(done, tmap) + {tmap[t]}
    ensures t in tmap ==> tmap[t] !in Targets(done, tmap)
    ensures t !in tmap ==> Targets(done + {t}, tmap) == Targets(done, tmap)
  {
  }

  /** The loop `for ref in all_refs` of one source note: the set is walked in
      any order, and every title the map knows appends `source` to the list
      of the note it resolves to. Because the map sends different titles to
      different notes, the order does not matter and each target gets
      `source` once. */
  method AddReferences(index: map<string, seq<Ref>>, refs: set<string>, tmap: map<string, string>, source: Ref)
    returns (r: map<string, seq<Ref>>)
    requires Injective(tmap)
    ensures forall p :: Lookup(r, p) == Lookup(index, p) + (if p in Targets(refs, tmap) then [source] else [])
    ensures r.Keys == index.Keys + Targets(refs, tmap)
  {
    r := index;
    var pending := refs;
    while pending != {}
      invariant pending <= refs
      invariant forall p :: Lookup(r, p) == Lookup(index, p) + (if p in Targets(refs - pending, tmap) then [source] else [])
      invariant r.Keys == index.Keys + Targets(refs - pending, tmap)
      decreases pending
    {
      var t :| t in pending;
      ghost var done := refs - pending;
      assert refs - (pending - {t}) == done + {t};
      TargetsAddOne(done, t, tmap);
      if t in tmap {
        var p := tmap[t];
        r := r[p := Lookup(r, p) + [source]];
      }
      pending := pending - {t};
    }
    assert refs - pending == refs;
  }

  /** The title map never sends two titles to the same note. */
  lemma TitleMapInjective(notes: seq<Note>, titleOf: string -> string)
    ensures Injective(TitleMap(notes, titleOf))
  {
    var tmap := TitleMap(notes, titleOf);
    forall t, u | t in tmap && u in tmap && tmap[t] == tmap[u]
      ensures t == u
    {
      assert titleOf(tmap[t]) == t && titleOf(tmap[u]) == u;
    }
  }

  /** One turn of the outer loop: note `i` adds itself to the lists of the
      notes it refers to, after which the index holds the entries of the
      first `i + 1` notes. The title list and the title map are the same
      for every note. */
  method RecordNote(index: map<string, seq<Ref>>, notes: seq<Note>, titleOf: string -> string, i: nat)
    returns (next: map<string, seq<Ref>>)
    requires i < |notes|
    requires forall p :: Lookup(index, p) == EntriesUpTo(notes, titleOf, p, i)
    requires index.Keys == CollectKeys(TargetList(notes, titleOf), i)
    ensures forall p :: Lookup(next, p) == EntriesUpTo(notes, titleOf, p, i + 1)
    ensures next.Keys == CollectKeys(TargetList(notes, titleOf), i + 1)
  {
    TitleMapInjective(notes, titleOf);
    var refs := ReferencedTitles(notes[i].content, NoteTitles(notes, titleOf));
    var tmap := TitleMap(notes, titleOf);
    next := AddReferences(index, refs, tmap, SourceRef(notes[i], titleOf));
  }

  /** `generate_backlinks`: walks the notes in input order and records every
      reference; the result is the backlink index. */
  method GenerateBacklinks(notes: seq<Note>, titleOf: string -> string) returns (index: map<string, seq<Ref>>)
    ensures forall p :: Lookup(index, p) == Entries(notes, titleOf, p)
    ensures index == BacklinkIndex(notes, titleOf)
  {
    index := map[];
    for i := 0 to |notes|
      invariant forall p :: Lookup(index, p) == EntriesUpTo(notes, titleOf, p, i)
      invariant index.Keys == CollectKeys(TargetList(notes, titleOf), i)
    {
      index := RecordNote(index, notes, titleOf, i);
    }
  }

  /** The paths the first `n` sources land on are exactly the paths whose
      collected list is not empty. */
  lemma {:induction false} CollectKeysAreNonEmpty(targets: seq<set<string>>, sources: seq<Ref>, n: nat)
    requires n <= |targets| == |sources|
    ensures forall p :: p in CollectKeys(targets, n) <==> Collect(targets, sources, p, n) != []
  {
    if n > 0 {
      CollectKeysAreNonEmpty(targets, sources, n - 1);
    }
  }

  /** An element of a collected list is a source whose targets hold `p`,
      and every such source is collected. */
  lemma {:induction false} CollectMembership(targets: seq<set<string>>, sources: seq<Ref>, p: string, n: nat, r: Ref)
    requires n <= |targets| == |sources|
    ensures r in Collect(targets, sources, p, n) <==>
      exists i :: 0 <= i < n && p in targets[i] && r == sources[i]
  {
    if n > 0 {
      CollectMembership(targets, sources, p, n - 1, r);
    }
  }

  /** A collected list keeps the order of the sources, at most one entry
      per source. */
  lemma {:induction false} CollectInOrder(targets: seq<set<string>>, sources: seq<Ref>, p: string, n: nat)
    requires n <= |targets| == |sources|
    ensures IsSubsequence(Collect(targets, sources, p, n), sources[..n])
  {
    if n > 0 {
      var prev := Collect(targets, sources, p, n - 1);
      CollectInOrder(targets, sources, p, n - 1);
      assert sources[..n] == sources[..n - 1] + [sources[n - 1]];
      SubsequenceSnoc(prev, sources[..n - 1], sources[n - 1]);
      if p in targets[n - 1] {
        assert Collect(targets, sources, p, n) == prev + [sources[n - 1]];
      } else {
        assert Collect(targets, sources, p, n) == prev;
      }
    }
  }

  /** How often `x` is collected grows by one exactly when source `n - 1`
      is `x` and lands on `p`. */
  lemma CollectStepCount(targets: seq<set<string>>, sources: seq<Ref>, p: string, n: nat, x: Ref)
    requires 0 < n <= |targets| == |sources|
    ensures multiset(Collect(targets, sources, p, n))[x] ==
      multiset(Collect(targets, sources, p, n - 1))[x] + (if p in targets[n - 1] && sources[n - 1] == x then 1 else 0)
  {
    var prev := Collect(targets, sources, p, n - 1);
    var last := if p in targets[n - 1] then [sources[n - 1]] else [];
    assert Collect(targets, sources, p, n) == prev + last;
    assert multiset(prev + last) == multiset(prev) + multiset(last);
  }

  /** A reference that none of the first `n` sources carries is never
      collected. */
  lemma {:induction false} CollectWithout(targets: seq<set<string>>, sources: seq<Ref>, p: string, n: nat, x: Ref)
    requires n <= |targets| == |sources|
    requires forall j :: 0 <= j < n ==> sources[j] != x
    ensures multiset(Collect(targets, sources, p, n))[x] == 0
  {
    if n > 0 {
      assert sources[n - 1] != x;
      CollectWithout(targets, sources, p, n - 1, x);
      CollectStepCount(targets, sources, p, n, x);
    }
  }

  /** A source that occurs once among the sources is collected once when
      its targets hold `p`, and never otherwise. */
  lemma {:induction false} CollectCount(targets: seq<set<string>>, sources: seq<Ref>, p: string, n: nat, i: nat)
    requires n <= |targets| == |sources|
    requires i < n
    requires forall j :: 0 <= j < |sources| && j != i ==> sources[j] != sources[i]
    ensures multiset(Collect(targets, sources, p, n))[sources[i]] == if p in targets[i] then 1 else 0
  {
    if i < n - 1 {
      CollectCount(targets, sources, p, n - 1, i);
      CollectStepCount(targets, sources, p, n, sources[i]);
    } else {
      CollectLastCount(targets, sources, p, n);
    }
  }

  /** The last of `n` sources, carried by no earlier one, is collected once
      when its targets hold `p`. */
  lemma CollectLastCount(targets: seq<set<string>>, sources: seq<Ref>, p: string, n: nat)
    requires 0 < n <= |targets| == |sources|
    requires forall j :: 0 <= j < n - 1 ==> sources[j] != sources[n - 1]
    ensures multiset(Collect(targets, sources, p, n))[sources[n - 1]] == if p in targets[n - 1] then 1 else 0
  {
    var x := sources[n - 1];
    CollectWithout(targets, sources, p, n - 1, x);
    assert multiset(Collect(targets, sources, p, n - 1))[x] == 0;
    CollectStepCount(targets, sources, p, n, x);
  }

  /** An entry for `p` is the reference of a note that lands on `p`, and
      every such note has its entry. */
  lemma EntriesMembership(notes: seq<Note>, titleOf: string -> string, p: string, r: Ref)
    ensures r in Entries(notes, titleOf, p) <==>
      exists i :: 0 <= i < |notes| && p in NoteTargets(notes, titleOf, i) && r == SourceRef(notes[i], titleOf)
  {
    var targets := TargetList(notes, titleOf);
    var sources := SourceRefs(notes, titleOf);
    CollectMembership(targets, sources, p, |notes|, r);
    forall i | 0 <= i < |notes|
      ensures (p in targets[i] && r == sources[i]) <==> (p in NoteTargets(notes, titleOf, i) && r == SourceRef(notes[i], titleOf))
    {
      assert targets[i] == NoteTargets(notes, titleOf, i) && sources[i] == SourceRef(notes[i], titleOf);
    }
  }

  /** Entries follow the input order of the notes, at most one per note. */
  lemma EntriesInInputOrder(notes: seq<Note>, titleOf: string -> string, p: string)
    ensures IsSubsequence(Entries(notes, titleOf, p), SourceRefs(notes, titleOf))
  {
    CollectInOrder(TargetList(notes, titleOf), SourceRefs(notes, titleOf), p, |notes|);
    assert SourceRefs(notes, titleOf)[..|notes|] == SourceRefs(notes, titleOf);
  }

  /** With distinct paths, a note that lands on `p` appears in its list
      exactly once, however often it mentions the title. */
  lemma EntryCount(notes: seq<Note>, titleOf: string -> string, p: string, i: nat)
    requires DistinctPaths(notes)
    requires i < |notes|
    ensures multiset(Entries(notes, titleOf, p))[SourceRef(notes[i], titleOf)] ==
      if p in NoteTargets(notes, titleOf, i) then 1 else 0
  {
    var sources := SourceRefs(notes, titleOf);
    forall j | 0 <= j < |sources| && j != i
      ensures sources[j] != sources[i]
    {
      assert sources[j].path == notes[j].path && sources[i].path == notes[i].path;
    }
    CollectCount(TargetList(notes, titleOf), sources, p, |notes|, i);
  }

  /** An explicit link to a title adds the linking note to the last note
      registered under that title; a note linking to itself is kept. */
  lemma LinkIsRecorded(notes: seq<Note>, titleOf: string -> string, i: nat, p: string)
    requires i < |notes|
    requires titleOf(p) in ParseLinks(notes[i].content)
    requires Registered(notes, titleOf, p)
    ensures SourceRef(notes[i], titleOf) in Entries(notes, titleOf, p)
  {
    TargetResolution(notes, titleOf, i, p);
    EntriesMembership(notes, titleOf, p, SourceRef(notes[i], titleOf));
  }

  /** A note that its own title does not resolve to gets no entries. */
  lemma UnregisteredHasNoEntries(notes: seq<Note>, titleOf: string -> string, p: string)
    requires !Registered(notes, titleOf, p)
    ensures Entries(notes, titleOf, p) == []
  {
    var e := Entries(notes, titleOf, p);
    if e != [] {
      EntriesMembership(notes, titleOf, p, e[0]);
    }
  }

  /** A note whose title is carried again by a later note gets no entries:
      the later note takes all references to the title. */
  lemma ShadowedNoteHasNoEntries(notes: seq<Note>, titleOf: string -> string, a: nat, b: nat)
    requires DistinctPaths(notes)
    requires a < b < |notes|
    requires titleOf(notes[a].path) == titleOf(notes[b].path)
    ensures Entries(notes, titleOf, notes[a].path) == []
  {
    var p := notes[a].path;
    var r := LastWithTitle(notes, titleOf, titleOf(p));
    assert r.Some? && r.value >= b;
    UnregisteredHasNoEntries(notes, titleOf, p);
  }
}
