/** Note titles: the file name of a note's path without its last extension,
    as `os.path.splitext(os.path.basename(path))[0]` computes it. */
module NoteTitle {
  import opened Common

  /** Position of the last `ch` in `s`, if there is one. */
  function LastIndexOf(s: string, ch: char): (r: Option<nat>)
    ensures r.Some? ==> r.value < |s| && s[r.value] == ch && ch !in s[r.value + 1..]
    ensures r.None? ==> ch !in s
    decreases |s|
  {
    if |s| == 0 then None
    else if s[|s| - 1] == ch then Some(|s| - 1)
    else match LastIndexOf(s[..|s| - 1], ch)
      case None => None
      case Some(d) =>
        assert s[d + 1..] == s[..|s| - 1][d + 1..] + [s[|s| - 1]];
        Some(d)
  }

  /** The part of `p` after its last '/'. */
  function Basename(p: string): (b: string)
    ensures '/' !in b
    ensures |b| <= |p| && b == p[|p| - |b|..]
    ensures b == p || p[|p| - |b| - 1] == '/'
  {
    match LastIndexOf(p, '/')
    case None => p
    case Some(k) => p[k + 1..]
  }

  predicate AllDots(s: string)
  {
    forall i :: 0 <= i < |s| ==> s[i] == '.'
  }

  /** The extension of file name `b` starts at `d`: `d` holds the last '.'
      and something other than a dot comes before it (leading dots, as in
      ".md", do not start an extension). */
  ghost predicate ExtensionAt(b: string, d: int)
  {
    0 <= d < |b| && b[d] == '.' && '.' !in b[d + 1..] && !AllDots(b[..d])
  }

  /** `os.path.splitext(b)[0]` for a name `b` that holds no '/'. */
  function StripExtension(b: string): (r: string)
    ensures r <= b
    ensures r == b || ExtensionAt(b, |r|)
    ensures r == b ==> forall d :: !ExtensionAt(b, d)
  {
    match LastIndexOf(b, '.')
    case None => b
    case Some(d) =>
      if AllDots(b[..d]) then
        b
      else b[..d]
  }

  /** The title of the note stored at `path`. */
  function ExtractNoteTitle(path: string): (r: string)
    ensures '/' !in r
    ensures r <= Basename(path)
    ensures r == Basename(path) || ExtensionAt(Basename(path), |r|)
    ensures r == Basename(path) ==> forall d :: !ExtensionAt(Basename(path), d)
  {
    StripExtension(Basename(path))
  }

  /** The base name of a path is determined by its last component. */
  lemma BasenameOfComponent(dir: string, name: string)
    requires dir == [] || dir[|dir| - 1] == '/'
    requires '/' !in name
    ensures Basename(dir + name) == name
  {
    var p := dir + name;
    var b := Basename(p);
    if |b| != |name| {
      assert false;
    }
    assert b == p[|p| - |name|..] == name;
  }

  /** Removing the extension of `stem.ext` gives back `stem` when the
      extension has no dot and the stem is not only dots. */
  lemma StripExtensionOfStem(stem: string, ext: string)
    requires '.' !in ext
    requires !AllDots(stem)
    ensures StripExtension(stem + "." + ext) == stem
  {
    var name := stem + "." + ext;
    assert name[|stem|] == '.';
    var d := LastIndexOf(name, '.').value;
    assert d == |stem|;
    assert name[..d] == stem;
  }

  /** A note named `stem.ext` in any directory has title `stem`, provided
      the extension has no dot and the stem is not only dots. */
  lemma TitleOfNamedFile(dir: string, stem: string, ext: string)
    requires dir == [] || dir[|dir| - 1] == '/'
    requires '/' !in stem && '/' !in ext && '.' !in ext
    requires !AllDots(stem)
    ensures ExtractNoteTitle(dir + stem + "." + ext) == stem
  {
    var name := stem + "." + ext;
    assert dir + stem + "." + ext == dir + name;
    assert '/' !in name;
    BasenameOfComponent(dir, name);
    StripExtensionOfStem(stem, ext);
  }

  /** The title of a note in a directory is its file name without ".md". */
  lemma TitleExample()
    ensures ExtractNoteTitle("dir/Note.md") == "Note"
  {
    assert "dir/" + "Note" + "." + "md" == "dir/Note.md";
    assert "Note"[0] != '.';
    TitleOfNamedFile("dir/", "Note", "md");
  }

  /** A leading dot does not start an extension: ".md" is its own title. */
  lemma HiddenNameExample()
    ensures ExtractNoteTitle(".md") == ".md"
  {
    BasenameOfComponent("", ".md");
    assert "" + ".md" == ".md";
  }
}
