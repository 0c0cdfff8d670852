/**
 * The MP3 organiser `orgmusic.py`: every MP3 file directly in a directory
 * is moved into a sub-directory named after the artist in its ID3 tag.
 *
 * The directory on disk is a class whose fields are the entries of the
 * organised directory and of its parent (reached through an artist named
 * `..`); the ID3 tag reader is an oracle from a file name to the artist
 * tag, absent when the tag has no artist.
 */
module MusicOrganizer {
  import opened Wrappers

  // ------------------------------------------------------------ Extension

  /**
   * `file[len(file) - 3:len(file)]` with Python's handling of a negative start:
   * for a two-character name the start `-1` counts from the end and leaves the
   * last character; for a shorter one it falls before the start and leaves the
   * whole name.
   */
  function Extension(file: string): (r: string)
    ensures |file| >= 3 ==> r == file[|file| - 3..]
    ensures |file| == 2 ==> r == file[1..]
    ensures |file| < 2 ==> r == file
  {
    var n := |file|;
    var start := if n >= 3 then n - 3 else if 2 * n - 3 >= 0 then 2 * n - 3 else 0;
    file[start..]
  }

  /** The extension is one of `mp3`, `MP3`, `Mp3`, `mP3`. */
  predicate IsMp3(file: string) {
    var e := Extension(file);
    e == "mp3" || e == "MP3" || e == "Mp3" || e == "mP3"
  }

  /** A file is processed exactly when it ends in `mp3` with the letters in either case. */
  lemma IsMp3Suffix(file: string)
    ensures IsMp3(file) <==>
      |file| >= 3 && (file[|file| - 3] == 'm' || file[|file| - 3] == 'M') &&
      (file[|file| - 2] == 'p' || file[|file| - 2] == 'P') && file[|file| - 1] == '3'
  {
    var e := Extension(file);
    if |file| >= 3 {
      assert e == [e[0], e[1], e[2]];
      assert e[0] == file[|file| - 3] && e[1] == file[|file| - 2] && e[2] == file[|file| - 1];
    }
  }

  // ------------------------------------------------------------- Sanitise

  /** The characters `[-_.\d\w]` accepts on a byte string: ASCII letters, digits, `_`, `-`, `.`. */
  predicate Allowed(c: char) {
    c == '-' || c == '_' || c == '.' || ('0' <= c <= '9') || ('a' <= c <= 'z') || ('A' <= c <= 'Z')
  }

  predicate AllAllowed(s: string) {
    forall k :: 0 <= k < |s| ==> Allowed(s[k])
  }

  /** `s.replace('\0', '')`. */
  function RemoveNul(s: string): (r: string)
    ensures forall k :: 0 <= k < |r| ==> r[k] != '\0'
    ensures |r| <= |s|
  {
    if s == [] then []
    else if s[0] == '\0' then RemoveNul(s[1..])
    else [s[0]] + RemoveNul(s[1..])
  }

  /** `re.sub('[^-_.\d\w]', '', s)`: drops every character that is not allowed. */
  function KeepAllowed(s: string): (r: string)
    ensures |r| <= |s|
  {
    if s == [] then []
    else if Allowed(s[0]) then [s[0]] + KeepAllowed(s[1..])
    else KeepAllowed(s[1..])
  }

  lemma {:induction false} RemoveNulAppend(a: string, b: string)
    ensures RemoveNul(a + b) == RemoveNul(a) + RemoveNul(b)
    decreases |a|
  {
    if a == [] {
      assert a + b == b;
    } else {
      assert (a + b)[1..] == a[1..] + b;
      RemoveNulAppend(a[1..], b);
    }
  }

  lemma {:induction false} KeepAllowedAppend(a: string, b: string)
    ensures KeepAllowed(a + b) == KeepAllowed(a) + KeepAllowed(b)
    decreases |a|
  {
    if a == [] {
      assert a + b == b;
    } else {
      assert (a + b)[1..] == a[1..] + b;
      KeepAllowedAppend(a[1..], b);
    }
  }

  /** Removing NULs deletes each NUL and keeps every other character, in order. */
  lemma RemoveNulDeletesOnlyNul(a: string, c: char, b: string)
    ensures RemoveNul(a + [c] + b) == RemoveNul(a) + (if c == '\0' then [] else [c]) + RemoveNul(b)
  {
    RemoveNulAppend(a + [c], b);
    RemoveNulAppend(a, [c]);
    assert [c][1..] == [];
    assert RemoveNul([c]) == if c == '\0' then [] else [c];
  }

  /** The substitution deletes each disallowed character and keeps every allowed one, in order. */
  lemma KeepAllowedDeletesOnlyDisallowed(a: string, c: char, b: string)
    ensures KeepAllowed(a + [c] + b) == KeepAllowed(a) + (if Allowed(c) then [c] else []) + KeepAllowed(b)
  {
    KeepAllowedAppend(a + [c], b);
    KeepAllowedAppend(a, [c]);
    assert [c][1..] == [];
    assert KeepAllowed([c]) == if Allowed(c) then [c] else [];
  }

  /** The artist tag made safe for a directory name. */
  function Sanitise(raw: string): string {
    KeepAllowed(RemoveNul(raw))
  }

  lemma {:induction false} KeepAllowedAllowed(s: string)
    ensures AllAllowed(KeepAllowed(s))
    decreases |s|
  {
    if s != [] {
      KeepAllowedAllowed(s[1..]);
    }
  }

  lemma {:induction false} KeepAllowedUnchanged(s: string)
    requires AllAllowed(s)
    ensures KeepAllowed(s) == s
    decreases |s|
  {
    if s != [] {
      KeepAllowedUnchanged(s[1..]);
      assert [s[0]] + s[1..] == s;
    }
  }

  lemma {:induction false} RemoveNulUnchanged(s: string)
    requires forall k :: 0 <= k < |s| ==> s[k] != '\0'
    ensures RemoveNul(s) == s
    decreases |s|
  {
    if s != [] {
      RemoveNulUnchanged(s[1..]);
      assert [s[0]] + s[1..] == s;
    }
  }

  /** The sanitised artist holds no NUL and only allowed characters. */
  lemma SanitisedCharacters(raw: string)
    ensures AllAllowed(Sanitise(raw))
    ensures forall k :: 0 <= k < |Sanitise(raw)| ==> Sanitise(raw)[k] != '\0'
  {
    KeepAllowedAllowed(RemoveNul(raw));
  }

  /** A name is left as it is exactly when all its characters are allowed. */
  lemma SanitiseFixed(raw: string)
    ensures Sanitise(raw) == raw <==> AllAllowed(raw)
  {
    KeepAllowedAllowed(RemoveNul(raw));
    if AllAllowed(raw) {
      RemoveNulUnchanged(raw);
      KeepAllowedUnchanged(raw);
    }
  }

  /** Sanitising a sanitised artist changes nothing. */
  lemma SanitiseIdempotent(raw: string)
    ensures Sanitise(Sanitise(raw)) == Sanitise(raw)
  {
    SanitisedCharacters(raw);
    SanitiseFixed(Sanitise(raw));
  }

  // ------------------------------------------------------------ One file

  /** An entry of a directory: a file with its contents, or a folder. */
  datatype Node = File(data: string) | Folder(children: map<string, Node>)

  /** The organised directory's entries and its parent directory's entries. */
  datatype Disk = Disk(here: map<string, Node>, parent: map<string, Node>)

  /** The state after some files, or the state in which a failed rename stopped the run. */
  datatype Run = Running(disk: Disk) | Crashed(disk: Disk)

  /**
   * One listed name. Non-MP3 names and untagged files are skipped. The
   * destination `path/artist/name` is looked up as the operating system
   * resolves it: an empty artist or `.` names the directory itself, `..`
   * its parent. The artist folder is created when missing; an existing
   * destination is never overwritten; a rename into something that is not
   * a folder, or of a folder into itself, fails and stops the run.
   */
  function Step(d: Disk, name: string, tag: Option<string>): Run {
    if !IsMp3(name) || tag.None? then Running(d)
    else Place(d, name, Sanitise(tag.value))
  }

  /** Moving `name` to `artist/name`, once the artist is known. */
  function Place(d: Disk, name: string, artist: string): Run {
    if artist == "" || artist == "." then
      // path/name is the file itself, so it "already exists"
      if name in d.here then Running(d) else Crashed(d)
    else if artist == ".." then
      if name in d.parent then Running(d)
      else if name in d.here then Running(Disk(d.here - {name}, d.parent[name := d.here[name]]))
      else Crashed(d)
    else
      var here := if artist in d.here then d.here else d.here[artist := Folder(map[])];
      match here[artist]
      case File(_) => Crashed(Disk(here, d.parent))
      case Folder(children) =>
        if name in children then Running(Disk(here, d.parent))
        else if name in here && name != artist then
          Running(Disk((here - {name})[artist := Folder(children[name := here[name]])], d.parent))
        else Crashed(Disk(here, d.parent))
  }

  /** The listed names handled in order until a rename fails. */
  function Organized(d: Disk, names: seq<string>, tags: string -> Option<string>): Run
  {
    if names == [] then Running(d)
    else match Organized(d, names[..|names| - 1], tags)
      case Crashed(x) => Crashed(x)
      case Running(x) => Step(x, names[|names| - 1], tags(names[|names| - 1]))
  }

  /** A name that is not an MP3, or a file without an artist tag, changes nothing. */
  lemma SkippedUnchanged(d: Disk, name: string, tag: Option<string>)
    requires !IsMp3(name) || tag.None?
    ensures Step(d, name, tag) == Running(d)
  {
  }

  /** An ordinary artist name: not empty, `.` or `..`. */
  predicate Ordinary(artist: string) {
    artist != "" && artist != "." && artist != ".."
  }

  /**
   * A tagged MP3 moves to `artist/name` under its own name; its folder is
   * created when missing and keeps its other files; everything else stays.
   */
  lemma MovedIntoArtistFolder(d: Disk, name: string, raw: string)
    requires IsMp3(name) && name in d.here
    requires var artist := Sanitise(raw);
      Ordinary(artist) && artist != name &&
      (artist !in d.here || (d.here[artist].Folder? && name !in d.here[artist].children))
    ensures var artist := Sanitise(raw);
      var old_children := if artist in d.here then d.here[artist].children else map[];
      var r := Step(d, name, Some(raw));
      r.Running? && r.disk.parent == d.parent &&
      name !in r.disk.here && artist in r.disk.here &&
      r.disk.here[artist] == Folder(old_children[name := d.here[name]]) &&
      forall n :: n in d.here && n != name && n != artist ==> n in r.disk.here && r.disk.here[n] == d.here[n]
  {
  }

  /** An existing destination is never overwritten: the file is skipped and nothing changes. */
  lemma NeverOverwrites(d: Disk, name: string, raw: string)
    requires IsMp3(name)
    requires var artist := Sanitise(raw);
      Ordinary(artist) && artist in d.here && d.here[artist].Folder? && name in d.here[artist].children
    ensures Step(d, name, Some(raw)) == Running(d)
  {
  }

  /** A folder is only ever created for an artist that had no entry. */
  lemma FolderCreatedOnlyWhenMissing(d: Disk, name: string, raw: string)
    requires IsMp3(name) && Ordinary(Sanitise(raw)) && Sanitise(raw) in d.here
    ensures var r := Step(d, name, Some(raw)); Sanitise(raw) in r.disk.here
    ensures var r := Step(d, name, Some(raw));
      d.here[Sanitise(raw)].Folder? ==>
        (r.disk.here[Sanitise(raw)].Folder? &&
         d.here[Sanitise(raw)].children.Keys <= r.disk.here[Sanitise(raw)].children.Keys)
  {
  }

  // -------------------------------------------------------- No file lost

  /** Following the names of `p` from `m` leads to a file holding `data`. */
  predicate InTree(m: map<string, Node>, p: seq<string>, data: string)
    decreases |p|
  {
    |p| >= 1 && p[0] in m &&
    if |p| == 1 then m[p[0]] == File(data)
    else m[p[0]].Folder? && InTree(m[p[0]].children, p[1..], data)
  }

  /** Somewhere under the directory or its parent there is a file holding `data`. */
  ghost predicate Kept(d: Disk, data: string) {
    (exists p :: InTree(d.here, p, data)) || (exists p :: InTree(d.parent, p, data))
  }

  /** A path depends only on the entry its first name picks. */
  lemma InTreeSameEntry(m: map<string, Node>, m2: map<string, Node>, p: seq<string>, data: string)
    requires |p| >= 1 && p[0] in m && p[0] in m2 && m[p[0]] == m2[p[0]]
    ensures InTree(m, p, data) <==> InTree(m2, p, data)
  {
  }

  /** Moving an entry into a folder `artist` puts every path through it under `artist`. */
  lemma InTreeMoved(m: map<string, Node>, children: map<string, Node>, artist: string, p: seq<string>, data: string)
    requires InTree(m, p, data) && artist in m && m[artist] == Folder(children) && p[0] != artist
    ensures var name := p[0];
      var r := (m - {name})[artist := Folder(children[name := m[name]])];
      InTree(r, [artist] + p, data)
  {
    var name := p[0];
    var r := (m - {name})[artist := Folder(children[name := m[name]])];
    assert ([artist] + p)[1..] == p;
    InTreeSameEntry(m, children[name := m[name]], p, data);
  }

  /** No step loses a file: each one stays put, moves into a folder or moves to the parent. */
  lemma StepKeepsFiles(d: Disk, name: string, tag: Option<string>, data: string)
    requires Kept(d, data)
    ensures Kept(Step(d, name, tag).disk, data)
  {
    var r := Step(d, name, tag).disk;
    if IsMp3(name) && tag.Some? {
      var artist := Sanitise(tag.value);
      if (exists p :: InTree(d.here, p, data)) {
        var p :| InTree(d.here, p, data);
        if artist == ".." {
          if r.here != d.here {
            if p[0] == name {
              InTreeSameEntry(d.here, r.parent, p, data);
            } else {
              InTreeSameEntry(d.here, r.here, p, data);
            }
          }
        } else if Ordinary(artist) {
          OrdinaryPlaceKeeps(d, name, artist, p, data);
        }
      } else {
        var p :| InTree(d.parent, p, data);
        if artist == ".." && r.here != d.here {
          InTreeSameEntry(d.parent, r.parent, p, data);
        }
      }
    }
  }

  /** A move into an ordinary artist folder keeps every file of the directory. */
  lemma OrdinaryPlaceKeeps(d: Disk, name: string, artist: string, p: seq<string>, data: string)
    requires Ordinary(artist) && InTree(d.here, p, data)
    ensures exists q :: InTree(Place(d, name, artist).disk.here, q, data)
  {
    var r := Place(d, name, artist).disk;
    var h := if artist in d.here then d.here else d.here[artist := Folder(map[])];
    InTreeSameEntry(d.here, h, p, data);
    if h[artist].Folder? && name !in h[artist].children && name in h && name != artist {
      var children := h[artist].children;
      if p[0] == name {
        InTreeMoved(h, children, artist, p, data);
      } else if p[0] == artist {
        assert |p| > 1 && InTree(children, p[1..], data);
        InTreeSameEntry(children, children[name := h[name]], p[1..], data);
        assert r.here[artist] == Folder(children[name := h[name]]);
        assert InTree(r.here, p, data);
      } else {
        InTreeSameEntry(h, r.here, p, data);
      }
    }
  }

  /** However far the run gets, every file that was there is still somewhere. */
  lemma {:induction false} OrganizeKeepsFiles(d: Disk, names: seq<string>, tags: string -> Option<string>, data: string)
    requires Kept(d, data)
    ensures Kept(Organized(d, names, tags).disk, data)
    decreases |names|
  {
    if names != [] {
      OrganizeKeepsFiles(d, names[..|names| - 1], tags, data);
      match Organized(d, names[..|names| - 1], tags)
      case Crashed(x) =>
      case Running(x) => StepKeepsFiles(x, names[|names| - 1], tags(names[|names| - 1]), data);
    }
  }

  // ------------------------------------------------- The artist named `..`

  /**
   * As written, a tag whose artist sanitises to `..` (dots are allowed)
   * moves the file out of the organised directory into its parent.
   */
  lemma DotDotArtistLeavesDirectory(d: Disk, name: string, raw: string)
    requires IsMp3(name) && name in d.here && name !in d.parent && Sanitise(raw) == ".."
    ensures var r := Step(d, name, Some(raw));
      r.Running? && name !in r.disk.here && r.disk.parent[name] == d.here[name]
  {
  }

  /** The artist the tag `"?.?."` yields: `..`. */
  lemma DotDotFromTag()
    ensures Sanitise("?.?.") == ".."
  {
    assert RemoveNul("?.?.") == "?.?." by { RemoveNulUnchanged("?.?."); }
    assert KeepAllowed("?.?.") == ".." by {
      assert "?.?."[1..] == ".?.";
      assert ".?."[1..] == "?.";
      assert "?."[1..] == ".";
    }
  }

  /** One file as intended: an artist naming no sub-directory is skipped like a missing tag. */
  function StepCorrected(d: Disk, name: string, tag: Option<string>): Run {
    if tag.Some? && !Ordinary(Sanitise(tag.value)) then Running(d)
    else Step(d, name, tag)
  }

  function OrganizeCorrected(d: Disk, names: seq<string>, tags: string -> Option<string>): Run
  {
    if names == [] then Running(d)
    else match OrganizeCorrected(d, names[..|names| - 1], tags)
      case Crashed(x) => Crashed(x)
      case Running(x) => StepCorrected(x, names[|names| - 1], tags(names[|names| - 1]))
  }

  /** Organised as intended, the parent directory is never touched. */
  lemma {:induction false} CorrectedStaysInside(d: Disk, names: seq<string>, tags: string -> Option<string>)
    ensures OrganizeCorrected(d, names, tags).disk.parent == d.parent
    decreases |names|
  {
    if names != [] {
      CorrectedStaysInside(d, names[..|names| - 1], tags);
    }
  }

  // ------------------------------------------------------ The directory

  /** The directory being organised, as the script changes it on disk. */
  class MusicDir {
    var here: map<string, Node>
    var parent: map<string, Node>

    constructor(here: map<string, Node>, parent: map<string, Node>)
      ensures this.here == here && this.parent == parent
    {
      this.here := here;
      this.parent := parent;
    }

    function State(): Disk
      reads this
    {
      Disk(here, parent)
    }

    /**
     * `organize`: walks the listing, skipping non-MP3 names and untagged
     * files, creating the artist folder when it does not exist and
     * renaming the file into it unless the destination exists. Returns
     * whether a rename failed, which ends the run.
     */
    method Organize(contents: seq<string>, tags: string -> Option<string>) returns (crashed: bool)
      modifies this
      ensures var r := Organized(old(State()), contents, tags);
        State() == r.disk && crashed == r.Crashed?
    {
      ghost var start := State();
      crashed := false;
      var i := 0;
      while i < |contents|
        invariant 0 <= i <= |contents|
        invariant Organized(start, contents[..i], tags) == Running(State())
      {
        ghost var before := State();
        var ok := OrganizeOne(contents[i], tags);
        OrganizedSnoc(start, contents, i, tags, before);
        if !ok {
          crashed := true;
          StopAfterCrash(start, contents, i + 1, tags);
          return;
        }
        i := i + 1;
      }
      assert contents[..i] == contents;
    }

    /** One pass of the loop in `organize` over the listed name `file`. */
    method OrganizeOne(file: string, tags: string -> Option<string>) returns (ok: bool)
      modifies this
      ensures var r := Step(old(State()), file, tags(file));
        ok == r.Running? && State() == r.disk
    {
      var ext := Extension(file);
      if !(ext == "mp3" || ext == "MP3" || ext == "Mp3" || ext == "mP3") {
        return true;
      }
      var tag := tags(file);
      if tag.None? {
        return true;
      }
      var artist := Sanitise(tag.value);
      ok := MoveToArtist(file, artist);
    }

    /** Moves `file` to `artist/file`, as the operating system resolves that path. */
    method MoveToArtist(file: string, artist: string) returns (ok: bool)
      modifies this
      ensures var r := Place(old(State()), file, artist);
        ok == r.Running? && State() == r.disk
    {
      if artist == "" || artist == "." {
        ok := file in here;
      } else if artist == ".." {
        if file in parent {
          ok := true;
        } else if file in here {
          parent := parent[file := here[file]];
          here := here - {file};
          ok := true;
        } else {
          ok := false;
        }
      } else {
        if artist !in here {
          here := here[artist := Folder(map[])];
        }
        if here[artist].Folder? && file in here[artist].children {
          ok := true;
        } else if here[artist].Folder? && file in here && file != artist {
          var children := here[artist].children;
          var moved := here[file];
          here := (here - {file})[artist := Folder(children[file := moved])];
          ok := true;
        } else {
          ok := false;
        }
      }
    }
  }

  /** One more name: the run so far, then that name's step unless it has stopped. */
  lemma OrganizedSnoc(d: Disk, names: seq<string>, i: nat, tags: string -> Option<string>, x: Disk)
    requires i < |names| && Organized(d, names[..i], tags) == Running(x)
    ensures Organized(d, names[..i + 1], tags) == Step(x, names[i], tags(names[i]))
  {
    assert names[..i + 1][..i] == names[..i];
  }

  /** Once a rename has failed the run stays stopped. */
  lemma {:induction false} StopAfterCrash(d: Disk, names: seq<string>, i: nat, tags: string -> Option<string>)
    requires i <= |names| && Organized(d, names[..i], tags).Crashed?
    ensures Organized(d, names, tags) == Organized(d, names[..i], tags)
    decreases |names| - i
  {
    if i < |names| {
      assert names[..i + 1][..i] == names[..i];
      StopAfterCrash(d, names, i + 1, tags);
    } else {
      assert names[..i] == names;
    }
  }
}
