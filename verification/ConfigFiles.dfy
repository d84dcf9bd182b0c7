/** Configuration files across an upgrade (lib/libalpm/add.c: extract_single_file, lib/libalpm/remove.c:
    unlink_file, should_skip_file, remove_package_files). Hashes are modelled by the contents themselves. */
module ConfigFiles {
  import opened Packages
  import opened Pacsave

  /** Regular files with their contents, and directories. */
  datatype Fs = Fs(files: Files, dirs: set<string>)

  /** The file list of a package, and the recorded hashes of its backup files. */
  datatype PkgFiles = PkgFiles(files: seq<string>, backup: map<string, string>)

  datatype Entry = FileEntry(path: string, content: string) | DirEntry(path: string)

  /** Patterns the user set, files to leave alone, the compiler of patterns, the directories that can be opened,
      and the files that can be read to hash them. The rest says what fails: which renames of saved versions, which
      files may be deleted and are, which directories are kept since they are in use, which paths are extracted (or
      what is left of them) and which extracted versions can be put in place. */
  datatype Settings = Settings(noupgrade: string -> bool, noextract: string -> bool, skipRemove: set<string>,
                               nosave: bool, regcomp: string -> Option<string -> bool>, readable: string -> bool,
                               hashable: string -> bool, fails: (string, nat) -> bool, removable: string -> bool,
                               unlinks: string -> bool, inUse: string -> bool, extracts: string -> bool,
                               torn: string -> Option<string>, places: string -> bool)

  /** The name without a final slash. */
  function Strip(name: string): (s: string)
    ensures if name != "" && name[|name| - 1] == '/' then name == s + "/" else name == s
  {
    if name != "" && name[|name| - 1] == '/' then name[..|name| - 1] else name
  }

  /** Where the base name starts. */
  function BaseStart(file: string): (k: nat)
    ensures k <= |file| && '/' !in file[k..] && (k > 0 ==> file[k - 1] == '/')
  {
    if file == "" || file[|file| - 1] == '/' then |file|
    else
      var k := BaseStart(file[..|file| - 1]);
      assert file[k..] == file[..|file| - 1][k..] + [file[|file| - 1]];
      k
  }

  /** The names of the regular files of a directory. */
  method ReadDir(fs: Files, dir: string) returns (entries: seq<string>)
    ensures Listing(fs, dir, entries)
    ensures forall k :: 0 <= k < |entries| ==> dir + entries[k] in fs && '/' !in entries[k]
  {
    entries := [];
    var todo := fs.Keys;
    while todo != {}
      invariant todo <= fs.Keys
      invariant forall name :: dir + name in fs && '/' !in name ==> dir + name in todo || name in entries
      invariant forall k :: 0 <= k < |entries| ==> dir + entries[k] in fs && '/' !in entries[k]
      decreases |todo|
    {
      var p :| p in todo;
      todo := todo - {p};
      if dir <= p && '/' !in p[|dir|..] {
        assert p == dir + p[|dir|..];
        entries := entries + [p[|dir|..]];
      }
      forall name | dir + name == p && '/' !in name ensures name in entries {
        assert name == p[|dir|..];
      }
    }
  }

  // ---------- removing the files of the old version ----------

  predicate ShouldSkip(s: Settings, newpkg: Option<PkgFiles>, path: string) {
    s.noupgrade(path) || path in s.skipRemove
    || (newpkg.Some? && path in newpkg.value.backup && path in newpkg.value.files)
  }

  /** A backup file whose content is not the recorded one. A file that cannot be read counts as unmodified. */
  predicate IsModified(s: Settings, fs: Files, oldpkg: PkgFiles, name: string) {
    name in oldpkg.backup && Strip(name) in fs && s.hashable(Strip(name)) && fs[Strip(name)] != oldpkg.backup[name]
  }

  /** The pattern for the file's saved versions can be compiled and finds them, and their numbers are small. */
  ghost predicate Shiftable(s: Settings, fs: Files, file: string) {
    var dir, base := file[..BaseStart(file)], file[BaseStart(file)..];
    && (forall n: nat :: !s.fails(file, n)) && s.readable(dir) && s.regcomp(base).Some?
      && MatchesSlots(base, s.regcomp(base).value)
    && forall name :: dir + name in fs && '/' !in name && Relevant(name, s.regcomp(base).value) ==>
      Number(name, base) < ULONG_MAX
  }

  /** The file is gone, or stays on a failure; nothing changes but the file and its saved versions. */
  ghost predicate Unlinked(before: Files, after: Files, name: string, ret: int) {
    && (if ret >= 0 then Strip(name) !in after else Look(after, Strip(name)) == Look(before, Strip(name)))
    && (Strip(name) !in before ==> after == before)
    && forall p :: p != Strip(name) && (forall j: nat :: p != Slot(Strip(name), j)) ==>
      Look(after, p) == Look(before, p)
  }

  /** unlink_file: a modified backup file is saved and its earlier saved versions are kept, any other file goes.
      Where the last step fails, the file stays. */
  method UnlinkFile(s: Settings, fs0: Fs, oldpkg: PkgFiles, name: string) returns (fs: Fs, ret: int)
    ensures Unlinked(fs0.files, fs.files, name, ret) && fs.dirs <= fs0.dirs
    ensures ret < 0 ==> Strip(name) in fs0.files || Strip(name) in fs0.dirs
    ensures ret < 0 ==> !s.unlinks(Strip(name))
    ensures Strip(name) in fs0.files && !s.unlinks(Strip(name)) ==> ret < 0
    ensures !(IsModified(s, fs0.files, oldpkg, name) && !s.nosave) ==>
      fs.files == if ret < 0 then fs0.files else fs0.files - {Strip(name)}
    ensures ret >= 0 && IsModified(s, fs0.files, oldpkg, name) && !s.nosave ==>
      Look(fs.files, Slot(Strip(name), 0)) == Look(fs0.files, Strip(name))
    ensures IsModified(s, fs0.files, oldpkg, name) && !s.nosave && Shiftable(s, fs0.files, Strip(name)) ==>
      forall j: nat :: Look(fs.files, Slot(Strip(name), j + 1)) == Look(fs0.files, Slot(Strip(name), j))
  {
    var file := Strip(name);
    if file !in fs0.files {
      if file !in fs0.dirs {
        return fs0, 1;
      }
      if s.inUse(file) {
        return fs0, 0;
      }
      return if s.unlinks(file) then fs0.(dirs := fs0.dirs - {file}) else fs0, if s.unlinks(file) then 0 else -1;
    }
    if name in oldpkg.backup && !s.nosave && s.hashable(file) && fs0.files[file] != oldpkg.backup[name] {
      var k := BaseStart(file);
      var dir, base := file[..k], file[k..];
      assert dir + base == file;
      var entries := ReadDir(fs0.files, dir);
      var pattern := s.regcomp(base);
      var files := fs0.files;
      ghost var hit, max;
      if pattern.Some? {
        files, hit, max := ShiftPacsave(files, dir, base, entries, s.readable(dir), pattern.value,
          (n: nat) => s.fails(file, n));
      }
      forall j: nat ensures file != Slot(file, j) { assert |Slot(file, j)| > |file|; }
      assert Look(files, file) == Look(fs0.files, file);
      if !s.unlinks(file) {
        return fs0.(files := files), -1;
      }
      AllApart(file);
      files, hit := Rename(files, file, Slot(file, 0));
      assert Look(files, file) == None;
      return fs0.(files := files), 0;
    }
    if !s.unlinks(file) {
      return fs0, -1;
    }
    return fs0.(files := fs0.files - {file}), 0;
  }

  /** Names that only the package manager gives to files. */
  ghost predicate IsSaved(path: string) {
    (exists file, j: nat :: path == Slot(file, j)) || (exists file :: path == file + ".pacnew")
  }

  /** The package does not ship saved or new versions, nor a directory in the place of the path. */
  ghost predicate Clean(names: seq<string>, path: string) {
    && !IsSaved(path) && Strip(path) == path
    && forall k :: 0 <= k < |names| ==> !IsSaved(Strip(names[k])) && (Strip(names[k]) == path ==> names[k] == path)
  }

  /** The content is still there, under its own name or saved. */
  ghost predicate Survives(before: Files, after: Files, path: string) {
    Look(after, path) == Look(before, path) || Look(after, Slot(path, 0)) == Look(before, path)
  }

  /** What happens to another file touches neither the path nor its saved version. */
  lemma Unrelated(names: seq<string>, name: string, path: string)
    requires Clean(names, path) && name in names
    ensures forall j: nat :: path != Slot(Strip(name), j)
    ensures Strip(name) != Slot(path, 0)
    ensures Strip(name) != path ==> forall j: nat :: Slot(path, 0) != Slot(Strip(name), j)
    ensures Strip(name) == path ==> name == path
  {
    var f := Strip(name);
    assert f == Slot(path, 0) ==> IsSaved(f);
    forall j: nat | f != path ensures Slot(path, 0) != Slot(f, j) {
      if j == 0 {
        assert Slot(path, 0)[..|path|] == path && Slot(f, 0)[..|f|] == f;
      } else {
        DecimalValue(j);
        assert Slot(f, j)[|Slot(f, j)| - 1] == Decimal(j)[|Decimal(j)| - 1];
        assert Slot(path, 0)[|Slot(path, 0)| - 1] == 'e';
      }
    }
  }

  /** Removing the old version can touch p: it is one of the files to go, or a saved version of one. */
  ghost predicate Affected(s: Settings, oldpkg: PkgFiles, newpkg: Option<PkgFiles>, p: string) {
    exists name :: name in oldpkg.files && !ShouldSkip(s, newpkg, name)
      && (p == Strip(name) || exists j: nat :: p == Slot(Strip(name), j))
  }

  /** The user's content is to be kept while the old version is removed: the file was modified, or is skipped. */
  ghost predicate Guarded(s: Settings, fs: Files, oldpkg: PkgFiles, newpkg: Option<PkgFiles>, p: string) {
    && p in fs && Clean(oldpkg.files, p)
    && ((IsModified(s, fs, oldpkg, p) && !s.nosave) || ShouldSkip(s, newpkg, p))
  }

  /** So far the content is in its place, or was saved. */
  ghost predicate KeptSoFar(s: Settings, newpkg: Option<PkgFiles>, before: Files, after: Files, p: string) {
    || Look(after, p) == Look(before, p)
    || (!ShouldSkip(s, newpkg, p) && p !in after && Look(after, Slot(p, 0)) == Look(before, p))
  }

  lemma UnaffectedStay(s: Settings, before: Files, after: Files, oldpkg: PkgFiles, newpkg: Option<PkgFiles>,
                       name: string, ret: int)
    requires name in oldpkg.files && !ShouldSkip(s, newpkg, name) && Unlinked(before, after, name, ret)
    ensures forall p :: !Affected(s, oldpkg, newpkg, p) ==> Look(after, p) == Look(before, p)
  {}

  lemma UnlinkKeeps(s: Settings, start: Files, before: Files, after: Files, oldpkg: PkgFiles, newpkg: Option<PkgFiles>,
                    name: string, ret: int, p: string)
    requires Guarded(s, start, oldpkg, newpkg, p) && KeptSoFar(s, newpkg, start, before, p)
    requires name in oldpkg.files && !ShouldSkip(s, newpkg, name) && Unlinked(before, after, name, ret)
    requires ret >= 0 && IsModified(s, before, oldpkg, name) && !s.nosave ==>
      Look(after, Slot(Strip(name), 0)) == Look(before, Strip(name))
    ensures KeptSoFar(s, newpkg, start, after, p)
  {
    Unrelated(oldpkg.files, name, p);
    if Strip(name) == p && p in before {
      assert Look(before, p) == Look(start, p);
      assert IsModified(s, before, oldpkg, name);
    }
  }

  /** No file of the package is named like a saved or new version. */
  ghost predicate Unsaved(names: seq<string>) {
    forall k :: 0 <= k < |names| ==> !IsSaved(Strip(names[k]))
  }

  /** What was unlinked from position i on is gone. */
  ghost predicate Gone(s: Settings, files: Files, oldpkg: PkgFiles, newpkg: Option<PkgFiles>, i: nat) {
    forall k :: i <= k < |oldpkg.files| && !ShouldSkip(s, newpkg, oldpkg.files[k]) ==> Strip(oldpkg.files[k]) !in files
  }

  lemma StaysGone(s: Settings, before: Files, after: Files, oldpkg: PkgFiles, newpkg: Option<PkgFiles>, i: nat,
                  ret: int)
    requires Unsaved(oldpkg.files) && i < |oldpkg.files| && ret >= 0 && Unlinked(before, after, oldpkg.files[i], ret)
    requires Gone(s, before, oldpkg, newpkg, i + 1)
    ensures Gone(s, after, oldpkg, newpkg, i)
  {
    forall k | i < k < |oldpkg.files| && !ShouldSkip(s, newpkg, oldpkg.files[k])
      ensures Strip(oldpkg.files[k]) !in after
    {
      var p := Strip(oldpkg.files[k]);
      forall j: nat ensures p != Slot(Strip(oldpkg.files[i]), j) {}
      assert p != Strip(oldpkg.files[i]) ==> Look(after, p) == Look(before, p);
    }
  }

  /** Whether every file that is to go may be deleted. */
  method AllRemovable(s: Settings, oldpkg: PkgFiles, newpkg: Option<PkgFiles>) returns (ok: bool)
    ensures !ok <==>
      exists k :: 0 <= k < |oldpkg.files| && !ShouldSkip(s, newpkg, oldpkg.files[k]) && !s.removable(oldpkg.files[k])
  {
    for i := 0 to |oldpkg.files|
      invariant forall k :: 0 <= k < i ==> ShouldSkip(s, newpkg, oldpkg.files[k]) || s.removable(oldpkg.files[k])
    {
      if !ShouldSkip(s, newpkg, oldpkg.files[i]) && !s.removable(oldpkg.files[i]) {
        return false;
      }
    }
    return true;
  }

  ghost predicate KeepsGuarded(s: Settings, before: Files, after: Files, oldpkg: PkgFiles, newpkg: Option<PkgFiles>) {
    forall p :: Guarded(s, before, oldpkg, newpkg, p) ==> KeptSoFar(s, newpkg, before, after, p)
  }

  ghost predicate SparesOthers(s: Settings, before: Files, after: Files, oldpkg: PkgFiles, newpkg: Option<PkgFiles>) {
    forall p :: !Affected(s, oldpkg, newpkg, p) ==> Look(after, p) == Look(before, p)
  }

  ghost predicate AllUnlink(s: Settings, oldpkg: PkgFiles) {
    forall k :: 0 <= k < |oldpkg.files| ==> s.unlinks(Strip(oldpkg.files[k]))
  }

  /** Unlinks the files that are not to be skipped, from the last to the first. */
  method UnlinkFiles(s: Settings, fs0: Fs, oldpkg: PkgFiles, newpkg: Option<PkgFiles>) returns (fs: Fs, err: int)
    ensures fs.dirs <= fs0.dirs && err >= 0 && (AllUnlink(s, oldpkg) ==> err == 0)
    ensures KeepsGuarded(s, fs0.files, fs.files, oldpkg, newpkg) && SparesOthers(s, fs0.files, fs.files, oldpkg, newpkg)
    ensures err == 0 && Unsaved(oldpkg.files) ==> Gone(s, fs.files, oldpkg, newpkg, 0)
  {
    fs, err := fs0, 0;
    for i := |oldpkg.files| downto 0
      invariant fs.dirs <= fs0.dirs && err >= 0 && (AllUnlink(s, oldpkg) ==> err == 0)
      invariant err == 0 && Unsaved(oldpkg.files) ==> Gone(s, fs.files, oldpkg, newpkg, i)
      invariant KeepsGuarded(s, fs0.files, fs.files, oldpkg, newpkg)
      invariant SparesOthers(s, fs0.files, fs.files, oldpkg, newpkg)
    {
      var name := oldpkg.files[i];
      if !ShouldSkip(s, newpkg, name) {
        ghost var before := fs.files;
        var ret;
        fs, ret := UnlinkFile(s, fs, oldpkg, name);
        if ret < 0 {
          err := err + 1;
        }
        UnaffectedStay(s, before, fs.files, oldpkg, newpkg, name, ret);
        if err == 0 && Unsaved(oldpkg.files) { StaysGone(s, before, fs.files, oldpkg, newpkg, i, ret); }
        forall p | Guarded(s, fs0.files, oldpkg, newpkg, p) ensures KeptSoFar(s, newpkg, fs0.files, fs.files, p) {
          UnlinkKeeps(s, fs0.files, before, fs.files, oldpkg, newpkg, name, ret, p);
        }
      }
    }
  }

  /** remove_package_files: from the last file to the first, unless some file cannot be removed at all.
      Every file goes that is not to be skipped, a modified one is saved, and nothing else changes. */
  method RemoveFiles(s: Settings, fs0: Fs, oldpkg: PkgFiles, newpkg: Option<PkgFiles>) returns (fs: Fs, err: int)
    ensures forall p :: Guarded(s, fs0.files, oldpkg, newpkg, p) ==> KeptSoFar(s, newpkg, fs0.files, fs.files, p)
    ensures err == 0 && Unsaved(oldpkg.files) ==> forall name :: (
      && name in oldpkg.files && !s.noupgrade(name) && name !in s.skipRemove
      && !(newpkg.Some? && name in newpkg.value.backup && name in newpkg.value.files)) ==> Strip(name) !in fs.files
    ensures fs.dirs <= fs0.dirs
    ensures err < 0 <==>
      exists k :: 0 <= k < |oldpkg.files| && !ShouldSkip(s, newpkg, oldpkg.files[k]) && !s.removable(oldpkg.files[k])
    ensures (forall k :: 0 <= k < |oldpkg.files| ==> s.removable(oldpkg.files[k]) && s.unlinks(Strip(oldpkg.files[k])))
      ==> err == 0
    ensures forall p :: err < 0 || !Affected(s, oldpkg, newpkg, p) ==> Look(fs.files, p) == Look(fs0.files, p)
    ensures forall p :: Clean(oldpkg.files, p) && (p in s.skipRemove || s.noupgrade(p)) ==>
      Look(fs.files, p) == Look(fs0.files, p)
    ensures forall p ::
      Clean(oldpkg.files, p) && newpkg.Some? && p in newpkg.value.backup && p in newpkg.value.files ==>
        Look(fs.files, p) == Look(fs0.files, p)
  {
    var removable := AllRemovable(s, oldpkg, newpkg);
    if !removable {
      return fs0, -1;
    }
    fs, err := UnlinkFiles(s, fs0, oldpkg, newpkg);
  }

  // ---------- extracting the files of the new version ----------

  /** What the three-way comparison of the file on disk, the packaged one and the original one decides. */
  ghost function Merged(local: string, packaged: string, original: Option<string>, hashed: bool): (r: string) {
    if hashed && (local == packaged || original == Some(local)) then packaged else local
  }

  /** What becomes of a backup file on disk, by the three versions of it. An untouched file is upgraded; a file that
      is already as packaged stays; the user's changes stay, without the packaged version where that has not changed
      either, and beside it where it has. */
  ghost predicate ThreeWay(before: Files, after: Files, path: string, pacnew: string, original: string,
                           packaged: string)
    requires path in before
  {
    var local := before[path];
    && (local == original != packaged ==> Look(after, path) == Some(packaged) && pacnew !in after)
    && (local == packaged ==> Look(after, path) == Some(packaged) && pacnew !in after)
    && (local != original == packaged ==>
          Look(after, path) == Some(local) && Look(after, pacnew) == if pacnew in before then Some(packaged) else None)
    && (local != original && local != packaged && original != packaged ==>
          Look(after, path) == Some(local) && Look(after, pacnew) == Some(packaged))
  }

  /** The same where the file on disk cannot be read: it stays as it is. */
  ghost predicate TwoWay(before: Files, after: Files, path: string, pacnew: string, original: Option<string>,
                         packaged: string) {
    && Look(after, path) == Look(before, path)
    && Look(after, pacnew) == if original == Some(packaged) && pacnew !in before then None else Some(packaged)
  }

  /** What an extracted file leaves in its place and beside it. */
  ghost predicate Extracted(s: Settings, before: Files, after: Files, e: Entry, newpkg: PkgFiles,
                            oldpkg: Option<PkgFiles>)
    requires e.FileEntry?
  {
    var path, pacnew := e.path, e.path + ".pacnew";
    if path !in before then
      Look(after, path) == Some(e.content) && Look(after, pacnew) == Look(before, pacnew)
    else if s.noupgrade(path) then
      Look(after, path) == Look(before, path) && Look(after, pacnew) == Some(e.content)
    else if oldpkg.Some? && path in oldpkg.value.backup then
      if s.hashable(path) then ThreeWay(before, after, path, pacnew, oldpkg.value.backup[path], e.content)
      else TwoWay(before, after, path, pacnew, Some(oldpkg.value.backup[path]), e.content)
    else if path in newpkg.backup then
      && Look(after, path) == Look(before, path)
      && Look(after, pacnew) == if s.hashable(path) && before[path] == e.content then None else Some(e.content)
    else
      Look(after, path) == Some(e.content) && Look(after, pacnew) == Look(before, pacnew)
  }

  /** extract_single_file. An existing file is replaced only where it is nobody's configuration, or its
      owner has not touched it; the packaged version then goes next to it. */
  method ExtractSingleFile(s: Settings, fs0: Fs, e: Entry, newpkg: PkgFiles, oldpkg: Option<PkgFiles>)
    returns (fs: Fs, backup: map<string, string>, errors: nat)
    requires WellNamed(e)
    ensures forall p :: p != Strip(e.path) && p != e.path + ".pacnew" ==> Look(fs.files, p) == Look(fs0.files, p)
    ensures e.path[0] == '.' || e.path !in newpkg.files || s.noextract(e.path) ==> fs == fs0 && errors == 0
    ensures e.FileEntry? && e.path in fs0.files && Keeps(s, e.path, newpkg, oldpkg, fs0.files[e.path])
      ==> Look(fs.files, e.path) == Look(fs0.files, e.path)
    ensures e.FileEntry? && e.path[0] != '.' && e.path in newpkg.files && !s.noextract(e.path) && errors == 0 ==>
      Extracted(s, fs0.files, fs.files, e, newpkg, oldpkg)
    ensures e.DirEntry? && Extracts(s, e, newpkg) && errors == 0 ==>
      Strip(e.path) !in fs.files && Strip(e.path) in fs.dirs
    ensures e.FileEntry? && Extracts(s, e, newpkg) && errors == 0 && e.path in newpkg.backup ==>
      backup == newpkg.backup[e.path := e.content]
    ensures backup.Keys == newpkg.backup.Keys
    ensures errors != 0 ==>
      || (e.FileEntry? && e.path in fs0.dirs && e.path !in fs0.files) || !s.extracts(e.path) || !s.places(e.path)
    ensures Extracts(s, e, newpkg) && e.FileEntry? && e.path in fs0.dirs && e.path !in fs0.files ==> errors != 0
    ensures fs.dirs == fs0.dirs || (e.DirEntry? && fs.dirs == fs0.dirs + {Strip(e.path)})
  {
    fs, backup, errors := fs0, newpkg.backup, 0;
    if e.path[0] == '.' || e.path !in newpkg.files || s.noextract(e.path) {
      return;
    }
    var filename := Strip(e.path);
    if filename in fs0.dirs && filename !in fs0.files {
      return fs0, backup, if e.DirEntry? then 0 else 1;
    }
    if e.DirEntry? {
      var extracted := s.extracts(e.path);
      return if extracted then Fs(fs0.files - {filename}, fs0.dirs + {filename}) else fs0, backup,
             if extracted then 0 else 1;
    }
    var files;
    files, backup, errors := ExtractFile(s, fs0.files, e, newpkg, oldpkg);
    fs := fs0.(files := files);
  }

  /** The file goes to its place or, where there is a file that may be the user's, beside it; then the versions of a
      backup file are compared. */
  method ExtractFile(s: Settings, before: Files, e: Entry, newpkg: PkgFiles, oldpkg: Option<PkgFiles>)
    returns (files: Files, backup: map<string, string>, errors: nat)
    requires e.FileEntry?
    ensures forall p :: p != e.path && p != e.path + ".pacnew" ==> Look(files, p) == Look(before, p)
    ensures e.path in before && Keeps(s, e.path, newpkg, oldpkg, before[e.path])
      ==> Look(files, e.path) == Look(before, e.path)
    ensures errors == 0 ==> Extracted(s, before, files, e, newpkg, oldpkg)
    ensures errors == 0 && e.path in newpkg.backup ==> backup == newpkg.backup[e.path := e.content]
    ensures backup.Keys == newpkg.backup.Keys
    ensures errors != 0 ==> !s.extracts(e.path) || !s.places(e.path)
    ensures !s.extracts(e.path) ==> errors != 0
  {
    assert |e.path + ".pacnew"| > |e.path|;
    backup, errors := newpkg.backup, 0;
    var notouch, needbackup, original := false, false, None;
    if e.path in before {
      if s.noupgrade(e.path) {
        notouch := true;
      } else if oldpkg.Some? && e.path in oldpkg.value.backup {
        original, needbackup := Some(oldpkg.value.backup[e.path]), true;
      } else {
        needbackup := e.path in newpkg.backup;
      }
    }
    var target := if notouch || needbackup then e.path + ".pacnew" else e.path;
    var isnew := target !in before;
    if !s.extracts(e.path) {
      var torn := s.torn(e.path);
      return if torn.Some? then before[target := torn.value] else before - {target}, backup, 1;
    }
    files := before[target := e.content];
    if e.path in newpkg.backup {
      backup := backup[e.path := e.content];
    }
    if needbackup {
      files, errors := Settle(files, e.path, target, before[e.path], e.content, original, isnew,
        s.hashable(e.path), s.places(e.path));
    }
  }

  /** Compares the three versions and acts on the result. Where putting the packaged version in place fails,
      both files stay. */
  method Settle(files0: Files, path: string, target: string, local: string, packaged: string, original: Option<string>,
                isnew: bool, hashed: bool, places: bool)
    returns (files: Files, errors: nat)
    requires target == path + ".pacnew" && Look(files0, path) == Some(local) && Look(files0, target) == Some(packaged)
    ensures forall p :: p != path && p != target ==> Look(files, p) == Look(files0, p)
    ensures errors != 0 ==> files == files0
    ensures errors != 0 <==>
      !places && hashed && (local == packaged || (original == Some(local) && local != packaged))
    ensures errors == 0 && hashed && (local == packaged || (original == Some(local) && local != packaged)) ==>
      Look(files, path) == Some(packaged) && Look(files, target) == None
    ensures original == Some(packaged) && !(hashed && local == packaged) ==>
      Look(files, path) == Some(local) && Look(files, target) == (if isnew then None else Some(packaged))
    ensures original != Some(packaged) && !(hashed && (local == packaged || original == Some(local))) ==>
      Look(files, path) == Some(local) && Look(files, target) == Some(packaged)
  {
    files, errors := files0, 0;
    if hashed && local == packaged {
      files, errors := TryRename(files, target, path, places);
    } else if original == Some(packaged) {
      if isnew {
        files := files - {target};
      }
    } else if hashed && original == Some(local) {
      files, errors := TryRename(files, target, path, places);
    }
  }

  method TryRename(fs: Files, src: string, dst: string, renames: bool) returns (r: Files, errors: nat)
    requires src in fs && src != dst
    ensures errors == 0 ==>
      forall p :: Look(r, p) == if p == dst then Look(fs, src) else if p == src then None else Look(fs, p)
    ensures errors != 0 ==> r == fs
    ensures errors == 0 <==> renames
  {
    if !renames {
      return fs, 1;
    }
    ghost var hit;
    r, hit := Rename(fs, src, dst);
    errors := 0;
  }

  /** Entries have names, and only directories are named with a final slash. */
  predicate WellNamed(e: Entry) {
    e.path != "" && (e.FileEntry? ==> Strip(e.path) == e.path)
  }

  ghost predicate Extracts(s: Settings, e: Entry, newpkg: PkgFiles)
    requires e.path != ""
  {
    e.path[0] != '.' && e.path in newpkg.files && !s.noextract(e.path)
  }

  /** The content at an extracted path afterwards. */
  ghost function Result(s: Settings, e: Entry, newpkg: PkgFiles, oldpkg: Option<PkgFiles>,
                        local: Option<string>): (r: string)
    requires e.FileEntry?
  {
    if local == None then e.content
    else if s.noupgrade(e.path) then local.value
    else if oldpkg.Some? && e.path in oldpkg.value.backup
      then Merged(local.value, e.content, Some(oldpkg.value.backup[e.path]), s.hashable(e.path))
    else if e.path in newpkg.backup then Merged(local.value, e.content, None, s.hashable(e.path))
    else e.content
  }

  /** The file on disk is the user's: never to be upgraded, changed since it was installed, or newly
      declared as configuration. */
  ghost predicate Keeps(s: Settings, path: string, newpkg: PkgFiles, oldpkg: Option<PkgFiles>, local: string) {
    || s.noupgrade(path)
    || (if oldpkg.Some? && path in oldpkg.value.backup then oldpkg.value.backup[path] != local
      else path in newpkg.backup)
  }

  // ---------- the whole upgrade ----------

  ghost predicate CleanEntries(entries: seq<Entry>, path: string) {
    forall k :: 0 <= k < |entries| ==>
      WellNamed(entries[k]) && !IsSaved(Strip(entries[k].path))
        && (Strip(entries[k].path) == path ==> entries[k].FileEntry?)
  }

  ghost predicate AllNamed(entries: seq<Entry>) {
    forall k :: 0 <= k < |entries| ==> WellNamed(entries[k])
  }

  ghost predicate NoneSaved(entries: seq<Entry>) {
    forall k :: 0 <= k < |entries| ==> !IsSaved(Strip(entries[k].path))
  }

  ghost predicate DistinctPaths(entries: seq<Entry>) {
    forall i, j :: 0 <= i < j < |entries| ==> Strip(entries[i].path) != Strip(entries[j].path)
  }

  /** The first n entries are in place, as the three-way comparison with the files before decides. */
  ghost predicate InPlace(s: Settings, before: Files, after: Files, newpkg: PkgFiles, oldpkg: Option<PkgFiles>,
                          entries: seq<Entry>, n: nat)
    requires AllNamed(entries)
  {
    forall k :: 0 <= k < n <= |entries| && entries[k].FileEntry? && Extracts(s, entries[k], newpkg) ==>
      Look(after, entries[k].path) == Some(Result(s, entries[k], newpkg, oldpkg, Look(before, entries[k].path)))
  }

  /** The file on disk is the user's, and the package knows. */
  ghost predicate IsUsers(s: Settings, fs: Files, path: string, newpkg: PkgFiles, oldpkg: Option<PkgFiles>) {
    && path in fs && Keeps(s, path, newpkg, oldpkg, fs[path])
    && (|| s.noupgrade(path)
        || (oldpkg.Some? && path in oldpkg.value.backup && s.hashable(path) && !s.nosave)
        || (path in newpkg.files && path in newpkg.backup))
  }

  /** Extracting an entry loses neither the user's file nor its saved version. */
  lemma EntryApart(e: Entry, path: string)
    requires WellNamed(e) && !IsSaved(Strip(e.path)) && !IsSaved(path) && Strip(path) == path
    ensures path != e.path + ".pacnew" && Slot(path, 0) != Strip(e.path) && Slot(path, 0) != e.path + ".pacnew"
  {
    assert Slot(path, 0)[|Slot(path, 0)| - 1] == 'e';
    assert (e.path + ".pacnew")[|e.path + ".pacnew"| - 1] == 'w';
    assert path == e.path + ".pacnew" ==> IsSaved(path);
    assert Slot(path, 0) == Strip(e.path) ==> IsSaved(Strip(e.path));
  }

  /** The files of the entries from n on are as before. */
  ghost predicate StillThere(before: Files, after: Files, entries: seq<Entry>, n: nat) {
    forall k :: n <= k < |entries| && entries[k].FileEntry? ==>
      Look(after, entries[k].path) == Look(before, entries[k].path)
  }

  lemma OneMoreInPlace(s: Settings, start: Files, before: Files, after: Files, newpkg0: PkgFiles, newpkg: PkgFiles,
                       oldpkg: Option<PkgFiles>, entries: seq<Entry>, i: nat)
    requires newpkg.files == newpkg0.files && newpkg.backup.Keys == newpkg0.backup.Keys
    requires AllNamed(entries) && NoneSaved(entries) && DistinctPaths(entries) && i < |entries|
    requires StillThere(start, before, entries, i)
    requires forall p :: p != Strip(entries[i].path) && p != entries[i].path + ".pacnew" ==>
      Look(after, p) == Look(before, p)
    ensures StillThere(start, after, entries, i + 1)
    ensures InPlace(s, start, before, newpkg0, oldpkg, entries, i)
         && (entries[i].FileEntry? && Extracts(s, entries[i], newpkg) ==>
               Look(after, entries[i].path)
                 == Some(Result(s, entries[i], newpkg, oldpkg, Look(before, entries[i].path))))
      ==> InPlace(s, start, after, newpkg0, oldpkg, entries, i + 1)
  {
    forall k | 0 <= k < |entries| && k != i && entries[k].FileEntry?
      ensures Look(after, entries[k].path) == Look(before, entries[k].path)
    {
      EntriesApart(entries, i, k);
    }
  }

  lemma EntriesApart(entries: seq<Entry>, i: nat, k: nat)
    requires NoneSaved(entries) && DistinctPaths(entries) && i < |entries| && k < |entries| && i != k
    requires entries[k].FileEntry? && WellNamed(entries[k])
    ensures entries[k].path != Strip(entries[i].path) && entries[k].path != entries[i].path + ".pacnew"
  {
    assert !IsSaved(entries[k].path) && IsSaved(entries[i].path + ".pacnew");
  }

  /** The content is in its place, as the user's, or saved. */
  ghost predicate Held(s: Settings, files: Files, newpkg: PkgFiles, oldpkg: Option<PkgFiles>, p: string,
                       content: string) {
    || Look(files, Slot(p, 0)) == Some(content)
    || (Look(files, p) == Some(content) && Keeps(s, p, newpkg, oldpkg, content))
  }

  /** No entry takes the place of the path with a directory, and none is named like a saved or new version. */
  ghost predicate Undisturbed(entries: seq<Entry>, p: string) {
    CleanEntries(entries, p) && !IsSaved(p) && Strip(p) == p
  }

  lemma ExtractHolds(s: Settings, before: Files, after: Files, newpkg: PkgFiles, newpkg': PkgFiles,
                     oldpkg: Option<PkgFiles>, entries: seq<Entry>,
                     i: nat, p: string, content: string)
    requires Undisturbed(entries, p) && i < |entries| && Held(s, before, newpkg, oldpkg, p, content)
    requires newpkg'.backup.Keys == newpkg.backup.Keys
    requires forall q :: q != Strip(entries[i].path) && q != entries[i].path + ".pacnew" ==>
      Look(after, q) == Look(before, q)
    requires var q := entries[i].path;
      entries[i].FileEntry? && q in before && Keeps(s, q, newpkg, oldpkg, before[q]) ==>
        Look(after, q) == Look(before, q)
    ensures Held(s, after, newpkg', oldpkg, p, content)
  {
    EntryApart(entries[i], p);
  }

  /** Every path can be extracted and put in place, and no directory is in the way of a file from entry n on. */
  ghost predicate NothingFails(s: Settings, dirs: set<string>, entries: seq<Entry>, n: nat) {
    && (forall k :: 0 <= k < |entries| ==> s.extracts(entries[k].path) && s.places(entries[k].path))
    && (forall k :: n <= k < |entries| && entries[k].FileEntry? ==> entries[k].path !in dirs)
  }

  lemma NextWorks(s: Settings, dirs: set<string>, dirs': set<string>, entries: seq<Entry>, i: nat)
    requires i < |entries| && DistinctPaths(entries) && AllNamed(entries) && NothingFails(s, dirs, entries, i)
    requires dirs' == dirs || (entries[i].DirEntry? && dirs' == dirs + {Strip(entries[i].path)})
    ensures NothingFails(s, dirs', entries, i + 1)
  {}

  /** Extracts the entries in their order. */
  method ExtractFiles(s: Settings, fs0: Fs, newpkg0: PkgFiles, oldpkg: Option<PkgFiles>, entries: seq<Entry>)
    returns (fs: Fs, newpkg: PkgFiles, errors: nat)
    requires AllNamed(entries)
    ensures forall p, c :: Undisturbed(entries, p) && Held(s, fs0.files, newpkg0, oldpkg, p, c) ==>
      Held(s, fs.files, newpkg, oldpkg, p, c)
    ensures newpkg.files == newpkg0.files && newpkg.backup.Keys == newpkg0.backup.Keys
    ensures errors == 0 && DistinctPaths(entries) && NoneSaved(entries) ==>
      InPlace(s, fs0.files, fs.files, newpkg0, oldpkg, entries, |entries|)
    ensures DistinctPaths(entries) && NothingFails(s, fs0.dirs, entries, 0) ==> errors == 0
  {
    fs, newpkg, errors := fs0, newpkg0, 0;
    for i := 0 to |entries|
      invariant newpkg.files == newpkg0.files && newpkg.backup.Keys == newpkg0.backup.Keys
      invariant forall p, c :: Undisturbed(entries, p) && Held(s, fs0.files, newpkg0, oldpkg, p, c) ==>
        Held(s, fs.files, newpkg, oldpkg, p, c)
      invariant errors == 0 && DistinctPaths(entries) && NoneSaved(entries) ==>
        InPlace(s, fs0.files, fs.files, newpkg0, oldpkg, entries, i)
      invariant DistinctPaths(entries) && NoneSaved(entries) ==> StillThere(fs0.files, fs.files, entries, i)
      invariant DistinctPaths(entries) && NothingFails(s, fs0.dirs, entries, 0) ==>
        errors == 0 && NothingFails(s, fs.dirs, entries, i)
    {
      ghost var before, dirs, newpkg1 := fs.files, fs.dirs, newpkg;
      var backup, more;
      fs, backup, more := ExtractSingleFile(s, fs, entries[i], newpkg, oldpkg);
      if DistinctPaths(entries) && NoneSaved(entries) {
        OneMoreInPlace(s, fs0.files, before, fs.files, newpkg0, newpkg, oldpkg, entries, i);
      }
      newpkg, errors := newpkg.(backup := backup), errors + more;
      if DistinctPaths(entries) && NothingFails(s, fs0.dirs, entries, 0) { NextWorks(s, dirs, fs.dirs, entries, i); }
      forall p, c | Undisturbed(entries, p) && Held(s, fs0.files, newpkg0, oldpkg, p, c)
        ensures Held(s, fs.files, newpkg, oldpkg, p, c)
      {
        ExtractHolds(s, before, fs.files, newpkg1, newpkg, oldpkg, entries, i, p, c);
      }
    }
  }

  /** The file is the user's, and neither version of the package ships anything in the way of keeping it. */
  ghost predicate Protected(s: Settings, fs: Files, p: string, newpkg: PkgFiles, oldpkg: Option<PkgFiles>,
                            entries: seq<Entry>) {
    && IsUsers(s, fs, p, newpkg, oldpkg) && Undisturbed(entries, p)
    && (oldpkg.Some? ==> Clean(oldpkg.value.files, p))
  }

  lemma RemovalHolds(s: Settings, before: Files, after: Files, newpkg: PkgFiles, oldpkg: Option<PkgFiles>, p: string)
    requires p in before && Keeps(s, p, newpkg, oldpkg, before[p])
    requires KeptSoFar(s, Some(newpkg), before, after, p)
    ensures Held(s, after, newpkg, oldpkg, p, before[p])
  {}

  /** The files of an installation or upgrade: those of the old version are removed, those of the new one
      extracted. A file that is the user's keeps its content, in its place or saved. mid is what is on disk
      between the two. */
  method Upgrade(s: Settings, fs0: Fs, newpkg0: PkgFiles, oldpkg: Option<PkgFiles>, entries: seq<Entry>)
    returns (fs: Fs, newpkg: PkgFiles, errors: nat, ghost mid: Files)
    requires AllNamed(entries)
    ensures forall p :: Protected(s, fs0.files, p, newpkg0, oldpkg, entries) ==> Survives(fs0.files, fs.files, p)
    ensures oldpkg == None ==> mid == fs0.files
    ensures forall p :: oldpkg.Some? && !Affected(s, oldpkg.value, Some(newpkg0), p) ==>
      Look(mid, p) == Look(fs0.files, p)
    ensures errors == 0 && DistinctPaths(entries) && NoneSaved(entries) ==>
      InPlace(s, mid, fs.files, newpkg0, oldpkg, entries, |entries|)
    ensures DistinctPaths(entries) && NothingFails(s, fs0.dirs, entries, 0) ==> errors == 0
  {
    fs := fs0;
    if oldpkg.Some? {
      var err;
      fs, err := RemoveFiles(s, fs, oldpkg.value, Some(newpkg0));
    }
    mid := fs.files;
    forall p | Protected(s, fs0.files, p, newpkg0, oldpkg, entries)
      ensures Held(s, mid, newpkg0, oldpkg, p, fs0.files[p])
    {
      if oldpkg.Some? {
        assert Guarded(s, fs0.files, oldpkg.value, Some(newpkg0), p);
        RemovalHolds(s, fs0.files, mid, newpkg0, oldpkg, p);
      }
    }
    fs, newpkg, errors := ExtractFiles(s, fs, newpkg0, oldpkg, entries);
    forall p | Protected(s, fs0.files, p, newpkg0, oldpkg, entries)
      ensures Survives(fs0.files, fs.files, p)
    {
      assert Held(s, mid, newpkg0, oldpkg, p, fs0.files[p]);
      assert Held(s, fs.files, newpkg, oldpkg, p, fs0.files[p]);
    }
  }
}
