/**
 Delta detection: scanning an origin, comparing what is found with what is
 cached, and the chunks a changed file shares with its old manifest.
 */
module Delta {
  import opened Common
  import opened ByteData

  /** A path at an origin, as its components. */
  type RealPath = seq<string>

  datatype DirEntry = DirEntry(name: string, isDir: bool)

  datatype Stat = Stat(size: nat, mtime: int)

  /** An origin: its directory listings, and the metadata and content of its files.
      What is not there cannot be read. */
  datatype Origin = Origin(
    dirs: map<RealPath, seq<DirEntry>>, stats: map<RealPath, Stat>, contents: map<RealPath, Bytes>)

  datatype ScannedFile = ScannedFile(path: RealPath, size: nat, mtime: int)

  datatype DeltaError = OriginRead | OriginScan

  // ----- audio files by name -----

  function Lower(c: char): char {
    if 'A' <= c <= 'Z' then c - 'A' + 'a' else c
  }

  predicate EndsWith(name: string, suffix: string) {
    |suffix| <= |name| && forall i :: 0 <= i < |suffix| ==> Lower(name[|name| - |suffix| + i]) == suffix[i]
  }

  predicate IsAudioFile(name: string) {
    || EndsWith(name, ".flac") || EndsWith(name, ".mp3") || EndsWith(name, ".ogg") || EndsWith(name, ".wav")
    || EndsWith(name, ".m4a") || EndsWith(name, ".aac") || EndsWith(name, ".opus")
  }

  function Lowered(s: string): (r: string)
    ensures |r| == |s| && forall i :: 0 <= i < |s| ==> r[i] == Lower(s[i])
  {
    seq(|s|, i requires 0 <= i < |s| => Lower(s[i]))
  }

  /** A name ends with a suffix if in lower case its last characters are the suffix. */
  lemma EndsWithIs(name: string, suffix: string)
    ensures EndsWith(name, suffix) <==> |suffix| <= |name| && Lowered(name)[|name| - |suffix|..] == suffix
  {
    if |suffix| <= |name| {
      var end := Lowered(name)[|name| - |suffix|..];
      assert forall i :: 0 <= i < |suffix| ==> end[i] == Lower(name[|name| - |suffix| + i]);
    }
  }

  // ----- what an origin holds -----

  predicate Lists(o: Origin, dir: RealPath, e: DirEntry) {
    dir in o.dirs && e in o.dirs[dir]
  }

  /** A directory reached from the root by listings. */
  predicate IsDir(o: Origin, p: RealPath) {
    p == [] || (IsDir(o, p[..|p| - 1]) && Lists(o, p[..|p| - 1], DirEntry(p[|p| - 1], true)))
  }

  /** An audio file listed in such a directory. */
  predicate IsAudio(o: Origin, p: RealPath) {
    && p != [] && IsDir(o, p[..|p| - 1]) && Lists(o, p[..|p| - 1], DirEntry(p[|p| - 1], false))
    && IsAudioFile(p[|p| - 1])
  }

  /** No directory lists a name twice. */
  ghost predicate NamesOnce(o: Origin) {
    forall dir, i, j :: dir in o.dirs && 0 <= i < j < |o.dirs[dir]| ==> o.dirs[dir][i].name != o.dirs[dir][j].name
  }

  /** All its directories can be listed and all its audio files looked up. */
  ghost predicate Readable(o: Origin) {
    && (forall p :: IsDir(o, p) ==> p in o.dirs)
    && (forall p :: IsAudio(o, p) ==> p in o.stats)
  }

  function Paths(files: seq<ScannedFile>): set<RealPath> {
    set f | f in files :: f.path
  }

  ghost predicate PathsOnce(files: seq<ScannedFile>) {
    forall i, j :: 0 <= i < j < |files| ==> files[i].path != files[j].path
  }

  /** The files are all the audio files below the directories seen, each once, as
      the origin describes them. */
  ghost predicate FilesOf(o: Origin, seen: set<RealPath>, files: seq<ScannedFile>) {
    && PathsOnce(files)
    && (forall f :: f in files ==> IsAudio(o, f.path) && f.path[..|f.path| - 1] in seen
                                   && f.path in o.stats && o.stats[f.path] == Stat(f.size, f.mtime))
    && (forall p :: IsAudio(o, p) && p[..|p| - 1] in seen ==> p in Paths(files))
  }

  ghost predicate FromSeen(seen: set<RealPath>, p: RealPath) {
    p == [] || p[..|p| - 1] in seen
  }

  /** If p is a subdirectory of a seen directory, it is seen or about to be. */
  ghost predicate Followed(o: Origin, seen: set<RealPath>, work: seq<RealPath>, p: RealPath) {
    p != [] && IsDir(o, p) && p[..|p| - 1] in seen ==> p in work || p in seen
  }

  /** The worklist: no directory twice or again, everything in it or seen comes from
      a seen directory, and what seen directories list is seen or in it. */
  ghost predicate WorkOk(o: Origin, seen: set<RealPath>, work: seq<RealPath>) {
    && (forall i, j :: 0 <= i < j < |work| ==> work[i] != work[j])
    && (forall p :: p in work ==> p !in seen && IsDir(o, p))
    && (forall p :: p in seen ==> IsDir(o, p) && p in o.dirs)
    && (forall p {:trigger FromSeen(seen, p)} :: p in work || p in seen ==> FromSeen(seen, p))
    && ([] in work || [] in seen)
    && (forall p :: Followed(o, seen, work, p))
  }

  /** With the worklist empty, every directory was seen. */
  lemma {:induction false} AllSeen(o: Origin, seen: set<RealPath>, p: RealPath)
    requires WorkOk(o, seen, []) && IsDir(o, p)
    ensures p in seen
    decreases |p|
  {
    if p != [] {
      AllSeen(o, seen, p[..|p| - 1]);
      assert Followed(o, seen, [], p);
    }
  }

  predicate IsChild(dir: RealPath, p: RealPath) { p != [] && p[..|p| - 1] == dir }

  ghost predicate SubDirs(dir: RealPath, entries: seq<DirEntry>, found: seq<RealPath>) {
    && (forall i, j :: 0 <= i < j < |found| ==> found[i] != found[j])
    && (forall p :: p in found <==> IsChild(dir, p) && DirEntry(p[|p| - 1], true) in entries)
  }

  ghost predicate AudioFiles(o: Origin, dir: RealPath, entries: seq<DirEntry>, files: seq<ScannedFile>) {
    && PathsOnce(files)
    && (forall f :: f in files ==> f.path in o.stats && o.stats[f.path] == Stat(f.size, f.mtime))
    && (forall p :: p in Paths(files) <==>
      IsChild(dir, p) && DirEntry(p[|p| - 1], false) in entries && IsAudioFile(p[|p| - 1]))
  }

  ghost predicate NewName(entries: seq<DirEntry>, name: string) {
    forall e :: e in entries ==> e.name != name
  }

  lemma ChildIs(dir: RealPath, p: RealPath, name: string)
    ensures IsChild(dir, dir + [name]) && (dir + [name])[|dir + [name]| - 1] == name
    ensures IsChild(dir, p) && p[|p| - 1] == name ==> p == dir + [name]
  {
    assert (dir + [name])[..|dir|] == dir;
    if IsChild(dir, p) && p[|p| - 1] == name { assert p == p[..|p| - 1] + [p[|p| - 1]]; }
  }

  lemma SubDirsStep(dir: RealPath, entries: seq<DirEntry>, found: seq<RealPath>, e: DirEntry)
    requires SubDirs(dir, entries, found) && NewName(entries, e.name)
    ensures SubDirs(dir, entries + [e], if e.isDir then found + [dir + [e.name]] else found)
  {
    var q := dir + [e.name];
    forall p { ChildIs(dir, p, e.name); }
    hide IsChild;
    assert q !in found;
  }

  lemma AudioFilesStep(o: Origin, dir: RealPath, entries: seq<DirEntry>, files: seq<ScannedFile>, e: DirEntry)
    requires AudioFiles(o, dir, entries, files) && NewName(entries, e.name)
    ensures e.isDir || !IsAudioFile(e.name) ==> AudioFiles(o, dir, entries + [e], files)
    ensures !e.isDir && IsAudioFile(e.name) && dir + [e.name] in o.stats ==>
      var st := o.stats[dir + [e.name]];
      AudioFiles(o, dir, entries + [e], files + [ScannedFile(dir + [e.name], st.size, st.mtime)])
  {
    var q := dir + [e.name];
    forall p { ChildIs(dir, p, e.name); }
    hide IsChild, IsAudioFile;
    assert q !in Paths(files);
    if q in o.stats {
      var st := o.stats[q];
      var f := ScannedFile(q, st.size, st.mtime);
      assert Paths(files + [f]) == Paths(files) + {q};
      forall i, j | 0 <= i < j < |files + [f]| ensures (files + [f])[i].path != (files + [f])[j].path {
        if j == |files| { assert files[i] in files; }
      }
    }
  }

  lemma JoinDistinct(a: seq<RealPath>, b: seq<RealPath>)
    requires forall i, j :: 0 <= i < j < |a| ==> a[i] != a[j]
    requires forall i, j :: 0 <= i < j < |b| ==> b[i] != b[j]
    requires forall p :: p in a ==> p !in b
    ensures forall i, j :: 0 <= i < j < |a + b| ==> (a + b)[i] != (a + b)[j]
  {
    forall i, j | 0 <= i < j < |a + b| ensures (a + b)[i] != (a + b)[j] {
      assert i < |a| <= j ==> a[i] in a && b[j - |a|] in b;
    }
  }

  lemma DropLast(work: seq<RealPath>)
    requires work != [] && forall i, j :: 0 <= i < j < |work| ==> work[i] != work[j]
    ensures var dir, rest := work[|work| - 1], work[..|work| - 1];
      work == rest + [dir] && dir !in rest
  {
  }

  /** A directory's subdirectories are new to the scan. */
  lemma FoundIsNew(o: Origin, seen: set<RealPath>, work: seq<RealPath>, dir: RealPath, found: seq<RealPath>,
          p: RealPath)
    requires WorkOk(o, seen, work) && dir in work && dir in o.dirs && SubDirs(dir, o.dirs[dir], found)
    ensures p in found ==> p != [] && p[..|p| - 1] == dir && IsDir(o, p) && p !in seen && p !in work
    ensures p != [] && p[..|p| - 1] == dir && IsDir(o, p) ==> p in found
  {
    assert (p in work || p in seen) ==> FromSeen(seen, p);
  }

  /** The scan is about to take a readable directory off the worklist. */
  ghost predicate Round(o: Origin, seen: set<RealPath>, work: seq<RealPath>, found: seq<RealPath>, dir: RealPath,
          rest: seq<RealPath>) {
    && WorkOk(o, seen, work) && dir in o.dirs && SubDirs(dir, o.dirs[dir], found)
    && work == rest + [dir] && dir !in rest
  }

  lemma RoundNew(o: Origin, seen: set<RealPath>, work: seq<RealPath>, found: seq<RealPath>, dir: RealPath,
          rest: seq<RealPath>)
    requires Round(o, seen, work, found, dir, rest)
    ensures forall p :: p in rest ==> p in work && p != dir && p !in seen && IsDir(o, p)
    ensures forall p :: p in found ==> p != dir && p !in rest && p !in seen && IsDir(o, p)
    ensures forall i, j :: 0 <= i < j < |rest + found| ==> (rest + found)[i] != (rest + found)[j]
  {
    assert forall p :: p in work <==> p == dir || p in rest;
    forall p | p in found ensures p != dir && p !in rest && p !in seen && IsDir(o, p) {
      FoundIsNew(o, seen, work, dir, found, p);
    }
    assert forall i, j :: 0 <= i < j < |rest| ==> rest[i] == work[i] && rest[j] == work[j];
    hide IsDir, FromSeen, Followed;
    JoinDistinct(rest, found);
  }

  lemma RoundFromSeen(o: Origin, seen: set<RealPath>, work: seq<RealPath>, found: seq<RealPath>, dir: RealPath,
          rest: seq<RealPath>, p: RealPath)
    requires Round(o, seen, work, found, dir, rest) && (p in rest + found || p in seen + {dir})
    ensures FromSeen(seen + {dir}, p)
  {
    hide IsDir;
    assert dir in work;
    if p in found {
      FoundIsNew(o, seen, work, dir, found, p);
    } else {
      assert p in work || p in seen;
      assert FromSeen(seen, p);
    }
  }

  lemma RoundFollowed(o: Origin, seen: set<RealPath>, work: seq<RealPath>, found: seq<RealPath>, dir: RealPath,
          rest: seq<RealPath>, p: RealPath)
    requires Round(o, seen, work, found, dir, rest)
    ensures Followed(o, seen + {dir}, rest + found, p)
  {
    hide IsDir;
    assert dir in work;
    FoundIsNew(o, seen, work, dir, found, p);
    assert Followed(o, seen, work, p);
  }

  lemma RoundSeen(o: Origin, seen: set<RealPath>, work: seq<RealPath>, found: seq<RealPath>, dir: RealPath,
          rest: seq<RealPath>)
    requires Round(o, seen, work, found, dir, rest)
    ensures forall p :: p in seen + {dir} ==> IsDir(o, p) && p in o.dirs
    ensures [] in rest + found || [] in seen + {dir}
  {
    hide IsDir, FromSeen, Followed, SubDirs;
    assert dir in work;
  }

  lemma RoundEnds(o: Origin, seen: set<RealPath>, work: seq<RealPath>, found: seq<RealPath>, dir: RealPath,
          rest: seq<RealPath>)
    requires Round(o, seen, work, found, dir, rest)
    ensures WorkOk(o, seen + {dir}, rest + found)
  {
    hide IsDir, FromSeen, Followed, SubDirs, Round;
    RoundNew(o, seen, work, found, dir, rest);
    RoundSeen(o, seen, work, found, dir, rest);
    forall p | p in rest + found || p in seen + {dir} ensures FromSeen(seen + {dir}, p) {
      RoundFromSeen(o, seen, work, found, dir, rest, p);
    }
    forall p ensures Followed(o, seen + {dir}, rest + found, p) {
      RoundFollowed(o, seen, work, found, dir, rest, p);
    }
  }

  /** One round of the scan: the directory taken off the worklist is seen, and its
      subdirectories join the worklist. */
  lemma WorkStep(o: Origin, seen: set<RealPath>, work: seq<RealPath>, found: seq<RealPath>)
    requires WorkOk(o, seen, work) && work != []
    requires var dir := work[|work| - 1]; dir in o.dirs && SubDirs(dir, o.dirs[dir], found)
    ensures WorkOk(o, seen + {work[|work| - 1]}, work[..|work| - 1] + found)
  {
    DropLast(work);
    RoundEnds(o, seen, work, found, work[|work| - 1], work[..|work| - 1]);
  }

  lemma FilesStep(o: Origin, seen: set<RealPath>, files: seq<ScannedFile>, dir: RealPath, more: seq<ScannedFile>)
    requires FilesOf(o, seen, files) && dir !in seen && IsDir(o, dir)
    requires dir in o.dirs && AudioFiles(o, dir, o.dirs[dir], more)
    ensures FilesOf(o, seen + {dir}, files + more)
  {
    hide IsDir, IsAudioFile;
    assert Paths(files + more) == Paths(files) + Paths(more);
    forall f | f in more ensures f.path in Paths(more) {}
    forall f | f in files ensures f.path in Paths(files) {}
    forall i, j | 0 <= i < j < |files + more| ensures (files + more)[i].path != (files + more)[j].path {
      if i < |files| <= j {
        assert files[i] in files && more[j - |files|] in more;
      }
    }
  }

  /** The directory, or an audio file in it, cannot be looked at. */
  ghost predicate Unreadable(o: Origin, dir: RealPath) {
    dir in o.dirs ==>
      exists p :: IsChild(dir, p) && DirEntry(p[|p| - 1], false) in o.dirs[dir]
                  && IsAudioFile(p[|p| - 1]) && p !in o.stats
  }

  lemma MissingFile(o: Origin, dir: RealPath, i: nat)
    requires dir in o.dirs && i < |o.dirs[dir]|
    requires var e := o.dirs[dir][i]; !e.isDir && IsAudioFile(e.name) && dir + [e.name] !in o.stats
    ensures Unreadable(o, dir)
  {
    hide IsAudioFile;
    var e := o.dirs[dir][i];
    ChildIs(dir, dir + [e.name], e.name);
    assert e in o.dirs[dir];
  }

  lemma NextEntry(o: Origin, dir: RealPath, i: nat)
    requires NamesOnce(o) && dir in o.dirs && i < |o.dirs[dir]|
    ensures var entries := o.dirs[dir];
      entries[..i + 1] == entries[..i] + [entries[i]] && NewName(entries[..i], entries[i].name)
  {
  }

  /** List one directory: its subdirectories, and its audio files looked up. */
  method ScanDirectory(o: Origin, dir: RealPath) returns (r: Result<(seq<RealPath>, seq<ScannedFile>), DeltaError>)
    requires NamesOnce(o)
    ensures r.Ok? ==>
      dir in o.dirs && SubDirs(dir, o.dirs[dir], r.value.0) && AudioFiles(o, dir, o.dirs[dir], r.value.1)
    ensures r.Err? ==> r == Err(OriginScan) && Unreadable(o, dir)
  {
    if dir !in o.dirs { return Err(OriginScan); }
    var entries := o.dirs[dir];
    var found: seq<RealPath>, files: seq<ScannedFile> := [], [];
    assert SubDirs(dir, entries[..0], found) && AudioFiles(o, dir, entries[..0], files);
    hide SubDirs, AudioFiles, IsAudioFile, NamesOnce, Unreadable;
    for i := 0 to |entries|
      invariant SubDirs(dir, entries[..i], found) && AudioFiles(o, dir, entries[..i], files)
    {
      var e := entries[i];
      NextEntry(o, dir, i);
      SubDirsStep(dir, entries[..i], found, e);
      AudioFilesStep(o, dir, entries[..i], files, e);
      if e.isDir {
        found := found + [dir + [e.name]];
      } else if IsAudioFile(e.name) {
        var path := dir + [e.name];
        if path !in o.stats {
          MissingFile(o, dir, i);
          return Err(OriginScan);
        }
        files := files + [ScannedFile(path, o.stats[path].size, o.stats[path].mtime)];
      }
    }
    assert entries[..|entries|] == entries;
    return Ok((found, files));
  }

  /** The scan ends on every finite origin. It succeeds exactly when everything it
      needs is readable, and then lists every audio file below the root once. */
  method ScanOrigin(o: Origin) returns (r: Result<seq<ScannedFile>, DeltaError>)
    requires NamesOnce(o)
    ensures r == Err(OriginScan) <==> !Readable(o)
    ensures r.Ok? <==> Readable(o)
    ensures r.Ok? ==> PathsOnce(r.value) && forall p :: p in Paths(r.value) <==> IsAudio(o, p)
    ensures r.Ok? ==> forall f :: f in r.value ==> f.path in o.stats && o.stats[f.path] == Stat(f.size, f.mtime)
  {
    var files: seq<ScannedFile> := [];
    var work: seq<RealPath> := [[]];
    ghost var seen: set<RealPath> := {};
    assert WorkOk(o, seen, work) && FilesOf(o, seen, files);
    hide IsAudioFile, WorkOk, FilesOf, Readable, Unreadable, AudioFiles, SubDirs, Paths, IsAudio, IsDir;
    while work != []
      invariant WorkOk(o, seen, work) && FilesOf(o, seen, files)
      decreases |o.dirs.Keys - seen|
    {
      var dir := work[|work| - 1];
      WorkDir(o, seen, work);
      var listed := ScanDirectory(o, dir);
      match listed {
        case Err(e) =>
          CannotRead(o, dir);
          return Err(e);
        case Ok((found, more)) =>
          WorkStep(o, seen, work, found);
          FilesStep(o, seen, files, dir, more);
          work := work[..|work| - 1] + found;
          files := files + more;
          assert o.dirs.Keys - (seen + {dir}) == (o.dirs.Keys - seen) - {dir};
          seen := seen + {dir};
      }
    }
    Complete(o, seen, files);
    return Ok(files);
  }

  lemma WorkDir(o: Origin, seen: set<RealPath>, work: seq<RealPath>)
    requires WorkOk(o, seen, work) && work != []
    ensures IsDir(o, work[|work| - 1]) && work[|work| - 1] !in seen
  {
    assert work[|work| - 1] in work;
    hide IsDir;
  }

  lemma CannotRead(o: Origin, dir: RealPath)
    requires IsDir(o, dir)
    requires Unreadable(o, dir)
    ensures !Readable(o)
  {
    hide IsDir, IsAudioFile;
    if dir in o.dirs {
      var p :| IsChild(dir, p) && DirEntry(p[|p| - 1], false) in o.dirs[dir]
               && IsAudioFile(p[|p| - 1]) && p !in o.stats;
      assert IsAudio(o, p);
    }
  }

  lemma Complete(o: Origin, seen: set<RealPath>, files: seq<ScannedFile>)
    requires WorkOk(o, seen, []) && FilesOf(o, seen, files)
    ensures Readable(o) && PathsOnce(files) && forall p :: p in Paths(files) <==> IsAudio(o, p)
    ensures forall f :: f in files ==> f.path in o.stats && o.stats[f.path] == Stat(f.size, f.mtime)
  {
    forall p | IsDir(o, p) ensures p in seen { AllSeen(o, seen, p); }
    hide IsAudioFile;
    forall p | IsAudio(o, p) ensures p in Paths(files) && p in o.stats {
      assert IsDir(o, p[..|p| - 1]);
      var f :| f in files && f.path == p;
    }
  }
}
