// Unpacking an uploaded archive: where its files may go, and how many bytes may be written.
module Extraction {
  import opened Wrappers
  import opened Paths
  import opened Text

  const MAX_UNCOMPRESSED_SIZE := 50 * 1024 * 1024
  const MAX_ENTRY_COUNT := 1000

  // An archive entry: size is what its header claims, data what unpacking really gives, or
  // nothing if it fails.
  datatype Entry = Entry(name: string, isDirectory: bool, size: nat, data: Option<seq<bv8>>)

  datatype Error = TooManyEntries | TooLarge | AbsolutePath | Traversal | Outside | NoDirectory | Unreadable
    | ReallyTooLarge | NotStored

  datatype File = File(path: string, content: seq<bv8>)

  /* ---------- where an entry goes ---------- */

  // The segments below the target directory an entry name denotes.
  function Inside(name: string): seq<string> {
    PushAll([], Split(name, SEP), true)
  }

  // The names that are accepted: relative, never above their start on the way, and naming
  // something. Nothing can be unpacked into the root directory.
  predicate Acceptable(base: seq<string>, name: string) {
    !IsAbsolute(name) && !ClimbsOut(Split(name, SEP)) && base != [] && Inside(name) != []
  }

  lemma InsideNames(name: string)
    ensures ".." !in Inside(name) ==> AllNames(Inside(name))
  {
    PushAllKeeps(Split(name, SEP), true);
    KeptText(Inside(name), true);
  }

  // The path an entry resolves to: the target directory followed by the entry's own segments.
  lemma ResolvedTarget(cwd: string, base: seq<string>, name: string)
    requires AllNames(base) && !IsAbsolute(name) && ".." !in Inside(name)
    ensures AllNames(base + Inside(name))
    ensures Resolve(cwd, JoinPaths(Absolute(base), Normalize(name))) == Absolute(base + Inside(name))
  {
    var norm := Normalize(name);
    var segs := base + Inside(name);
    InsideNames(name);
    NamesAppend(base, Inside(name));
    NormalizedSegments(name);
    var whole := Absolute(base) + [SEP] + norm;
    SplitConcat(Absolute(base), SEP, norm);
    SplitAbsolute(base);
    PushAllAppend([], Split(Absolute(base), SEP), Split(norm, SEP), false);
    assert PushAll([], Split(whole, SEP), false) == segs;
    NormalizedAbsolute(cwd, whole, segs);
  }

  // Normalising an absolute path and then resolving it gives the text of its segments.
  lemma NormalizedAbsolute(cwd: string, whole: string, segs: seq<string>)
    requires IsAbsolute(whole) && AllNames(segs) && PushAll([], Split(whole, SEP), false) == segs
    ensures Resolve(cwd, Normalize(whole)) == Absolute(segs)
  {
    SplitAbsolute(segs);
    assert forall k :: 0 <= k < |segs| ==> segs[k] != "";
    ShownText(segs);
    if segs == [] {
      assert Absolute([]) == "/" && Normalize(whole) == "/";
    } else if EndsWithSep(whole) {
      assert Normalize(whole) == Absolute(segs) + [SEP] + "";
      SplitConcat(Absolute(segs), SEP, "");
      PushAllAppend([], Split(Absolute(segs), SEP), [""], false);
      assert Split("", SEP) == [""] && [""][..0] == [];
      assert Normalize(whole)[0] == SEP;
    } else {
      assert Normalize(whole) == Absolute(segs) + "" == Absolute(segs);
      assert Normalize(whole)[0] == SEP;
    }
  }

  // An ordinary relative name is accepted and unpacked under its own segments; an absolute one and one
  // that begins by going up are refused.
  lemma OrdinaryNames(base: seq<string>, segs: seq<string>, rest: string)
    requires base != [] && segs != [] && AllNames(segs)
    ensures Acceptable(base, Join(segs, SEP)) && Inside(Join(segs, SEP)) == segs
    ensures !Acceptable(base, "/" + rest) && Refusal("/" + rest) == AbsolutePath
    ensures !Acceptable(base, "../" + rest) && Refusal("../" + rest) == Traversal
  {
    var name := Join(segs, SEP);
    SplitJoin(segs, SEP);
    PushNames([], segs, true);
    assert [] + segs == segs;
    DotDotLeftIffClimbs(segs);
    assert name[0] == segs[0][0] && segs[0][0] in segs[0];
    UpFirst(rest);
  }

  lemma UpFirst(rest: string)
    ensures ClimbsOut(Split("../" + rest, SEP)) && !IsAbsolute("../" + rest)
  {
    assert "../" + rest == ".." + [SEP] + rest;
    SplitFirst("..", SEP, rest);
    var parts := Split("../" + rest, SEP);
    assert parts[..1] == [".."];
    assert [".."][..0] == [];
    assert SinksAt(parts, 1);
  }

  // Why a name is refused: the first of the three tests it fails.
  function Refusal(name: string): Error {
    if IsAbsolute(name) then AbsolutePath else if ClimbsOut(Split(name, SEP)) then Traversal else Outside
  }

  // The checks of one entry name.
  method CheckEntry(cwd: string, base: seq<string>, name: string) returns (r: Result<string, Error>)
    requires AllNames(base)
    ensures r.Ok? <==> Acceptable(base, name)
    ensures r.Err? ==> r.error == Refusal(name)
    ensures r.Ok? ==> AllNames(base + Inside(name)) && r.value == Absolute(base + Inside(name))
    ensures r.Ok? ==> StrictlyBelow(base + Inside(name), base)
  {
    hide Normalize, Resolve, JoinPaths, Absolute, Inside, ClimbsOut, PushAll, Split, StartsWith, AllNames;
    var resolvedTargetDir := Absolute(base);
    if IsAbsolute(name) {
      return Err(AbsolutePath);
    }
    var normalizedPath := Normalize(name);
    NormalizedSegments(name);
    DotDotLeftIffClimbs(Split(name, SEP));
    InsideIs(name);
    if ".." in Split(normalizedPath, SEP) {
      return Err(Traversal);
    }
    var resolvedTargetPath := Resolve(cwd, JoinPaths(resolvedTargetDir, normalizedPath));
    ResolvedTarget(cwd, base, name);
    PrefixIsBelow(base + Inside(name), base);
    assert StrictlyBelow(base + Inside(name), base) <==> Inside(name) != [];
    if !StartsWith(resolvedTargetPath, resolvedTargetDir + "/") {
      return Err(Outside);
    }
    return Ok(resolvedTargetPath);
  }

  lemma InsideIs(name: string)
    ensures Inside(name) == PushAll([], Split(name, SEP), true)
  {
  }

  // isPathSafe: the resolved path lies strictly below the skills directory.
  method IsPathSafe(cwd: string, skillsDir: string, targetPath: string) returns (safe: bool)
    ensures exists path, base ::
              && AllNames(path) && AllNames(base)
              && Absolute(path) == Resolve(cwd, targetPath) && Absolute(base) == Resolve(cwd, skillsDir)
              && (safe <==> base != [] && StrictlyBelow(path, base))
  {
    hide Resolve, Absolute, StartsWith, AllNames;
    var resolvedPath, resolvedSkillsDir := Resolve(cwd, targetPath), Resolve(cwd, skillsDir);
    ghost var path := ResolvedSegments(cwd, targetPath);
    ghost var base := ResolvedSegments(cwd, skillsDir);
    PrefixIsBelow(path, base);
    safe := StartsWith(resolvedPath, resolvedSkillsDir + "/");
  }

  /* ---------- extraction ---------- */

  function ClaimedSize(entries: seq<Entry>): nat {
    if entries == [] then 0 else ClaimedSize(entries[..|entries| - 1]) + entries[|entries| - 1].size
  }

  function WrittenSize(files: seq<File>): nat {
    if files == [] then 0 else WrittenSize(files[..|files| - 1]) + |files[|files| - 1].content|
  }

  // The file entries, in order.
  function FileEntries(entries: seq<Entry>): (r: seq<Entry>)
    ensures forall e :: e in r <==> e in entries && !e.isDirectory
  {
    if entries == [] then []
    else
      var rest := FileEntries(entries[..|entries| - 1]);
      var e := entries[|entries| - 1];
      if e.isDirectory then rest else rest + [e]
  }

  // The files some entries are unpacked to.
  function Unpacked(base: seq<string>, entries: seq<Entry>): seq<File>
    requires forall k :: 0 <= k < |entries| ==> entries[k].data.Some?
  {
    seq(|entries|, k requires 0 <= k < |entries| => File(Absolute(base + Inside(entries[k].name)), entries[k].data.value))
  }

  // When an archive may be unpacked at all.
  predicate Admissible(base: seq<string>, entries: seq<Entry>) {
    && |entries| <= MAX_ENTRY_COUNT
    && ClaimedSize(entries) <= MAX_UNCOMPRESSED_SIZE
    && forall k :: 0 <= k < |entries| && !entries[k].isDirectory ==> Acceptable(base, entries[k].name)
  }

  // The count is tested first, then the claimed sizes, then the names in order.
  predicate RightError(base: seq<string>, entries: seq<Entry>, e: Error) {
    if |entries| > MAX_ENTRY_COUNT then e == TooManyEntries
    else if ClaimedSize(entries) > MAX_UNCOMPRESSED_SIZE then e == TooLarge
    else exists i :: 0 <= i < |entries| && IsFirstRefused(base, entries, i) && e == Refusal(entries[i].name)
  }

  predicate IsFirstRefused(base: seq<string>, entries: seq<Entry>, i: nat) {
    && i < |entries| && !entries[i].isDirectory && !Acceptable(base, entries[i].name)
    && forall k :: 0 <= k < i && !entries[k].isDirectory ==> Acceptable(base, entries[k].name)
  }

  lemma {:induction false} ClaimedSizeGrows(entries: seq<Entry>, k: nat)
    requires k <= |entries|
    ensures ClaimedSize(entries[..k]) <= ClaimedSize(entries)
  {
    if k < |entries| {
      ClaimedSizeGrows(entries[..|entries| - 1], k);
      assert entries[..|entries| - 1][..k] == entries[..k];
    } else {
      assert entries[..k] == entries;
    }
  }

  // The tests before anything is written.
  method Precheck(cwd: string, base: seq<string>, entries: seq<Entry>) returns (r: Result<seq<string>, Error>)
    requires AllNames(base)
    ensures r.Ok? <==> Admissible(base, entries)
    ensures r.Err? ==> RightError(base, entries, r.error)
    ensures r.Ok? ==> Targets(base, entries, r.value)
  {
    hide Acceptable, Absolute, Inside, Refusal, Targets, FileEntries;
    if |entries| > MAX_ENTRY_COUNT {
      return Err(TooManyEntries);
    }
    var total := 0;
    for i := 0 to |entries|
      invariant total == ClaimedSize(entries[..i]) <= MAX_UNCOMPRESSED_SIZE
    {
      total := total + entries[i].size;
      assert entries[..i + 1][..i] == entries[..i];
      if total > MAX_UNCOMPRESSED_SIZE {
        ClaimedSizeGrows(entries, i + 1);
        return Err(TooLarge);
      }
    }
    assert entries[..|entries|] == entries;
    var paths: seq<string> := [];
    NoTargets(base, entries);
    for i := 0 to |entries|
      invariant Targets(base, entries[..i], paths)
      invariant forall k :: 0 <= k < i && !entries[k].isDirectory ==> Acceptable(base, entries[k].name)
    {
      TargetsNext(base, entries, i, paths);
      if entries[i].isDirectory {
        continue;
      }
      var target := CheckEntry(cwd, base, entries[i].name);
      if target.Err? {
        assert IsFirstRefused(base, entries, i);
        return Err(target.error);
      }
      paths := paths + [target.value];
    }
    assert entries[..|entries|] == entries;
    return Ok(paths);
  }

  // The paths of the file entries, in order.
  predicate Targets(base: seq<string>, entries: seq<Entry>, paths: seq<string>) {
    && |paths| == |FileEntries(entries)|
    && forall k :: 0 <= k < |paths| ==> paths[k] == Absolute(base + Inside(FileEntries(entries)[k].name))
  }

  lemma NoTargets(base: seq<string>, entries: seq<Entry>)
    ensures Targets(base, entries[..0], [])
  {
  }

  lemma TargetsNext(base: seq<string>, entries: seq<Entry>, i: nat, paths: seq<string>)
    requires i < |entries| && Targets(base, entries[..i], paths)
    ensures Targets(base, entries[..i + 1],
                    if entries[i].isDirectory then paths else paths + [Absolute(base + Inside(entries[i].name))])
  {
    hide Absolute, Inside;
    assert entries[..i + 1][..i] == entries[..i];
  }

  // safeExtractZipAsync: made and stored say for which files the directory can be created and the file be
  // written; written are the files that reached the disk, also when an error ends the extraction early.
  method SafeExtractZip(cwd: string, base: seq<string>, entries: seq<Entry>, made: nat -> bool, stored: nat -> bool)
    returns (error: Option<Error>, written: seq<File>)
    requires AllNames(base)
    ensures !Admissible(base, entries) ==> error.Some? && RightError(base, entries, error.value) && written == []
    ensures |written| <= |FileEntries(entries)|
    ensures forall k: nat :: k < |written| ==> made(k) && stored(k) && FileEntries(entries)[k].data.Some?
    ensures written == Unpacked(base, FileEntries(entries)[..|written|])
    ensures WrittenSize(written) <= MAX_UNCOMPRESSED_SIZE
    ensures error.None? ==> |written| == |FileEntries(entries)|
    ensures Admissible(base, entries) && error.Some? ==>
              && |written| < |FileEntries(entries)|
              && var next := FileEntries(entries)[|written|].data;
              if !made(|written|) then error.value == NoDirectory
              else if next.None? then error.value == Unreadable
              else if WrittenSize(written) + |next.value| > MAX_UNCOMPRESSED_SIZE then error.value == ReallyTooLarge
              else error.value == NotStored && !stored(|written|)
  {
    hide Admissible, Absolute, Inside, FileEntries, RightError, Unpacked;
    written := [];
    var paths := Precheck(cwd, base, entries);
    NothingUnpacked(base, FileEntries(entries));
    if paths.Err? {
      return Some(paths.error), written;
    }
    var files := FileEntries(entries);
    var extractedSize := 0;
    for i := 0 to |files|
      invariant |written| == i && extractedSize == WrittenSize(written) <= MAX_UNCOMPRESSED_SIZE
      invariant forall k: nat :: k < i ==> made(k) && stored(k) && files[k].data.Some?
      invariant written == Unpacked(base, files[..i])
    {
      if !made(i) {
        return Some(NoDirectory), written;
      }
      if files[i].data.None? {
        return Some(Unreadable), written;
      }
      var content := files[i].data.value;
      extractedSize := extractedSize + |content|;
      if extractedSize > MAX_UNCOMPRESSED_SIZE {
        return Some(ReallyTooLarge), written;
      }
      if !stored(i) {
        return Some(NotStored), written;
      }
      var file := File(paths.value[i], content);
      UnpackedNext(base, files, i);
      assert (written + [file])[..i] == written;
      written := written + [file];
    }
    return None, written;
  }

  lemma NothingUnpacked(base: seq<string>, files: seq<Entry>)
    ensures Unpacked(base, files[..0]) == []
  {
  }

  lemma UnpackedNext(base: seq<string>, files: seq<Entry>, i: nat)
    requires i < |files| && forall k :: 0 <= k <= i ==> files[k].data.Some?
    ensures Unpacked(base, files[..i + 1]) ==
            Unpacked(base, files[..i]) + [File(Absolute(base + Inside(files[i].name)), files[i].data.value)]
  {
    hide Absolute, Inside;
  }

  // Whatever the archive contains, every file written lies strictly below the target directory.
  lemma WrittenFilesLieBelow(base: seq<string>, entries: seq<Entry>, k: nat)
    requires AllNames(base) && Admissible(base, entries) && k < |FileEntries(entries)|
    ensures var path := base + Inside(FileEntries(entries)[k].name);
            AllNames(path) && StrictlyBelow(path, base) && StartsWith(Absolute(path), Absolute(base) + "/")
  {
    var e := FileEntries(entries)[k];
    assert e in entries && !e.isDirectory;
    var j :| 0 <= j < |entries| && entries[j] == e;
    assert Acceptable(base, entries[j].name);
    DotDotLeftIffClimbs(Split(e.name, SEP));
    InsideNames(e.name);
    NamesAppend(base, Inside(e.name));
    PrefixIsBelow(base + Inside(e.name), base);
  }

  // Two files of one archive share a path only if their names normalise to the same segments.
  lemma SamePathSameSegments(base: seq<string>, a: string, b: string)
    requires AllNames(base) && Acceptable(base, a) && Acceptable(base, b)
    requires Absolute(base + Inside(a)) == Absolute(base + Inside(b))
    ensures Inside(a) == Inside(b)
  {
    DotDotLeftIffClimbs(Split(a, SEP));
    DotDotLeftIffClimbs(Split(b, SEP));
    InsideNames(a);
    InsideNames(b);
    SplitAbsolute(base + Inside(a));
    SplitAbsolute(base + Inside(b));
    assert (base + Inside(a))[|base|..] == Inside(a) && (base + Inside(b))[|base|..] == Inside(b);
  }
}
