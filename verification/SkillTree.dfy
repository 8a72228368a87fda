// Finding skill directories in an unpacked archive.
module SkillTree {
  import opened Wrappers

  const SKILL_METADATA_FILE := "SKILL.md"

  // A directory lists its entries, or cannot be read.
  datatype Dir = Dir(entries: seq<Entry>) | Unreadable
  datatype Entry = File(name: string) | SubDir(name: string, dir: Dir) | Other(name: string)

  predicate HasSkillFile(d: Dir) {
    d.Dir? && exists k :: 0 <= k < |d.entries| && d.entries[k] == File(SKILL_METADATA_FILE)
  }

  // The paths, relative to where the search began, of the directories that are found.
  function SkillDirs(d: Dir, path: seq<string>): seq<seq<string>>
    decreases d, 1, 0
  {
    if d.Unreadable? then []
    else if HasSkillFile(d) then [path]
    else SkillDirsIn(d, |d.entries|, path)
  }

  function SkillDirsIn(d: Dir, n: nat, path: seq<string>): seq<seq<string>>
    requires d.Dir? && n <= |d.entries|
    decreases d, 0, n
  {
    if n == 0 then []
    else
      var e := d.entries[n - 1];
      SkillDirsIn(d, n - 1, path) + if e.SubDir? then SkillDirs(e.dir, path + [e.name]) else []
  }

  // findSkillDirectories
  method FindSkillDirectories(d: Dir, path: seq<string>) returns (results: seq<seq<string>>)
    ensures results == SkillDirs(d, path)
    decreases d
  {
    results := [];
    if d.Unreadable? {
      return;
    }
    if HasSkillFile(d) {
      return [path];
    }
    for i := 0 to |d.entries|
      invariant results == SkillDirsIn(d, i, path)
    {
      var e := d.entries[i];
      if e.SubDir? {
        var subResults := FindSkillDirectories(e.dir, path + [e.name]);
        results := results + subResults;
      }
    }
  }

  /* ---------- which directories are found ---------- */

  // No two entries of a directory share a name.
  predicate Tidy(d: Dir)
    decreases d
  {
    d.Dir? ==>
      && (forall i, j :: 0 <= i < j < |d.entries| ==> d.entries[i].name != d.entries[j].name)
      && (forall i :: 0 <= i < |d.entries| && d.entries[i].SubDir? ==> Tidy(d.entries[i].dir))
  }

  function Find(d: Dir, name: string): Option<Dir>
    ensures Find(d, name).Some? ==> Find(d, name).value < d
  {
    if d.Dir? && exists k :: 0 <= k < |d.entries| && d.entries[k].SubDir? && d.entries[k].name == name then
      Some(FindFrom(d, name, 0))
    else None
  }

  function FindFrom(d: Dir, name: string, i: nat): (sub: Dir)
    requires d.Dir? && exists k :: i <= k < |d.entries| && d.entries[k].SubDir? && d.entries[k].name == name
    ensures exists k :: i <= k < |d.entries| && d.entries[k] == SubDir(name, sub)
    ensures sub < d
    decreases |d.entries| - i
  {
    if d.entries[i].SubDir? && d.entries[i].name == name then d.entries[i].dir else FindFrom(d, name, i + 1)
  }

  predicate HoldsSkillFile(d: Dir) {
    d.Dir? && File("SKILL.md") in d.entries
  }

  // A directory that holds the skill file while none above it does.
  predicate IsTopmost(d: Dir, rel: seq<string>)
    decreases |rel|
  {
    if rel == [] then HoldsSkillFile(d)
    else !HoldsSkillFile(d) && Find(d, rel[0]).Some? && IsTopmost(Find(d, rel[0]).value, rel[1..])
  }

  lemma FindEntry(d: Dir, k: nat)
    requires Tidy(d) && d.Dir? && k < |d.entries| && d.entries[k].SubDir?
    ensures Find(d, d.entries[k].name) == Some(d.entries[k].dir)
  {
    var name := d.entries[k].name;
    var sub := Find(d, name).value;
    var j :| 0 <= j < |d.entries| && d.entries[j] == SubDir(name, sub);
    assert j == k;
  }

  // Exactly the topmost directories with a skill file are found.
  lemma {:induction false} FoundIffTopmost(d: Dir, path: seq<string>, rel: seq<string>)
    requires Tidy(d)
    ensures path + rel in SkillDirs(d, path) <==> IsTopmost(d, rel)
    decreases d, 1, 0
  {
    if d.Dir? {
      if HasSkillFile(d) {
        assert path + rel == path <==> rel == [];
      } else {
        FoundInIff(d, |d.entries|, path, rel);
        if rel != [] && Find(d, rel[0]).Some? {
          var sub := Find(d, rel[0]).value;
          var k :| 0 <= k < |d.entries| && d.entries[k] == SubDir(rel[0], sub);
          assert Below(d, |d.entries|, rel) <==> IsTopmost(sub, rel[1..]) by {
            FindEntry(d, k);
          }
        }
      }
    }
  }

  predicate Below(d: Dir, n: nat, rel: seq<string>)
    requires d.Dir? && n <= |d.entries|
  {
    rel != [] && exists k :: 0 <= k < n && d.entries[k].SubDir? && d.entries[k].name == rel[0] && IsTopmost(d.entries[k].dir, rel[1..])
  }

  lemma {:induction false} FoundInIff(d: Dir, n: nat, path: seq<string>, rel: seq<string>)
    requires Tidy(d) && d.Dir? && n <= |d.entries|
    ensures path + rel in SkillDirsIn(d, n, path) <==> Below(d, n, rel)
    decreases d, 0, n
  {
    if n > 0 {
      FoundInIff(d, n - 1, path, rel);
      var e := d.entries[n - 1];
      if e.SubDir? {
        if rel != [] && rel[0] == e.name {
          FoundIffTopmost(e.dir, path + [e.name], rel[1..]);
          assert path + [e.name] + rel[1..] == path + rel;
        } else {
          NotUnder(e.dir, path + [e.name], path, rel);
        }
      }
    }
  }

  // Everything found under a directory carries that directory's path in front.
  lemma NotUnder(d: Dir, sub: seq<string>, path: seq<string>, rel: seq<string>)
    requires |sub| == |path| + 1 && sub[..|path|] == path && (rel == [] || rel[0] != sub[|path|])
    ensures path + rel !in SkillDirs(d, sub)
  {
    var p := path + rel;
    AllUnder(d, sub);
    forall q | q in SkillDirs(d, sub)
      ensures q != p
    {
      assert q[|path|] == q[..|sub|][|path|] == sub[|path|];
      assert rel != [] ==> p[|path|] == rel[0];
    }
  }

  lemma {:induction false} AllUnder(d: Dir, path: seq<string>)
    ensures forall p :: p in SkillDirs(d, path) ==> |path| <= |p| && p[..|path|] == path
    decreases d, 1, 0
  {
    if d.Dir? && !HasSkillFile(d) {
      AllUnderIn(d, |d.entries|, path);
    }
  }

  lemma {:induction false} AllUnderIn(d: Dir, n: nat, path: seq<string>)
    requires d.Dir? && n <= |d.entries|
    ensures forall p :: p in SkillDirsIn(d, n, path) ==> |path| <= |p| && p[..|path|] == path
    decreases d, 0, n
  {
    if n > 0 {
      AllUnderIn(d, n - 1, path);
      var e := d.entries[n - 1];
      if e.SubDir? {
        AllUnder(e.dir, path + [e.name]);
        forall p | p in SkillDirs(e.dir, path + [e.name])
          ensures |path| <= |p| && p[..|path|] == path
        {
          assert p[..|path|] == p[..|path| + 1][..|path|];
        }
      }
    }
  }

  // So no directory found lies inside another one found.
  lemma FoundAreDisjoint(d: Dir, a: seq<string>, b: seq<string>)
    requires Tidy(d) && a in SkillDirs(d, []) && a + b in SkillDirs(d, [])
    ensures b == []
  {
    assert [] + a == a && [] + (a + b) == a + b;
    FoundIffTopmost(d, [], a);
    FoundIffTopmost(d, [], a + b);
    TopmostPrefix(d, a, b);
  }

  lemma {:induction false} TopmostPrefix(d: Dir, a: seq<string>, b: seq<string>)
    requires IsTopmost(d, a) && IsTopmost(d, a + b)
    ensures b == []
    decreases |a|
  {
    if a == [] {
      assert a + b == b;
    } else {
      assert (a + b)[0] == a[0] && (a + b)[1..] == a[1..] + b;
      TopmostPrefix(Find(d, a[0]).value, a[1..], b);
    }
  }
}
