// File paths with '/' as separator: normalising, joining and resolving them, as text and as
// lists of segments.
module Paths {
  import opened Text

  const SEP := '/'

  // An ordinary segment of a resolved path.
  predicate IsName(seg: string) {
    seg != "" && seg != "." && seg != ".." && SEP !in seg
  }

  predicate AllNames(segs: seq<string>) {
    forall k :: 0 <= k < |segs| ==> IsName(segs[k])
  }

  // One segment on top of those already kept; above says whether ".." may leave the start.
  function Push(kept: seq<string>, seg: string, above: bool): seq<string> {
    if seg == "" || seg == "." then kept
    else if seg == ".." then
      if kept != [] && kept[|kept| - 1] != ".." then kept[..|kept| - 1]
      else if above then kept + [seg] else kept
    else kept + [seg]
  }

  function PushAll(kept: seq<string>, segs: seq<string>, above: bool): seq<string> {
    if segs == [] then kept
    else Push(PushAll(kept, segs[..|segs| - 1], above), segs[|segs| - 1], above)
  }

  function JoinSegments(segs: seq<string>): string {
    if segs == [] then "" else Join(segs, SEP)
  }

  predicate IsAbsolute(path: string) {
    path != "" && path[0] == SEP
  }

  predicate EndsWithSep(path: string) {
    path != "" && path[|path| - 1] == SEP
  }

  // path.normalize
  function Normalize(path: string): string {
    if path == "" then "."
    else
      var body := JoinSegments(PushAll([], Split(path, SEP), !IsAbsolute(path)));
      if IsAbsolute(path) then
        if body == "" then "/" else "/" + body + if EndsWithSep(path) then "/" else ""
      else
        (if body == "" then "." else body) + if EndsWithSep(path) then "/" else ""
  }

  // path.join of two non-empty parts
  function JoinPaths(a: string, b: string): string {
    Normalize(a + [SEP] + b)
  }

  // path.resolve in a given working directory
  function Resolve(cwd: string, path: string): string {
    var whole := if IsAbsolute(path) then path else cwd + [SEP] + path;
    Absolute(PushAll([], Split(whole, SEP), false))
  }

  // The text of an absolute path.
  function Absolute(segs: seq<string>): string {
    "/" + JoinSegments(segs)
  }

  /* ---------- segments ---------- */

  lemma {:induction false} PushAllAppend(kept: seq<string>, a: seq<string>, b: seq<string>, above: bool)
    ensures PushAll(kept, a + b, above) == PushAll(PushAll(kept, a, above), b, above)
  {
    if b == [] {
      assert a + b == a;
    } else {
      var n := |b| - 1;
      assert (a + b)[..|a + b| - 1] == a + b[..n];
      PushAllAppend(kept, a, b[..n], above);
    }
  }

  lemma {:induction false} PushNames(kept: seq<string>, segs: seq<string>, above: bool)
    requires AllNames(segs)
    ensures PushAll(kept, segs, above) == kept + segs
  {
    if segs != [] {
      PushNames(kept, segs[..|segs| - 1], above);
    } else {
      assert kept + segs == kept;
    }
  }

  predicate NoSeparators(segs: seq<string>) {
    forall k :: 0 <= k < |segs| ==> SEP !in segs[k]
  }

  // Only names and, where it is allowed, ".." are kept.
  lemma {:induction false} PushAllKeeps(segs: seq<string>, above: bool)
    requires NoSeparators(segs)
    ensures AllKept(PushAll([], segs, above), above)
  {
    if segs != [] {
      PushAllKeeps(segs[..|segs| - 1], above);
    }
  }

  predicate AllKept(segs: seq<string>, above: bool) {
    forall k :: 0 <= k < |segs| ==> IsName(segs[k]) || (above && segs[k] == "..")
  }

  lemma KeptText(segs: seq<string>, above: bool)
    requires AllKept(segs, above)
    ensures NoSeparators(segs) && forall k :: 0 <= k < |segs| ==> segs[k] != ""
    ensures !above || ".." !in segs ==> AllNames(segs)
  {
    assert |".."| == 2 && ".."[0] == '.' && ".."[1] == '.';
    assert SEP !in "..";
  }

  // The segments of a normalised relative path, with what a trailing separator adds, are the
  // kept ones again as far as pushing is concerned.
  lemma NormalizedSegments(path: string)
    requires !IsAbsolute(path)
    ensures var kept := PushAll([], Split(path, SEP), true);
            && (".." in Split(Normalize(path), SEP) <==> ".." in kept)
            && forall base :: ".." !in kept ==> PushAll(base, Split(Normalize(path), SEP), false) == base + kept
  {
    var kept := PushAll([], Split(path, SEP), true);
    PushAllKeeps(Split(path, SEP), true);
    KeptText(kept, true);
    var tail: seq<string> := if EndsWithSep(path) then [""] else [];
    var shown := if kept == [] then ["."] else kept;
    if path == "" {
      assert Split("", SEP) == [""];
      assert PushAll([], [""], true) == [] by { assert [""][..0] == []; }
    }
    ShownText(kept);
    SplitShown(shown, EndsWithSep(path));
    assert Split(Normalize(path), SEP) == shown + tail;
    assert |"."| == 1 && |".."| == 2;
    assert ".." in shown + tail <==> ".." in kept;
    if ".." !in kept {
      forall base: seq<string>
        ensures PushAll(base, shown + tail, false) == base + kept
      {
        PushShown(base, kept, EndsWithSep(path));
      }
    }
  }

  lemma {:induction false} JoinEnds(parts: seq<string>)
    requires parts != [] && parts[|parts| - 1] != ""
    ensures var text, last := Join(parts, SEP), parts[|parts| - 1];
            text != "" && text[|text| - 1] == last[|last| - 1]
  {
    if |parts| > 1 {
      JoinEnds(parts[1..]);
    }
  }

  // Normalising keeps a trailing separator and adds none, but for the root.
  lemma TrailingSeparatorStays(path: string)
    requires path != "" && Normalize(path) != "/"
    ensures var text := Normalize(path);
            text != "" && (text[|text| - 1] == '/' <==> path[|path| - 1] == '/')
  {
    var above := !IsAbsolute(path);
    var kept := PushAll([], Split(path, SEP), above);
    PushAllKeeps(Split(path, SEP), above);
    KeptText(kept, above);
    if kept != [] {
      var last := kept[|kept| - 1];
      assert last != "" && SEP !in last && last[|last| - 1] in last;
      JoinEnds(kept);
    }
  }

  lemma ShownText(kept: seq<string>)
    requires forall k :: 0 <= k < |kept| ==> kept[k] != ""
    ensures JoinSegments(kept) == "" <==> kept == []
    ensures kept == [] ==> Join(["."], SEP) == "."
  {
  }

  lemma SplitShown(shown: seq<string>, trailing: bool)
    requires shown != [] && NoSeparators(shown)
    ensures Split(Join(shown, SEP) + if trailing then "/" else "", SEP) == shown + if trailing then [""] else []
  {
    SplitJoin(shown, SEP);
    if trailing {
      SplitConcat(Join(shown, SEP), SEP, "");
      assert Join(shown, SEP) + [SEP] + "" == Join(shown, SEP) + "/";
    } else {
      assert Join(shown, SEP) + "" == Join(shown, SEP);
      assert shown + [] == shown;
    }
  }

  lemma PushShown(base: seq<string>, kept: seq<string>, trailing: bool)
    requires AllNames(kept)
    ensures PushAll(base, (if kept == [] then ["."] else kept) + (if trailing then [""] else []), false) == base + kept
  {
    var shown := if kept == [] then ["."] else kept;
    var tail: seq<string> := if trailing then [""] else [];
    PushAllAppend(base, shown, tail, false);
    if kept == [] {
      assert ["."][..0] == [];
      assert PushAll(base, ["."], false) == base;
      assert base + kept == base;
    } else {
      PushNames(base, kept, false);
    }
    assert [""][..0] == [];
    assert PushAll(base + kept, [""], false) == base + kept;
  }

  lemma SplitAbsolute(segs: seq<string>)
    requires AllNames(segs)
    ensures Split(Absolute(segs), SEP) == [""] + if segs == [] then [""] else segs
    ensures PushAll([], Split(Absolute(segs), SEP), false) == segs
  {
    SplitConcat("", SEP, JoinSegments(segs));
    assert "" + [SEP] + JoinSegments(segs) == Absolute(segs);
    var rest := if segs == [] then [""] else segs;
    if segs != [] {
      SplitJoin(segs, SEP);
    }
    PushAllAppend([], [""], rest, false);
    assert [""][..0] == [];
    if segs != [] {
      PushNames([], segs, false);
      assert [] + segs == segs;
    }
  }

  // Resolving gives a path of names only.
  lemma ResolvedSegments(cwd: string, path: string) returns (segs: seq<string>)
    ensures Resolve(cwd, path) == Absolute(segs) && AllNames(segs)
  {
    var whole := if IsAbsolute(path) then path else cwd + [SEP] + path;
    segs := PushAll([], Split(whole, SEP), false);
    PushAllKeeps(Split(whole, SEP), false);
    KeptText(segs, false);
  }

  lemma NamesAppend(a: seq<string>, b: seq<string>)
    requires AllNames(a) && AllNames(b)
    ensures AllNames(a + b)
  {
  }

  /* ---------- prefixes ---------- */

  predicate StrictlyBelow(segs: seq<string>, base: seq<string>) {
    |base| < |segs| && segs[..|base|] == base
  }

  // Starting with the directory's text and a separator means lying strictly below it; nothing
  // passes the test for the root directory, whose text ends with a separator already.
  lemma PrefixIsBelow(path: seq<string>, base: seq<string>)
    requires AllNames(path) && AllNames(base)
    ensures StartsWith(Absolute(path), Absolute(base) + "/") <==> base != [] && StrictlyBelow(path, base)
  {
    if base == [] {
      assert Absolute(base) + "/" == "//";
      RootPrefix(path);
    } else if StrictlyBelow(path, base) {
      BelowHasPrefix(path, base);
    } else if StartsWith(Absolute(path), Absolute(base) + "/") {
      PrefixGivesBelow(path, base);
    }
  }

  lemma RootPrefix(path: seq<string>)
    requires AllNames(path)
    ensures !StartsWith(Absolute(path), "//")
  {
    var text := Absolute(path);
    if |text| >= 2 {
      assert path != [] && IsName(path[0]);
      assert text[1] == path[0][0];
      assert path[0][0] in path[0];
      assert text[..2][1] == text[1];
    }
  }

  lemma BelowHasPrefix(path: seq<string>, base: seq<string>)
    requires base != [] && StrictlyBelow(path, base)
    ensures StartsWith(Absolute(path), Absolute(base) + "/")
  {
    var rest := path[|base|..];
    assert path == base + rest;
    JoinConcat(base, rest, SEP);
    assert Absolute(path) == Absolute(base) + "/" + Join(rest, SEP);
  }

  lemma PrefixGivesBelow(path: seq<string>, base: seq<string>)
    requires AllNames(path) && AllNames(base) && base != []
    requires StartsWith(Absolute(path), Absolute(base) + "/")
    ensures StrictlyBelow(path, base)
  {
    var n := |Absolute(base)| + 1;
    var rest := Absolute(path)[n..];
    assert Absolute(path) == Absolute(base) + [SEP] + rest;
    SplitConcat(Absolute(base), SEP, rest);
    SplitAbsolute(path);
    SplitAbsolute(base);
    hide Split, Absolute;
    SameTail(path, base, Split(rest, SEP));
  }

  lemma SameTail(path: seq<string>, base: seq<string>, tail: seq<string>)
    requires base != [] && IsName(base[0]) && tail != []
    requires [""] + (if path == [] then [""] else path) == [""] + base + tail
    ensures StrictlyBelow(path, base)
  {
    var shown := if path == [] then [""] else path;
    assert ([""] + shown)[1..] == shown && ([""] + base + tail)[1..] == base + tail;
    assert (base + tail)[0] == base[0];
    assert path == base + tail;
  }

  /* ---------- climbing ---------- */

  // How deep a relative path is after its segments: names go down, ".." goes up.
  function Depth(segs: seq<string>): int {
    if segs == [] then 0
    else
      var seg := segs[|segs| - 1];
      Depth(segs[..|segs| - 1]) + if seg == "" || seg == "." then 0 else if seg == ".." then -1 else 1
  }

  predicate SinksAt(segs: seq<string>, k: nat) {
    k <= |segs| && Depth(segs[..k]) < 0
  }

  predicate ClimbsOut(segs: seq<string>) {
    exists k :: 0 <= k <= |segs| && SinksAt(segs, k)
  }

  // ".." survives normalising exactly when the path leaves its start on the way, wherever
  // it ends.
  lemma {:induction false} DotDotLeftIffClimbs(segs: seq<string>)
    ensures ".." in PushAll([], segs, true) <==> ClimbsOut(segs)
    ensures !ClimbsOut(segs) ==> |PushAll([], segs, true)| == Depth(segs)
  {
    if segs == [] {
      assert segs[..0] == [];
      assert !SinksAt(segs, 0);
    } else {
      var n := |segs| - 1;
      var init := segs[..n];
      DotDotLeftIffClimbs(init);
      ClimbsNext(segs);
      var kept := PushAll([], init, true);
      if ".." in kept && segs[n] == ".." && kept[|kept| - 1] != ".." {
        assert kept == kept[..|kept| - 1] + [kept[|kept| - 1]];
      }
    }
  }

  lemma SinksSame(segs: seq<string>, k: nat)
    requires k < |segs|
    ensures SinksAt(segs[..|segs| - 1], k) == SinksAt(segs, k)
  {
    assert segs[..|segs| - 1][..k] == segs[..k];
  }

  lemma ClimbsNext(segs: seq<string>)
    requires segs != []
    ensures ClimbsOut(segs) <==> ClimbsOut(segs[..|segs| - 1]) || Depth(segs) < 0
  {
    var n := |segs| - 1;
    assert SinksAt(segs, n + 1) <==> Depth(segs) < 0 by { assert segs[..n + 1] == segs; }
    hide Depth, SinksAt;
    forall k: nat | k <= n
      ensures SinksAt(segs[..n], k) == SinksAt(segs, k)
    {
      SinksSame(segs, k);
    }
  }
}
