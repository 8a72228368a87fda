// The string operations the services share: split, join, search, and the
// code-unit order of the default sort.
module Text {
  // s.split(c): there is always at least one part, and joining them gives s back.
  function Split(s: string, c: char): (parts: seq<string>)
    ensures |parts| >= 1
    ensures forall k :: 0 <= k < |parts| ==> c !in parts[k]
    ensures Join(parts, c) == s
  {
    if s == "" then [""]
    else
      var rest := Split(s[1..], c);
      if s[0] == c then [""] + rest else [[s[0]] + rest[0]] + rest[1..]
  }

  function Join(parts: seq<string>, c: char): string
    requires |parts| >= 1
  {
    if |parts| == 1 then parts[0] else parts[0] + [c] + Join(parts[1..], c)
  }

  // Joining and splitting again gives the parts back when none contains the separator.
  lemma {:induction false} SplitJoin(parts: seq<string>, c: char)
    requires |parts| >= 1 && forall k :: 0 <= k < |parts| ==> c !in parts[k]
    ensures Split(Join(parts, c), c) == parts
  {
    if |parts| == 1 {
      SplitPlain(parts[0], c);
    } else {
      SplitJoin(parts[1..], c);
      SplitFirst(parts[0], c, Join(parts[1..], c));
    }
  }

  lemma {:induction false} SplitPlain(s: string, c: char)
    requires c !in s
    ensures Split(s, c) == [s]
  {
    if s != "" {
      assert c !in s[1..];
      SplitPlain(s[1..], c);
    }
  }

  lemma SplitFirst(s: string, c: char, rest: string)
    requires c !in s
    ensures Split(s + [c] + rest, c) == [s] + Split(rest, c)
  {
    SplitConcat(s, c, rest);
    SplitPlain(s, c);
  }

  lemma {:induction false} SplitConcat(a: string, c: char, b: string)
    ensures Split(a + [c] + b, c) == Split(a, c) + Split(b, c)
  {
    hide Join;
    var whole := a + [c] + b;
    if a == "" {
      assert whole == [c] + b && whole[1..] == b;
      assert [""] + Split(b, c) == Split(a, c) + Split(b, c);
    } else {
      assert whole[0] == a[0] && whole[1..] == a[1..] + [c] + b;
      SplitConcat(a[1..], c, b);
      Prepended(a[0], c, Split(a[1..], c), Split(b, c));
    }
  }

  // Adding a character in front of a split text changes its first part only, or adds a part.
  function Prepend(x: char, c: char, parts: seq<string>): seq<string>
    requires |parts| >= 1
  {
    if x == c then [""] + parts else [[x] + parts[0]] + parts[1..]
  }

  lemma Prepended(x: char, c: char, a: seq<string>, b: seq<string>)
    requires |a| >= 1
    ensures Prepend(x, c, a + b) == Prepend(x, c, a) + b
  {
    assert (a + b)[1..] == a[1..] + b;
  }

  lemma {:induction false} JoinConcat(a: seq<string>, b: seq<string>, c: char)
    requires |a| >= 1 && |b| >= 1
    ensures Join(a + b, c) == Join(a, c) + [c] + Join(b, c)
  {
    assert (a + b)[0] == a[0] && (a + b)[1..] == a[1..] + b;
    if |a| == 1 {
      assert a[1..] + b == b;
    } else {
      JoinConcat(a[1..], b, c);
    }
  }

  predicate StartsWith(s: string, prefix: string) {
    |prefix| <= |s| && s[..|prefix|] == prefix
  }

  predicate OccursAt(s: string, word: string, k: nat) {
    k + |word| <= |s| && s[k..k + |word|] == word
  }

  predicate Contains(s: string, word: string) {
    exists k :: 0 <= k <= |s| - |word| && OccursAt(s, word, k)
  }

  lemma OccursFurther(a: string, s: string, b: string, word: string, k: nat)
    requires OccursAt(s, word, k)
    ensures OccursAt(a + s + b, word, |a| + k)
  {
    assert (a + s + b)[|a| + k..|a| + k + |word|] == s[k..k + |word|];
  }

  // s.lastIndexOf(word), with -1 for no occurrence.
  function LastIndexOf(s: string, word: string): (k: int)
    ensures -1 <= k
    ensures k >= 0 ==> OccursAt(s, word, k)
    ensures forall j: nat :: j > k ==> !OccursAt(s, word, j)
  {
    LastIndexUpTo(s, word, |s|)
  }

  function LastIndexUpTo(s: string, word: string, n: nat): (k: int)
    requires n <= |s|
    ensures -1 <= k <= n
    ensures k >= 0 ==> OccursAt(s, word, k)
    ensures forall j: nat :: k < j <= n ==> !OccursAt(s, word, j)
  {
    if OccursAt(s, word, n) then n else if n == 0 then -1 else LastIndexUpTo(s, word, n - 1)
  }

  // The order of the default sort: code unit by code unit, a prefix first.
  predicate Less(a: string, b: string) {
    b != "" && (a == "" || a[0] < b[0] || (a[0] == b[0] && Less(a[1..], b[1..])))
  }

  lemma {:induction false} LessAsymmetric(a: string, b: string)
    requires Less(a, b)
    ensures !Less(b, a) && a != b
  {
    if a != "" && a[0] == b[0] {
      LessAsymmetric(a[1..], b[1..]);
    }
  }

  lemma {:induction false} LessTransitive(a: string, b: string, c: string)
    requires Less(a, b) && Less(b, c)
    ensures Less(a, c)
  {
    if a != "" && a[0] == b[0] && b[0] == c[0] {
      LessTransitive(a[1..], b[1..], c[1..]);
    }
  }

  lemma {:induction false} LessTotal(a: string, b: string)
    requires a != b
    ensures Less(a, b) || Less(b, a)
  {
    if a != "" && b != "" && a[0] == b[0] {
      assert a == [a[0]] + a[1..] && b == [b[0]] + b[1..];
      LessTotal(a[1..], b[1..]);
    }
  }

  predicate IsLeast(ids: set<string>, id: string) {
    id in ids && forall j :: j in ids && j != id ==> Less(id, j)
  }

  lemma {:induction false} LeastExists(ids: set<string>) returns (least: string)
    requires ids != {}
    ensures IsLeast(ids, least)
  {
    var id :| id in ids;
    if ids == {id} {
      least := id;
    } else {
      var rest := LeastExists(ids - {id});
      LessTotal(id, rest);
      least := if Less(id, rest) then id else rest;
      forall j | j in ids && j != least
        ensures Less(least, j)
      {
        if Less(id, rest) {
          if j != rest {
            LessTransitive(id, rest, j);
          }
        }
      }
    }
  }

  lemma LeastUnique(ids: set<string>, a: string, b: string)
    requires IsLeast(ids, a) && IsLeast(ids, b)
    ensures a == b
  {
    if a != b {
      LessAsymmetric(a, b);
    }
  }

  // Array.from(ids).sort()[0]
  function Least(ids: set<string>): (least: string)
    requires ids != {}
    ensures IsLeast(ids, least)
  {
    assert exists id :: id in ids && IsLeast(ids, id) by { var w := LeastExists(ids); }
    assert forall a, b :: a in ids && b in ids && IsLeast(ids, a) && IsLeast(ids, b) ==> a == b by {
      forall a, b | IsLeast(ids, a) && IsLeast(ids, b) ensures a == b { LeastUnique(ids, a, b); }
    }
    var least :| least in ids && IsLeast(ids, least);
    least
  }

  // Array.from(ids).sort()
  function Sorted(ids: set<string>): (sorted: seq<string>)
    ensures forall id :: id in sorted <==> id in ids
    ensures forall i, j :: 0 <= i < j < |sorted| ==> Less(sorted[i], sorted[j])
  {
    if ids == {} then []
    else
      var first := Least(ids);
      [first] + Sorted(ids - {first})
  }
}
