// Names of tools, resources and prompts as a client sees them: the downstream name, a
// separator and the id of the server instance.
module Names {
  import opened Wrappers
  import opened Numbers
  import opened Text

  const SEPARATOR := "_-_"

  function GenerateNewName(id: string, name: string): string {
    name + SEPARATOR + id
  }

  datatype Parts = Parts(id: string, name: string)

  // The text part of parseName: split at the last separator.
  function SplitName(text: string): Option<Parts> {
    var index := LastIndexOf(text, SEPARATOR);
    if index == -1 then None else Some(Parts(text[index + 3..], text[..index]))
  }

  predicate SafeId(id: string) {
    !Contains(id, SEPARATOR) && !StartsWith(id, "-_")
  }

  // A generated name splits back exactly when the id is safe, whatever the name contains.
  lemma SplitsBackIffSafe(id: string, name: string)
    ensures SplitName(GenerateNewName(id, name)) == Some(Parts(id, name)) <==> SafeId(id)
  {
    var text := GenerateNewName(id, name);
    var n := |name|;
    assert text[n..n + 3] == SEPARATOR && text[n + 3..] == id && text[..n] == name;
    assert OccursAt(text, SEPARATOR, n);
    if SafeId(id) {
      forall j: nat | j > n
        ensures !OccursAt(text, SEPARATOR, j)
      {
        NoLaterSeparator(id, name, j);
      }
      assert LastIndexOf(text, SEPARATOR) == n;
    } else {
      var j := LaterSeparator(id, name);
      assert |text[..LastIndexOf(text, SEPARATOR)]| != n;
    }
  }

  // An unsafe id puts a later separator into the generated name.
  lemma LaterSeparator(id: string, name: string) returns (j: nat)
    requires !SafeId(id)
    ensures j > |name| && OccursAt(GenerateNewName(id, name), SEPARATOR, j)
  {
    var text, n := GenerateNewName(id, name), |name|;
    if StartsWith(id, "-_") {
      j := n + 2;
      assert id[..2][0] == id[0] == '-' && id[..2][1] == id[1] == '_';
      assert text[j..j + 3] == [SEPARATOR[2], id[0], id[1]] == SEPARATOR;
    } else {
      var k: nat :| 0 <= k <= |id| - 3 && OccursAt(id, SEPARATOR, k);
      j := n + 3 + k;
      assert text[j..j + 3] == id[k..k + 3];
    }
  }

  lemma NoLaterSeparator(id: string, name: string, j: nat)
    requires SafeId(id) && j > |name|
    ensures !OccursAt(GenerateNewName(id, name), SEPARATOR, j)
  {
    var text, n := GenerateNewName(id, name), |name|;
    if j + 3 <= |text| {
      var found := text[j..j + 3];
      assert found[0] == text[j];
      if j == n + 2 {
        assert found[1..] == id[..2];
        assert SEPARATOR[1..] == "-_";
      } else if j >= n + 3 {
        assert found == id[j - n - 3..j - n];
        assert !OccursAt(id, SEPARATOR, j - n - 3);
      }
    }
  }

  // The instance ids, decimal numbers, are all safe.
  lemma DecimalIdsAreSafe(n: nat)
    ensures SafeId(ToString(n))
  {
    DecimalDigits(n);
    var id := ToString(n);
    forall k: nat | k <= |id| - 3
      ensures !OccursAt(id, SEPARATOR, k)
    {
      if k + 3 <= |id| {
        assert id[k..k + 3][0] == id[k] && SEPARATOR[0] == '_';
      }
    }
    assert "-_"[0] == '-';
    assert |id| >= 2 ==> id[..2][0] == id[0];
  }

  // With safe ids two generated names coincide only for the same id and name.
  lemma GeneratedNamesAreDistinct(id: string, name: string, otherId: string, otherName: string)
    requires SafeId(id) && SafeId(otherId)
    requires GenerateNewName(id, name) == GenerateNewName(otherId, otherName)
    ensures id == otherId && name == otherName
  {
    SplitsBackIffSafe(id, name);
    SplitsBackIffSafe(otherId, otherName);
  }

  // Some name under one id and some other under the other make the same generated name.
  ghost predicate Collide(id: string, other: string) {
    exists name, otherName :: (id != other || name != otherName) && GenerateNewName(id, name) == GenerateNewName(other, otherName)
  }

  predicate EndsWith(s: string, suffix: string) {
    |suffix| <= |s| && s[|s| - |suffix|..] == suffix
  }

  // The exact condition, of any two ids, the longer first: they collide if and only if the longer one
  // is "-_" and the other, or ends with the separator and the other.
  lemma CollideIff(id: string, other: string)
    requires |id| >= |other|
    ensures Collide(id, other) <==> id == "-_" + other || EndsWith(id, SEPARATOR + other)
  {
    if id == "-_" + other || EndsWith(id, SEPARATOR + other) {
      CollidingNames(id, other);
    }
    forall name, otherName
      | (id != other || name != otherName) && GenerateNewName(id, name) == GenerateNewName(other, otherName)
      ensures id == "-_" + other || EndsWith(id, SEPARATOR + other)
    {
      SameNameEnds(id, name, other, otherName);
    }
  }

  lemma CollidingNames(id: string, other: string)
    requires id == "-_" + other || EndsWith(id, SEPARATOR + other)
    ensures Collide(id, other)
  {
    var text := GenerateNewName(id, "");
    var n := |text| - |other| - 3;
    assert text == SEPARATOR + id;
    if id == "-_" + other {
      assert text[n..] == SEPARATOR + other;
    } else {
      assert text[n..] == id[n - 3..];
    }
    assert text == GenerateNewName(other, text[..n]);
  }

  lemma SameNameEnds(id: string, name: string, other: string, otherName: string)
    requires |id| >= |other| && (id != other || name != otherName)
    requires GenerateNewName(id, name) == GenerateNewName(other, otherName)
    ensures id == "-_" + other || EndsWith(id, SEPARATOR + other)
  {
    var text, d := GenerateNewName(id, name), |id| - |other|;
    assert text[|name| + 3..] == id && text[|otherName| + 3..] == other;
    assert text[|otherName|..] == SEPARATOR + other && |otherName| == |name| + d;
    assert text[..|name|] == name && text[..|otherName|] == otherName;
    assert text[|name| + 1] == '-' && text[|otherName|] == '_';
    if d == 2 {
      assert id[0] == text[|otherName| + 1] == '-' && id[1] == text[|otherName| + 2] == '_' && id[2..] == other;
    } else if d >= 3 {
      assert id[d - 3..] == text[|otherName|..];
    }
  }

  lemma UnsafeIdsCollide()
    ensures Collide("b_-_c", "c") && Collide("-_c", "c") && !Collide("-_b", "-_a")
  {
    assert EndsWith("b_-_c", SEPARATOR + "c");
    assert "-_c" == "-_" + "c";
    CollideIff("b_-_c", "c");
    CollideIff("-_c", "c");
    CollideIff("-_b", "-_a");
    assert |"-_" + "-_a"| == 5;
  }
}
