// Which field names count as secret.
module SensitiveKeys {
  import opened Text

  predicate IsSeparator(c: char) {
    c == '-' || c == '_'
  }

  // toLowerCase on one character. Only the Kelvin sign and the dotted capital I have a
  // lower case that begins with an ASCII letter; every other non-ASCII character lowers to
  // non-ASCII ones, which occur in none of the words below.
  function Lower(c: char): string {
    if 'A' <= c <= 'Z' then [(c as int + 32) as char]
    else if c == '\U{212A}' then "k"
    else if c == '\U{0130}' then ['i', '\U{0307}']
    else [c]
  }

  // key.replace(/[-_]/g, '').toLowerCase()
  function Normalized(key: string): string {
    if key == "" then "" else (if IsSeparator(key[0]) then "" else Lower(key[0])) + Normalized(key[1..])
  }

  const EXACT_WORDS := ["authorization", "key", "authconf", "cookie", "privatekey", "setcookie"]
  const PARTIAL_WORDS := ["token", "secret", "password", "credential", "apikey", "proxykey"]

  predicate IsSensitiveKey(key: string) {
    var n := Normalized(key);
    n in EXACT_WORDS || exists w :: w in PARTIAL_WORDS && Contains(n, w)
  }

  lemma {:induction false} NormalizedAppend(a: string, b: string)
    ensures Normalized(a + b) == Normalized(a) + Normalized(b)
  {
    if a == "" {
      assert a + b == b;
    } else {
      NormalizedAppend(a[1..], b);
      assert (a + b)[0] == a[0] && (a + b)[1..] == a[1..] + b;
      var first := if IsSeparator(a[0]) then "" else Lower(a[0]);
      assert first + (Normalized(a[1..]) + Normalized(b)) == first + Normalized(a[1..]) + Normalized(b);
    }
  }

  // Separators can be put anywhere in a name without changing whether it is secret.
  lemma SeparatorsDontMatter(a: string, c: char, b: string)
    requires c == '-' || c == '_'
    ensures IsSensitiveKey(a + [c] + b) <==> IsSensitiveKey(a + b)
  {
    assert [c][1..] == "" && Normalized([c]) == "";
    NormalizedAppend(a + [c], b);
    NormalizedAppend(a, [c]);
    NormalizedAppend(a, b);
    assert Normalized(a) + "" == Normalized(a);
  }

  const UPPER_CASE := "ABCDEFGHIJKLMNOPQRSTUVWXYZ"
  const LOWER_CASE := "abcdefghijklmnopqrstuvwxyz"

  // Neither does the case of an ASCII letter, and two other characters count as ASCII ones.
  lemma CaseDoesntMatter(a: string, i: nat, b: string)
    requires i < 26
    ensures IsSensitiveKey(a + [UPPER_CASE[i]] + b) <==> IsSensitiveKey(a + [LOWER_CASE[i]] + b)
    ensures IsSensitiveKey(a + "\U{212A}" + b) <==> IsSensitiveKey(a + "k" + b)
    ensures IsSensitiveKey(a + "\U{0130}" + b) <==> IsSensitiveKey(a + "i\U{0307}" + b)
  {
    Letters(i);
    SameNormal(a, [UPPER_CASE[i]], [LOWER_CASE[i]], b);
    OneNormal('\U{212A}');
    OneNormal('k');
    SameNormal(a, "\U{212A}", "k", b);
    OneNormal('\U{0130}');
    OneNormal('i');
    OneNormal('\U{0307}');
    NormalizedAppend("i", "\U{0307}");
    assert "i" + "\U{0307}" == "i\U{0307}";
    SameNormal(a, "\U{0130}", "i\U{0307}", b);
  }

  lemma OneNormal(c: char)
    requires !IsSeparator(c)
    ensures Normalized([c]) == Lower(c)
  {
    assert [c][1..] == "" && Lower(c) + "" == Lower(c);
  }

  lemma Letters(i: nat)
    requires i < 26
    ensures Normalized([UPPER_CASE[i]]) == [LOWER_CASE[i]] == Normalized([LOWER_CASE[i]])
  {
    var u, l := UPPER_CASE[i], LOWER_CASE[i];
    assert 'A' <= u <= 'Z' && l == (u as int + 32) as char;
    OneNormal(u);
    OneNormal(l);
  }

  lemma SameNormal(a: string, c: string, d: string, b: string)
    requires Normalized(c) == Normalized(d)
    ensures IsSensitiveKey(a + c + b) <==> IsSensitiveKey(a + d + b)
  {
    NormalizedAppend(a + c, b);
    NormalizedAppend(a, c);
    NormalizedAppend(a + d, b);
    NormalizedAppend(a, d);
  }

  // A name containing one of the partial words stays secret in any longer name.
  lemma LongerNameStaysSecret(a: string, key: string, b: string, word: string)
    requires word in ["token", "secret", "password", "credential", "apikey", "proxykey"]
    requires Contains(Normalized(key), word)
    ensures IsSensitiveKey(a + key + b)
  {
    NormalizedAppend(a + key, b);
    NormalizedAppend(a, key);
    var n := Normalized(key);
    var k: nat :| 0 <= k <= |n| - |word| && OccursAt(n, word, k);
    OccursFurther(Normalized(a), n, Normalized(b), word, k);
    var whole := Normalized(a + key + b);
    assert whole == Normalized(a) + n + Normalized(b);
    assert OccursAt(whole, word, |Normalized(a)| + k);
    assert Contains(whole, word);
  }

  // The exact condition: a name stays secret in every longer name if and only if it contains one of the
  // partial words.
  lemma StaysSecretIff(key: string)
    ensures (forall a, b :: IsSensitiveKey(a + key + b)) <==> exists w :: w in PARTIAL_WORDS && Contains(Normalized(key), w)
  {
    if w :| w in PARTIAL_WORDS && Contains(Normalized(key), w) {
      forall a, b
        ensures IsSensitiveKey(a + key + b)
      {
        LongerNameStaysSecret(a, key, b, w);
      }
    } else {
      BetweenDots(key);
      assert !IsSensitiveKey("." + key + ".");
    }
  }

  // A dot occurs in no word, so dots around a name add no word to it.
  lemma BetweenDots(key: string)
    requires forall w :: w in PARTIAL_WORDS ==> !Contains(Normalized(key), w)
    ensures !IsSensitiveKey("." + key + ".")
  {
    var n := Normalized(key);
    DottedNormal(key);
    hide Normalized, Contains;
    NoDots();
    var whole := "." + n + ".";
    assert whole[0] == '.';
    forall w | w in PARTIAL_WORDS
      ensures !Contains(whole, w)
    {
      DotsAddNoWord(n, w);
    }
  }

  lemma DottedNormal(key: string)
    ensures Normalized("." + key + ".") == "." + Normalized(key) + "."
  {
    assert "."[1..] == "" && Lower('.') == ".";
    assert Normalized(".") == "." + Normalized("") == ".";
    NormalizedAppend("." + key, ".");
    NormalizedAppend(".", key);
  }

  lemma DotsAddNoWord(n: string, w: string)
    requires w != "" && w[0] != '.' && w[|w| - 1] != '.' && !Contains(n, w)
    ensures !Contains("." + n + ".", w)
  {
    var whole := "." + n + ".";
    forall k: nat | k + |w| <= |whole|
      ensures !OccursAt(whole, w, k)
    {
      assert whole[k..k + |w|][0] == whole[k] && whole[k..k + |w|][|w| - 1] == whole[k + |w| - 1];
      if 0 < k && k + |w| < |whole| {
        assert whole[k..k + |w|] == n[k - 1..k - 1 + |w|];
        assert !OccursAt(n, w, k - 1);
      }
    }
  }

  lemma NoDots()
    ensures forall w :: w in EXACT_WORDS ==> w != "" && w[0] != '.'
    ensures forall w :: w in PARTIAL_WORDS ==> w != "" && w[0] != '.' && w[|w| - 1] != '.'
  {
  }

  // Each exact word is secret on its own, and not in every longer name.
  lemma ExactWordsAreExact(word: string)
    requires word in ["authorization", "key", "authconf", "cookie", "privatekey", "setcookie"]
    ensures IsSensitiveKey(word) && exists a, b :: !IsSensitiveKey(a + word + b)
  {
    assert forall i :: 0 <= i < |word| ==> 'a' <= word[i] <= 'z';
    LowerCaseUnchanged(word);
    forall w, k: nat | w in PARTIAL_WORDS && k + |w| <= |word|
      ensures !OccursAt(word, w, k)
    {
      NotInExactWord(word, w, k);
    }
    StaysSecretIff(word);
  }

  // Three letters tell the words apart.
  lemma NotInExactWord(word: string, w: string, k: nat)
    requires word in EXACT_WORDS && w in PARTIAL_WORDS && k + |w| <= |word|
    ensures !OccursAt(word, w, k)
  {
    assert |w| >= 5;
    var found := word[k..k + |w|];
    assert found[0] == word[k] && found[1] == word[k + 1] && found[2] == word[k + 2];
    assert word[k] != w[0] || word[k + 1] != w[1] || word[k + 2] != w[2];
  }

  lemma {:induction false} LowerCaseUnchanged(s: string)
    requires forall i :: 0 <= i < |s| ==> 'a' <= s[i] <= 'z'
    ensures Normalized(s) == s
  {
    if s != "" {
      LowerCaseUnchanged(s[1..]);
      assert Lower(s[0]) == [s[0]] && [s[0]] + s[1..] == s;
    }
  }
}
