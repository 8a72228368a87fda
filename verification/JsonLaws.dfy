// The laws asked of a JSON printer and parser can be met together: a codec with a plain
// prefix code for the printer meets them.
module JsonLaws {
  import opened Wrappers
  import opened Json

  function Unary(n: nat): string {
    if n == 0 then "." else "|" + Unary(n - 1)
  }

  function Signed(n: int): string {
    if n < 0 then "-" + Unary(-n) else "+" + Unary(n)
  }

  // A code is a character for the kind of value and up to two parts.
  function Tag(v: Json): char {
    match v
    case Null => 'n'
    case NonFinite => 'n'
    case Bool(flag) => if flag then 't' else 'f'
    case Number(_, _) => '#'
    case Str(_) => 's'
    case Arr(_) => 'a'
    case Obj(_) => 'o'
  }

  function Code(v: Json): (string, string)
    decreases v, 0
  {
    match v
    case Number(m, e) => (Signed(m), Signed(e))
    case Str(text) => (Unary(|text|), text)
    case Arr(items) => (Unary(|items|), EncodeItems(items))
    case Obj(members) => (Unary(|members|), EncodeMembers(members))
    case _ => ("", "")
  }

  function Encode(v: Json): string
    decreases v, 1
  {
    [Tag(v)] + (Code(v).0 + Code(v).1)
  }

  function EncodeItems(items: seq<Json>): string {
    if items == [] then "" else Encode(items[0]) + EncodeItems(items[1..])
  }

  function EncodeMembers(members: seq<Member>): string {
    if members == [] then ""
    else Unary(|members[0].key|) + (members[0].key + (Encode(members[0].value) + EncodeMembers(members[1..])))
  }

  lemma {:induction false} UnaryUnique(m: nat, n: nat, x: string, y: string)
    requires Unary(m) + x == Unary(n) + y
    ensures m == n && x == y
  {
    assert (Unary(m) + x)[0] == (Unary(n) + y)[0];
    if m > 0 && n > 0 {
      assert (Unary(m) + x)[1..] == Unary(m - 1) + x && (Unary(n) + y)[1..] == Unary(n - 1) + y;
      UnaryUnique(m - 1, n - 1, x, y);
    } else {
      assert (Unary(m) + x)[1..] == x && (Unary(n) + y)[1..] == y;
    }
  }

  lemma SignedUnique(m: int, n: int, x: string, y: string)
    requires Signed(m) + x == Signed(n) + y
    ensures m == n && x == y
  {
    var j, k: nat := if m < 0 then -m else m, if n < 0 then -n else n;
    assert Signed(m) == [if m < 0 then '-' else '+'] + Unary(j);
    assert Signed(n) == [if n < 0 then '-' else '+'] + Unary(k);
    Headed(if m < 0 then '-' else '+', Unary(j), "", x);
    Headed(if n < 0 then '-' else '+', Unary(k), "", y);
    hide Unary, Signed;
    assert "" + x == x && "" + y == y && Unary(j) + "" == Unary(j) && Unary(k) + "" == Unary(k);
    UnaryUnique(j, k, x, y);
  }

  // What follows the first character of a code.
  lemma Headed(tag: char, a: string, b: string, x: string)
    ensures var whole := [tag] + (a + b) + x;
            whole[0] == tag && whole[1..] == a + (b + x)
  {
  }

  // A text of known length and what follows it.
  lemma TextUnique(a: string, b: string, x: string, y: string)
    requires Unary(|a|) + (a + x) == Unary(|b|) + (b + y)
    ensures a == b && x == y
  {
    UnaryUnique(|a|, |b|, a + x, b + y);
    assert a == (a + x)[..|a|] && x == (a + x)[|a|..];
    assert b == (b + y)[..|b|] && y == (b + y)[|b|..];
  }

  // Texts with the same code, whatever follows, belong to values that print alike.
  lemma {:induction false} EncodeUnique(v: Json, w: Json, x: string, y: string)
    requires Encode(v) + x == Encode(w) + y
    ensures Printed(v) == Printed(w) && x == y
    decreases v, 0
  {
    hide Unary, Signed, EncodeItems, EncodeMembers;
    var (a, b) := Code(v);
    var (c, d) := Code(w);
    Headed(Tag(v), a, b, x);
    Headed(Tag(w), c, d, y);
    assert Tag(v) == Tag(w) && a + (b + x) == c + (d + y);
    match v
    case Number(m, e) =>
      SignedUnique(m, w.mantissa, b + x, d + y);
      SignedUnique(e, w.exponent, x, y);
    case Str(text) =>
      TextUnique(text, w.text, x, y);
    case Arr(items) =>
      UnaryUnique(|items|, |w.items|, b + x, d + y);
      ItemsUnique(items, w.items, x, y);
      assert Printed(v).items == Printed(w).items;
    case Obj(members) =>
      UnaryUnique(|members|, |w.members|, b + x, d + y);
      MembersUnique(members, w.members, x, y);
      assert Printed(v).members == Printed(w).members;
    case _ =>
      assert a + (b + x) == x && c + (d + y) == y;
  }

  lemma {:induction false} ItemsUnique(a: seq<Json>, b: seq<Json>, x: string, y: string)
    requires |a| == |b| && EncodeItems(a) + x == EncodeItems(b) + y
    ensures x == y && forall i :: 0 <= i < |a| ==> Printed(a[i]) == Printed(b[i])
    decreases a, 1
  {
    hide Encode, Printed;
    if a == [] {
      assert "" + x == x && "" + y == y;
    } else {
      assert EncodeItems(a) + x == Encode(a[0]) + (EncodeItems(a[1..]) + x);
      assert EncodeItems(b) + y == Encode(b[0]) + (EncodeItems(b[1..]) + y);
      EncodeUnique(a[0], b[0], EncodeItems(a[1..]) + x, EncodeItems(b[1..]) + y);
      ItemsUnique(a[1..], b[1..], x, y);
      forall i | 0 <= i < |a|
        ensures Printed(a[i]) == Printed(b[i])
      {
        assert i > 0 ==> a[i] == a[1..][i - 1] && b[i] == b[1..][i - 1];
      }
    }
  }

  lemma {:induction false} MembersUnique(a: seq<Member>, b: seq<Member>, x: string, y: string)
    requires |a| == |b| && EncodeMembers(a) + x == EncodeMembers(b) + y
    ensures x == y && forall i :: 0 <= i < |a| ==> a[i].key == b[i].key && Printed(a[i].value) == Printed(b[i].value)
    decreases a, 1
  {
    hide Encode, Printed, Unary;
    if a == [] {
      assert "" + x == x && "" + y == y;
    } else {
      var p, q := EncodeMembers(a[1..]) + x, EncodeMembers(b[1..]) + y;
      assert EncodeMembers(a) + x == Unary(|a[0].key|) + (a[0].key + (Encode(a[0].value) + p));
      assert EncodeMembers(b) + y == Unary(|b[0].key|) + (b[0].key + (Encode(b[0].value) + q));
      TextUnique(a[0].key, b[0].key, Encode(a[0].value) + p, Encode(b[0].value) + q);
      EncodeUnique(a[0].value, b[0].value, p, q);
      MembersUnique(a[1..], b[1..], x, y);
      forall i | 0 <= i < |a|
        ensures a[i].key == b[i].key && Printed(a[i].value) == Printed(b[i].value)
      {
        assert i > 0 ==> a[i] == a[1..][i - 1] && b[i] == b[1..][i - 1];
      }
    }
  }

  lemma {:induction false} CodeIsLong(v: Json)
    ensures Weight(v) <= |Encode(v)|
    decreases v, 0
  {
    match v
    case Str(text) => UnaryLong(|text|);
    case Arr(items) => ItemsLong(items);
    case Obj(members) => MembersLong(members);
    case _ =>
  }

  lemma {:induction false} UnaryLong(n: nat)
    ensures |Unary(n)| == n + 1
  {
    if n > 0 {
      UnaryLong(n - 1);
    }
  }

  lemma {:induction false} ItemsLong(items: seq<Json>)
    ensures Weights(items) <= |EncodeItems(items)|
    decreases items, 1
  {
    if items != [] {
      CodeIsLong(items[0]);
      ItemsLong(items[1..]);
    }
  }

  lemma {:induction false} MembersLong(members: seq<Member>)
    ensures MemberWeights(members) <= |EncodeMembers(members)|
    decreases members, 1
  {
    if members != [] {
      CodeIsLong(members[0].value);
      MembersLong(members[1..]);
    }
  }

  lemma {:induction false} PrintedIsProper(v: Json)
    requires Proper(v)
    ensures Proper(Printed(v))
  {
    match v
    case Arr(items) =>
      forall i | 0 <= i < |items|
        ensures Proper(Printed(v).items[i])
      {
        PrintedIsProper(items[i]);
      }
    case Obj(members) =>
      forall i | 0 <= i < |members|
        ensures Proper(Printed(v).members[i].value)
      {
        PrintedIsProper(members[i].value);
      }
    case _ =>
  }

  ghost predicate IsCode(s: string, v: Json) {
    Proper(v) && Encode(v) == s
  }

  ghost function Decode(s: string): Option<Json> {
    if exists v :: IsCode(s, v) then
      var v :| IsCode(s, v);
      Some(Printed(v))
    else None
  }

  lemma PrintedWeight(v: Json)
    ensures Weight(Printed(v)) <= |Encode(v)|
  {
    CodeIsLong(Printed(v));
    PrintedCode(v);
  }

  // Printing before encoding makes no difference.
  lemma {:induction false} PrintedCode(v: Json)
    ensures Encode(Printed(v)) == Encode(v)
    decreases v, 0
  {
    match v
    case Arr(items) => PrintedItems(items, Printed(v).items);
    case Obj(members) => PrintedMembers(members, Printed(v).members);
    case _ =>
  }

  lemma {:induction false} PrintedItems(items: seq<Json>, printed: seq<Json>)
    requires |printed| == |items| && forall i :: 0 <= i < |items| ==> printed[i] == Printed(items[i])
    ensures EncodeItems(printed) == EncodeItems(items)
    decreases items, 1
  {
    if items != [] {
      PrintedCode(items[0]);
      PrintedItems(items[1..], printed[1..]);
    }
  }

  lemma {:induction false} PrintedMembers(members: seq<Member>, printed: seq<Member>)
    requires |printed| == |members|
    requires forall i :: 0 <= i < |members| ==> printed[i] == Member(members[i].key, Printed(members[i].value))
    ensures EncodeMembers(printed) == EncodeMembers(members)
    decreases members, 1
  {
    if members != [] {
      PrintedCode(members[0].value);
      PrintedMembers(members[1..], printed[1..]);
    }
  }

  lemma CodeOf(s: string, v: Json)
    requires IsCode(s, v)
    ensures Encode(v) == s
  {
  }

  lemma DecodedIsGood(s: string)
    requires Decode(s).Some?
    ensures Proper(Decode(s).value) && Weight(Decode(s).value) <= |s|
  {
    hide Encode, Proper, Printed, Weight;
    var v :| IsCode(s, v) && Decode(s) == Some(Printed(v));
    PrintedIsProper(v);
    PrintedWeight(v);
  }

  lemma DecodeEncoded(v: Json)
    requires Proper(v)
    ensures Decode(Encode(v)) == Some(Printed(v))
  {
    assert IsCode(Encode(v), v);
    var w :| IsCode(Encode(v), w) && Decode(Encode(v)) == Some(Printed(w));
    CodeOf(Encode(v), w);
    assert Encode(v) + "" == Encode(w) + "";
    EncodeUnique(v, w, "", "");
  }

  lemma RedactedIsNoCode()
    ensures Decode(REDACTED) == None
  {
    forall v
      ensures Encode(v) != REDACTED
    {
      assert Encode(v)[0] == Tag(v);
    }
  }

  // The laws hold together, whatever plain text is redacted to.
  lemma LawsCanBeMet(redactText: string -> string)
    ensures exists c: Codec :: Lawful(c) && c.redactText == redactText
  {
    hide Encode, Decode, Proper, Printed, Weight;
    var c := Codec(s => Decode(s), v => Encode(v), redactText);
    forall s
      ensures Shrinks(c, s) && ParsesProper(c, s)
    {
      if Decode(s).Some? {
        DecodedIsGood(s);
      }
    }
    forall v
      ensures RoundTrips(c, v)
    {
      if Proper(v) {
        DecodeEncoded(v);
      }
    }
    RedactedIsNoCode();
    assert Lawful(c);
  }
}
