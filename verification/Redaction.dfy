// Redaction of secrets in JSON, also in JSON text inside strings.
module Redaction {
  import opened Wrappers
  import opened Json
  import opened SensitiveKeys

  function RedactParsedValue(c: Codec, v: Json): Json
    requires Lawful(c)
    decreases Weight(v), 0
  {
    match v
    case Str(text) =>
      match c.parse(text) {
        case Some(u) =>
          assert Shrinks(c, text);
          Str(c.stringify(RedactParsedValue(c, u)))
        case None => Str(c.redactText(text))
      }
    case Arr(items) => Arr(seq(|items|, i requires 0 <= i < |items| => RedactParsedValue(c, items[i])))
    case Obj(members) => Obj(seq(|members|, i requires 0 <= i < |members| => RedactMember(c, members[i])))
    case _ => v
  }

  function RedactMember(c: Codec, m: Member): Member
    requires Lawful(c)
    decreases Weight(m.value), 1
  {
    Member(m.key, if IsSensitiveKey(m.key) then Str(REDACTED) else RedactParsedValue(c, m.value))
  }

  predicate ContainsSensitiveKey(c: Codec, v: Json)
    requires Lawful(c)
    decreases Weight(v)
  {
    match v
    case Str(text) =>
      match c.parse(text) {
        case Some(u) =>
          assert Shrinks(c, text);
          ContainsSensitiveKey(c, u)
        case None => false
      }
    case Arr(items) => exists i :: 0 <= i < |items| && ContainsSensitiveKey(c, items[i])
    case Obj(members) =>
      exists i :: 0 <= i < |members| && (IsSensitiveKey(members[i].key) || ContainsSensitiveKey(c, members[i].value))
    case _ => false
  }

  function RedactStructuredField(c: Codec, value: Option<string>): Option<string>
    requires Lawful(c)
  {
    match value
    case None => None
    case Some(s) =>
      match c.parse(s)
      case Some(v) => Some(c.stringify(RedactParsedValue(c, v)))
      case None => Some(c.redactText(s))
  }

  function RedactError(c: Codec, value: string): string
    requires Lawful(c)
  {
    match c.parse(value)
    case None => c.redactText(value)
    case Some(v) =>
      if !ContainsSensitiveKey(c, v) then c.redactText(value)
      else
        var redacted := c.stringify(RedactParsedValue(c, v));
        var text := c.redactText(value);
        match c.parse(text)
        case Some(u) => if c.stringify(u) == redacted then text else redacted
        case None => redacted
  }

  /* ---------- what is found in a value ---------- */

  // A secret at a place: a field with a sensitive name.
  ghost predicate SecretAt(c: Codec, v: Json, path: seq<Step>, key: string) {
    IsSensitiveKey(key) && At(c, v, path + [Field(key)]).Some?
  }

  // containsSensitiveKey finds a secret exactly when some place holds one, at any depth and
  // inside any nesting of JSON text.
  lemma ContainsIffSecretSomewhere(c: Codec, v: Json)
    requires Lawful(c) && Proper(v)
    ensures ContainsSensitiveKey(c, v) <==> exists path, key :: SecretAt(c, v, path, key)
  {
    if ContainsSensitiveKey(c, v) {
      var path, key := FindSecret(c, v);
      assert SecretAt(c, v, path, key);
    }
    forall path, key | SecretAt(c, v, path, key)
      ensures ContainsSensitiveKey(c, v)
    {
      SecretIsFound(c, v, path, key);
    }
  }

  lemma {:induction false} FindSecret(c: Codec, v: Json) returns (path: seq<Step>, key: string)
    requires Lawful(c) && Proper(v) && ContainsSensitiveKey(c, v)
    ensures SecretAt(c, v, path, key)
    decreases Weight(v)
  {
    hide IsSensitiveKey;
    match v
    case Str(text) =>
      ParsedIsProper(c, text);
      ParsedLighter(c, text);
      path, key := FindSecret(c, c.parse(text).value);
      path := StepFirst(c, v, Inside, path, key);
    case Arr(items) =>
      var i :| 0 <= i < |items| && ContainsSensitiveKey(c, items[i]);
      path, key := FindSecret(c, items[i]);
      path := StepFirst(c, v, Item(i), path, key);
    case Obj(members) =>
      var i :| 0 <= i < |members| && (IsSensitiveKey(members[i].key) || ContainsSensitiveKey(c, members[i].value));
      FindAt(members, i);
      if IsSensitiveKey(members[i].key) {
        path, key := [], members[i].key;
        assert [] + [Field(key)] == [Field(key)] && [Field(key)][1..] == [];
        assert Into(c, v, Field(key)) == Some(members[i].value);
        assert At(c, members[i].value, []) == Some(members[i].value);
      } else {
        path, key := FindSecret(c, members[i].value);
        path := StepFirst(c, v, Field(members[i].key), path, key);
      }
  }

  lemma ParsedLighter(c: Codec, text: string)
    requires Lawful(c) && c.parse(text).Some?
    ensures Weight(c.parse(text).value) < Weight(Str(text))
  {
    assert Shrinks(c, text);
  }

  lemma FindAt(members: seq<Member>, i: nat)
    requires i < |members| && Proper(Obj(members))
    ensures Find(members, members[i].key) == i
  {
    var k := Find(members, members[i].key);
    assert k < i ==> InKeyOrder(members[k].key, members[i].key);
  }

  lemma StepFirst(c: Codec, v: Json, step: Step, rest: seq<Step>, key: string) returns (path: seq<Step>)
    requires Into(c, v, step).Some? && SecretAt(c, Into(c, v, step).value, rest, key)
    ensures path == [step] + rest && SecretAt(c, v, path, key)
  {
    path := [step] + rest;
    assert (path + [Field(key)])[1..] == rest + [Field(key)];
  }

  lemma {:induction false} SecretIsFound(c: Codec, v: Json, path: seq<Step>, key: string)
    requires Lawful(c) && SecretAt(c, v, path, key)
    ensures ContainsSensitiveKey(c, v)
    decreases path
  {
    hide IsSensitiveKey;
    var whole := path + [Field(key)];
    if path == [] {
      assert whole[0] == Field(key);
      assert v.members[Find(v.members, key)].key == key;
    } else {
      assert whole[0] == path[0] && whole[1..] == path[1..] + [Field(key)];
      SecretIsFound(c, Into(c, v, path[0]).value, path[1..], key);
    }
  }

  /* ---------- what redaction leaves ---------- */

  // Keys, array lengths and plain values stay; every name keeps its position, and text that
  // is not JSON is redacted as text.
  lemma ShapeIsKept(c: Codec, v: Json)
    requires Lawful(c)
    ensures var r := RedactParsedValue(c, v);
            && (v.Obj? <==> r.Obj?) && (v.Arr? <==> r.Arr?) && (v.Str? <==> r.Str?)
            && (v.Obj? ==> |r.members| == |v.members| && forall i :: 0 <= i < |v.members| ==> r.members[i].key == v.members[i].key)
            && (v.Arr? ==> |r.items| == |v.items|)
            && (v.Str? && c.parse(v.text).None? ==> r.text == c.redactText(v.text))
            && (!v.Obj? && !v.Arr? && !v.Str? ==> r == v)
  {
  }

  lemma RedactedObject(c: Codec, members: seq<Member>)
    requires Lawful(c)
    ensures var r := RedactParsedValue(c, Obj(members));
            r.Obj? && |r.members| == |members| && forall i :: 0 <= i < |members| ==> r.members[i] == RedactMember(c, members[i])
  {
    hide IsSensitiveKey;
  }

  lemma {:induction false} RedactedIsProper(c: Codec, v: Json)
    requires Lawful(c) && Proper(v)
    ensures Proper(RedactParsedValue(c, v))
  {
    var r := RedactParsedValue(c, v);
    match v
    case Arr(items) =>
      forall i | 0 <= i < |items|
        ensures Proper(r.items[i])
      {
        RedactedIsProper(c, items[i]);
      }
    case Obj(members) =>
      RedactedObject(c, members);
      forall i | 0 <= i < |members|
        ensures Proper(r.members[i].value)
      {
        RedactedIsProper(c, members[i].value);
      }
    case _ =>
  }

  predicate Shielded(path: seq<Step>) {
    exists i :: 0 <= i < |path| && path[i].Field? && IsSensitiveKey(path[i].name)
  }

  // One step into a redacted value, for a step that no sensitive name guards: what is there is
  // the redaction of what was there.
  lemma IntoRedacted(c: Codec, v: Json, step: Step)
    requires Lawful(c) && Proper(v) && Into(c, v, step).Some?
    requires !(step.Field? && IsSensitiveKey(step.name))
    ensures Into(c, RedactParsedValue(c, v), step).Some?
    ensures Printed(Into(c, RedactParsedValue(c, v), step).value) == Printed(RedactParsedValue(c, Into(c, v, step).value))
  {
    hide IsSensitiveKey;
    var r := RedactParsedValue(c, v);
    match step
    case Field(name) =>
      RedactedObject(c, v.members);
      FindSame(v.members, r.members, name);
    case Item(i) =>
      assert r.items[i] == RedactParsedValue(c, v.items[i]);
    case Inside =>
      var u := RedactParsedValue(c, c.parse(v.text).value);
      ParsedIsProper(c, v.text);
      RedactedIsProper(c, c.parse(v.text).value);
      RoundTrip(c, u);
      PrintedTwice(u);
  }

  lemma IntoProper(c: Codec, v: Json, step: Step)
    requires Lawful(c) && Proper(v) && Into(c, v, step).Some?
    ensures Proper(Into(c, v, step).value)
  {
    if step.Inside? {
      ParsedIsProper(c, v.text);
    }
  }

  // At every place that no sensitive name guards, the output prints as the redaction of
  // what the input has there.
  lemma {:induction false} UnguardedPlaces(c: Codec, v: Json, path: seq<Step>)
    requires Lawful(c) && Proper(v) && At(c, v, path).Some? && !Shielded(path)
    ensures At(c, RedactParsedValue(c, v), path).Some?
    ensures Printed(At(c, RedactParsedValue(c, v), path).value) == Printed(RedactParsedValue(c, At(c, v, path).value))
    decreases path
  {
    hide IsSensitiveKey, RedactParsedValue, Proper, Into, Printed;
    if path != [] {
      var u := Into(c, v, path[0]).value;
      assert !(path[0].Field? && IsSensitiveKey(path[0].name));
      IntoRedacted(c, v, path[0]);
      IntoProper(c, v, path[0]);
      assert !Shielded(path[1..]);
      UnguardedPlaces(c, u, path[1..]);
      var r := RedactParsedValue(c, v);
      AtPrinted(c, Into(c, r, path[0]).value, RedactParsedValue(c, u), path[1..]);
    }
  }

  // Every secret of the input, at any depth and inside any nesting of JSON text, is replaced
  // at its outermost sensitive name, and nothing below that name remains.
  lemma SecretsAreReplaced(c: Codec, v: Json, path: seq<Step>, key: string, rest: seq<Step>)
    requires Lawful(c) && Proper(v) && !Shielded(path) && SecretAt(c, v, path, key)
    ensures At(c, RedactParsedValue(c, v), path + [Field(key)]) == Some(Str(REDACTED))
    ensures rest != [] ==> At(c, RedactParsedValue(c, v), path + [Field(key)] + rest) == None
  {
    hide IsSensitiveKey;
    hide RedactParsedValue, Proper, Into;
    var r := RedactParsedValue(c, v);
    AtAppend(c, v, path, [Field(key)]);
    var u := At(c, v, path).value;
    AtOne(c, u, Field(key));
    UnguardedPlaces(c, v, path);
    var s := At(c, r, path).value;
    FieldRedacted(c, u, key);
    IntoPrinted(c, s, RedactParsedValue(c, u), Field(key));
    AtAppend(c, r, path, [Field(key)]);
    AtOne(c, s, Field(key));
    AtAppend(c, r, path + [Field(key)], rest);
    NothingBelow(c, rest);
    PrintedText(Into(c, s, Field(key)).value, REDACTED);
    assert Into(c, s, Field(key)) == Some(Str(REDACTED));
  }

  lemma NothingBelow(c: Codec, rest: seq<Step>)
    requires Lawful(c)
    ensures rest != [] ==> At(c, Str(REDACTED), rest) == None
  {
  }

  lemma PrintedText(v: Json, text: string)
    requires Printed(v) == Printed(Str(text))
    ensures v == Str(text)
  {
  }

  lemma AtOne(c: Codec, v: Json, step: Step)
    ensures At(c, v, [step]) == Into(c, v, step)
  {
    assert [step][1..] == [];
  }

  lemma FieldRedacted(c: Codec, v: Json, key: string)
    requires Lawful(c) && IsSensitiveKey(key) && Into(c, v, Field(key)).Some?
    ensures Into(c, RedactParsedValue(c, v), Field(key)) == Some(Str(REDACTED))
  {
    hide IsSensitiveKey;
    RedactedObject(c, v.members);
    FindSame(v.members, RedactParsedValue(c, v).members, key);
  }

  // Redaction invents no place: whatever the output has outside strings, the input had.
  lemma {:induction false} NoNewPlaces(c: Codec, v: Json, path: seq<Step>)
    requires Lawful(c) && Inside !in path
    requires At(c, RedactParsedValue(c, v), path).Some?
    ensures At(c, v, path).Some?
    decreases path
  {
    hide IsSensitiveKey;
    if path != [] {
      var r, step := RedactParsedValue(c, v), path[0];
      assert path == [step] + path[1..];
      if step.Field? {
        RedactedObject(c, v.members);
        FindSame(v.members, r.members, step.name);
        if IsSensitiveKey(step.name) {
          NothingInText(c, REDACTED, path[1..]);
          assert path[1..] == [];
        } else {
          NoNewPlaces(c, Into(c, v, step).value, path[1..]);
        }
      } else {
        NoNewPlaces(c, v.items[step.index], path[1..]);
      }
    }
  }

  lemma NothingInText(c: Codec, text: string, path: seq<Step>)
    requires Inside !in path
    ensures At(c, Str(text), path).Some? ==> path == []
  {
  }

  /* ---------- the exported functions ---------- */

  // A structured field that is JSON becomes the text of its redaction.
  lemma StructuredFieldParses(c: Codec, s: string, v: Json)
    requires Lawful(c) && c.parse(s) == Some(v)
    ensures RedactStructuredField(c, Some(s)).Some?
    ensures c.parse(RedactStructuredField(c, Some(s)).value) == Some(Printed(RedactParsedValue(c, v)))
  {
    ParsedIsProper(c, s);
    RedactedIsProper(c, v);
    RoundTrip(c, RedactParsedValue(c, v));
  }

  // One that is not JSON has its text redacted, and an absent one stays absent.
  lemma OtherFieldIsRedactedAsText(c: Codec, s: string)
    requires Lawful(c) && c.parse(s) == None
    ensures RedactStructuredField(c, Some(s)) == Some(c.redactText(s))
    ensures RedactStructuredField(c, None) == None
  {
  }

  // Whichever branch redactError takes for JSON with a secret, the text it returns parses to
  // the redacted value.
  lemma ErrorParses(c: Codec, value: string, v: Json)
    requires Lawful(c) && c.parse(value) == Some(v) && ContainsSensitiveKey(c, v)
    ensures c.parse(RedactError(c, value)).Some?
    ensures Printed(c.parse(RedactError(c, value)).value) == Printed(RedactParsedValue(c, v))
  {
    hide ContainsSensitiveKey, RedactParsedValue, Proper, Printed;
    var r := RedactParsedValue(c, v);
    ParsedIsProper(c, value);
    RedactedIsProper(c, v);
    PrintedTwice(r);
    RoundTrip(c, r);
    var text := c.redactText(value);
    if c.parse(text).Some? {
      var u := c.parse(text).value;
      ParsedIsProper(c, text);
      RoundTrip(c, u);
    }
  }

  // Text that is not JSON, or JSON without a secret, only has its text redacted; and so has JSON
  // with a secret when that already gives the redacted value.
  lemma ErrorTextIsKept(c: Codec, value: string)
    requires Lawful(c)
    ensures (forall path, key :: c.parse(value).Some? ==> !SecretAt(c, c.parse(value).value, path, key))
            ==> RedactError(c, value) == c.redactText(value)
    ensures RedactError(c, value) != c.redactText(value)
            ==> c.parse(value).Some? && RedactError(c, value) == c.stringify(RedactParsedValue(c, c.parse(value).value))
  {
    hide SecretAt, ContainsSensitiveKey, RedactParsedValue;
    if c.parse(value).Some? {
      ParsedIsProper(c, value);
      ContainsIffSecretSomewhere(c, c.parse(value).value);
    }
  }

  // JSON with a secret stays the redacted text exactly when that text reads as the redacted value;
  // otherwise the redacted value is printed afresh.
  lemma ErrorTextIff(c: Codec, value: string, v: Json)
    requires Lawful(c) && c.parse(value) == Some(v) && ContainsSensitiveKey(c, v)
    ensures var text, redacted := c.redactText(value), c.stringify(RedactParsedValue(c, v));
            RedactError(c, value) ==
              if c.parse(text).Some? && c.stringify(c.parse(text).value) == redacted then text else redacted
  {
  }

  // So no secret of a JSON error survives redactError, wherever it stands.
  lemma ErrorSecretsAreReplaced(c: Codec, value: string, v: Json, path: seq<Step>, key: string)
    requires Lawful(c) && c.parse(value) == Some(v) && !Shielded(path) && SecretAt(c, v, path, key)
    ensures c.parse(RedactError(c, value)).Some?
    ensures At(c, c.parse(RedactError(c, value)).value, path + [Field(key)]) == Some(Str(REDACTED))
  {
    hide IsSensitiveKey, RedactParsedValue, RedactError, ContainsSensitiveKey, Proper, Printed, At;
    ParsedIsProper(c, value);
    ContainsIffSecretSomewhere(c, v);
    ErrorParses(c, value, v);
    SecretsAreReplaced(c, v, path, key, []);
    AtPrinted(c, c.parse(RedactError(c, value)).value, RedactParsedValue(c, v), path + [Field(key)]);
    PrintedText(At(c, c.parse(RedactError(c, value)).value, path + [Field(key)]).value, REDACTED);
  }
}
