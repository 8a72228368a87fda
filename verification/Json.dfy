// JSON values, an abstract printer and parser for them, and places inside a value,
// including inside JSON text that a string holds.
module Json {
  import opened Wrappers
  import opened Numbers

  // A number is mantissa * 2^exponent, for a real value in the one form IsDouble asks for;
  // NonFinite is what an overflowing literal parses to.
  datatype Json =
    | Null
    | Bool(flag: bool)
    | Number(mantissa: int, exponent: int)
    | NonFinite
    | Str(text: string)
    | Arr(items: seq<Json>)
    | Obj(members: seq<Member>)

  datatype Member = Member(key: string, value: Json)

  // A lower bound for the length of the text a value is parsed from.
  function Weight(v: Json): (w: nat)
    ensures w >= 1
  {
    match v
    case Str(text) => |text| + 2
    case Arr(items) => 1 + Weights(items)
    case Obj(members) => 1 + MemberWeights(members)
    case _ => 1
  }

  function Weights(items: seq<Json>): (w: nat)
    ensures forall i :: 0 <= i < |items| ==> Weight(items[i]) <= w
  {
    if items == [] then 0 else Weight(items[0]) + Weights(items[1..])
  }

  function MemberWeights(members: seq<Member>): (w: nat)
    ensures forall i :: 0 <= i < |members| ==> Weight(members[i].value) <= w
  {
    if members == [] then 0 else Weight(members[0].value) + MemberWeights(members[1..])
  }

  // An object lists array-index names first, in increasing order, and no name twice.
  ghost predicate IsIndex(key: string, n: nat) {
    n < TWO_32 - 1 && key == ToString(n)
  }

  ghost predicate InKeyOrder(before: string, after: string) {
    before != after && forall n :: IsIndex(after, n) ==> exists m :: m < n && IsIndex(before, m)
  }

  // The finite doubles, each in one form: zero, or an odd mantissa of at most 53 bits with an
  // exponent from the smallest subnormal to the largest number.
  predicate IsDouble(mantissa: int, exponent: int) {
    var size := if mantissa < 0 then -mantissa else mantissa;
    if size == 0 then exponent == 0
    else
      && size % 2 == 1 && size < 0x20_0000_0000_0000
      && -1074 <= exponent <= 1023
      && (exponent > 971 ==> size < Pow2(1024 - exponent))
  }

  ghost predicate Proper(v: Json) {
    match v
    case Number(mantissa, exponent) => IsDouble(mantissa, exponent)
    case Arr(items) => forall i :: 0 <= i < |items| ==> Proper(items[i])
    case Obj(members) =>
      && (forall i :: 0 <= i < |members| ==> Proper(members[i].value))
      && (forall i, j :: 0 <= i < j < |members| ==> InKeyOrder(members[i].key, members[j].key))
    case _ => true
  }

  // What is left of a value when it is printed: a non-finite number is printed as null.
  function Printed(v: Json): Json {
    match v
    case NonFinite => Null
    case Arr(items) => Arr(seq(|items|, i requires 0 <= i < |items| => Printed(items[i])))
    case Obj(members) =>
      Obj(seq(|members|, i requires 0 <= i < |members| => Member(members[i].key, Printed(members[i].value))))
    case _ => v
  }

  // JSON.parse (None where it throws), JSON.stringify, and the redaction of plain text.
  datatype Codec = Codec(parse: string -> Option<Json>, stringify: Json -> string, redactText: string -> string)

  const REDACTED := "[REDACTED]"

  // The three laws, for one text or value each.
  ghost predicate Shrinks(c: Codec, s: string) {
    c.parse(s).Some? ==> Weight(c.parse(s).value) <= |s|
  }

  ghost predicate ParsesProper(c: Codec, s: string) {
    c.parse(s).Some? ==> Proper(c.parse(s).value)
  }

  ghost predicate RoundTrips(c: Codec, v: Json) {
    Proper(v) ==> c.parse(c.stringify(v)) == Some(Printed(v))
  }

  // Parsing never gives more than the text holds, gives only real values, and undoes printing;
  // and the redaction mark is not JSON.
  ghost predicate Lawful(c: Codec) {
    && (forall s :: Shrinks(c, s))
    && (forall s :: ParsesProper(c, s))
    && (forall v :: RoundTrips(c, v))
    && c.parse(REDACTED) == None
  }

  lemma ParsedIsProper(c: Codec, s: string)
    requires Lawful(c) && c.parse(s).Some?
    ensures Proper(c.parse(s).value)
  {
    assert ParsesProper(c, s);
  }

  lemma RoundTrip(c: Codec, v: Json)
    requires Lawful(c) && Proper(v)
    ensures c.parse(c.stringify(v)) == Some(Printed(v))
  {
    assert RoundTrips(c, v);
  }

  /* ---------- places ---------- */

  datatype Step = Field(name: string) | Item(index: nat) | Inside

  function Find(members: seq<Member>, name: string): (k: nat)
    ensures k <= |members|
    ensures k < |members| ==> members[k].key == name
    ensures forall i :: 0 <= i < k ==> members[i].key != name
  {
    if members == [] || members[0].key == name then 0 else 1 + Find(members[1..], name)
  }

  // One step into a value: a field, an array element, or the JSON a string holds.
  function Into(c: Codec, v: Json, step: Step): Option<Json> {
    match step
    case Field(name) =>
      if v.Obj? && Find(v.members, name) < |v.members| then Some(v.members[Find(v.members, name)].value) else None
    case Item(i) =>
      if v.Arr? && i < |v.items| then Some(v.items[i]) else None
    case Inside =>
      if v.Str? then c.parse(v.text) else None
  }

  // The value at a place.
  function At(c: Codec, v: Json, path: seq<Step>): Option<Json>
    decreases path
  {
    if path == [] then Some(v)
    else
      match Into(c, v, path[0])
      case Some(u) => At(c, u, path[1..])
      case None => None
  }

  lemma {:induction false} AtAppend(c: Codec, v: Json, p: seq<Step>, q: seq<Step>)
    ensures At(c, v, p + q) == if At(c, v, p).Some? then At(c, At(c, v, p).value, q) else None
    decreases p
  {
    if p == [] {
      assert p + q == q;
    } else {
      assert (p + q)[1..] == p[1..] + q;
      if Into(c, v, p[0]).Some? {
        AtAppend(c, Into(c, v, p[0]).value, p[1..], q);
      }
    }
  }

  lemma {:induction false} FindSame(a: seq<Member>, b: seq<Member>, name: string)
    requires |a| == |b| && forall i :: 0 <= i < |a| ==> a[i].key == b[i].key
    ensures Find(a, name) == Find(b, name)
  {
    if a != [] && a[0].key != name {
      FindSame(a[1..], b[1..], name);
    }
  }

  // Values that print alike have the same places, and print alike there.
  lemma IntoPrinted(c: Codec, a: Json, b: Json, step: Step)
    requires Printed(a) == Printed(b)
    ensures Into(c, a, step).Some? <==> Into(c, b, step).Some?
    ensures Into(c, a, step).Some? ==> Printed(Into(c, a, step).value) == Printed(Into(c, b, step).value)
  {
    match a
    case Obj(ms) =>
      var ns := b.members;
      assert |Printed(a).members| == |Printed(b).members|;
      forall i | 0 <= i < |ms|
        ensures ms[i].key == ns[i].key && Printed(ms[i].value) == Printed(ns[i].value)
      {
        assert Printed(a).members[i] == Printed(b).members[i];
      }
      if step.Field? {
        FindSame(ms, ns, step.name);
      }
    case Arr(xs) =>
      assert |Printed(a).items| == |Printed(b).items|;
      if step.Item? && step.index < |xs| {
        assert Printed(a).items[step.index] == Printed(b).items[step.index];
      }
    case _ =>
  }

  lemma {:induction false} AtPrinted(c: Codec, a: Json, b: Json, path: seq<Step>)
    requires Printed(a) == Printed(b)
    ensures At(c, a, path).Some? <==> At(c, b, path).Some?
    ensures At(c, a, path).Some? ==> Printed(At(c, a, path).value) == Printed(At(c, b, path).value)
    decreases path
  {
    if path != [] {
      IntoPrinted(c, a, b, path[0]);
      if Into(c, a, path[0]).Some? {
        AtPrinted(c, Into(c, a, path[0]).value, Into(c, b, path[0]).value, path[1..]);
      }
    }
  }

  lemma {:induction false} PrintedTwice(v: Json)
    ensures Printed(Printed(v)) == Printed(v)
  {
    match v
    case Arr(items) =>
      forall i | 0 <= i < |items|
        ensures Printed(Printed(items[i])) == Printed(items[i])
      {
        PrintedTwice(items[i]);
      }
      assert Printed(Printed(v)).items == Printed(v).items;
    case Obj(members) =>
      forall i | 0 <= i < |members|
        ensures Printed(Printed(members[i].value)) == Printed(members[i].value)
      {
        PrintedTwice(members[i].value);
      }
      assert Printed(Printed(v)).members == Printed(v).members;
    case _ =>
  }
}
