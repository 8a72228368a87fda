// IPv4 text, numbers and prefixes: what a dotted address denotes and when an
// address lies in a network.
module Ipv4 {
  import opened Wrappers
  import opened Numbers
  import opened Text

  predicate IsOctet(n: int) {
    0 <= n <= 255
  }

  predicate Octets(bytes: seq<int>) {
    |bytes| == 4 && forall k :: 0 <= k < 4 ==> IsOctet(bytes[k])
  }

  // The base-256 value of some bytes, the first most significant.
  function Value(bytes: seq<int>): int {
    if bytes == [] then 0 else Value(bytes[..|bytes| - 1]) * 256 + bytes[|bytes| - 1]
  }

  function ParsedParts(parts: seq<string>): (bytes: Option<seq<int>>)
    ensures bytes.Some? ==> |bytes.value| == |parts|
    ensures bytes.Some? <==> forall k :: 0 <= k < |parts| ==> ParseInt(parts[k]).Some? && IsOctet(ParseInt(parts[k]).value)
    ensures bytes.Some? ==> forall k :: 0 <= k < |parts| ==> ParseInt(parts[k]) == Some(bytes.value[k])
  {
    if forall k :: 0 <= k < |parts| ==> ParseInt(parts[k]).Some? && IsOctet(ParseInt(parts[k]).value)
    then Some(seq(|parts|, k requires 0 <= k < |parts| && ParseInt(parts[k]).Some? => ParseInt(parts[k]).value))
    else None
  }

  // The number an address denotes; None where the service throws.
  function NumberOf(ip: string): Option<int> {
    var parts := Split(ip, '.');
    var bytes := ParsedParts(parts);
    if |parts| == 4 && bytes.Some? then Some(Value(bytes.value)) else None
  }

  lemma ValueOfFour(b: seq<int>)
    requires |b| == 4
    ensures Value(b) == b[0] * 0x100_0000 + b[1] * 0x1_0000 + b[2] * 0x100 + b[3]
  {
    ValueOfThree(b[..3]);
    assert b == b[..3] + [b[3]];
  }

  lemma ValueOfThree(b: seq<int>)
    requires |b| == 3
    ensures Value(b) == b[0] * 0x1_0000 + b[1] * 0x100 + b[2]
    ensures Value(b[..2]) == b[0] * 0x100 + b[1] && Value(b[..1]) == b[0]
  {
    assert b[..2][..1] == b[..1] && b[..1][..0] == [];
    assert Value(b[..1]) == b[0];
    assert Value(b[..2]) == b[0] * 0x100 + b[1];
  }

  // ipToNumber: the signed 8-bit shifts and the final >>> 0 compute the base-256 value.
  method IpToNumber(ip: string) returns (r: Result<int, string>)
    ensures r.Ok? <==> NumberOf(ip).Some?
    ensures r.Ok? ==> r.value == NumberOf(ip).value && 0 <= r.value < TWO_32
  {
    hide ParseInt, ShiftLeft;
    var parts := Split(ip, '.');
    if |parts| != 4 {
      return Err("Invalid IP address");
    }
    var result := 0;
    ghost var bytes: seq<int> := [];
    for i := 0 to 4
      invariant |bytes| == i
      invariant forall k :: 0 <= k < i ==> ParseInt(parts[k]) == Some(bytes[k]) && IsOctet(bytes[k])
      invariant 0 <= Value(bytes) < Bound(i)
      invariant i <= 3 ==> result == Value(bytes)
      invariant ToUint32(result) == Value(bytes)
    {
      var num := ParseInt(parts[i]);
      if num.None? || num.value < 0 || num.value > 255 {
        return Err("Invalid IP address");
      }
      ShiftByte(result, num.value, Bound(i));
      result := ShiftLeft(result, 8) + num.value;
      bytes := bytes + [num.value];
      assert bytes[..i] == bytes[..|bytes| - 1];
    }
    assert bytes == ParsedParts(parts).value;
    return Ok(ToUint32(result));
  }

  function Bound(i: int): int {
    if i <= 0 then 1 else if i == 1 then 0x100 else if i == 2 then 0x1_0000 else if i == 3 then 0x100_0000 else TWO_32
  }

  lemma ShiftByte(v: int, byte: int, bound: int)
    requires 0 <= v < bound <= 0x100_0000 && IsOctet(byte)
    ensures ToUint32(ShiftLeft(v, 8) + byte) == v * 256 + byte
    ensures v < 0x1_0000 ==> ShiftLeft(v, 8) + byte == v * 256 + byte
  {
    PowersOf256();
    assert ShiftLeft(v, 8) == ToInt32(v * 256) by { hide Pow2; }
    hide Pow2, ShiftLeft;
  }

  /* ---------- canonical text ---------- */

  // The dotted text of four bytes.
  function Dotted(bytes: seq<int>): string
    requires Octets(bytes)
  {
    Join(Printed(bytes), '.')
  }

  function Printed(bytes: seq<int>): seq<string>
    requires Octets(bytes)
  {
    seq(4, k requires 0 <= k < 4 => ToString(bytes[k]))
  }

  ghost predicate Canonical(ip: string) {
    exists bytes :: Octets(bytes) && ip == Dotted(bytes)
  }

  function BytesOf(n: int): (bytes: seq<int>)
    requires 0 <= n < TWO_32
    ensures Octets(bytes) && Value(bytes) == n
  {
    var bytes := [n / 0x100_0000, n / 0x1_0000 % 256, n / 0x100 % 256, n % 256];
    ValueOfFour(bytes);
    BytesSum(n);
    bytes
  }

  lemma BytesSum(n: int)
    requires 0 <= n < TWO_32
    ensures IsOctet(n / 0x100_0000)
    ensures n / 0x100_0000 * 0x100_0000 + n / 0x1_0000 % 256 * 0x1_0000 + n / 0x100 % 256 * 0x100 + n % 256 == n
  {
  }

  lemma ValueInjective(a: seq<int>, b: seq<int>)
    requires Octets(a) && Octets(b) && Value(a) == Value(b)
    ensures a == b
  {
    ValueOfFour(a);
    ValueOfFour(b);
    assert a[0] == b[0];
    assert a[1] == b[1];
    assert a[2] == b[2];
  }

  lemma SplitDotted(bytes: seq<int>)
    requires Octets(bytes)
    ensures Split(Dotted(bytes), '.') == Printed(bytes)
  {
    var parts := Printed(bytes);
    forall k | 0 <= k < 4
      ensures '.' !in parts[k]
    {
      DecimalDigits(bytes[k]);
    }
    SplitJoin(parts, '.');
  }

  // Dotted text denotes the value of its bytes, and every number has such a text.
  lemma DottedDenotes(bytes: seq<int>)
    requires Octets(bytes)
    ensures NumberOf(Dotted(bytes)) == Some(Value(bytes))
    ensures 0 <= Value(bytes) < TWO_32 && BytesOf(Value(bytes)) == bytes
  {
    SplitDotted(bytes);
    var parts := Printed(bytes);
    forall k | 0 <= k < 4
      ensures ParseInt(parts[k]) == Some(bytes[k])
    {
      ParseToString(bytes[k]);
    }
    assert ParsedParts(parts).value == bytes;
    ValueOfFour(bytes);
    ValueInjective(BytesOf(Value(bytes)), bytes);
  }

  // Canonical texts are equal exactly when they denote the same number.
  lemma CanonicalInjective(a: string, b: string)
    requires Canonical(a) && Canonical(b)
    ensures NumberOf(a).Some? && NumberOf(b).Some?
    ensures a == b <==> NumberOf(a) == NumberOf(b)
  {
    var p: seq<int> :| Octets(p) && a == Dotted(p);
    var q: seq<int> :| Octets(q) && b == Dotted(q);
    DottedDenotes(p);
    DottedDenotes(q);
  }

  lemma JoinFour(parts: seq<string>, c: char)
    requires |parts| == 4
    ensures Join(parts, c) == parts[0] + [c] + (parts[1] + [c] + (parts[2] + [c] + parts[3]))
  {
    var rest := parts[1..];
    assert rest[1..] == [parts[2], parts[3]] && [parts[2], parts[3]][1..] == [parts[3]];
    assert Join([parts[3]], c) == parts[3];
    assert Join([parts[2], parts[3]], c) == parts[2] + [c] + parts[3];
    assert Join(rest, c) == parts[1] + [c] + (parts[2] + [c] + parts[3]);
  }

  lemma ParseDigits(n: nat)
    requires n < 10
    ensures ParseInt([Digit(n)]) == ParseInt(['0', Digit(n)]) == Some(n)
  {
    assert Scan("", 10, n) == n;
    assert [Digit(n)][1..] == "" && ['0', Digit(n)][1..] == [Digit(n)];
    assert Scan([Digit(n)], 10, 0) == n;
    assert Scan(['0', Digit(n)], 10, 0) == n;
  }

  // Some texts that are not canonical share a number, so the text is not determined by it.
  lemma LeadingZeroIsAccepted()
    ensures NumberOf("1.2.3.04") == NumberOf("1.2.3.4") == Some(0x0102_0304)
    ensures !Canonical("1.2.3.04")
  {
    var long, short := ["1", "2", "3", "04"], ["1", "2", "3", "4"];
    JoinFour(long, '.');
    JoinFour(short, '.');
    assert Join(long, '.') == "1.2.3.04" && Join(short, '.') == "1.2.3.4";
    SplitJoin(long, '.');
    SplitJoin(short, '.');
    FourSmallParts(long);
    FourSmallParts(short);
    if Canonical("1.2.3.04") {
      var bytes: seq<int> :| Octets(bytes) && "1.2.3.04" == Dotted(bytes);
      SplitDotted(bytes);
      assert ToString(bytes[3]) == Printed(bytes)[3] == "04";
      NoLeadingZero(bytes[3]);
    }
  }

  lemma NoLeadingZero(n: nat)
    ensures |ToString(n)| >= 2 ==> ToString(n)[0] != '0'
  {
    DecimalDigits(n);
  }

  lemma FourSmallParts(parts: seq<string>)
    requires |parts| == 4 && parts[..3] == ["1", "2", "3"] && (parts[3] == "04" || parts[3] == "4")
    ensures ParsedParts(parts).Some? && Value(ParsedParts(parts).value) == 0x0102_0304
  {
    hide Value, ParseInt;
    SmallTexts();
    assert parts[0] == parts[..3][0] && parts[1] == parts[..3][1] && parts[2] == parts[..3][2];
    assert forall k :: 0 <= k < 4 ==> ParseInt(parts[k]) == Some(k + 1);
    var bytes := ParsedParts(parts).value;
    assert bytes[0] == 1 && bytes[1] == 2 && bytes[2] == 3 && bytes[3] == 4;
    ValueOfFour(bytes);
  }

  lemma SmallTexts()
    ensures ParseInt("1") == Some(1) && ParseInt("2") == Some(2) && ParseInt("3") == Some(3)
    ensures ParseInt("4") == ParseInt("04") == Some(4)
  {
    hide ParseInt;
    ParseDigits(1);
    ParseDigits(2);
    ParseDigits(3);
    ParseDigits(4);
    assert [Digit(1)] == "1" && [Digit(2)] == "2" && [Digit(3)] == "3" && [Digit(4)] == "4" && ['0', Digit(4)] == "04";
  }

  // isValidIp accepts exactly the canonical texts.
  method IsValidIp(ip: string) returns (ok: bool)
    ensures ok <==> Canonical(ip)
  {
    hide ParseInt, ToString;
    var parts := Split(ip, '.');
    if |parts| != 4 {
      NotCanonical(ip, parts, 0);
      return false;
    }
    ghost var bytes: seq<int> := [];
    for i := 0 to 4
      invariant |bytes| == i
      invariant forall k :: 0 <= k < i ==> IsOctet(bytes[k]) && parts[k] == ToString(bytes[k])
    {
      var num := ParseInt(parts[i]);
      if num.None? || num.value < 0 || num.value > 255 || parts[i] != ToString(num.value) {
        NotCanonical(ip, parts, i);
        return false;
      }
      bytes := bytes + [num.value];
    }
    assert parts == Printed(bytes);
    assert ip == Dotted(bytes);
    return true;
  }

  lemma NotCanonical(ip: string, parts: seq<string>, i: nat)
    requires parts == Split(ip, '.')
    requires |parts| != 4 || (i < 4 && forall n :: ParseInt(parts[i]) == Some(n) && IsOctet(n) ==> parts[i] != ToString(n))
    ensures !Canonical(ip)
  {
    if Canonical(ip) {
      var bytes: seq<int> :| Octets(bytes) && ip == Dotted(bytes);
      SplitDotted(bytes);
      assert parts[i] == ToString(bytes[i]);
      ParseToString(bytes[i]);
      assert false;
    }
  }

  /* ---------- matching ---------- */

  function Normalize(ip: string): string {
    if StartsWith(ip, "::ffff:") then ip[7..] else if ip == "::1" then "127.0.0.1" else ip
  }

  // The number of leading bits a mask keeps: shift counts are taken modulo 32 and
  // NaN counts as zero.
  function KeptBits(bits: Option<int>): (b: nat)
    ensures 1 <= b <= 32
  {
    match bits
    case None => 32
    case Some(b) => 32 - (32 - b) % 32
  }

  // The first b of 32 bits.
  function Leading(x: int, b: nat): int
    requires 0 <= x && b <= 32
  {
    x / Pow2(32 - b)
  }

  predicate InNetwork(ip: string, network: string, b: nat)
    requires b <= 32
  {
    var x, y := NumberOf(ip), NumberOf(network);
    x.Some? && y.Some? && x.value >= 0 && y.value >= 0 && Leading(x.value, b) == Leading(y.value, b)
  }

  predicate Matches(ip: string, pattern: string) {
    if '/' !in pattern then Normalize(ip) == pattern
    else
      var parts := Split(pattern, '/');
      HasTwoParts(pattern, '/');
      var bits := ParseInt(parts[1]);
      bits == Some(0) || InNetwork(Normalize(ip), parts[0], KeptBits(bits))
  }

  lemma {:induction false} HasTwoParts(s: string, c: char)
    requires c in s
    ensures |Split(s, c)| >= 2
  {
    if s[0] != c {
      assert s == [s[0]] + s[1..];
      HasTwoParts(s[1..], c);
    }
  }

  // isIpMatch: the 32-bit mask comparison is equality of prefixes.
  method IsIpMatch(ip: string, pattern: string) returns (matched: bool)
    ensures matched <==> Matches(ip, pattern)
  {
    hide Normalize, NumberOf, ParseInt, ShiftLeft, And, Pow2;
    var normalizedIp := Normalize(ip);
    if '/' !in pattern {
      return normalizedIp == pattern;
    }
    HasTwoParts(pattern, '/');
    var parts := Split(pattern, '/');
    var network, bitsNum := parts[0], ParseInt(parts[1]);
    if bitsNum == Some(0) {
      return true;
    }
    var count := if bitsNum.Some? then 32 - bitsNum.value else 0;
    var mask := ToUint32(ShiftLeft(0xffff_ffff, count));
    var ipNum := IpToNumber(normalizedIp);
    if ipNum.Err? {
      return false;
    }
    var networkNum := IpToNumber(network);
    if networkNum.Err? {
      return false;
    }
    MaskTestIsPrefixTest(ipNum.value, networkNum.value, count);
    assert count % 32 == 32 - KeptBits(bitsNum);
    return And(ipNum.value, mask) == And(networkNum.value, mask);
  }

  // A prefix length keeps its meaning exactly when it lies in 1..32.
  lemma KeptBitsExact(b: int)
    ensures KeptBits(Some(b)) == b <==> 1 <= b <= 32
  {
    if 1 <= b <= 32 {
      assert (32 - b) % 32 == 32 - b;
    }
  }

  function Cidr(network: string, b: nat): string {
    network + "/" + ToString(b)
  }

  lemma CidrMatches(ip: string, network: string, b: nat)
    requires '/' !in network && b <= 32
    ensures Matches(ip, Cidr(network, b)) <==> b == 0 || InNetwork(Normalize(ip), network, b)
  {
    DecimalDigits(b);
    SplitPlain(ToString(b), '/');
    SplitFirst(network, '/', ToString(b));
    assert Cidr(network, b) == network + ['/'] + ToString(b);
    assert Cidr(network, b)[|network|] == '/';
    ParseToString(b);
    KeptBitsExact(b);
  }

  // An address in a /b network lies in the wider /w network for every w <= b.
  lemma WiderMatches(ip: string, network: string, b: nat, w: nat)
    requires '/' !in network && w <= b <= 32
    requires Matches(ip, Cidr(network, b))
    ensures Matches(ip, Cidr(network, w))
  {
    hide Matches, Normalize, NumberOf, Cidr, Pow2;
    CidrMatches(ip, network, b);
    CidrMatches(ip, network, w);
    if w > 0 {
      ShorterPrefix(NumberOf(Normalize(ip)).value, NumberOf(network).value, 32 - b, 32 - w);
    }
  }

  // On canonical text an exact entry and its /32 form accept the same addresses.
  lemma ExactIsSlash32(ip: string, address: string)
    requires Canonical(Normalize(ip)) && Canonical(address)
    ensures Matches(ip, address) <==> Matches(ip, Cidr(address, 32))
  {
    var n := Normalize(ip);
    NoSlash(address);
    CidrMatches(ip, address, 32);
    CanonicalInjective(n, address);
    NumberInRange(n);
    NumberInRange(address);
    assert Pow2(0) == 1;
  }

  // Without canonical text only one direction is left: the exact entry is the stricter one.
  lemma ExactImpliesSlash32(ip: string, address: string)
    requires '/' !in address && NumberOf(address).Some?
    ensures Matches(ip, address) ==> Matches(ip, Cidr(address, 32))
  {
    hide NumberOf, Cidr;
    CidrMatches(ip, address, 32);
    NumberInRange(address);
  }

  lemma Slash32IsLooser()
    ensures Matches("1.2.3.4", Cidr("1.2.3.04", 32)) && !Matches("1.2.3.4", "1.2.3.04")
  {
    hide NumberOf, Cidr;
    LeadingZeroIsAccepted();
    CidrMatches("1.2.3.4", "1.2.3.04", 32);
    assert |"1.2.3.4"| == 7 && |"1.2.3.04"| == 8;
    assert "1.2.3.4"[0] != ':';
    assert Normalize("1.2.3.4") == "1.2.3.4";
  }

  // The entry and its /32 form agree on a client.
  ghost predicate AgreesOn(ip: string, entry: string) {
    Matches(ip, entry) <==> Matches(ip, Cidr(entry, 32))
  }

  // An address text does not look like a mapped address.
  lemma CanonicalIsNormal(ip: string)
    requires Canonical(ip)
    ensures Normalize(ip) == ip
  {
    var bytes: seq<int> :| Octets(bytes) && ip == Dotted(bytes);
    DecimalDigits(bytes[0]);
    JoinFour(Printed(bytes), '.');
    assert ip[0] == ToString(bytes[0])[0] != ':';
    OtherFirst(ip, "::ffff:");
    OtherFirst(ip, "::1");
  }

  lemma OtherFirst(s: string, prefix: string)
    requires s != "" && prefix != "" && s[0] != prefix[0]
    ensures !StartsWith(s, prefix) && s != prefix
  {
    assert |prefix| <= |s| ==> s[..|prefix|][0] == s[0];
  }

  // A mapped client matches what the address it carries matches.
  lemma MappedClientMatches(address: string, pattern: string)
    requires Canonical(address)
    ensures Matches("::ffff:" + address, pattern) <==> Matches(address, pattern)
  {
    CanonicalIsNormal(address);
    var mapped := "::ffff:" + address;
    assert mapped[..7] == "::ffff:" && mapped[7..] == address;
  }

  lemma LoopbackMatches(pattern: string)
    ensures Matches("::1", pattern) <==> Matches("127.0.0.1", pattern)
  {
    assert "127.0.0.1"[0] != ':';
    OtherFirst("127.0.0.1", "::ffff:");
    OtherFirst("127.0.0.1", "::1");
    assert Normalize("127.0.0.1") == "127.0.0.1";
    assert |"::1"| == 3;
    assert Normalize("::1") == "127.0.0.1";
  }

  // Every other client is compared as it is written.
  lemma PlainClientMatches(ip: string, entry: string)
    requires !StartsWith(ip, "::ffff:") && ip != "::1" && '/' !in entry
    ensures Matches(ip, entry) <==> ip == entry
  {
  }

  lemma UnreadableMatchesNothing(ip: string, entry: string)
    requires Canonical(Normalize(ip)) && '/' !in entry && NumberOf(entry).None?
    ensures AgreesOn(ip, entry)
  {
    hide NumberOf, Cidr;
    CidrMatches(ip, entry, 32);
    CanonicalInjective(Normalize(ip), Normalize(ip));
  }

  // The exact condition: for every client with canonical text an entry means the same as its /32
  // form if and only if the entry is canonical itself, or denotes no address at all.
  lemma ExactIsSlash32Iff(entry: string)
    requires '/' !in entry
    ensures (forall ip :: Canonical(Normalize(ip)) ==> AgreesOn(ip, entry)) <==> Canonical(entry) || NumberOf(entry).None?
  {
    hide NumberOf, Cidr, Canonical, Matches, Normalize;
    if Canonical(entry) || NumberOf(entry).None? {
      forall ip | Canonical(Normalize(ip))
        ensures AgreesOn(ip, entry)
      {
        if Canonical(entry) {
          ExactIsSlash32(ip, entry);
        } else {
          UnreadableMatchesNothing(ip, entry);
        }
      }
    } else {
      NumberInRange(entry);
      var ip := Dotted(BytesOf(NumberOf(entry).value));
      OnlySlash32Matches(entry, ip);
      assert Canonical(Normalize(ip)) && !AgreesOn(ip, entry);
    }
  }

  lemma OnlySlash32Matches(entry: string, ip: string)
    requires '/' !in entry && !Canonical(entry) && NumberOf(entry).Some?
    requires 0 <= NumberOf(entry).value < TWO_32 && ip == Dotted(BytesOf(NumberOf(entry).value))
    ensures Canonical(Normalize(ip)) && !AgreesOn(ip, entry)
  {
    hide NumberOf, Cidr;
    var bytes := BytesOf(NumberOf(entry).value);
    assert Canonical(ip);
    CanonicalIsNormal(ip);
    DottedDenotes(bytes);
    CidrMatches(ip, entry, 32);
  }

  lemma NoSlash(ip: string)
    requires Canonical(ip)
    ensures '/' !in ip
  {
    var bytes: seq<int> :| Octets(bytes) && ip == Dotted(bytes);
    var parts := Printed(bytes);
    forall k | 0 <= k < 4
      ensures '/' !in parts[k]
    {
      DecimalDigits(bytes[k]);
    }
    JoinFour(parts, '.');
  }

  lemma NumberInRange(ip: string)
    requires NumberOf(ip).Some?
    ensures 0 <= NumberOf(ip).value < TWO_32
  {
    ValueOfFour(ParsedParts(Split(ip, '.')).value);
  }

  // A whole number of bytes: /8, /16 and /24 compare leading bytes, whatever the rest is.
  lemma ByteAligned(a: seq<int>, b: seq<int>, k: nat)
    requires Octets(a) && Octets(b) && 1 <= k <= 4
    ensures 0 <= Value(a) && 0 <= Value(b)
    ensures Leading(Value(a), 8 * k) == Leading(Value(b), 8 * k) <==> a[..k] == b[..k]
  {
    ValueOfFour(a);
    ValueOfFour(b);
    ValueOfPrefix(a, k);
    ValueOfPrefix(b, k);
    if Leading(Value(a), 8 * k) == Leading(Value(b), 8 * k) {
      PrefixInjective(a, b, k);
    }
  }

  lemma ValueOfPrefix(b: seq<int>, k: nat)
    requires Octets(b) && 1 <= k <= 4
    ensures 0 <= Value(b) && Leading(Value(b), 8 * k) == Value(b[..k])
  {
    hide Pow2, Value;
    ValueOfFour(b);
    ValueOfThree(b[..3]);
    assert b[..3][..2] == b[..2] && b[..3][..1] == b[..1] && b[..4] == b;
    PowersOf256();
    LeadingBytes(b[0], b[1], b[2], b[3]);
  }

  lemma LeadingBytes(a: int, b: int, c: int, d: int)
    requires IsOctet(a) && IsOctet(b) && IsOctet(c) && IsOctet(d)
    ensures var n := a * 0x100_0000 + b * 0x1_0000 + c * 0x100 + d;
            n / 0x100 == a * 0x1_0000 + b * 0x100 + c && n / 0x1_0000 == a * 0x100 + b && n / 0x100_0000 == a
  {
  }

  lemma PowersOf256()
    ensures Pow2(0) == 1 && Pow2(8) == 0x100 && Pow2(16) == 0x1_0000 && Pow2(24) == 0x100_0000
  {
    assert Pow2(4) == 16;
    assert Pow2(8) == 0x100;
    assert Pow2(12) == 0x1000;
    assert Pow2(16) == 0x1_0000;
    assert Pow2(20) == 0x10_0000;
  }

  lemma {:induction false} PrefixInjective(a: seq<int>, b: seq<int>, k: nat)
    requires Octets(a) && Octets(b) && k <= 4 && Value(a[..k]) == Value(b[..k])
    ensures a[..k] == b[..k]
  {
    if k > 0 {
      assert a[..k][..k - 1] == a[..k - 1] && b[..k][..k - 1] == b[..k - 1];
      assert Value(a[..k - 1]) == Value(b[..k - 1]) && a[k - 1] == b[k - 1];
      PrefixInjective(a, b, k - 1);
    }
  }
}
