// JavaScript's number operations on integers: parseInt, toString, and the 32-bit
// shifts and masks, with the integer arithmetic they amount to.
module Numbers {
  import opened Wrappers

  const TWO_32 := 0x1_0000_0000

  function Pow2(k: nat): (p: nat)
    ensures p >= 1
  {
    if k == 0 then 1 else 2 * Pow2(k - 1)
  }

  // x >>> 0
  function ToUint32(x: int): (u: nat)
    ensures u < TWO_32
  {
    x % TWO_32
  }

  function ToInt32(x: int): int {
    var u := x % TWO_32;
    if u >= 0x8000_0000 then u - TWO_32 else u
  }

  // x << n: the shift count is taken modulo 32, the result wraps to a signed word.
  function ShiftLeft(x: int, n: int): int {
    ToInt32(ToInt32(x) * Pow2(n % 32))
  }

  // Bit by bit, on the low n bits.
  function BitAnd(x: nat, y: nat, n: nat): nat {
    if n == 0 then 0 else (x % 2) * (y % 2) + 2 * BitAnd(x / 2, y / 2, n - 1)
  }

  // x & y
  function And(x: int, y: int): int {
    ToInt32(BitAnd(ToUint32(x), ToUint32(y), 32))
  }

  // The signed word congruent to a number.
  lemma SignedWord(x: int)
    ensures -0x8000_0000 <= ToInt32(x) < 0x8000_0000 && (ToInt32(x) - x) % TWO_32 == 0
  {
    var u := x % TWO_32;
    assert x == TWO_32 * (x / TWO_32) + u;
    if u >= 0x8000_0000 {
      assert ToInt32(x) - x == TWO_32 * (-(x / TWO_32) - 1);
    } else {
      assert ToInt32(x) - x == TWO_32 * -(x / TWO_32);
    }
  }

  /* ---------- masks are prefixes ---------- */

  lemma MulGap(m: nat, p: nat, q: nat)
    requires p < q
    ensures m * q >= m * p + m
  {
    var d := q - p - 1;
    assert m * q == m * (p + 1 + d) == m * p + m + m * d;
  }

  lemma DivUnique(x: nat, m: nat, q: nat, r: nat)
    requires m >= 1 && x == m * q + r && r < m
    ensures x / m == q
  {
    var p := x / m;
    assert x == m * p + x % m;
    if p < q {
      MulGap(m, p, q);
    } else if q < p {
      MulGap(m, q, p);
    }
  }

  lemma DivTwice(x: nat, m: nat)
    requires m >= 1
    ensures (x / 2) / m == x / (2 * m)
  {
    var y := x / 2;
    var q, r := y / m, y % m;
    DivIdentity(y, m);
    Doubled(q, m);
    DivUnique(x, 2 * m, q, 2 * r + x % 2);
  }

  lemma DivIdentity(x: nat, m: nat)
    requires m >= 1
    ensures x == m * (x / m) + x % m && 0 <= x % m < m
  {
  }

  lemma Doubled(q: nat, m: nat)
    ensures 2 * m * q == 2 * (m * q) == q * (2 * m) == 2 * (q * m)
  {
  }

  lemma {:induction false} AndAllOnes(x: nat, n: nat)
    requires x < Pow2(n)
    ensures BitAnd(x, Pow2(n) - 1, n) == x
  {
    if n > 0 {
      assert (Pow2(n) - 1) / 2 == Pow2(n - 1) - 1 && (Pow2(n) - 1) % 2 == 1;
      AndAllOnes(x / 2, n - 1);
    }
  }

  // Masking off the low k bits rounds down to a multiple of 2^k.
  lemma {:induction false} AndMask(x: nat, k: nat, n: nat)
    requires k <= n && x < Pow2(n)
    ensures Pow2(k) <= Pow2(n)
    ensures BitAnd(x, Pow2(n) - Pow2(k), n) == x / Pow2(k) * Pow2(k)
  {
    if k == 0 {
      AndAllOnes(x, n);
    } else {
      AndMask(x / 2, k - 1, n - 1);
      var m := Pow2(k - 1);
      DivTwice(x, m);
      assert (Pow2(n) - Pow2(k)) / 2 == Pow2(n - 1) - m && (Pow2(n) - Pow2(k)) % 2 == 0;
      Doubled(x / Pow2(k), m);
    }
  }

  lemma Pow2Of32()
    ensures Pow2(32) == TWO_32
  {
    assert Pow2(4) == 16;
    assert Pow2(8) == 256;
    assert Pow2(12) == 0x1000;
    assert Pow2(16) == 0x1_0000;
    assert Pow2(20) == 0x10_0000;
    assert Pow2(24) == 0x100_0000;
    assert Pow2(28) == 0x1000_0000;
  }

  lemma HalfWord()
    ensures 2 * Pow2(31) == TWO_32
  {
    Pow2Of32();
    assert Pow2(32) == 2 * Pow2(31);
  }

  lemma {:induction false} Pow2Grows(j: nat, k: nat)
    requires j <= k
    ensures Pow2(j) <= Pow2(k)
  {
    if j < k {
      Pow2Grows(j, k - 1);
    }
  }

  // (0xffffffff << k) >>> 0
  lemma MaskValue(n: int)
    ensures ToUint32(ShiftLeft(0xffff_ffff, n)) == TWO_32 - Pow2(n % 32)
  {
    var p := Pow2(n % 32);
    Pow2Grows(n % 32, 31);
    Pow2Of32();
    assert ToInt32(0xffff_ffff) == -1;
    assert (-1 * p) % TWO_32 == TWO_32 - p;
  }

  // The mask test of two words is equality of their prefixes.
  lemma MaskTestIsPrefixTest(x: int, y: int, n: int)
    requires 0 <= x < TWO_32 && 0 <= y < TWO_32
    ensures And(x, ToUint32(ShiftLeft(0xffff_ffff, n))) == And(y, ToUint32(ShiftLeft(0xffff_ffff, n)))
            <==> x / Pow2(n % 32) == y / Pow2(n % 32)
  {
    var k := n % 32;
    MaskValue(n);
    MaskedWord(x, k);
    MaskedWord(y, k);
    SignedInjective(x / Pow2(k) * Pow2(k), y / Pow2(k) * Pow2(k));
    EqualMultiples(x / Pow2(k), y / Pow2(k), Pow2(k));
  }

  // A word masked to its high bits is the word rounded down.
  lemma MaskedWord(x: int, k: nat)
    requires 0 <= x < TWO_32 && k < 32
    ensures 0 < TWO_32 - Pow2(k)
    ensures And(x, TWO_32 - Pow2(k)) == ToInt32(x / Pow2(k) * Pow2(k))
    ensures 0 <= x / Pow2(k) * Pow2(k) < TWO_32
  {
    hide Pow2, BitAnd, ToInt32;
    Pow2Of32();
    Pow2Grows(k, 31);
    HalfWord();
    AndMask(x, k, 32);
    RoundsDown(x, Pow2(k));
  }

  lemma SignedInjective(a: int, b: int)
    requires 0 <= a < TWO_32 && 0 <= b < TWO_32
    ensures ToInt32(a) == ToInt32(b) <==> a == b
  {
  }

  lemma EqualMultiples(p: nat, q: nat, m: nat)
    requires m >= 1
    ensures p * m == q * m <==> p == q
  {
    if p < q {
      MulGap(m, p, q);
    } else if q < p {
      MulGap(m, q, p);
    }
  }

  lemma RoundsDown(x: nat, p: nat)
    requires p >= 1
    ensures 0 <= x / p * p <= x
  {
  }

  // Equal prefixes stay equal when more low bits are dropped.
  lemma {:induction false} ShorterPrefix(x: nat, y: nat, j: nat, k: nat)
    requires j <= k && x / Pow2(j) == y / Pow2(j)
    ensures x / Pow2(k) == y / Pow2(k)
  {
    if j < k {
      ShorterPrefix(x, y, j, k - 1);
      HalfAgain(x, Pow2(k - 1));
      HalfAgain(y, Pow2(k - 1));
    }
  }

  lemma HalfAgain(x: nat, m: nat)
    requires m >= 1
    ensures x / m / 2 == x / (2 * m)
  {
    var q, r := x / m, x % m;
    assert x == m * q + r;
    var h, o := q / 2, q % 2;
    assert m * q == 2 * m * h + m * o;
    DivUnique(x, 2 * m, h, m * o + r);
  }

  /* ---------- parseInt and toString ---------- */

  predicate IsSpace(c: char) {
    || '\t' <= c <= '\r' || c == ' ' || c == '\U{00A0}' || c == '\U{1680}'
    || '\U{2000}' <= c <= '\U{200A}' || c == '\U{2028}' || c == '\U{2029}' || c == '\U{202F}'
    || c == '\U{205F}' || c == '\U{3000}' || c == '\U{FEFF}'
  }

  function SkipSpaces(s: string): string {
    if s != "" && IsSpace(s[0]) then SkipSpaces(s[1..]) else s
  }

  function DigitValue(c: char): int {
    if '0' <= c <= '9' then c as int - '0' as int
    else if 'a' <= c <= 'z' then c as int - 'a' as int + 10
    else if 'A' <= c <= 'Z' then c as int - 'A' as int + 10
    else 99
  }

  // The value of the longest prefix of digits, continuing from acc.
  function Scan(s: string, radix: nat, acc: int): int {
    if s != "" && DigitValue(s[0]) < radix then Scan(s[1..], radix, acc * radix + DigitValue(s[0])) else acc
  }

  function Unsigned(s: string): Option<int> {
    var hex := |s| >= 2 && s[0] == '0' && (s[1] == 'x' || s[1] == 'X');
    var radix, digits := if hex then 16 else 10, if hex then s[2..] else s;
    if digits != "" && DigitValue(digits[0]) < radix then Some(Scan(digits, radix, 0)) else None
  }

  // parseInt(s); None is NaN.
  function ParseInt(s: string): Option<int> {
    var t := SkipSpaces(s);
    if t != "" && t[0] == '-' then
      match Unsigned(t[1..])
      case Some(n) => Some(-n)
      case None => None
    else if t != "" && t[0] == '+' then Unsigned(t[1..])
    else Unsigned(t)
  }

  function Digit(d: nat): (c: char)
    requires d < 10
    ensures '0' <= c <= '9' && DigitValue(c) == d
  {
    ('0' as int + d) as char
  }

  // n.toString()
  function ToString(n: nat): (s: string)
    ensures s != ""
  {
    if n < 10 then [Digit(n)] else ToString(n / 10) + [Digit(n % 10)]
  }

  lemma {:induction false} DecimalDigits(n: nat)
    ensures IsDecimal(ToString(n))
    ensures n > 0 ==> ToString(n)[0] != '0'
  {
    if n >= 10 {
      DecimalDigits(n / 10);
      assert ToString(n)[0] == ToString(n / 10)[0];
    }
  }

  predicate IsDecimal(s: string) {
    forall k :: 0 <= k < |s| ==> '0' <= s[k] <= '9'
  }

  predicate AllDigits(s: string, radix: nat) {
    forall k :: 0 <= k < |s| ==> DigitValue(s[k]) < radix
  }

  lemma {:induction false} ScanAppend(s: string, c: char, radix: nat, acc: int)
    requires AllDigits(s, radix) && DigitValue(c) < radix
    ensures Scan(s + [c], radix, acc) == Scan(s, radix, acc) * radix + DigitValue(c)
  {
    hide DigitValue;
    if s == "" {
      assert s + [c] == [c] && [c][1..] == "";
      assert Scan("", radix, acc * radix + DigitValue(c)) == acc * radix + DigitValue(c);
    } else {
      assert (s + [c])[1..] == s[1..] + [c];
      ScanAppend(s[1..], c, radix, acc * radix + DigitValue(s[0]));
    }
  }

  // A character that is no digit ends the number.
  lemma {:induction false} ScanStops(s: string, c: char, rest: string, radix: nat, acc: int)
    requires AllDigits(s, radix) && DigitValue(c) >= radix
    ensures Scan(s + [c] + rest, radix, acc) == Scan(s, radix, acc)
  {
    hide DigitValue;
    var all := s + [c] + rest;
    if s == "" {
      assert all[0] == c;
    } else {
      assert all[0] == s[0] && all[1..] == s[1..] + [c] + rest;
      ScanStops(s[1..], c, rest, radix, acc * radix + DigitValue(s[0]));
    }
  }

  lemma {:induction false} ScanToString(n: nat)
    ensures Scan(ToString(n), 10, 0) == n
  {
    if n >= 10 {
      DecimalDigits(n / 10);
      ScanToString(n / 10);
      ScanAppend(ToString(n / 10), Digit(n % 10), 10, 0);
    } else {
      assert ToString(n)[1..] == "";
    }
  }

  // Reading back what toString printed.
  lemma ParseToString(n: nat)
    ensures ParseInt(ToString(n)) == Some(n)
  {
    DecimalDigits(n);
    ScanToString(n);
  }

  // So it does with a sign, and whatever follows the digits, unless that makes the text hexadecimal.
  lemma ParseDecimal(n: nat, c: char, rest: string)
    requires !('0' <= c <= '9') && !(n == 0 && c in "xX")
    ensures ParseInt(ToString(n) + [c] + rest) == Some(n)
    ensures var minus := ParseInt("-" + ToString(n)); minus.Some? && minus.value + n == 0
    ensures ParseInt("+" + ToString(n)) == Some(n)
  {
    var digits := ToString(n);
    DecimalDigits(n);
    ScanToString(n);
    ScanStops(digits, c, rest, 10, 0);
    var text := digits + [c] + rest;
    assert text[0] == digits[0];
    assert |digits| == 1 ==> text[1] == c;
    assert |digits| >= 2 ==> text[1] == digits[1] && n >= 10;
    assert |digits| == 1 && digits[0] == '0' ==> n == 0;
    assert ("-" + digits)[1..] == digits && ("+" + digits)[1..] == digits;
  }

  function HexDigit(d: nat, upper: bool): (c: char)
    requires d < 16
    ensures d < 10 ==> c == "0123456789"[d]
    ensures d >= 10 ==> c == if upper then "ABCDEF"[d - 10] else "abcdef"[d - 10]
    ensures DigitValue(c) == d
  {
    if d < 10 then ('0' as int + d) as char else if upper then ('A' as int + d - 10) as char else ('a' as int + d - 10) as char
  }

  function HexText(n: nat, upper: bool): (s: string)
    ensures s != "" && AllDigits(s, 16)
  {
    if n < 16 then [HexDigit(n, upper)] else HexText(n / 16, upper) + [HexDigit(n % 16, upper)]
  }

  lemma {:induction false} ScanHex(n: nat, upper: bool)
    ensures Scan(HexText(n, upper), 16, 0) == n
  {
    hide DigitValue;
    if n >= 16 {
      ScanHex(n / 16, upper);
      ScanAppend(HexText(n / 16, upper), HexDigit(n % 16, upper), 16, 0);
    } else {
      assert HexText(n, upper)[1..] == "";
    }
  }

  // A text that begins with 0x is read as hexadecimal, in either case of the letters.
  lemma ParseHex(n: nat, upper: bool, x: char)
    requires x in "xX"
    ensures ParseInt(['0', x] + HexText(n, upper)) == Some(n) && ParseInt(['0', x]) == None
  {
    ScanHex(n, upper);
    var digits := HexText(n, upper);
    var text := ['0', x] + digits;
    assert text[0] == '0' && text[1] == x && text[2..] == digits;
    assert DigitValue(digits[0]) < 16;
  }

  // What trimming skips.
  const SPACES := "\t\n\U{000B}\U{000C}\r \U{00A0}\U{1680}\U{2000}\U{2001}\U{2002}\U{2003}\U{2004}\U{2005}\U{2006}"
                  + "\U{2007}\U{2008}\U{2009}\U{200A}\U{2028}\U{2029}\U{202F}\U{205F}\U{3000}\U{FEFF}"

  lemma IsSpaceIff(c: char)
    ensures IsSpace(c) <==> c in SPACES
  {
  }

  // White space in front is skipped, and any other character but a digit or a sign makes the text unreadable.
  lemma ParseFirst(c: char, s: string)
    ensures c in SPACES ==> ParseInt([c] + s) == ParseInt(s)
    ensures c !in SPACES && !('0' <= c <= '9') && c != '-' && c != '+' ==> ParseInt([c] + s) == None
  {
    IsSpaceIff(c);
    assert ([c] + s)[1..] == s;
  }
}
