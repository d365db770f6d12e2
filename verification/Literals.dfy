/** How the parts and groups of an address write their numbers, said without the functions that read them. */
module Literals {
  import opened Text
  import opened UrlGuard

  /** c is the digit d, in either case. */
  ghost predicate IsDigitOf(c: char, d: nat) {
    d < 16 && (c == "0123456789abcdef"[d] || c == "0123456789ABCDEF"[d])
  }

  /** s writes n in this radix, the last digit for the units. */
  ghost predicate InRadix(s: string, radix: nat, n: nat)
    requires radix > 0
    decreases |s|
  {
    if s == "" then n == 0
    else IsDigitOf(s[|s| - 1], n % radix) && InRadix(s[..|s| - 1], radix, n / radix)
  }

  lemma {:induction false} DigitsAreHex(c: char, d: nat)
    ensures IsDigitOf(c, d) <==> IsHex(c) && HexValue(c) == d
  {
    if d < 16 {
      Lower(d, "0123456789abcdef"[d]);
      Upper(d, "0123456789ABCDEF"[d]);
    }
  }

  lemma {:induction false} Lower(d: nat, c: char)
    requires d < 16 && c == "0123456789abcdef"[d]
    ensures c as int == if d < 10 then 48 + d else 87 + d
  {
  }

  lemma {:induction false} Upper(d: nat, c: char)
    requires d < 16 && c == "0123456789ABCDEF"[d]
    ensures c as int == if d < 10 then 48 + d else 55 + d
  {
  }

  ghost predicate Below(s: string, radix: nat)
    requires AllHex(s)
  {
    forall i | 0 <= i < |s| :: HexValue(s[i]) < radix
  }

  /** Number.parseInt reads a string of digits of its radix as the number they write. */
  lemma {:induction false} ParseIntReads(s: string, radix: nat, n: nat)
    requires radix in {8, 10, 16}
    ensures InRadix(s, radix, n) <==> AllHex(s) && Below(s, radix) && ParseInt(s, radix) == n
    decreases |s|
  {
    if s != "" {
      var init, last := s[..|s| - 1], s[|s| - 1];
      assert s == init + [last];
      ParseIntReads(init, radix, n / radix);
      if IsHex(last) {
        DigitsAreHex(last, HexValue(last));
        if AllHex(s) { Divides(n, radix, ParseInt(init, radix), HexValue(last)); }
      }
      DigitsAreHex(last, n % radix);
    }
  }

  lemma {:induction false} Divides(n: nat, radix: nat, q: nat, d: nat)
    requires radix in {8, 10, 16}
    ensures d < radix ==> (n == radix * q + d <==> n / radix == q && n % radix == d)
  {
  }

  // ---- IPv4 parts ----

  /** A part is hexadecimal behind 0x, else octal behind 0, else decimal, and at most 2^53 - 1. */
  ghost predicate PartSays(raw: string, n: nat) {
    && n <= 9_007_199_254_740_991
    && (HexWrites(raw, n) || OctalWrites(raw, n) || (raw != "" && InRadix(raw, 10, n) && forall m :: !OctalWrites(raw, m)))
  }

  ghost predicate HexWrites(raw: string, n: nat) {
    exists digits | digits != "" && (raw == "0x" + digits || raw == "0X" + digits) :: InRadix(digits, 16, n)
  }

  ghost predicate OctalWrites(raw: string, n: nat) {
    exists digits | Octal(raw, digits) :: InRadix(digits, 8, n)
  }

  ghost predicate Octal(raw: string, digits: string) {
    digits != "" && raw == "0" + digits
  }

  predicate OctalDigits(s: string) {
    forall i | 0 <= i < |s| :: '0' <= s[i] <= '7'
  }

  predicate IsHexPart(raw: string) {
    |raw| > 2 && raw[0] == '0' && (raw[1] == 'x' || raw[1] == 'X') && AllHex(raw[2..])
  }

  predicate IsOctalPart(raw: string) {
    |raw| > 1 && raw[0] == '0' && OctalDigits(raw[1..])
  }

  lemma {:induction false} HexPart(raw: string, n: nat)
    ensures HexWrites(raw, n) <==> IsHexPart(raw) && ParseInt(raw[2..], 16) == n
  {
    if |raw| > 2 && raw[0] == '0' && (raw[1] == 'x' || raw[1] == 'X') {
      ParseIntReads(raw[2..], 16, n);
      assert raw == [raw[0], raw[1]] + raw[2..];
    }
    forall digits | digits != "" && (raw == "0x" + digits || raw == "0X" + digits)
      ensures |raw| > 2 && raw[0] == '0' && (raw[1] == 'x' || raw[1] == 'X') && raw[2..] == digits
    {
    }
  }

  lemma {:induction false} OctalPart(raw: string, n: nat)
    ensures OctalWrites(raw, n) <==> IsOctalPart(raw) && ParseInt(raw[1..], 8) == n
  {
    if |raw| > 1 && raw[0] == '0' {
      ParseIntReads(raw[1..], 8, n);
      assert raw == "0" + raw[1..];
      assert Octal(raw, raw[1..]);
    }
    forall digits | Octal(raw, digits)
      ensures |raw| > 1 && raw[0] == '0' && raw[1..] == digits
    {
    }
  }

  lemma {:induction false} NotOctal(raw: string)
    ensures (forall m :: !OctalWrites(raw, m)) <==> !IsOctalPart(raw)
  {
    forall m
      ensures OctalWrites(raw, m) <==> IsOctalPart(raw) && ParseInt(raw[1..], 8) == m
    {
      OctalPart(raw, m);
    }
    if IsOctalPart(raw) {
      assert OctalWrites(raw, ParseInt(raw[1..], 8));
    }
  }

  lemma {:induction false} DecimalIs(raw: string, n: nat)
    ensures InRadix(raw, 10, n) <==> AllDigits(raw) && ParseInt(raw, 10) == n
  {
    ParseIntReads(raw, 10, n);
    if AllDigits(raw) {
      assert AllHex(raw) && Below(raw, 10);
    } else if AllHex(raw) && Below(raw, 10) {
      var i :| 0 <= i < |raw| && !IsDigit(raw[i]);
      assert HexValue(raw[i]) < 10;
    }
  }

  /** A hexadecimal part is neither octal nor decimal. */
  lemma {:induction false} HexApart(raw: string)
    requires IsHexPart(raw)
    ensures !IsOctalPart(raw) && !AllDigits(raw)
  {
    assert raw[1..][0] == raw[1];
    assert !('0' <= raw[1] <= '9');
  }

  lemma {:induction false} PartForms(raw: string, n: nat)
    ensures PartSays(raw, n) <==>
      && n <= 9_007_199_254_740_991
      && (|| (IsHexPart(raw) && ParseInt(raw[2..], 16) == n)
          || (IsOctalPart(raw) && ParseInt(raw[1..], 8) == n)
          || (raw != "" && AllDigits(raw) && ParseInt(raw, 10) == n && !IsOctalPart(raw)))
  {
    HexPart(raw, n);
    OctalPart(raw, n);
    NotOctal(raw);
    DecimalIs(raw, n);
  }

  lemma {:induction false} PartIsRead(raw: string, n: nat)
    ensures PartSays(raw, n) <==> PartValue(raw) == Some(n)
  {
    PartForms(raw, n);
    if IsHexPart(raw) { HexApart(raw); }
    PartCases(raw, n);
  }

  lemma {:induction false} PartCases(raw: string, n: nat)
    ensures PartValue(raw) == Some(n) <==>
      && n <= 9_007_199_254_740_991
      && if IsHexPart(raw) then ParseInt(raw[2..], 16) == n
         else if IsOctalPart(raw) then ParseInt(raw[1..], 8) == n
         else raw != "" && AllDigits(raw) && ParseInt(raw, 10) == n
  {
    if |raw| > 1 { OctalTail(raw); }
  }

  lemma {:induction false} OctalTail(raw: string)
    requires |raw| > 1
    ensures OctalDigits(raw[1..]) <==> forall i | 1 <= i < |raw| :: '0' <= raw[i] <= '7'
  {
    assert forall i | 1 <= i < |raw| :: raw[i] == raw[1..][i - 1];
  }

  /** Four bytes stand for their number in base 256, the first for the highest. */
  lemma {:induction false} BytesWrite(v: nat)
    requires v < 4_294_967_296
    ensures AddressValue(Bytes(v, 4)) == v
  {
    assert Power256(0) == 1 && Power256(1) == 256 && Power256(2) == 65_536 && Power256(3) == 16_777_216;
    var b := Bytes(v, 4);
    BytesFrom(v, 3, b);
    BytesFrom(v, 2, b[1..]);
    BytesFrom(v, 1, b[1..][1..]);
    BytesFrom(v, 0, b[1..][1..][1..]);
    FourBytes(v, b[0], b[1], b[2], b[3]);
  }

  lemma {:induction false} BytesFrom(v: nat, k: nat, b: seq<nat>)
    requires b == Bytes(v, k + 1)
    ensures b[0] == v / Power256(k) % 256 && b[1..] == Bytes(v, k)
  {
  }

  lemma {:induction false} FourBytes(v: nat, a: nat, b: nat, c: nat, d: nat)
    requires v < 4_294_967_296
    requires a == v / 16_777_216 % 256 && b == v / 65_536 % 256 && c == v / 256 % 256 && d == v / 1 % 256
    ensures ((a * 256 + b) * 256 + c) * 256 + d == v
  {
    var low := v / 256;
    var mid := low / 256;
    Nested(v, 256, 256);
    Nested(v, 65_536, 256);
    assert v == low * 256 + d && low == mid * 256 + c && mid == mid / 256 * 256 + b && mid / 256 == a;
  }

  lemma {:induction false} Nested(v: nat, p: nat, q: nat)
    requires p in {256, 65_536} && q == 256
    ensures v / p / q == v / (p * q)
  {
    var a, r := v / p / q, v / p % q * p + v % p;
    assert v == a * (p * q) + r && 0 <= r < p * q;
    QuotientIs(v, p * q, a, r);
  }

  // ---- IPv6 groups ----

  /** One to four hexadecimal digits that write the word. */
  ghost predicate GroupSays(g: string, word: nat) {
    1 <= |g| <= 4 && InRadix(g, 16, word)
  }

  lemma {:induction false} GroupIsRead(g: string, word: nat)
    ensures GroupSays(g, word) <==> IsGroup(g) && ParseInt(g, 16) == word
  {
    ParseIntReads(g, 16, word);
  }

  /** A quad at the end of an address becomes two groups, of two bytes each. */
  lemma {:induction false} QuadSays(b: seq<nat>)
    requires IsQuad(b)
    ensures exists hi, lo | GroupSays(hi, 256 * b[0] + b[1]) && GroupSays(lo, 256 * b[2] + b[3]) ::
      QuadAsGroups(b) == hi + ":" + lo
  {
    var x, y := 256 * b[0] + b[1], 256 * b[2] + b[3];
    HexGroup(x);
    HexGroup(y);
    GroupIsRead(ToHex(x), x);
    GroupIsRead(ToHex(y), y);
    assert QuadAsGroups(b) == ToHex(x) + ":" + ToHex(y);
  }
}
