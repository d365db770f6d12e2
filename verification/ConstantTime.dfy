/** The constant-time comparison that every signature and token check ends in. */
module ConstantTime {

  const WORD := 0x1_0000_0000

  /** Bitwise exclusive or of two unsigned words. */
  function Xor(a: nat, b: nat): nat
    decreases a + b
  {
    if a == 0 && b == 0 then 0 else 2 * Xor(a / 2, b / 2) + (if a % 2 == b % 2 then 0 else 1)
  }

  /** Bitwise or of two unsigned words. */
  function Or(a: nat, b: nat): nat
    decreases a + b
  {
    if a == 0 && b == 0 then 0 else 2 * Or(a / 2, b / 2) + (if a % 2 == 1 || b % 2 == 1 then 1 else 0)
  }

  lemma {:induction false} XorIsZero(a: nat, b: nat)
    ensures Xor(a, b) == 0 <==> a == b
    decreases a + b
  {
    if a != 0 || b != 0 {
      XorIsZero(a / 2, b / 2);
    }
  }

  lemma {:induction false} OrIsZero(a: nat, b: nat)
    ensures Or(a, b) == 0 <==> a == 0 && b == 0
    decreases a + b
  {
    if a != 0 || b != 0 {
      OrIsZero(a / 2, b / 2);
    }
  }

  /** The k-th binary digit of n. */
  ghost function Bit(n: nat, k: nat): nat {
    if k == 0 then n % 2 else Bit(n / 2, k - 1)
  }

  /** Both operations work digit by digit. */
  lemma {:induction false} WordsAreBitwise(a: nat, b: nat, k: nat)
    ensures Bit(Xor(a, b), k) == 1 <==> Bit(a, k) != Bit(b, k)
    ensures Bit(Or(a, b), k) == 1 <==> Bit(a, k) == 1 || Bit(b, k) == 1
    decreases k
  {
    if a == 0 && b == 0 {
      NoBits(k);
    } else {
      HalfOf(Xor(a / 2, b / 2), if a % 2 == b % 2 then 0 else 1);
      HalfOf(Or(a / 2, b / 2), if a % 2 == 1 || b % 2 == 1 then 1 else 0);
      if k > 0 {
        WordsAreBitwise(a / 2, b / 2, k - 1);
      }
    }
  }

  lemma {:induction false} NoBits(k: nat)
    ensures Bit(0, k) == 0
  {
    if k > 0 { NoBits(k - 1); }
  }

  lemma {:induction false} HalfOf(q: nat, r: nat)
    requires r < 2
    ensures (2 * q + r) / 2 == q && (2 * q + r) % 2 == r
  {
  }

  function Max(a: nat, b: nat): nat {
    if a > b then a else b
  }

  /** s.charCodeAt(i % (s.length || 1)) | 0 */
  function CodeAt(s: string, i: nat): nat {
    if s == "" then 0 else s[i % |s|] as nat
  }

  /** The lengths agree as 32-bit words and the common part agrees character by character. */
  predicate Agree(a: string, b: string) {
    && |a| % WORD == |b| % WORD
    && forall i | 0 <= i < |a| && i < |b| :: a[i] == b[i]
  }

  ghost predicate AgreeUpTo(a: string, b: string, n: nat) {
    && |a| % WORD == |b| % WORD
    && forall i | 0 <= i < n && i < |a| && i < |b| :: a[i] == b[i]
  }

  lemma {:induction false} Accumulates(diff: nat, l: nat, r: nat, inRange: nat)
    requires inRange <= 1
    ensures Or(diff, Xor(l, r) * inRange) == 0 <==> diff == 0 && (inRange == 0 || l == r)
  {
    XorIsZero(l, r);
    OrIsZero(diff, Xor(l, r) * inRange);
  }

  /** One round: the difference stays zero exactly while the strings agree. */
  lemma {:induction false} Round(a: string, b: string, i: nat, diff: nat, next: nat, inRange: nat)
    requires diff == 0 <==> AgreeUpTo(a, b, i)
    requires inRange == if i < |a| && i < |b| then 1 else 0
    requires next == 0 <==> diff == 0 && (inRange == 0 || CodeAt(a, i) == CodeAt(b, i))
    ensures next == 0 <==> AgreeUpTo(a, b, i + 1)
  {
    if inRange == 1 {
      CodeInRange(a, i);
      CodeInRange(b, i);
    }
  }

  lemma {:induction false} CodeInRange(s: string, i: nat)
    requires i < |s|
    ensures CodeAt(s, i) == s[i] as nat
  {
    SmallMod(i, |s|);
  }

  lemma {:induction false} SmallMod(i: nat, n: nat)
    requires i < n
    ensures i % n == i
  {
  }

  method TimingSafeEqual(left: string, right: string) returns (equal: bool)
    ensures equal <==> Agree(left, right)
    ensures equal <==> && |left| % 4_294_967_296 == |right| % 4_294_967_296
                       && forall i | 0 <= i < |left| && i < |right| :: left[i] == right[i]
  {
    var width := Max(Max(|left|, |right|), 32);
    var diff := Xor(|left| % WORD, |right| % WORD);
    XorIsZero(|left| % WORD, |right| % WORD);
    for i := 0 to width
      invariant diff == 0 <==> AgreeUpTo(left, right, i)
    {
      var l := CodeAt(left, i);
      var r := CodeAt(right, i);
      var inRange := if i < |left| && i < |right| then 1 else 0;
      var next := Or(diff, Xor(l, r) * inRange);
      Accumulates(diff, l, r, inRange);
      Round(left, right, i, diff, next, inRange);
      diff := next;
    }
    equal := diff == 0;
  }

  /** Below 2^32 characters agreement is equality; above, a string can agree with a prefix of itself. */
  lemma {:induction false} ShortAgreementIsEquality(a: string, b: string)
    ensures |a| < WORD && |b| < WORD ==> (Agree(a, b) <==> a == b)
    ensures Agree(a, b) && a != b ==> |a| >= WORD || |b| >= WORD
  {
  }

  lemma {:induction false} LongPrefixAgrees(a: string)
    requires |a| >= WORD
    ensures Agree(a, a[..|a| - WORD]) && a != a[..|a| - WORD]
  {
  }
}
