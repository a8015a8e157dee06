/** The first address of an IPv4 network: an address with the bits behind the prefix cleared. */
module Ipv4Masks {
  import opened Bits
  import opened Ipv4Network

  /** The four octets of a number of 32 bits. */
  function FourOctets(n: nat): (octets: seq<nat>)
    ensures |octets| == 4 && AreOctets(octets)
  {
    var second, third, fourth := n / 0x100, n / 0x100 / 0x100, n / 0x100 / 0x100 / 0x100;
    [fourth % 0x100, third % 0x100, second % 0x100, n % 0x100]
  }

  /** `n & (~0u << cleared)` */
  function Masked(n: nat, cleared: nat): nat {
    ShiftRight(n, cleared) * Pow2(cleared)
  }

  function FirstOfNetwork(octets: seq<nat>, prefixLength: nat): (first: seq<nat>)
    requires |octets| == 4 && prefixLength <= 32
    ensures |first| == 4 && AreOctets(first)
  {
    FourOctets(Masked(Number(octets), 32 - prefixLength))
  }

  /** No bit is set behind the prefix. */
  predicate ZeroBehind(octets: seq<nat>, prefixLength: nat) {
    forall k :: 0 <= k < |octets| ==> EndsInZeros(octets[k], 8 - BitsIn(prefixLength, k))
  }

  lemma FourOctetsNumber(n: nat)
    requires n < 0x1_0000_0000
    ensures Number(FourOctets(n)) == n
  {
    var second, third, fourth := n / 0x100, n / 0x100 / 0x100, n / 0x100 / 0x100 / 0x100;
    assert fourth < 0x100;
    NumberOfFour(FourOctets(n));
  }

  lemma OctetsOfNumber(octets: seq<nat>)
    requires |octets| == 4 && AreOctets(octets)
    ensures FourOctets(Number(octets)) == octets
  {
    NumberOfFour(octets);
    Digits(octets[0], octets[1], octets[2], octets[3]);
  }

  lemma Digits(a: nat, b: nat, c: nat, d: nat)
    requires a < 256 && b < 256 && c < 256 && d < 256
    ensures FourOctets(a * 0x100_0000 + b * 0x1_0000 + c * 0x100 + d) == [a, b, c, d]
  {
    var n := a * 0x100_0000 + b * 0x1_0000 + c * 0x100 + d;
    assert n / 0x100 == a * 0x1_0000 + b * 0x100 + c && n % 0x100 == d;
    assert n / 0x100 / 0x100 == a * 0x100 + b && n / 0x100 % 0x100 == c;
    assert n / 0x100 / 0x100 / 0x100 == a && n / 0x100 / 0x100 % 0x100 == b;
  }

  // ── Clearing the bits behind the prefix ──

  lemma RemainderOfPair(a: nat, b: nat, r: nat, e: nat)
    requires r < b && e > 0
    ensures e * b > 0 && (a * b + r) % (e * b) == a % e * b + r
  {
    var q, m := a / e, a % e;
    assert a == q * e + m;
    Distribute(q * e, m, b);
    Reorder(q, b, e);
    assert q * e * b == q * (e * b);
    Distribute(m, 1, b);
    MultiplyBoth(m + 1, e, b);
    MultiplyBoth(1, e, b);
    Remainder(q, e * b, m * b + r);
  }

  lemma RemainderBehind(a: nat, d: nat, f: nat, r: nat)
    requires d > 0
    ensures (a * (d * f) + r) % d == r % d
  {
    var q, low := r / d, r % d;
    assert r == q * d + low;
    assert a * (d * f) == a * f * d;
    Distribute(a * f, q, d);
    Remainder(a * f + q, d, low);
  }

  /** No bit of the number is set behind the prefix exactly when none of its octets has one there. */
  lemma {:induction false} ZeroBits(octets: seq<nat>, prefixLength: nat)
    requires AreOctets(octets) && prefixLength <= 8 * |octets|
    ensures Number(octets) % Pow2(8 * |octets| - prefixLength) == 0 <==> ZeroBehind(octets, prefixLength)
  {
    hide EndsInZeros, ZeroBehind, Pow2;
    if octets == [] {
      assert Number(octets) == 0;
      NothingBehind(octets, prefixLength);
    } else {
      NumberBound(octets[1..]);
      ZeroFirst(octets, prefixLength);
      if prefixLength <= 8 {
        ZeroBits(octets[1..], 0);
        ZeroShort(octets[0], |octets| - 1, Number(octets[1..]), prefixLength);
      } else {
        ZeroBits(octets[1..], prefixLength - 8);
        ZeroLong(octets[0], |octets| - 1, Number(octets[1..]), prefixLength);
      }
    }
  }

  lemma NothingBehind(octets: seq<nat>, prefixLength: nat)
    requires octets == []
    ensures ZeroBehind(octets, prefixLength) && 0 % Pow2(8 * |octets|) == 0
  {
  }

  lemma ZeroShort(first: nat, n: nat, rest: nat, prefixLength: nat)
    requires rest < Pow2(8 * n) && prefixLength <= 8
    ensures (first * Pow2(8 * n) + rest) % Pow2(8 * (n + 1) - prefixLength) == 0
            <==> EndsInZeros(first, 8 - BitsIn(prefixLength, 0)) && rest % Pow2(8 * n) == 0
  {
    var high, low := Pow2(8 * n), Pow2(8 - prefixLength);
    Pow2Sum(8 - prefixLength, 8 * n);
    RemainderOfPair(first, high, rest, low);
    ShiftDivides(first, 8 - prefixLength);
    Remainder(0, high, rest);
    ZeroSum(first % low, high, rest);
  }

  lemma ZeroSum(m: nat, b: nat, r: nat)
    requires b > 0
    ensures m * b + r == 0 <==> m == 0 && r == 0
  {
    if m > 0 {
      MultiplyBoth(1, m, b);
    }
  }

  lemma ZeroLong(first: nat, n: nat, rest: nat, prefixLength: nat)
    requires 8 < prefixLength <= 8 * (n + 1)
    ensures (first * Pow2(8 * n) + rest) % Pow2(8 * (n + 1) - prefixLength) == 0
            <==> EndsInZeros(first, 8 - BitsIn(prefixLength, 0)) && rest % Pow2(8 * n - (prefixLength - 8)) == 0
  {
    Pow2Sum(8 * n + 8 - prefixLength, prefixLength - 8);
    RemainderBehind(first, Pow2(8 * n + 8 - prefixLength), Pow2(prefixLength - 8), rest);
  }

  lemma ZeroFirst(octets: seq<nat>, prefixLength: nat)
    requires octets != []
    ensures ZeroBehind(octets, prefixLength) <==>
            && EndsInZeros(octets[0], 8 - BitsIn(prefixLength, 0))
            && ZeroBehind(octets[1..], if prefixLength <= 8 then 0 else prefixLength - 8)
  {
    hide EndsInZeros;
    var next := if prefixLength <= 8 then 0 else prefixLength - 8;
    forall k | 0 <= k < |octets| - 1
      ensures octets[1..][k] == octets[k + 1] && BitsIn(next, k) == BitsIn(prefixLength, k + 1)
    {
    }
    if EndsInZeros(octets[0], 8 - BitsIn(prefixLength, 0)) && ZeroBehind(octets[1..], next) {
      forall k | 0 <= k < |octets|
        ensures EndsInZeros(octets[k], 8 - BitsIn(prefixLength, k))
      {
        assert k > 0 ==> octets[1..][k - 1] == octets[k] && BitsIn(next, k - 1) == BitsIn(prefixLength, k);
      }
    }
  }

  lemma MaskedBounds(n: nat, cleared: nat)
    ensures Masked(n, cleared) <= n && Masked(n, cleared) % Pow2(cleared) == 0
    ensures Masked(n, cleared) / Pow2(cleared) == n / Pow2(cleared)
    ensures n % Pow2(cleared) == 0 ==> Masked(n, cleared) == n
  {
    ShiftDivides(n, cleared);
    MultipleBelow(n, Pow2(cleared), ShiftRight(n, cleared));
  }

  lemma MultipleBelow(n: nat, d: nat, q: nat)
    requires d > 0 && q == n / d
    ensures q * d <= n && q * d % d == 0 && q * d / d == q && (n % d == 0 ==> q * d == n)
  {
    var r := n % d;
    assert n == d * q + r;
    assert d * q == q * d;
    Remainder(q, d, 0);
    DivideBack(q, d, 0);
  }

  /** Clearing bits gives the one address of the network that has none set behind the prefix. */
  lemma FirstIsOfNetwork(octets: seq<nat>, prefixLength: nat)
    requires |octets| == 4 && AreOctets(octets) && prefixLength <= 32
    ensures ZeroBehind(FirstOfNetwork(octets, prefixLength), prefixLength)
    ensures SameNetwork(FirstOfNetwork(octets, prefixLength), octets, prefixLength)
    ensures ZeroBehind(octets, prefixLength) <==> FirstOfNetwork(octets, prefixLength) == octets
  {
    hide ZeroBehind, FourOctets, ShiftRight;
    var n, cleared := Number(octets), 32 - prefixLength;
    var first := FourOctets(Masked(n, cleared));
    NumberBound(octets);
    Powers();
    MaskedBounds(n, cleared);
    FourOctetsNumber(Masked(n, cleared));
    ZeroBits(first, prefixLength);
    ZeroBits(octets, prefixLength);
    OctetsOfNumber(octets);
    ShiftDivides(Number(first), cleared);
    ShiftDivides(n, cleared);
  }
}
