/** IPv4 networks: comparing the first bits of two addresses octet by octet. */
module Ipv4Network {
  import opened Bits

  /** The number the octets of an address make, the first one the highest. */
  function Number(octets: seq<nat>): nat {
    if octets == [] then 0 else octets[0] * Pow2(8 * (|octets| - 1)) + Number(octets[1..])
  }

  predicate AreOctets(octets: seq<nat>) {
    forall k :: 0 <= k < |octets| ==> octets[k] < 256
  }

  /** Of a prefix of `prefixLength` bits, those in octet `i`: std::clamp(prefixLength - 8 * i, 0, 8). */
  function BitsIn(prefixLength: nat, i: nat): (bits: nat)
    ensures bits <= 8
  {
    if prefixLength < 8 * i then 0 else if prefixLength - 8 * i > 8 then 8 else prefixLength - 8 * i
  }

  /** Whether two addresses of as many octets have the same first `prefixLength` bits. */
  predicate SameNetwork(a: seq<nat>, b: seq<nat>, prefixLength: nat)
    requires |a| == |b| && prefixLength <= 8 * |a|
  {
    ShiftRight(Number(a), 8 * |a| - prefixLength) == ShiftRight(Number(b), 8 * |a| - prefixLength)
  }

  /** Whether octets `a` and `b` have the same first `bits` bits. */
  predicate SameBits(a: nat, b: nat, bits: nat)
    requires bits <= 8
  {
    ShiftRight(a, 8 - bits) == ShiftRight(b, 8 - bits)
  }

  lemma {:induction false} NumberBound(octets: seq<nat>)
    requires AreOctets(octets)
    ensures Number(octets) < Pow2(8 * |octets|)
  {
    if octets != [] {
      NumberBound(octets[1..]);
      var B := Pow2(8 * (|octets| - 1));
      Pow2Eight();
      Pow2Sum(8, 8 * (|octets| - 1));
      MultiplyBoth(octets[0] + 1, 256, B);
      Distribute(octets[0], 1, B);
    }
  }

  lemma Pow2Eight()
    ensures Pow2(8) == 256
  {
    assert Pow2(2) == 4;
    Pow2Sum(2, 2);
    Pow2Sum(4, 4);
  }

  /** The first octet alone, if the prefix ends in it. */
  lemma ShortPrefix(octets: seq<nat>, prefixLength: nat)
    requires octets != [] && AreOctets(octets) && prefixLength <= 8
    ensures ShiftRight(Number(octets), 8 * |octets| - prefixLength) == ShiftRight(octets[0], 8 - prefixLength)
  {
    ShiftDivides(Number(octets), 8 * |octets| - prefixLength);
    ShiftDivides(octets[0], 8 - prefixLength);
    var B := Pow2(8 * (|octets| - 1));
    NumberBound(octets[1..]);
    Pow2Sum(8 * (|octets| - 1), 8 - prefixLength);
    DivideTwice(Number(octets), B, Pow2(8 - prefixLength));
    DivideBack(octets[0], B, Number(octets[1..]));
  }

  /** The first octet and the prefix of the rest, if it goes on past it. */
  lemma LongPrefix(octets: seq<nat>, prefixLength: nat) returns (whole: nat, below: nat)
    requires octets != [] && AreOctets(octets) && 8 < prefixLength <= 8 * |octets|
    ensures whole == ShiftRight(Number(octets), 8 * |octets| - prefixLength)
    ensures below == ShiftRight(Number(octets[1..]), 8 * |octets| - prefixLength)
    ensures below < Pow2(prefixLength - 8) && whole == octets[0] * Pow2(prefixLength - 8) + below
  {
    var d, e, rest := FirstOctet(octets, prefixLength);
    whole, below := SplitQuotient(octets[0], rest, d, e, Number(octets));
    ShiftDivides(Number(octets), 8 * |octets| - prefixLength);
    ShiftDivides(rest, 8 * |octets| - prefixLength);
  }

  lemma FirstOctet(octets: seq<nat>, prefixLength: nat) returns (d: nat, e: nat, rest: nat)
    requires octets != [] && AreOctets(octets) && 8 < prefixLength <= 8 * |octets|
    ensures d == Pow2(8 * |octets| - prefixLength) && e == Pow2(prefixLength - 8)
    ensures rest == Number(octets[1..]) && rest < d * e && Number(octets) == octets[0] * (d * e) + rest
  {
    d, e, rest := Pow2(8 * |octets| - prefixLength), Pow2(prefixLength - 8), Number(octets[1..]);
    NumberBound(octets[1..]);
    Pow2Sum(8 * |octets| - prefixLength, prefixLength - 8);
  }

  lemma SplitQuotient(a: nat, r: nat, d: nat, e: nat, n: nat) returns (whole: nat, below: nat)
    requires d > 0 && r < d * e && n == a * (d * e) + r
    ensures whole == n / d && below == r / d
    ensures below < e && whole == a * e + below
  {
    whole, below := n / d, r / d;
    QuotientBelow(r, d, e);
    Reorder(a, d, e);
    Distribute(a * e, below, d);
    DivideBack(a * e + below, d, r % d);
  }

  lemma QuotientBelow(r: nat, d: nat, e: nat)
    requires d > 0 && r < d * e
    ensures r / d < e && r == r / d * d + r % d
  {
    var q := r / d;
    assert e * d == d * e;
    if q >= e {
      MultiplyBoth(e, q, d);
    }
  }

  /** Two addresses are of one network exactly when each octet agrees in the bits of the prefix in it. */
  lemma {:induction false} NetworkByOctets(a: seq<nat>, b: seq<nat>, prefixLength: nat)
    requires |a| == |b| && AreOctets(a) && AreOctets(b) && prefixLength <= 8 * |a|
    ensures SameNetwork(a, b, prefixLength) <==>
            forall k :: 0 <= k < |a| ==> SameBits(a[k], b[k], BitsIn(prefixLength, k))
  {
    if a == [] {
    } else if prefixLength <= 8 {
      ShortPrefix(a, prefixLength);
      ShortPrefix(b, prefixLength);
      forall k | 0 < k < |a|
        ensures SameBits(a[k], b[k], BitsIn(prefixLength, k))
      {
        Pow2Eight();
        ShiftDivides(a[k], 8);
        ShiftDivides(b[k], 8);
        DivideBack(0, 256, a[k]);
        DivideBack(0, 256, b[k]);
      }
    } else {
      NetworkByOctets(a[1..], b[1..], prefixLength - 8);
      FirstThenNetwork(a, b, prefixLength);
      forall k | 0 <= k < |a| - 1
        ensures SameBits(a[1..][k], b[1..][k], BitsIn(prefixLength - 8, k))
                <==> SameBits(a[k + 1], b[k + 1], BitsIn(prefixLength, k + 1))
      {
      }
      if forall k :: 0 <= k < |a| - 1 ==> SameBits(a[1..][k], b[1..][k], BitsIn(prefixLength - 8, k)) {
        forall k | 0 < k < |a|
          ensures SameBits(a[k], b[k], BitsIn(prefixLength, k))
        {
          assert SameBits(a[1..][k - 1], b[1..][k - 1], BitsIn(prefixLength - 8, k - 1));
        }
      }
    }
  }

  lemma FirstThenNetwork(a: seq<nat>, b: seq<nat>, prefixLength: nat)
    requires |a| == |b| && AreOctets(a) && AreOctets(b) && 8 < prefixLength <= 8 * |a|
    ensures SameNetwork(a, b, prefixLength) <==>
            SameBits(a[0], b[0], BitsIn(prefixLength, 0)) && SameNetwork(a[1..], b[1..], prefixLength - 8)
  {
    var x, p := LongPrefix(a, prefixLength);
    var y, q := LongPrefix(b, prefixLength);
    WholeOctet(a[0], b[0]);
    PairUnique(a[0], p, b[0], q, Pow2(prefixLength - 8));
    assert SameNetwork(a, b, prefixLength) <==> x == y;
    assert SameNetwork(a[1..], b[1..], prefixLength - 8) <==> p == q;
  }

  lemma WholeOctet(a: nat, b: nat)
    ensures SameBits(a, b, 8) <==> a == b
  {
  }

  /** The four octets of an address, one by one. */
  lemma NetworkOfFour(a: seq<nat>, b: seq<nat>, prefixLength: nat)
    requires |a| == |b| == 4 && AreOctets(a) && AreOctets(b) && prefixLength <= 32
    ensures SameNetwork(a, b, prefixLength) <==>
            && SameBits(a[0], b[0], BitsIn(prefixLength, 0)) && SameBits(a[1], b[1], BitsIn(prefixLength, 1))
            && SameBits(a[2], b[2], BitsIn(prefixLength, 2)) && SameBits(a[3], b[3], BitsIn(prefixLength, 3))
  {
    NetworkByOctets(a, b, prefixLength);
  }

  /** The largest octet with the first `bits` bits of `octet`: `octet | (0xFF >> bits)`. */
  function LastWithPrefix(octet: nat, bits: nat): nat
    requires bits <= 8
  {
    ShiftRight(octet, 8 - bits) * Pow2(8 - bits) + Pow2(8 - bits) - 1
  }

  /** The octets from the first of a network to its last are those with its bits. */
  lemma OctetsOfNetwork(octet: nat, network: nat, bits: nat)
    requires bits <= 8 && EndsInZeros(network, 8 - bits)
    ensures network <= octet <= LastWithPrefix(network, bits) <==> SameBits(octet, network, bits)
  {
    var D := Pow2(8 - bits);
    ShiftDivides(network, 8 - bits);
    ShiftDivides(octet, 8 - bits);
    InBlock(octet, network, D);
  }

  lemma InBlock(x: nat, first: nat, d: nat)
    requires d > 0 && first % d == 0
    ensures first <= x <= first / d * d + d - 1 <==> x / d == first / d
  {
    var q := first / d;
    assert first == q * d;
    assert x == x / d * d + x % d;
    if first <= x <= q * d + d - 1 {
      DivideBack(q, d, x - first);
    }
  }

  lemma NumberOfFour(octets: seq<nat>)
    requires |octets| == 4
    ensures Number(octets) == octets[0] * 0x100_0000 + octets[1] * 0x1_0000 + octets[2] * 0x100 + octets[3]
  {
    Powers();
    assert octets[1..][1..] == octets[2..] && octets[2..][1..] == octets[3..] && octets[3..][1..] == [];
    assert Number(octets[3..]) == octets[3];
    assert Number(octets[2..]) == octets[2] * 0x100 + octets[3];
    assert Number(octets[1..]) == octets[1] * 0x1_0000 + Number(octets[2..]);
  }

  lemma Powers()
    ensures Pow2(0) == 1 && Pow2(8) == 0x100 && Pow2(16) == 0x1_0000 && Pow2(24) == 0x100_0000 && Pow2(32) == 0x1_0000_0000
  {
    Pow2Eight();
    Pow2Sum(8, 8);
    Pow2Sum(16, 8);
    Pow2Sum(16, 16);
  }

  /** An octet more behind: the number shifted by eight bits. */
  lemma {:induction false} NumberMore(octets: seq<nat>, octet: nat)
    ensures Number(octets + [octet]) == Number(octets) * 256 + octet
  {
    var all := octets + [octet];
    if octets == [] {
      assert all[1..] == [] && Pow2(0) == 1;
    } else {
      NumberMore(octets[1..], octet);
      assert all[1..] == octets[1..] + [octet];
      Pow2Sum(8 * (|octets| - 1), 8);
      Pow2Eight();
      Reorder(octets[0], 256, Pow2(8 * (|octets| - 1)));
      Distribute(octets[0] * Pow2(8 * (|octets| - 1)), Number(octets[1..]), 256);
    }
  }
}
