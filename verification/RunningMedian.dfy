/** The median of values as they come (src/capture_stats.h, src/capture_stats.cpp): exact of the
  * first ones, then from a histogram of fixed size. */
module RunningMedian {
  import opened Options
  import opened Bits

  type Uint64 = n: nat | n < 0x1_0000_0000_0000_0000

  const ExactValues: nat := 4096
  const SubBucketBits: nat := 6
  const SubBuckets: nat := 64
  const Buckets: nat := SubBuckets * (64 - SubBucketBits + 1)

  // ── The element of a rank ──

  /** Of the values, those for which `p` holds. */
  function Count(values: seq<nat>, p: nat -> bool): nat {
    if values == [] then 0 else (if p(values[0]) then 1 else 0) + Count(values[1..], p)
  }

  function Below(v: nat): nat -> bool {
    (x: nat) => x < v
  }

  function UpTo(v: nat): nat -> bool {
    (x: nat) => x <= v
  }

  /** `v` is the value of rank `k`, the first one's being 0: at most `k` values are less than it,
    * and more than `k` no greater. */
  predicate HasRank(values: seq<nat>, k: nat, v: nat) {
    v in values && Count(values, Below(v)) <= k < Count(values, UpTo(v))
  }

  lemma {:induction false} CountWider(values: seq<nat>, p: nat -> bool, q: nat -> bool)
    requires forall x :: x in values && p(x) ==> q(x)
    ensures Count(values, p) <= Count(values, q)
  {
    if values != [] {
      CountWider(values[1..], p, q);
    }
  }

  lemma {:induction false} CountAppend(values: seq<nat>, v: nat, p: nat -> bool)
    ensures Count(values + [v], p) == Count(values, p) + if p(v) then 1 else 0
  {
    if values == [] {
    } else {
      CountAppend(values[1..], v, p);
      assert (values + [v])[1..] == values[1..] + [v];
    }
  }

  /** There is one value of each rank. */
  lemma RankUnique(values: seq<nat>, k: nat, v: nat, w: nat)
    requires HasRank(values, k, v) && HasRank(values, k, w)
    ensures v == w
  {
    if v < w {
      CountWider(values, UpTo(v), Below(w));
    } else if w < v {
      CountWider(values, UpTo(w), Below(v));
    }
  }

  predicate IsSorted(values: seq<nat>) {
    forall i, j :: 0 <= i < j < |values| ==> values[i] <= values[j]
  }

  lemma {:induction false} CountTakesMultiset(a: seq<nat>, b: seq<nat>, p: nat -> bool)
    requires multiset(a) == multiset(b)
    ensures Count(a, p) == Count(b, p)
  {
    if a == [] {
      assert |multiset(b)| == 0;
      assert b == [];
    } else {
      var k := FirstIn(a, b);
      CountTakesMultiset(a[1..], b[..k] + b[k + 1..], p);
      CountWithout(b, k, p);
    }
  }

  lemma FirstIn(a: seq<nat>, b: seq<nat>) returns (k: nat)
    requires multiset(a) == multiset(b) && a != []
    ensures k < |b| && b[k] == a[0] && multiset(b[..k] + b[k + 1..]) == multiset(a[1..])
  {
    assert a[0] in multiset(b);
    k :| 0 <= k < |b| && b[k] == a[0];
    RemovedFirst(a);
    RemovedOne(b, k);
  }

  lemma RemovedFirst(a: seq<nat>)
    requires a != []
    ensures multiset(a[1..]) == multiset(a) - multiset{a[0]}
  {
    assert a == [a[0]] + a[1..];
  }

  lemma RemovedOne(b: seq<nat>, k: nat)
    requires k < |b|
    ensures multiset(b[..k] + b[k + 1..]) == multiset(b) - multiset{b[k]}
  {
    assert b == b[..k] + ([b[k]] + b[k + 1..]);
  }

  lemma {:induction false} CountWithout(b: seq<nat>, k: nat, p: nat -> bool)
    requires k < |b|
    ensures Count(b, p) == Count(b[..k] + b[k + 1..], p) + if p(b[k]) then 1 else 0
  {
    var rest := b[..k] + b[k + 1..];
    if k == 0 {
      assert rest == b[1..];
    } else {
      CountWithout(b[1..], k - 1, p);
      assert rest[1..] == b[1..][..k - 1] + b[1..][k..];
    }
  }

  lemma {:induction false} CountSortedBelow(sorted: seq<nat>, k: nat, v: nat)
    requires IsSorted(sorted) && k < |sorted| && v == sorted[k]
    ensures Count(sorted, Below(v)) <= k < Count(sorted, UpTo(v))
  {
    if k > 0 {
      CountSortedBelow(sorted[1..], k - 1, v);
    } else {
      CountNone(sorted, Below(v));
    }
  }

  lemma {:induction false} CountNone(values: seq<nat>, p: nat -> bool)
    requires forall x :: x in values ==> !p(x)
    ensures Count(values, p) == 0
  {
    if values != [] {
      assert values[0] in values && forall x :: x in values[1..] ==> x in values;
      CountNone(values[1..], p);
    }
  }

  /** The value of rank `k` is the one at `k` once the values are sorted. */
  lemma SortedHasRank(values: seq<nat>, sorted: seq<nat>, k: nat)
    requires IsSorted(sorted) && multiset(sorted) == multiset(values) && k < |sorted|
    ensures HasRank(values, k, sorted[k])
  {
    var v := sorted[k];
    CountSortedBelow(sorted, k, v);
    CountTakesMultiset(sorted, values, Below(v));
    CountTakesMultiset(sorted, values, UpTo(v));
    assert v in multiset(sorted);
  }

  lemma {:induction false} Greatest(values: seq<nat>, limit: nat) returns (v: nat)
    requires exists x :: x in values && x < limit
    ensures v in values && v < limit && forall x :: x in values && x < limit ==> x <= v
  {
    var rest := values[1..];
    assert forall x :: x in values <==> x == values[0] || x in rest;
    if y :| y in rest && y < limit {
      v := Greatest(rest, limit);
      if v < values[0] < limit {
        v := values[0];
      }
    } else {
      v := values[0];
    }
  }

  lemma {:induction false} CountAll(values: seq<nat>, p: nat -> bool)
    requires forall x :: x in values ==> p(x)
    ensures Count(values, p) == |values|
  {
    if values != [] {
      assert values[0] in values && forall x :: x in values[1..] ==> x in values;
      CountAll(values[1..], p);
    }
  }

  /** The least value with more than `k` values up to it has rank `k`. */
  lemma LeastHasRank(values: seq<nat>, k: nat, v: nat)
    requires v in values && Count(values, UpTo(v)) > k
    requires forall x :: x in values && x < v ==> Count(values, UpTo(x)) <= k
    ensures HasRank(values, k, v)
  {
    if x :| x in values && x < v {
      var w := Greatest(values, v);
      CountWider(values, Below(v), UpTo(w));
    } else {
      CountNone(values, Below(v));
    }
  }

  /** The value of rank `k`: what std::nth_element leaves at `k`. */
  method NthElement(values: seq<Uint64>, k: nat) returns (v: Uint64)
    requires k < |values|
    ensures HasRank(values, k, v)
  {
    var found := false;
    v := values[0];
    for i := 0 to |values|
      invariant found ==> v in values && Count(values, UpTo(v)) > k
      invariant forall x :: x in values[..i] && Count(values, UpTo(x)) > k ==> found && v <= x
    {
      if Count(values, UpTo(values[i])) > k && (!found || values[i] < v) {
        v := values[i];
        found := true;
      }
    }
    assert values[..|values|] == values;
    assert values[0] in values;
    var greatest := Greatest(values, 0x1_0000_0000_0000_0000);
    CountAll(values, UpTo(greatest));
    assert found;
    LeastHasRank(values, k, v);
  }

  // ── Buckets ──

  function HighestBit(value: nat): nat {
    if value < 2 then 0 else 1 + HighestBit(value / 2)
  }

  method HighestBitOf(value: Uint64) returns (bit: nat)
    ensures bit == HighestBit(value)
  {
    bit := 0;
    var rest: nat := value / 2;
    while rest != 0
      invariant HighestBit(value) == if rest == 0 then bit else bit + 1 + HighestBit(rest)
    {
      bit := bit + 1;
      rest := rest / 2;
    }
  }

  lemma {:induction false} HighestBitBounds(value: nat)
    requires value > 0
    ensures Pow2(HighestBit(value)) <= value < Pow2(HighestBit(value) + 1)
  {
    if value >= 2 {
      HighestBitBounds(value / 2);
    }
  }

  lemma {:induction false} Pow2Grows(m: nat, n: nat)
    requires m <= n
    ensures Pow2(m) <= Pow2(n)
  {
    if m < n {
      Pow2Grows(m, n - 1);
    }
  }

  /** Bits of the value behind the ones that pick its bucket. */
  function ShiftOf(value: nat): nat
    requires value >= SubBuckets
  {
    HasSixBits(value);
    HighestBit(value) - SubBucketBits
  }

  lemma HasSixBits(value: nat)
    requires value >= SubBuckets
    ensures HighestBit(value) >= SubBucketBits
  {
    HighestBitBounds(value);
    assert Pow2(6) == 64;
    if HighestBit(value) < SubBucketBits {
      Pow2Grows(HighestBit(value) + 1, SubBucketBits);
    }
  }

  /** A bucket for each value below SubBuckets, and as many for each power of two from it up. */
  function BucketOf(value: nat): nat {
    if value < SubBuckets then value
    else
      SevenBits(value);
      var shift := ShiftOf(value);
      SubBuckets * (shift + 1) + (ShiftRight(value, shift) - SubBuckets)
  }

  method BucketNumber(value: Uint64) returns (bucket: nat)
    ensures bucket == BucketOf(value)
  {
    if value < SubBuckets {
      return value;
    }
    SevenBits(value);
    var highest := HighestBitOf(value);
    var shift := highest - SubBucketBits;
    return SubBuckets * (shift + 1) + (ShiftRight(value, shift) - SubBuckets);
  }

  /** The bits that pick a value's bucket are seven, the first of them set. */
  lemma SevenBits(value: nat)
    requires value >= SubBuckets
    ensures var unit, top := Pow2(ShiftOf(value)), ShiftRight(value, ShiftOf(value));
            SubBuckets <= top < 2 * SubBuckets && top * unit <= value < top * unit + unit
  {
    var shift := ShiftOf(value);
    var unit := Pow2(shift);
    HighestBitBounds(value);
    ShiftDivides(value, shift);
    Pow2Sum(shift, 6);
    Pow2Sum(shift, 7);
    assert Pow2(6) == 64 && Pow2(7) == 128;
    TopBits(value, unit, value / unit);
  }

  lemma TopBits(value: nat, unit: nat, top: nat)
    requires unit > 0 && SubBuckets * unit <= value < 2 * SubBuckets * unit && top == value / unit
    ensures SubBuckets <= top < 2 * SubBuckets && top * unit <= value < top * unit + unit
  {
    assert value == top * unit + value % unit;
    if top < SubBuckets {
      MultiplyBoth(top + 1, SubBuckets, unit);
      Distribute(top, 1, unit);
    }
    if top >= 2 * SubBuckets {
      MultiplyBoth(2 * SubBuckets, top, unit);
    }
  }

  /** The middle of a bucket: the value itself below SubBuckets. */
  function BucketMiddle(bucket: nat): nat {
    if bucket < SubBuckets then bucket
    else
      var shift := bucket / SubBuckets - 1;
      var lower := (SubBuckets + bucket % SubBuckets) * Pow2(shift);
      lower + Pow2(shift) / 2
  }

  /** Each value lies within half its bucket's width of the middle: within 1/128 of itself. */
  lemma MiddleIsNear(value: nat)
    ensures var middle: int := BucketMiddle(BucketOf(value));
            128 * (middle - value) <= value && 128 * (value - middle) <= value
  {
    if value >= SubBuckets {
      SevenBits(value);
      var shift := ShiftOf(value);
      var unit, top := Pow2(shift), ShiftRight(value, shift);
      BucketParts(shift + 1, top - SubBuckets);
      assert BucketMiddle(BucketOf(value)) == top * unit + unit / 2;
      MultiplyBoth(SubBuckets, top, unit);
      assert unit % 2 == 0 || unit == 1;
    }
  }

  lemma BucketParts(a: nat, b: nat)
    requires b < SubBuckets
    ensures (SubBuckets * a + b) / SubBuckets == a && (SubBuckets * a + b) % SubBuckets == b
  {
  }

  lemma {:induction false} HighestBitMonotone(a: nat, b: nat)
    requires a <= b
    ensures HighestBit(a) <= HighestBit(b)
    decreases b
  {
    if a >= 2 {
      HighestBitMonotone(a / 2, b / 2);
    }
  }

  /** A greater value never has a lower bucket. */
  lemma BucketMonotone(a: nat, b: nat)
    requires a <= b
    ensures BucketOf(a) <= BucketOf(b)
  {
    if b >= SubBuckets {
      SevenBits(b);
      if a >= SubBuckets {
        SevenBits(a);
        HighestBitMonotone(a, b);
        if ShiftOf(a) == ShiftOf(b) {
          var unit := Pow2(ShiftOf(a));
          var topA, topB := ShiftRight(a, ShiftOf(a)), ShiftRight(b, ShiftOf(a));
          if topB < topA {
            MultiplyBoth(topB + 1, topA, unit);
            Distribute(topB, 1, unit);
          }
        }
      }
    }
  }

  lemma PowersOfTwo()
    ensures Pow2(7) == 128 && Pow2(64) == 0x1_0000_0000_0000_0000
  {
    assert Pow2(8) == 256;
    Pow2Sum(8, 8);
    Pow2Sum(16, 16);
    Pow2Sum(32, 32);
  }

  /** The buckets are enough for every 64-bit value. */
  lemma BucketInRange(value: Uint64)
    ensures BucketOf(value) < Buckets
  {
    if value >= SubBuckets {
      SevenBits(value);
      PowersOfTwo();
      HighestBitBounds(value);
      if HighestBit(value) >= 64 {
        Pow2Grows(64, HighestBit(value));
      }
    }
  }

  /** The middle of each bucket is a 64-bit value. */
  lemma MiddleInRange(bucket: nat)
    requires bucket < Buckets
    ensures BucketMiddle(bucket) < 0x1_0000_0000_0000_0000
  {
    PowersOfTwo();
    if bucket >= SubBuckets {
      var shift := bucket / SubBuckets - 1;
      Pow2Grows(shift, 57);
      Pow2Sum(57, 7);
      MultiplyBoth(SubBuckets + bucket % SubBuckets, 127, Pow2(shift));
    }
  }

  // ── The median ──

  function InBucket(bucket: nat): nat -> bool {
    (x: nat) => BucketOf(x) == bucket
  }

  function InBucketsBelow(bucket: nat): nat -> bool {
    (x: nat) => BucketOf(x) < bucket
  }

  lemma {:induction false} CountNextBucket(values: seq<nat>, bucket: nat)
    ensures Count(values, InBucketsBelow(bucket + 1)) == Count(values, InBucketsBelow(bucket)) + Count(values, InBucket(bucket))
  {
    if values != [] {
      CountNextBucket(values[1..], bucket);
    }
  }

  /** The bucket in which the counts pass a rank is that of the value of the rank. */
  lemma BucketOfRank(values: seq<nat>, k: nat, v: nat, bucket: nat)
    requires HasRank(values, k, v)
    requires Count(values, InBucketsBelow(bucket)) <= k < Count(values, InBucketsBelow(bucket + 1))
    ensures BucketOf(v) == bucket
  {
    if BucketOf(v) < bucket {
      forall x | x in values && UpTo(v)(x)
        ensures InBucketsBelow(bucket)(x)
      {
        BucketMonotone(x, v);
      }
      CountWider(values, UpTo(v), InBucketsBelow(bucket));
    } else if BucketOf(v) > bucket {
      forall x | x in values && InBucketsBelow(bucket + 1)(x)
        ensures Below(v)(x)
      {
        if x >= v {
          BucketMonotone(v, x);
        }
      }
      CountWider(values, InBucketsBelow(bucket + 1), Below(v));
    }
  }

  class RunningMedian {
    var count: nat
    var exact: seq<Uint64>
    var buckets: seq<nat>

    /** Every value added. */
    ghost var added: seq<Uint64>

    predicate IsExact()
      reads this
    {
      buckets == []
    }

    ghost predicate Counted(values: seq<nat>)
      reads this
    {
      |buckets| == Buckets && forall b: nat :: b < Buckets ==> buckets[b] == Count(values, InBucket(b))
    }

    /** The first values are kept as they are, then each bucket counts its values: what is held is bounded. */
    ghost predicate Valid()
      reads this
    {
      && count == |added|
      && if |added| <= ExactValues then IsExact() && exact == added else exact == [] && Counted(added)
    }

    constructor ()
      ensures Valid() && added == []
    {
      count, exact, buckets, added := 0, [], [], [];
    }

    method Add(value: Uint64)
      requires Valid()
      modifies this
      ensures Valid() && added == old(added) + [value]
    {
      count := count + 1;
      added := added + [value];
      if !IsExact() {
        CountInBucket(value, added[..|added| - 1]);
        assert added == added[..|added| - 1] + [value];
        return;
      }
      if |exact| < ExactValues {
        exact := exact + [value];
        return;
      }
      buckets := seq(Buckets, _ => 0);
      for k := 0 to |exact|
        invariant exact == old(exact) && added == old(added) + [value] && count == |added|
        invariant Counted(exact[..k])
      {
        CountInBucket(exact[k], exact[..k]);
        assert exact[..k + 1] == exact[..k] + [exact[k]];
      }
      assert exact[..|exact|] == old(added);
      exact := [];
      CountInBucket(value, old(added));
    }

    method CountInBucket(value: Uint64, ghost values: seq<nat>)
      requires Counted(values)
      modifies this`buckets
      ensures Counted(values + [value])
    {
      BucketInRange(value);
      var bucket := BucketNumber(value);
      buckets := buckets[bucket := buckets[bucket] + 1];
      forall b: nat | b < Buckets
        ensures buckets[b] == Count(values + [value], InBucket(b))
      {
        CountAppend(values, value, InBucket(b));
      }
    }

    /** The median: the upper of the two middle values of an even count. Exact of the first values,
      * it is within 1/128 of the exact one of any number of values. */
    method Median() returns (median: Option<Uint64>)
      requires Valid()
      ensures median.Some? <==> added != []
      ensures forall v: nat :: median.Some? && HasRank(added, |added| / 2, v) ==>
                            && 128 * (median.value - v) <= v && 128 * (v - median.value) <= v
                            && (|added| <= ExactValues ==> median.value == v)
    {
      if count == 0 {
        return None;
      }
      var rank := count / 2;
      if IsExact() {
        var middle := NthElement(exact, rank);
        forall v: nat | HasRank(added, rank, v)
          ensures v == middle
        {
          RankUnique(added, rank, v, middle);
        }
        return Some(middle);
      }
      var below := 0;
      CountNone(added, InBucketsBelow(0));
      for bucket := 0 to |buckets|
        invariant below == Count(added, InBucketsBelow(bucket)) <= rank
      {
        CountNextBucket(added, bucket);
        below := below + buckets[bucket];
        if below > rank {
          MiddleInRange(bucket);
          forall v: nat | HasRank(added, rank, v)
            ensures 128 * (BucketMiddle(bucket) - v) <= v && 128 * (v - BucketMiddle(bucket)) <= v
          {
            BucketOfRank(added, rank, v, bucket);
            MiddleIsNear(v);
          }
          return Some(BucketMiddle(bucket));
        }
      }
      AllInBuckets();
      assert false;
    }

    lemma AllInBuckets()
      ensures Count(added, InBucketsBelow(Buckets)) == |added|
    {
      forall x | x in added
        ensures InBucketsBelow(Buckets)(x)
      {
        BucketInRange(x);
      }
      CountAll(added, InBucketsBelow(Buckets));
    }
  }
}
