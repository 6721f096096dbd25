/** Kademlia identifiers (BEP 5): XOR distance, its order, and bucket indices,
    related to the numbers the identifiers spell in big-endian. */
module NodeIds {
  import opened Powers

  type NodeID = id: seq<bv8> | |id| == 20 witness seq(20, _ => 0)

  lemma Pow2Byte(k: nat)
    ensures Pow2(k + 8) == 256 * Pow2(k)
  {
    assert Pow2(k + 8) == 2 * Pow2(k + 7) && Pow2(k + 7) == 2 * Pow2(k + 6);
    assert Pow2(k + 6) == 2 * Pow2(k + 5) && Pow2(k + 5) == 2 * Pow2(k + 4);
    assert Pow2(k + 4) == 2 * Pow2(k + 3) && Pow2(k + 3) == 2 * Pow2(k + 2);
    assert Pow2(k + 2) == 2 * Pow2(k + 1);
  }

  /** The big-endian number a byte string spells. */
  ghost function Value(d: seq<bv8>): nat {
    if d == [] then 0 else Place(d[0], |d| - 1) + Value(d[1..])
  }

  /** What byte `b` is worth with `n` bytes after it. */
  ghost function Place(b: bv8, n: nat): nat {
    Number(b) * Pow2(8 * n)
  }

  function Number(b: bv8): (n: nat)
    ensures n < 256
  {
    b as int
  }

  lemma {:induction false} ValueBound(d: seq<bv8>)
    ensures Value(d) < Pow2(8 * |d|)
  {
    if d != [] {
      var p := Pow2(8 * (|d| - 1));
      ValueBound(d[1..]);
      Pow2Byte(8 * (|d| - 1));
      MulBound(Number(d[0]), 255, p);
    }
  }

  lemma MulBound(a: nat, b: nat, p: nat)
    requires a <= b
    ensures a * p <= b * p
  {
  }

  // ---- Distance ----

  function Xor(a: seq<bv8>, b: seq<bv8>): (d: seq<bv8>)
    requires |a| == |b|
    ensures |d| == |a|
    ensures forall i :: 0 <= i < |d| ==> d[i] == a[i] ^ b[i]
  {
    seq(|a|, i requires 0 <= i < |a| => a[i] ^ b[i])
  }

  method ComputeXor(a: NodeID, b: NodeID) returns (result: NodeID)
    ensures result == Xor(a, b)
  {
    result := seq(20, _ => 0);
    for i := 0 to 20
      invariant |result| == 20
      invariant forall k :: 0 <= k < i ==> result[k] == a[k] ^ b[k]
    {
      result := result[i := a[i] ^ b[i]];
    }
  }

  lemma XorCommutes(a: bv8, b: bv8)
    ensures a ^ b == b ^ a
  {
  }

  lemma XorCancels(a: bv8, b: bv8)
    ensures a ^ (a ^ b) == b
  {
  }

  lemma XorZero(a: bv8, b: bv8)
    ensures a ^ b == 0 <==> a == b
  {
  }

  /** Distance is symmetric. */
  lemma XorSymmetric(a: NodeID, b: NodeID)
    ensures Xor(a, b) == Xor(b, a)
  {
    forall i | 0 <= i < 20
      ensures Xor(a, b)[i] == Xor(b, a)[i]
    {
      XorCommutes(a[i], b[i]);
    }
  }

  /** Distance from `a` determines the other identifier. */
  lemma XorInvolutive(a: NodeID, b: NodeID)
    ensures Xor(a, Xor(a, b)) == b
  {
    forall i | 0 <= i < 20
      ensures Xor(a, Xor(a, b))[i] == b[i]
    {
      XorCancels(a[i], b[i]);
    }
  }

  lemma XorInjective(a: NodeID, b: NodeID, c: NodeID)
    ensures Xor(a, b) == Xor(a, c) <==> b == c
  {
    XorInvolutive(a, b);
    XorInvolutive(a, c);
  }

  // ---- Order ----

  /** -1, 0 or 1 at the first byte that differs. */
  function Compare(a: seq<bv8>, b: seq<bv8>): int
    requires |a| == |b|
  {
    if a == [] then 0
    else if a[0] < b[0] then -1
    else if a[0] > b[0] then 1
    else Compare(a[1..], b[1..])
  }

  method CompareDist(a: NodeID, b: NodeID) returns (c: int)
    ensures c == Compare(a, b)
  {
    for i := 0 to 20
      invariant Compare(a, b) == Compare(a[i..], b[i..])
    {
      if a[i] < b[i] {
        return -1;
      }
      if a[i] > b[i] {
        return 1;
      }
    }
    return 0;
  }

  lemma HeadDominates(a: nat, b: nat, p: nat, x: nat, y: nat)
    requires a < b && x < p
    ensures a * p + x < b * p + y
  {
    MulBound(a + 1, b, p);
    assert (a + 1) * p == a * p + p;
  }

  lemma ByteNumbers(a: bv8, b: bv8)
    ensures a < b <==> Number(a) < Number(b)
    ensures a == b <==> Number(a) == Number(b)
  {
  }

  lemma FirstByteDominates(a: seq<bv8>, b: seq<bv8>)
    requires |a| == |b| > 0 && a[0] < b[0]
    ensures Value(a) < Value(b)
  {
    ByteNumbers(a[0], b[0]);
    ValueBound(a[1..]);
    HeadDominates(Number(a[0]), Number(b[0]), Pow2(8 * (|a| - 1)), Value(a[1..]), Value(b[1..]));
  }

  lemma HeadsAgree(a: seq<bv8>, b: seq<bv8>)
    requires |a| == |b| > 0 && a[0] == b[0]
    ensures Value(a) - Value(b) == Value(a[1..]) - Value(b[1..])
    ensures a == b <==> a[1..] == b[1..]
  {
    if a[1..] == b[1..] {
      assert a == [a[0]] + a[1..] && b == [b[0]] + b[1..];
    }
  }

  /** Byte-wise comparison is numeric comparison, and equal numbers are equal
      identifiers. */
  lemma {:induction false} CompareIsNumeric(a: seq<bv8>, b: seq<bv8>)
    requires |a| == |b|
    ensures Compare(a, b) < 0 <==> Value(a) < Value(b)
    ensures Compare(a, b) == 0 <==> Value(a) == Value(b)
    ensures Value(a) == Value(b) <==> a == b
  {
    if a == [] {
    } else if a[0] < b[0] {
      FirstByteDominates(a, b);
    } else if b[0] < a[0] {
      FirstByteDominates(b, a);
    } else {
      CompareIsNumeric(a[1..], b[1..]);
      HeadsAgree(a, b);
    }
  }

  // ---- Bucket index ----

  function LeadingZeros8(b: bv8): (z: nat)
    ensures z <= 8
  {
    if b >= 0x80 then 0 else if b >= 0x40 then 1 else if b >= 0x20 then 2 else if b >= 0x10 then 3
    else if b >= 0x08 then 4 else if b >= 0x04 then 5 else if b >= 0x02 then 6 else if b >= 0x01 then 7 else 8
  }

  /** Position of the highest set bit, or -1. */
  function BucketIndex(d: seq<bv8>): (k: int)
    ensures -1 <= k < 8 * |d|
  {
    if d == [] then -1
    else if d[0] != 0 then 8 * |d| - 1 - LeadingZeros8(d[0])
    else BucketIndex(d[1..])
  }

  method ComputeBucketIndex(distance: NodeID) returns (k: int)
    ensures k == BucketIndex(distance)
  {
    for i := 0 to 20
      invariant BucketIndex(distance) == BucketIndex(distance[i..])
    {
      if distance[i] != 0 {
        return 159 - (i * 8 + LeadingZeros8(distance[i]));
      }
    }
    return -1;
  }

  lemma LeadingZerosValue(b: bv8)
    requires b != 0
    ensures LeadingZeros8(b) < 8
    ensures Pow2(7 - LeadingZeros8(b)) <= Number(b) < 2 * Pow2(7 - LeadingZeros8(b))
  {
    assert Pow2(1) == 2 && Pow2(2) == 4 && Pow2(3) == 8 && Pow2(4) == 16;
    assert Pow2(5) == 32 && Pow2(6) == 64 && Pow2(7) == 128;
  }

  lemma {:induction false} Pow2Sum(a: nat, b: nat)
    ensures Pow2(a) * Pow2(b) == Pow2(a + b)
  {
    if a > 0 {
      Pow2Sum(a - 1, b);
      assert Pow2(a) * Pow2(b) == 2 * (Pow2(a - 1) * Pow2(b));
    }
  }

  lemma TopByteRange(b: nat, q: nat, p: nat, tail: nat)
    requires q <= b < 2 * q && tail < p
    ensures q * p <= b * p + tail < 2 * (q * p)
  {
    MulBound(q, b, p);
    MulBound(b + 1, 2 * q, p);
    assert (b + 1) * p == b * p + p && (2 * q) * p == 2 * (q * p);
  }

  lemma TopByteIsLog2(d: seq<bv8>)
    requires d != [] && d[0] != 0
    ensures BucketIndex(d) >= 0 && Pow2(BucketIndex(d)) <= Value(d) < 2 * Pow2(BucketIndex(d))
  {
    var m := 8 * (|d| - 1);
    var top := 7 - LeadingZeros8(d[0]);
    LeadingZerosValue(d[0]);
    ValueBound(d[1..]);
    Pow2Sum(top, m);
    TopByteRange(Number(d[0]), Pow2(top), Pow2(m), Value(d[1..]));
  }

  /** The index is the floor of the binary logarithm of the distance, and -1
      exactly for distance zero. */
  lemma {:induction false} BucketIndexIsLog2(d: seq<bv8>)
    ensures BucketIndex(d) == -1 <==> Value(d) == 0
    ensures BucketIndex(d) >= 0 ==> Pow2(BucketIndex(d)) <= Value(d) < 2 * Pow2(BucketIndex(d))
  {
    if d == [] {
    } else if d[0] == 0 {
      BucketIndexIsLog2(d[1..]);
    } else {
      TopByteIsLog2(d);
    }
  }

  lemma ZeroDistance(a: NodeID, b: NodeID)
    ensures (forall i :: 0 <= i < 20 ==> Xor(a, b)[i] == 0) <==> a == b
  {
    forall i | 0 <= i < 20
      ensures Xor(a, b)[i] == 0 <==> a[i] == b[i]
    {
      XorZero(a[i], b[i]);
    }
  }

  /** Only the own identifier has no bucket. */
  lemma BucketOfSelf(own: NodeID, id: NodeID)
    ensures BucketIndex(Xor(own, id)) == -1 <==> id == own
  {
    AllZero(Xor(own, id));
    ZeroDistance(own, id);
  }

  lemma {:induction false} AllZero(d: seq<bv8>)
    ensures BucketIndex(d) == -1 <==> forall i :: 0 <= i < |d| ==> d[i] == 0
  {
    if d != [] {
      AllZero(d[1..]);
      assert forall i :: 1 <= i < |d| ==> d[i] == d[1..][i - 1];
    }
  }

  // ---- Random identifiers in a bucket ----

  lemma {:induction false} IndexAtByte(d: seq<bv8>, at: nat)
    requires at < |d| && d[at] != 0 && forall i :: 0 <= i < at ==> d[i] == 0
    ensures BucketIndex(d) == 8 * (|d| - at) - 1 - LeadingZeros8(d[at])
  {
    if at > 0 {
      IndexAtByte(d[1..], at - 1);
    }
  }

  lemma {:induction false} IndexFromByte(d: seq<bv8>, at: nat)
    requires at < |d| && 8 * (|d| - at) - 8 <= BucketIndex(d) < 8 * (|d| - at)
    ensures d[at] != 0 && forall i :: 0 <= i < at ==> d[i] == 0
  {
    if at == 0 {
    } else if d[0] != 0 {
      LeadingZerosValue(d[0]);
    } else {
      IndexFromByte(d[1..], at - 1);
      assert forall i :: 1 <= i < |d| ==> d[i] == d[1..][i - 1];
    }
  }

  /** Clear the bits above `bit` and set it; with `bit` 7 the mask is 0xFF,
      because the shifted one falls off the byte. */
  function PlaceBit(b: bv8, bit: nat): bv8
    requires bit < 8
  {
    (b & (((1 as bv8) << (bit + 1)) - 1)) | ((1 as bv8) << bit)
  }

  lemma PlaceBitTop(b: bv8, bit: nat)
    requires bit < 8
    ensures PlaceBit(b, bit) != 0 && LeadingZeros8(PlaceBit(b, bit)) == 7 - bit
    ensures b != 0 && LeadingZeros8(b) == 7 - bit ==> PlaceBit(b, bit) == b
  {
  }

  /** The distance `randomIDInBucket` aims at. */
  ghost predicate Aimed(before: seq<bv8>, dist: seq<bv8>, byteIdx: nat, bit: nat) {
    && |before| == |dist| == 20 && byteIdx < 20 && bit < 8
    && (forall k :: 0 <= k < byteIdx ==> dist[k] == 0)
    && dist[byteIdx] == PlaceBit(before[byteIdx], bit)
    && dist[byteIdx + 1..] == before[byteIdx + 1..]
  }

  lemma AimedIndex(before: seq<bv8>, dist: seq<bv8>, byteIdx: nat, bit: nat)
    requires Aimed(before, dist, byteIdx, bit)
    ensures BucketIndex(dist) == 8 * (19 - byteIdx) + bit
    ensures BucketIndex(before) == 8 * (19 - byteIdx) + bit ==> dist == before
  {
    PlaceBitTop(before[byteIdx], bit);
    IndexAtByte(dist, byteIdx);
    if BucketIndex(before) == 8 * (19 - byteIdx) + bit {
      IndexFromByte(before, byteIdx);
      IndexAtByte(before, byteIdx);
      assert forall k :: byteIdx < k < 20 ==> dist[k] == dist[byteIdx + 1..][k - byteIdx - 1];
      assert forall k :: byteIdx < k < 20 ==> before[k] == before[byteIdx + 1..][k - byteIdx - 1];
    }
  }

  /** `randomIDInBucket`, with the random bytes as `filling`. For every own
      identifier, filling and index the result lies in that bucket, and every
      identifier of the bucket is the result of some filling: itself. */
  method RandomIDInBucket(own: NodeID, filling: NodeID, bucketIdx: nat) returns (target: NodeID)
    requires bucketIdx < 160
    ensures BucketIndex(Xor(own, target)) == bucketIdx
    ensures BucketIndex(Xor(own, filling)) == bucketIdx ==> target == filling
  {
    var dist: NodeID := ComputeXor(own, filling);
    ghost var before := dist;
    var byteIdx := (159 - bucketIdx) / 8;
    var bitIdx := 7 - (159 - bucketIdx) % 8;
    for i := 0 to byteIdx
      invariant |dist| == 20
      invariant forall k :: 0 <= k < 20 ==> dist[k] == if k < i then 0 else before[k]
    {
      dist := dist[i := 0];
    }
    dist := dist[byteIdx := dist[byteIdx] & (((1 as bv8) << (bitIdx + 1)) - 1)];
    dist := dist[byteIdx := dist[byteIdx] | ((1 as bv8) << bitIdx)];
    AimedIndex(before, dist, byteIdx, bitIdx);
    target := ComputeXor(own, dist);
    XorInvolutive(own, dist);
    XorInvolutive(own, filling);
  }
}
