/**
  The Kademlia routing table and the peer lookup of `library/src/network/dht.rs`
  (BEP 5): XOR distance, 160 buckets by shared prefix, k-closest selection and a
  lookup loop against arbitrary replies.
 */
module Dht {
  import opened PowersOfTwo
  import opened Octets

  const BUCKETS: nat := 160
  const BUCKET_SIZE: nat := 8
  const MAX_QUERIES: nat := 20
  const MAX_WAITS: nat := 10

  type NodeId = s: seq<Octet> | |s| == 20 witness seq(20, _ => 0)

  datatype DhtNode = DhtNode(id: NodeId, ip: string, port: nat)

  // ---------------------------------------------------------------- bits

  /** Bit k of an n-bit number, counted from the most significant end. */
  function TopBit(x: nat, n: nat, k: nat): (b: nat)
    requires k < n
  {
    Shift(x, n - 1 - k) % 2
  }

  /** `leading_zeros` of an n-bit number. */
  function LeadingZeros(x: nat, n: nat): (z: nat)
    ensures z <= n
  {
    if n == 0 then 0 else if x >= Pow2(n - 1) then 0 else 1 + LeadingZeros(x, n - 1)
  }

  lemma {:induction false} ShiftSmall(x: nat, s: nat)
    ensures x < Pow2(s) <==> Shift(x, s) == 0
    ensures x < 2 * Pow2(s) ==> Shift(x, s) <= 1
  {
    ShiftIsDivision(x, s);
    var q := Shift(x, s);
    if q >= 1 {
      MulMonotone(Pow2(s), 1, q);
    }
    if q >= 2 {
      MulMonotone(Pow2(s), 2, q);
    }
  }

  /** Before the leading-zero count every bit is 0; at it, if it exists, the bit is 1. */
  lemma {:induction false} LeadingZerosExact(x: nat, n: nat, k: nat)
    requires x < Pow2(n) && k < n && k <= LeadingZeros(x, n)
    ensures TopBit(x, n, k) == if k < LeadingZeros(x, n) then 0 else 1
    decreases n
  {
    if x >= Pow2(n - 1) {
      ShiftSmall(x, n - 1);
    } else if k == 0 {
      ShiftSmall(x, n - 1);
    } else {
      LeadingZerosExact(x, n - 1, k - 1);
    }
  }

  /** Fewer leading zeros means a larger number. */
  lemma {:induction false} LeadingZerosOrder(x: nat, y: nat, n: nat)
    requires x < Pow2(n) && y < Pow2(n) && LeadingZeros(x, n) > LeadingZeros(y, n)
    ensures x < y
    decreases n
  {
    if y < Pow2(n - 1) && x < Pow2(n - 1) {
      LeadingZerosOrder(x, y, n - 1);
    }
  }

  lemma {:induction false} LeadingZerosAll(x: nat, n: nat)
    requires x < Pow2(n)
    ensures LeadingZeros(x, n) == n <==> x == 0
    decreases n
  {
    if n > 0 && x < Pow2(n - 1) {
      LeadingZerosAll(x, n - 1);
    }
  }

  /** XOR acts bit by bit. */
  lemma {:induction false} XorBitsAt(a: nat, b: nat, n: nat, s: nat)
    requires s < n
    ensures Shift(XorBits(a, b, n), s) % 2 == if Shift(a, s) % 2 == Shift(b, s) % 2 then 0 else 1
    decreases s
  {
    if s > 0 {
      XorBitsAt(a / 2, b / 2, n - 1, s - 1);
      assert XorBits(a, b, n) / 2 == XorBits(a / 2, b / 2, n - 1);
    }
  }

  // ---------------------------------------------------------------- distance

  function XorSeq(a: seq<Octet>, b: seq<Octet>): (r: seq<Octet>)
    requires |a| == |b|
    ensures |r| == |a|
    ensures forall i :: 0 <= i < |a| ==> r[i] == Xor(a[i], b[i])
  {
    if a == [] then [] else [Xor(a[0], b[0])] + XorSeq(a[1..], b[1..])
  }

  /** Lexicographic order on byte strings of equal length. */
  predicate Less(a: seq<Octet>, b: seq<Octet>)
    requires |a| == |b|
  {
    a != [] && (a[0] < b[0] || (a[0] == b[0] && Less(a[1..], b[1..])))
  }

  /** Leading zero bits of a byte string. */
  function ZeroBits(d: seq<Octet>): (z: nat)
    ensures z <= 8 * |d|
  {
    if d == [] then 0
    else if d[0] == 0 then 8 + ZeroBits(d[1..])
    else LeadingZeros(d[0], 8)
  }

  method XorDistance(a: NodeId, b: NodeId) returns (dist: seq<Octet>)
    ensures dist == XorSeq(a, b)
  {
    dist := [];
    for i := 0 to |a|
      invariant |dist| == i
      invariant forall k :: 0 <= k < i ==> dist[k] == Xor(a[k], b[k])
    {
      dist := dist + [Xor(a[i], b[i])];
    }
  }

  method CountLeadingZeros(a: NodeId, b: NodeId) returns (zeros: nat)
    ensures zeros == SharedPrefix(a, b)
  {
    ghost var d := XorSeq(a, b);
    zeros := 0;
    for i := 0 to |a|
      invariant zeros + ZeroBits(d[i..]) == ZeroBits(d)
    {
      var x := Xor(a[i], b[i]);
      assert d[i..][0] == x && d[i..][1..] == d[i + 1..];
      if x == 0 {
        zeros := zeros + 8;
      } else {
        zeros := zeros + LeadingZeros(x, 8);
        return;
      }
    }
  }

  /** The bucket number before clamping: leading zero bits of the XOR distance. */
  function SharedPrefix(a: NodeId, b: NodeId): (z: nat)
    ensures z <= 160
  {
    ZeroBits(XorSeq(a, b))
  }

  /** Bit k of an id, most significant first. */
  function IdBit(id: seq<Octet>, k: nat): (b: nat)
    requires k < 8 * |id|
  {
    TopBit(id[k / 8], 8, k % 8)
  }

  /** The shared prefix is exact: all bits before it agree, the bit at it differs. */
  lemma {:induction false} SharedPrefixExact(a: seq<Octet>, b: seq<Octet>, k: nat)
    requires |a| == |b| && k < 8 * |a| && k <= ZeroBits(XorSeq(a, b))
    ensures IdBit(a, k) == IdBit(b, k) <==> k < ZeroBits(XorSeq(a, b))
  {
    hide XorSeq, ZeroBits, TopBit;
    PrefixExactAt(a, b, k / 8, k % 8);
  }

  lemma {:induction false} PrefixExactAt(a: seq<Octet>, b: seq<Octet>, i: nat, j: nat)
    requires |a| == |b| && i < |a| && j < 8 && 8 * i + j <= ZeroBits(XorSeq(a, b))
    ensures TopBit(a[i], 8, j) == TopBit(b[i], 8, j) <==> 8 * i + j < ZeroBits(XorSeq(a, b))
    decreases i
  {
    hide LeadingZeros, Xor, TopBit;
    var d := XorSeq(a, b);
    LeadingZerosAll(d[0], 8);
    if i == 0 {
      OctetPrefixExact(a[0], b[0], j);
    } else {
      assert XorSeq(a[1..], b[1..]) == d[1..];
      PrefixExactAt(a[1..], b[1..], i - 1, j);
    }
  }

  lemma {:induction false} OctetPrefixExact(x: Octet, y: Octet, k: nat)
    requires k < 8 && k <= LeadingZeros(Xor(x, y), 8)
    ensures TopBit(x, 8, k) == TopBit(y, 8, k) <==> k < LeadingZeros(Xor(x, y), 8)
  {
    XorBitsAt(x, y, 8, 7 - k);
    LeadingZerosExact(Xor(x, y), 8, k);
  }

  /** Only an id itself shares all 160 bits. */
  lemma {:induction false} FullPrefixIsEqual(a: seq<Octet>, b: seq<Octet>)
    requires |a| == |b|
    ensures ZeroBits(XorSeq(a, b)) == 8 * |a| <==> a == b
  {
    hide Xor, ZeroBits, XorSeq;
    ZeroBitsAll(XorSeq(a, b));
    forall i | 0 <= i < |a|
      ensures XorSeq(a, b)[i] == 0 <==> a[i] == b[i]
    {
      XorZero(a[i], b[i]);
    }
  }

  lemma {:induction false} ZeroBitsAll(d: seq<Octet>)
    ensures ZeroBits(d) == 8 * |d| <==> forall i :: 0 <= i < |d| ==> d[i] == 0
  {
    hide LeadingZeros;
    if d != [] {
      assert Pow2(8) == 256;
      LeadingZerosAll(d[0], 8);
      ZeroBitsAll(d[1..]);
      assert forall i :: 0 < i < |d| ==> d[i] == d[1..][i - 1];
    }
  }

  lemma {:induction false} XorZero(x: Octet, y: Octet)
    ensures Xor(x, y) == 0 <==> x == y
  {
    XorTwice(x, y);
    XorTwice(y, y);
    XorSelf(y, 8);
  }

  lemma {:induction false} XorSelf(y: nat, n: nat)
    ensures XorBits(y, y, n) == 0
    decreases n
  {
    if n > 0 {
      XorSelf(y / 2, n - 1);
    }
  }

  /** A longer shared prefix with the target means a strictly smaller XOR distance. */
  lemma {:induction false} DeeperIsCloser(d: seq<Octet>, e: seq<Octet>)
    requires |d| == |e| && ZeroBits(d) > ZeroBits(e)
    ensures Less(d, e)
    decreases |d|
  {
    LeadingZerosAll(d[0], 8);
    LeadingZerosAll(e[0], 8);
    if d[0] == 0 && e[0] == 0 {
      DeeperIsCloser(d[1..], e[1..]);
    } else if d[0] != 0 {
      LeadingZerosOrder(d[0], e[0], 8);
    }
  }

  lemma {:induction false} LessTotal(a: seq<Octet>, b: seq<Octet>)
    requires |a| == |b|
    ensures Less(a, b) || Less(b, a) || a == b
    ensures !(Less(a, b) && Less(b, a))
    ensures a == b ==> !Less(a, b)
    decreases |a|
  {
    if a != [] {
      LessTotal(a[1..], b[1..]);
      assert a == [a[0]] + a[1..] && b == [b[0]] + b[1..];
    }
  }

  lemma {:induction false} LessTransitive(a: seq<Octet>, b: seq<Octet>, c: seq<Octet>)
    requires |a| == |b| == |c| && Less(a, b) && Less(b, c)
    ensures Less(a, c)
    decreases |a|
  {
    if a[0] == b[0] && b[0] == c[0] {
      LessTransitive(a[1..], b[1..], c[1..]);
    }
  }

  /** Distances to one target identify ids. */
  lemma {:induction false} DistanceInjective(a: NodeId, b: NodeId, target: NodeId)
    requires XorSeq(a, target) == XorSeq(b, target)
    ensures a == b
  {
    forall i | 0 <= i < 20
      ensures a[i] == b[i]
    {
      XorTwice(a[i], target[i]);
      XorTwice(b[i], target[i]);
      assert XorSeq(a, target)[i] == XorSeq(b, target)[i];
    }
  }
}
