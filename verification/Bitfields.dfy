/** Piece bitfields: byte vectors read most significant bit first. */
module Bitfields {

  type Bits = seq<bv8>

  /** `0x80 >> k`. */
  function Mask(k: nat): (m: bv8)
    requires k < 8
  {
    match k
    case 0 => 0x80
    case 1 => 0x40
    case 2 => 0x20
    case 3 => 0x10
    case 4 => 0x08
    case 5 => 0x04
    case 6 => 0x02
    case _ => 0x01
  }

  predicate Get(b: Bits, p: nat) {
    p / 8 < |b| && b[p / 8] & Mask(p % 8) != 0
  }

  /** Sets or clears one bit; positions past the end are ignored. */
  function Put(b: Bits, p: nat, v: bool): (r: Bits)
    ensures |r| == |b|
  {
    if p / 8 >= |b| then b
    else if v then b[p / 8 := b[p / 8] | Mask(p % 8)]
    else b[p / 8 := b[p / 8] & !Mask(p % 8)]
  }

  lemma {:induction false} GetAt(b: Bits, i: nat, k: nat)
    requires i < |b| && k < 8
    ensures Get(b, 8 * i + k) <==> b[i] & Mask(k) != 0
  {
  }

  /** Setting a bit that is set changes nothing. */
  lemma {:induction false} PutSet(b: Bits, p: nat)
    requires Get(b, p)
    ensures Put(b, p, true) == b
  {
  }

  /** Clearing a bit that is clear changes nothing. */
  lemma {:induction false} PutClear(b: Bits, p: nat)
    requires !Get(b, p)
    ensures Put(b, p, false) == b
  {
  }

  /** Writing one bit changes that bit, if it exists, and no other. */
  lemma {:induction false} GetPut(b: Bits, p: nat, v: bool, q: nat)
    ensures Get(Put(b, p, v), q) == if q == p && p / 8 < |b| then v else Get(b, q)
  {
    if p / 8 < |b| && q / 8 == p / 8 {
      assert q == p <==> q % 8 == p % 8;
    }
  }

  /** Bytes needed for n bits. */
  function ByteCount(n: nat): (r: nat)
    ensures n <= 8 * r
  {
    (n + 7) / 8
  }

  function Filled(n: nat, v: bv8): (b: Bits)
    ensures |b| == n
    ensures forall i :: 0 <= i < n ==> b[i] == v
  {
    if n == 0 then [] else Filled(n - 1, v) + [v]
  }

  // ---------------------------------------------------------------- counting and summing

  /** How many of the first n bits are set. */
  function CountBits(b: Bits, n: nat): (r: nat)
    ensures r <= n
  {
    if n == 0 then 0 else CountBits(b, n - 1) + (if Get(b, n - 1) then 1 else 0)
  }

  lemma {:induction false} CountPut(b: Bits, p: nat, v: bool, n: nat)
    requires p / 8 < |b|
    ensures CountBits(Put(b, p, v), n) + (if p < n && Get(b, p) then 1 else 0)
         == CountBits(b, n) + (if p < n && v then 1 else 0)
  {
    hide Get, Put;
    if n > 0 {
      CountPut(b, p, v, n - 1);
      GetPut(b, p, v, n - 1);
    }
  }

  /** The sum of weight[p] over the set bits p below n. */
  function SumBits(b: Bits, weight: seq<nat>, n: nat): (r: nat)
    requires n <= |weight|
  {
    if n == 0 then 0 else SumBits(b, weight, n - 1) + (if Get(b, n - 1) then weight[n - 1] else 0)
  }

  /** Changing one bit and one weight changes only that term of the sum. */
  lemma {:induction false} SumPut(b: Bits, weight: seq<nat>, p: nat, v: bool, w: nat, n: nat)
    requires n <= |weight| && p < |weight| && p / 8 < |b|
    ensures SumBits(Put(b, p, v), weight[p := w], n) + (if p < n && Get(b, p) then weight[p] else 0)
         == SumBits(b, weight, n) + (if p < n && v then w else 0)
  {
    hide Get, Put;
    if n > 0 {
      SumPut(b, weight, p, v, w, n - 1);
      GetPut(b, p, v, n - 1);
    }
  }

  lemma {:induction false} EmptyCounts(k: nat, weight: seq<nat>, n: nat, m: nat)
    requires n <= |weight|
    ensures SumBits(Filled(k, 0), weight, n) == 0 && CountBits(Filled(k, 0), m) == 0
    decreases n + m
  {
    if n > 0 {
      EmptyCounts(k, weight, n - 1, m);
    } else if m > 0 {
      EmptyCounts(k, weight, n, m - 1);
    }
  }
}
