/**
 160-bit DHT identifiers.

 An identifier is its bits, most significant first; identifiers are compared as big-endian
 numbers and the distance of two identifiers is their bitwise exclusive or.  The lemmas connect
 the three views the routing table mixes: shared prefixes, numeric ranges and XOR distance.
 */
module Ids {
  type Bits = seq<bool>

  const ID_BITS: nat := 160

  type Id = b: Bits | |b| == ID_BITS witness seq(ID_BITS, _ => false)

  // -- Numbers ---------------------------------------------------------------------------------

  function Pow2(n: nat): (p: nat)
    ensures p >= 1
  {
    if n == 0 then 1 else 2 * Pow2(n - 1)
  }

  /** The big-endian value of a bit string. */
  function Num(b: Bits): nat {
    if b == [] then 0 else (if b[0] then Pow2(|b| - 1) else 0) + Num(b[1..])
  }

  lemma {:induction false} NumBound(b: Bits)
    ensures Num(b) < Pow2(|b|)
  {
    if b != [] {
      NumBound(b[1..]);
    }
  }

  predicate Before(a: Bits, b: Bits) {
    Num(a) < Num(b)
  }

  predicate InRange(b: Bits, start: Bits, end: Bits) {
    Num(start) <= Num(b) <= Num(end)
  }

  lemma {:induction false} NumInjective(a: Bits, b: Bits)
    requires |a| == |b| && Num(a) == Num(b)
    ensures a == b
  {
    if a != [] {
      NumBound(a[1..]);
      NumBound(b[1..]);
      NumInjective(a[1..], b[1..]);
      assert a == [a[0]] + a[1..] && b == [b[0]] + b[1..];
    }
  }

  lemma {:induction false} Pow2Monotone(m: nat, n: nat)
    requires m <= n
    ensures Pow2(m) <= Pow2(n)
  {
    if m < n {
      Pow2Monotone(m, n - 1);
    }
  }

  // -- Constant runs of bits -------------------------------------------------------------------

  function Fill(bit: bool, n: nat): (b: Bits)
    ensures |b| == n && forall i :: 0 <= i < n ==> b[i] == bit
  {
    seq(n, _ => bit)
  }

  /** The smallest and the largest identifier with prefix `p`. */
  function First(p: Bits): (b: Id)
    requires |p| <= ID_BITS
  {
    p + Fill(false, ID_BITS - |p|)
  }

  function Last(p: Bits): (b: Id)
    requires |p| <= ID_BITS
  {
    p + Fill(true, ID_BITS - |p|)
  }

  lemma {:induction false} NumFill(n: nat)
    ensures Num(Fill(false, n)) == 0
    ensures Num(Fill(true, n)) == Pow2(n) - 1
  {
    if n != 0 {
      assert Fill(false, n)[1..] == Fill(false, n - 1);
      assert Fill(true, n)[1..] == Fill(true, n - 1);
      NumFill(n - 1);
    }
  }

  /** Having a prefix is the same as lying between the prefix filled with zeros and with ones. */
  lemma {:induction false} PrefixIsRange(p: Bits, b: Bits)
    requires |p| <= |b|
    ensures p <= b <==> InRange(b, p + Fill(false, |b| - |p|), p + Fill(true, |b| - |p|))
  {
    var n := |b| - |p|;
    if p == [] {
      NumBound(b);
      NumFill(n);
      assert p + Fill(false, n) == Fill(false, n) && p + Fill(true, n) == Fill(true, n);
    } else {
      PrefixIsRange(p[1..], b[1..]);
      assert (p + Fill(false, n))[1..] == p[1..] + Fill(false, n);
      assert (p + Fill(true, n))[1..] == p[1..] + Fill(true, n);
      HeadsOrder(p + Fill(false, n), b);
      HeadsOrder(b, p + Fill(true, n));
      PrefixHead(p, b);
    }
  }

  lemma PrefixHead(p: Bits, b: Bits)
    requires p != [] && b != []
    ensures p <= b <==> p[0] == b[0] && p[1..] <= b[1..]
  {
    assert p == [p[0]] + p[1..] && b == [b[0]] + b[1..];
  }

  /** Comparing two numbers bit by bit from the top. */
  lemma HeadsOrder(a: Bits, b: Bits)
    requires |a| == |b| && a != []
    ensures Num(a) <= Num(b) <==> if a[0] == b[0] then Num(a[1..]) <= Num(b[1..]) else b[0]
  {
    NumBound(a[1..]);
    NumBound(b[1..]);
  }

  lemma BlockIsPrefix(p: Bits, id: Id)
    requires |p| <= ID_BITS
    ensures p <= id <==> InRange(id, First(p), Last(p))
  {
    PrefixIsRange(p, id);
  }

  lemma {:induction false} NumFilled(p: Bits, n: nat)
    ensures Num(p + Fill(true, n)) == Num(p + Fill(false, n)) + Pow2(n) - 1
  {
    if p == [] {
      NumFill(n);
      assert p + Fill(false, n) == Fill(false, n) && p + Fill(true, n) == Fill(true, n);
    } else {
      NumFilled(p[1..], n);
      assert (p + Fill(false, n))[1..] == p[1..] + Fill(false, n);
      assert (p + Fill(true, n))[1..] == p[1..] + Fill(true, n);
    }
  }

  lemma {:induction false} NumAppend(p: Bits, bit: bool)
    ensures Num(p + [bit]) == 2 * Num(p) + (if bit then 1 else 0)
  {
    if p == [] {
      assert p + [bit] == [bit] && [bit][1..] == [];
    } else {
      NumAppend(p[1..], bit);
      assert (p + [bit])[1..] == p[1..] + [bit];
    }
  }

  lemma {:induction false} NumAligned(p: Bits, n: nat)
    ensures Num(p + Fill(false, n)) == Num(p) * Pow2(n)
  {
    if n == 0 {
      assert p + Fill(false, n) == p;
    } else {
      NumAligned(p, n - 1);
      NumAppend(p + Fill(false, n - 1), false);
      assert p + Fill(false, n) == p + Fill(false, n - 1) + [false];
      Doubled(Num(p), Pow2(n - 1));
    }
  }

  lemma Doubled(a: nat, b: nat)
    ensures a * (2 * b) == 2 * (a * b)
  {
  }

  /** `start` to `end` are the numbers from a multiple of `size` up to the next one. */
  ghost predicate AlignedBlock(start: nat, end: nat, size: nat) {
    end == start + size - 1 && exists k: nat :: start == k * size
  }

  lemma FilledBlock(p: Bits, n: nat)
    ensures AlignedBlock(Num(p + Fill(false, n)), Num(p + Fill(true, n)), Pow2(n))
  {
    NumFilled(p, n);
    NumAligned(p, n);
    AlignedBlockAt(Num(p + Fill(false, n)), Num(p + Fill(true, n)), Pow2(n), Num(p));
  }

  lemma AlignedBlockAt(start: nat, end: nat, size: nat, k: nat)
    requires start == k * size && end == start + size - 1
    ensures AlignedBlock(start, end, size)
  {
  }

  /** The identifiers with prefix `p` are an aligned block of 2^(160-|p|) consecutive numbers. */
  lemma BlockIsAligned(p: Bits)
    requires |p| <= ID_BITS
    ensures AlignedBlock(Num(First(p)), Num(Last(p)), Pow2(ID_BITS - |p|))
  {
    FilledBlock(p, ID_BITS - |p|);
  }

  // -- Shared prefixes -------------------------------------------------------------------------

  /** How many leading bits `a` and `b` share. */
  function Shared(a: Bits, b: Bits): (k: nat)
    requires |a| == |b|
    ensures k <= |a|
  {
    if a == [] || a[0] != b[0] then 0 else 1 + Shared(a[1..], b[1..])
  }

  /** They agree up to there and differ right after. */
  lemma {:induction false} SharedIs(a: Bits, b: Bits)
    requires |a| == |b|
    ensures var k := Shared(a, b); a[..k] == b[..k] && (k < |a| ==> a[k] != b[k])
  {
    if a != [] && a[0] == b[0] {
      SharedIs(a[1..], b[1..]);
      var k := Shared(a, b);
      assert a[..k] == [a[0]] + a[1..][..k - 1] && b[..k] == [b[0]] + b[1..][..k - 1];
    }
  }

  lemma SharedAtLeast(a: Bits, b: Bits, d: nat)
    requires |a| == |b| && d <= |a|
    ensures d <= Shared(a, b) <==> a[..d] == b[..d]
    ensures d <= Shared(a, b) <==> a[..d] <= b
  {
    var k := Shared(a, b);
    SharedIs(a, b);
    if d <= k {
      assert a[..d] == a[..k][..d] && b[..d] == b[..k][..d];
    } else {
      assert a[..d][k] != b[..d][k];
    }
    assert a[..d] <= b <==> a[..d] == b[..d];
  }

  lemma SharedExactly(a: Bits, b: Bits, d: nat)
    requires |a| == |b| && d < |a|
    ensures Shared(a, b) == d <==> a[..d] + [!a[d]] <= b
  {
    SharedAtLeast(a, b, d);
    SharedIs(a, b);
    var p := a[..d] + [!a[d]];
    if p <= b {
      assert p == b[..d + 1];
      assert a[..d] == p[..d] == b[..d];
      assert b[d] == p[d];
    }
    if Shared(a, b) == d {
      assert b[d] == !a[d];
      assert b[..d + 1] == b[..d] + [b[d]];
    }
  }

  /** The first differing bit decides the order. */
  lemma {:induction false} FirstDifferenceOrders(a: Bits, b: Bits)
    requires |a| == |b| && Shared(a, b) < |a|
    ensures Before(a, b) <==> b[Shared(a, b)]
  {
    NumBound(a[1..]);
    NumBound(b[1..]);
    if a[0] == b[0] {
      FirstDifferenceOrders(a[1..], b[1..]);
    }
  }

  // -- XOR distance ----------------------------------------------------------------------------

  function Xor(a: Bits, b: Bits): (x: Bits)
    requires |a| == |b|
    ensures |x| == |a| && forall i :: 0 <= i < |a| ==> x[i] == (a[i] != b[i])
  {
    seq(|a|, i requires 0 <= i < |a| => a[i] != b[i])
  }

  function Distance(a: Id, b: Id): nat {
    Num(Xor(a, b))
  }

  lemma {:induction false} XorBelow(a: Bits, b: Bits, d: nat)
    requires |a| == |b| && d <= |a|
    ensures Num(Xor(a, b)) < Pow2(|a| - d) <==> d <= Shared(a, b)
  {
    NumBound(Xor(a, b));
    if d > 0 {
      assert Xor(a, b)[1..] == Xor(a[1..], b[1..]);
      NumBound(Xor(a[1..], b[1..]));
      Pow2Monotone(|a| - d, |a| - 1);
      if a[0] == b[0] {
        XorBelow(a[1..], b[1..], d - 1);
      }
    }
  }

  /** Sharing exactly `k` leading bits is a power-of-two band of XOR distances. */
  lemma DistanceBand(a: Id, b: Id, k: nat)
    requires k < ID_BITS
    ensures Shared(a, b) == k <==> Pow2(ID_BITS - k - 1) <= Distance(a, b) < Pow2(ID_BITS - k)
  {
    XorBelow(a, b, k);
    XorBelow(a, b, k + 1);
  }

  lemma DistanceBall(a: Id, b: Id, k: nat)
    requires k <= ID_BITS
    ensures k <= Shared(a, b) <==> Distance(a, b) < Pow2(ID_BITS - k)
  {
    XorBelow(a, b, k);
  }

  /** XOR distance from a fixed point tells identifiers apart. */
  lemma DistanceInjective(target: Id, a: Id, b: Id)
    requires Distance(target, a) == Distance(target, b)
    ensures a == b
  {
    NumInjective(Xor(target, a), Xor(target, b));
    forall i | 0 <= i < ID_BITS
      ensures a[i] == b[i]
    {
      assert Xor(target, a)[i] == Xor(target, b)[i];
    }
  }
}
