/** Optional values, searching and filtering, and the network and clock types every component shares. */
module Wrappers {
  datatype Option<+T> = None | Some(value: T)

  /** The position of the first element that satisfies `p`. */
  function FindFirst<T>(s: seq<T>, p: T -> bool): (r: Option<nat>)
    ensures r.Some? ==> r.value < |s| && p(s[r.value]) && forall i :: 0 <= i < r.value ==> !p(s[i])
    ensures r.None? ==> forall x :: x in s ==> !p(x)
  {
    if s == [] then None
    else if p(s[0]) then Some(0)
    else
      match FindFirst(s[1..], p)
      case Some(i) => Some(i + 1)
      case None => None
  }

  /** The elements that satisfy `p`, in their order. */
  function Filter<T>(s: seq<T>, p: T -> bool): (r: seq<T>)
    ensures |r| <= |s|
  {
    if s == [] then []
    else
      var before, x := Filter(s[..|s| - 1], p), s[|s| - 1];
      if p(x) then before + [x] else before
  }

  lemma {:induction false} FilterMembers<T(!new)>(s: seq<T>, p: T -> bool)
    ensures forall x :: x in Filter(s, p) <==> x in s && p(x)
  {
    if s != [] {
      FilterMembers(s[..|s| - 1], p);
      assert s == s[..|s| - 1] + [s[|s| - 1]];
    }
  }

  lemma {:induction false} FilterAppend<T>(a: seq<T>, b: seq<T>, p: T -> bool)
    ensures Filter(a + b, p) == Filter(a, p) + Filter(b, p)
  {
    if b == [] {
      assert a + b == a;
    } else {
      assert (a + b)[..|a + b| - 1] == a + b[..|b| - 1];
      FilterAppend(a, b[..|b| - 1], p);
    }
  }

  lemma {:induction false} FilterKeepsAll<T>(s: seq<T>, p: T -> bool)
    requires forall i :: 0 <= i < |s| ==> p(s[i])
    ensures Filter(s, p) == s
  {
    if s != [] {
      FilterKeepsAll(s[..|s| - 1], p);
    }
  }

  /** A socket address; the two families are kept apart everywhere. */
  datatype Addr = V4(ip: nat, port: nat) | V6(ip: nat, port: nat)

  type Byte = b: nat | b < 256

  /** A reading of the monotonic clock, in nanoseconds. */
  type Instant = nat

  const SECOND: nat := 1_000_000_000

  /** Subtracting instants saturates at zero. */
  function Since(now: Instant, earlier: Instant): nat {
    if earlier <= now then now - earlier else 0
  }
}
