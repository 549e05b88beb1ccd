/**
 The find-node traversal: a queue of nodes to visit, a set of visits in progress, and replies that
 add further nodes one level deeper.

 `Next` is one turn of the loop with an arbitrary reply; no sequence of turns goes on for ever.
 */
module Traversal {
  import opened Ids
  import opened Wrappers

  /** A node to ask; the first ones are known by address only. */
  datatype Visit = Visit(id: Option<Id>, addr: Addr, depth: nat)

  datatype Work = Work(queue: seq<Visit>, running: seq<Visit>)

  function CountAt(visits: seq<Visit>, depth: nat): nat {
    if visits == [] then 0
    else CountAt(visits[..|visits| - 1], depth) + if visits[|visits| - 1].depth == depth then 1 else 0
  }

  /** Pending work at one depth; waiting in the queue weighs more than running. */
  function Weight(w: Work, depth: nat): nat {
    2 * CountAt(w.queue, depth) + CountAt(w.running, depth)
  }

  ghost predicate Bounded(w: Work, maxDepth: nat) {
    (forall v :: v in w.queue ==> v.depth <= maxDepth) && (forall v :: v in w.running ==> v.depth <= maxDepth)
  }

  function WithoutAt(visits: seq<Visit>, i: nat): seq<Visit>
    requires i < |visits|
  {
    visits[..i] + visits[i + 1..]
  }

  function Starting(w: Work): Work
    requires w.queue != []
  {
    Work(w.queue[1..], w.running + [w.queue[0]])
  }

  function Completing(w: Work, i: nat, found: seq<Visit>): Work
    requires i < |w.running|
  {
    Work(w.queue + found, WithoutAt(w.running, i))
  }

  /** What a visit may add: nodes one level deeper, and none from the deepest level. */
  ghost predicate Children(v: Visit, found: seq<Visit>, maxDepth: nat) {
    forall c :: c in found ==> v.depth < maxDepth && c.depth == v.depth + 1
  }

  ghost predicate Completed(w: Work, t: Work, maxDepth: nat, i: nat, found: seq<Visit>) {
    i < |w.running| && Children(w.running[i], found, maxDepth) && t == Completing(w, i, found)
  }

  ghost predicate Next(w: Work, t: Work, maxDepth: nat) {
    || (w.queue != [] && t == Starting(w))
    || (exists i: nat, found: seq<Visit> :: Completed(w, t, maxDepth, i, found))
  }

  // -- Counting --------------------------------------------------------------------------------

  lemma {:induction false} CountAppend(a: seq<Visit>, b: seq<Visit>, depth: nat)
    ensures CountAt(a + b, depth) == CountAt(a, depth) + CountAt(b, depth)
  {
    if b == [] {
      assert a + b == a;
    } else {
      assert (a + b)[..|a + b| - 1] == a + b[..|b| - 1];
      CountAppend(a, b[..|b| - 1], depth);
    }
  }

  lemma CountOne(v: Visit, depth: nat)
    ensures CountAt([v], depth) == if v.depth == depth then 1 else 0
  {
    assert CountAt([], depth) == 0;
  }

  lemma CountWithout(visits: seq<Visit>, i: nat, depth: nat)
    requires i < |visits|
    ensures CountAt(WithoutAt(visits, i), depth) + CountAt([visits[i]], depth) == CountAt(visits, depth)
  {
    var a, b := visits[..i], visits[i + 1..];
    assert visits == a + ([visits[i]] + b);
    CountAppend(a, [visits[i]] + b, depth);
    CountAppend([visits[i]], b, depth);
    CountAppend(a, b, depth);
  }

  lemma {:induction false} CountNone(visits: seq<Visit>, depth: nat)
    requires forall v :: v in visits ==> v.depth != depth
    ensures CountAt(visits, depth) == 0
  {
    if visits != [] {
      CountNone(visits[..|visits| - 1], depth);
    }
  }

  lemma StartingWeight(w: Work, depth: nat)
    requires w.queue != []
    ensures Weight(Starting(w), depth) == Weight(w, depth) - if w.queue[0].depth == depth then 1 else 0
  {
    assert w.queue == [w.queue[0]] + w.queue[1..];
    CountAppend([w.queue[0]], w.queue[1..], depth);
    CountAppend(w.running, [w.queue[0]], depth);
    CountOne(w.queue[0], depth);
  }

  lemma CompletingWeight(w: Work, i: nat, found: seq<Visit>, maxDepth: nat, depth: nat)
    requires i < |w.running| && Children(w.running[i], found, maxDepth)
    ensures depth < w.running[i].depth ==> Weight(Completing(w, i, found), depth) == Weight(w, depth)
    ensures depth == w.running[i].depth ==> Weight(Completing(w, i, found), depth) == Weight(w, depth) - 1
  {
    CountAppend(w.queue, found, depth);
    CountWithout(w.running, i, depth);
    CountOne(w.running[i], depth);
    if depth <= w.running[i].depth {
      CountNone(found, depth);
    }
  }

  /** Each turn takes weight from one depth and leaves the shallower ones alone. */
  lemma NextLowers(w: Work, t: Work, maxDepth: nat) returns (d: nat)
    requires Bounded(w, maxDepth) && Next(w, t, maxDepth)
    ensures Bounded(t, maxDepth)
    ensures d <= maxDepth && Weight(t, d) < Weight(w, d)
    ensures forall e :: 0 <= e < d ==> Weight(t, e) == Weight(w, e)
  {
    if w.queue != [] && t == Starting(w) {
      d := w.queue[0].depth;
      assert w.queue[0] in w.queue;
      forall e: nat | e <= d
        ensures Weight(t, e) == Weight(w, e) - if e == d then 1 else 0
      {
        StartingWeight(w, e);
      }
    } else {
      var i: nat, found: seq<Visit> :| Completed(w, t, maxDepth, i, found);
      d := w.running[i].depth;
      assert w.running[i] in w.running;
      forall e: nat | e <= d
        ensures Weight(t, e) == Weight(w, e) - if e == d then 1 else 0
      {
        CompletingWeight(w, i, found, maxDepth, e);
      }
    }
  }

  // -- Termination -----------------------------------------------------------------------------

  /** From turn `m` on, the weights at depths below `k` no longer change. */
  ghost predicate Settled(run: nat -> Work, k: nat, m: nat) {
    forall n: nat, e: nat :: m <= n && e < k ==> Weight(run(n), e) == Weight(run(m), e)
  }

  ghost predicate TurnAt(run: nat -> Work, maxDepth: nat, n: nat) {
    Next(run(n), run(n + 1), maxDepth)
  }

  ghost predicate Endless(run: nat -> Work, maxDepth: nat) {
    Bounded(run(0), maxDepth) && forall n: nat :: TurnAt(run, maxDepth, n)
  }

  lemma {:induction false} StaysBounded(run: nat -> Work, maxDepth: nat, n: nat)
    requires Endless(run, maxDepth)
    ensures Bounded(run(n), maxDepth)
  {
    if n > 0 {
      StaysBounded(run, maxDepth, n - 1);
      assert TurnAt(run, maxDepth, n - 1);
      var d := NextLowers(run(n - 1), run(n), maxDepth);
    }
  }

  lemma TurnLowers(run: nat -> Work, maxDepth: nat, n: nat) returns (d: nat)
    requires Endless(run, maxDepth)
    ensures d <= maxDepth && Weight(run(n + 1), d) < Weight(run(n), d)
    ensures forall e :: 0 <= e < d ==> Weight(run(n + 1), e) == Weight(run(n), e)
  {
    StaysBounded(run, maxDepth, n);
    assert TurnAt(run, maxDepth, n);
    d := NextLowers(run(n), run(n + 1), maxDepth);
  }

  lemma SettledStays(run: nat -> Work, k: nat, m: nat, n: nat)
    requires Settled(run, k, m) && m <= n
    ensures forall e: nat :: e < k ==> Weight(run(n + 1), e) == Weight(run(n), e)
  {
    forall e: nat | e < k
      ensures Weight(run(n + 1), e) == Weight(run(n), e)
    {
      assert Weight(run(n + 1), e) == Weight(run(m), e);
    }
  }

  /** Once the shallower depths are settled, this one only goes down. */
  lemma {:induction false} SettledDescends(run: nat -> Work, maxDepth: nat, k: nat, m: nat, n: nat)
    requires Endless(run, maxDepth) && Settled(run, k, m) && m <= n
    ensures Weight(run(n), k) <= Weight(run(m), k)
    decreases n
  {
    if m < n {
      SettledDescends(run, maxDepth, k, m, n - 1);
      SettledStays(run, k, m, n - 1);
      var d := TurnLowers(run, maxDepth, n - 1);
    }
  }

  /** A weight that only goes down stops changing. */
  lemma {:induction false} OneMoreSettles(run: nat -> Work, maxDepth: nat, k: nat, m: nat) returns (m': nat)
    requires Endless(run, maxDepth) && Settled(run, k, m)
    ensures m <= m' && Settled(run, k + 1, m')
    decreases Weight(run(m), k)
  {
    if n: nat :| m <= n && Weight(run(n), k) < Weight(run(m), k) {
      assert Settled(run, k, n) by {
        forall j: nat, e: nat | n <= j && e < k
          ensures Weight(run(j), e) == Weight(run(n), e)
        {
          assert Weight(run(j), e) == Weight(run(m), e);
        }
      }
      m' := OneMoreSettles(run, maxDepth, k, n);
    } else {
      m' := m;
      forall n: nat, e: nat | m <= n && e < k + 1
        ensures Weight(run(n), e) == Weight(run(m), e)
      {
        SettledDescends(run, maxDepth, k, m, n);
      }
    }
  }

  lemma {:induction false} EverythingSettles(run: nat -> Work, maxDepth: nat, k: nat) returns (m: nat)
    requires Endless(run, maxDepth)
    ensures Settled(run, k, m)
  {
    if k == 0 {
      m := 0;
    } else {
      m := EverythingSettles(run, maxDepth, k - 1);
      m := OneMoreSettles(run, maxDepth, k - 1, m);
    }
  }

  /** Whatever the replies, no traversal goes on for ever. */
  lemma NoEndlessTraversal(run: nat -> Work, maxDepth: nat)
    ensures !Endless(run, maxDepth)
  {
    if Endless(run, maxDepth) {
      var m := EverythingSettles(run, maxDepth, maxDepth + 1);
      var d := TurnLowers(run, maxDepth, m);
    }
  }
}
