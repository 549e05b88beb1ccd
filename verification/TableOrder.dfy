/**
 The entries of a table in the order they are visited, and ranked by closeness to a target.
 */
module TableOrder {
  import opened Ids
  import opened KBuckets
  import opened Nodes
  import opened Sorting
  import opened Wrappers

  /** The buckets for ids sharing at least `i` bits with us, by ascending id range. */
  function Walk(self: Id, t: Table, i: nat): seq<Bucket>
    requires i <= |t.far| <= ID_BITS
    decreases |t.far| - i
  {
    if i == |t.far| then [t.own]
    else if self[i] then [t.far[i]] + Walk(self, t, i + 1)
    else Walk(self, t, i + 1) + [t.far[i]]
  }

  function Flatten(buckets: seq<Bucket>): seq<Node> {
    if buckets == [] then [] else buckets[0].nodes + Flatten(buckets[1..])
  }

  /** All entries, in visiting order. */
  function Entries(self: Id, t: Table): seq<Node>
    requires |t.far| <= ID_BITS
  {
    Flatten(Walk(self, t, 0))
  }

  lemma {:induction false} FlattenAppend(a: seq<Bucket>, b: seq<Bucket>)
    ensures Flatten(a + b) == Flatten(a) + Flatten(b)
  {
    if a == [] {
      assert a + b == b;
    } else {
      assert (a + b)[1..] == a[1..] + b;
      FlattenAppend(a[1..], b);
    }
  }

  lemma FlattenOne(b: Bucket)
    ensures Flatten([b]) == b.nodes
  {
    assert Flatten([]) == [];
  }

  /** One level of the walk, entry by entry. */
  lemma FlattenWalk(self: Id, t: Table, i: nat)
    requires i < |t.far| <= ID_BITS
    ensures Flatten(Walk(self, t, i)) ==
      if self[i] then t.far[i].nodes + Flatten(Walk(self, t, i + 1))
      else Flatten(Walk(self, t, i + 1)) + t.far[i].nodes
  {
    FlattenOne(t.far[i]);
    FlattenAppend([t.far[i]], Walk(self, t, i + 1));
    FlattenAppend(Walk(self, t, i + 1), [t.far[i]]);
  }

  /** An id in bucket `i` lies on the far side of every id that shares more than `i` bits with us. */
  lemma SideOrders(self: Id, a: Id, b: Id, i: nat)
    requires i < ID_BITS && Shared(self, a) == i < Shared(self, b)
    ensures if self[i] then Before(a, b) else Before(b, a)
  {
    var k := Shared(self, b);
    SharedIs(self, a);
    SharedIs(self, b);
    assert a[..i] == self[..i] == self[..k][..i] == b[..k][..i] == b[..i];
    assert b[i] == b[..k][i] == self[..k][i] == self[i];
    SharedFrom(a, b, i);
    SharedFrom(b, a, i);
    FirstDifferenceOrders(a, b);
    FirstDifferenceOrders(b, a);
  }

  lemma SharedFrom(a: Id, b: Id, i: nat)
    requires i < ID_BITS && a[..i] == b[..i] && a[i] != b[i]
    ensures Shared(a, b) == i
  {
    SharedAtLeast(a, b, i);
    SharedIs(a, b);
    assert forall k :: i < k <= ID_BITS ==> a[..k][i] != b[..k][i];
  }

  /** Visiting goes strictly upwards by id. */
  lemma {:induction false} WalkAscends(self: Id, t: Table, i: nat)
    requires Valid(self, t) && i <= |t.far|
    ensures AscendingIds(Flatten(Walk(self, t, i)))
    ensures ShareAtLeast(self, Flatten(Walk(self, t, i)), i)
    decreases |t.far| - i
  {
    if i == |t.far| {
      FlattenOne(t.own);
    } else {
      FlattenWalk(self, t, i);
      WalkAscends(self, t, i + 1);
      var side, rest := t.far[i].nodes, Flatten(Walk(self, t, i + 1));
      SideAndRest(self, side, rest, i);
      if self[i] {
        AscendingJoins(side, rest);
      } else {
        AscendingJoins(rest, side);
      }
    }
  }

  lemma SideAndRest(self: Id, side: seq<Node>, rest: seq<Node>, i: nat)
    requires i < ID_BITS && ShareAtLeast(self, rest, i + 1)
    requires forall n :: n in side ==> Shared(self, n.id) == i
    ensures forall a, b :: a in side && b in rest ==> if self[i] then Before(a.id, b.id) else Before(b.id, a.id)
    ensures ShareAtLeast(self, side + rest, i) && ShareAtLeast(self, rest + side, i)
  {
    forall a, b | a in side && b in rest
      ensures if self[i] then Before(a.id, b.id) else Before(b.id, a.id)
    {
      SideOrders(self, a.id, b.id, i);
    }
  }

  lemma AscendingJoins(a: seq<Node>, b: seq<Node>)
    requires AscendingIds(a) && AscendingIds(b)
    requires forall x, y :: x in a && y in b ==> Before(x.id, y.id)
    ensures AscendingIds(a + b)
  {
    var s := a + b;
    forall i, j | 0 <= i < j < |s|
      ensures Num(s[i].id) < Num(s[j].id)
    {
      if i < |a| <= j {
        assert s[i] in a && s[j] in b;
      }
    }
  }

  ghost predicate InFar(t: Table, i: nat, n: Node) {
    exists k :: i <= k < |t.far| && n in t.far[k].nodes
  }

  lemma FarStep(t: Table, i: nat, n: Node)
    requires i < |t.far|
    ensures InFar(t, i, n) <==> n in t.far[i].nodes || InFar(t, i + 1, n)
  {
  }

  lemma {:induction false} WalkMembers(self: Id, t: Table, i: nat, n: Node)
    requires i <= |t.far| <= ID_BITS
    ensures n in Flatten(Walk(self, t, i)) <==> n in t.own.nodes || InFar(t, i, n)
    decreases |t.far| - i
  {
    if i == |t.far| {
      FlattenOne(t.own);
    } else {
      FlattenWalk(self, t, i);
      FarStep(t, i, n);
      WalkMembers(self, t, i + 1, n);
    }
  }

  lemma {:induction false} WalkCount(self: Id, t: Table, i: nat)
    requires i <= |t.far| <= ID_BITS
    ensures |Flatten(Walk(self, t, i))| + StoredFar(t.far[..i]) == Stored(t)
    decreases |t.far| - i
  {
    if i == |t.far| {
      FlattenOne(t.own);
      assert t.far[..i] == t.far;
    } else {
      FlattenWalk(self, t, i);
      WalkCount(self, t, i + 1);
      assert t.far[..i + 1][..i] == t.far[..i];
    }
  }

  /**
   A full scan: strictly ascending ids, one entry per stored node, and exactly the entries a lookup
   by id finds.
   */
  lemma EntriesAreTheMap(self: Id, t: Table)
    requires Valid(self, t)
    ensures AscendingIds(Entries(self, t))
    ensures |Entries(self, t)| == t.size
    ensures forall n :: n in Entries(self, t) <==> Lookup(self, t, n.id) == Some(n)
  {
    WalkAscends(self, t, 0);
    WalkCount(self, t, 0);
    forall n
      ensures n in Entries(self, t) <==> Lookup(self, t, n.id) == Some(n)
    {
      WalkMembers(self, t, 0, n);
      LookupFinds(self, t, n);
    }
  }

  // -- Ranking ---------------------------------------------------------------------------------

  /** All entries, decent ones first and then by XOR distance from `target`. */
  function SortedByDistanceFrom(self: Id, t: Table, target: Id, now: Instant): seq<Node>
    requires |t.far| <= ID_BITS
  {
    StableSort(Entries(self, t), ByRank(target, now))
  }

  lemma RankingIsStrict(self: Id, t: Table, target: Id, now: Instant)
    requires Valid(self, t)
    ensures StrictlySortedBy(SortedByDistanceFrom(self, t, target, now), ByRank(target, now))
    ensures forall n :: n in SortedByDistanceFrom(self, t, target, now) <==> Lookup(self, t, n.id) == Some(n)
    ensures |SortedByDistanceFrom(self, t, target, now)| == t.size
  {
    EntriesAreTheMap(self, t);
    SortByRank(Entries(self, t), target, now);
  }

  /** The status of `a` is better than that of `b`. */
  predicate Better(a: Status, b: Status) {
    match a
    case Good => b != Good
    case Questionable => b == Unknown || b == Bad
    case Unknown => b == Bad
    case Bad => false
  }

  /**
   Good entries come first, then Questionable, Unknown and Bad ones, and among entries of one status
   the closer ones by XOR.
   */
  lemma RankingByStatusAndDistance(self: Id, t: Table, target: Id, now: Instant)
    requires Valid(self, t)
    ensures var r := SortedByDistanceFrom(self, t, target, now);
      forall i, j :: 0 <= i < j < |r| ==> Preferred(target, now, r[i], r[j])
  {
    RankingIsStrict(self, t, target, now);
    var r := SortedByDistanceFrom(self, t, target, now);
    forall i, j | 0 <= i < j < |r|
      ensures Preferred(target, now, r[i], r[j])
    {
      RankedIsPreferred(target, now, r[i], r[j]);
    }
  }

  /** `a` has a better status than `b`, or the same one and is closer to `target`. */
  predicate Preferred(target: Id, now: Instant, a: Node, b: Node) {
    || Better(a.StatusAt(now), b.StatusAt(now))
    || (a.StatusAt(now) == b.StatusAt(now) && Num(Xor(target, a.id)) < Num(Xor(target, b.id)))
  }

  lemma RankedIsPreferred(target: Id, now: Instant, a: Node, b: Node)
    requires ByRank(target, now)(a, b) && !ByRank(target, now)(b, a)
    ensures Preferred(target, now, a, b)
  {
  }

  /** The ranking depends on the stored entries only, not on the shape of the table or even on whose it is. */
  lemma RankingIgnoresShape(selfA: Id, a: Table, selfB: Id, b: Table, target: Id, now: Instant)
    requires Valid(selfA, a) && Valid(selfB, b)
    requires forall x: Id :: Lookup(selfA, a, x) == Lookup(selfB, b, x)
    ensures SortedByDistanceFrom(selfA, a, target, now) == SortedByDistanceFrom(selfB, b, target, now)
  {
    RankingIsStrict(selfA, a, target, now);
    RankingIsStrict(selfB, b, target, now);
    StrictOrderIsUnique(
      SortedByDistanceFrom(selfA, a, target, now), SortedByDistanceFrom(selfB, b, target, now), ByRank(target, now));
  }

  // -- Answering with the closest nodes --------------------------------------------------------

  function OfFamily(nodes: seq<Node>, v4: bool): (r: seq<Node>)
    ensures forall n :: n in r <==> n in nodes && n.addr.V4? == v4
  {
    var wanted := (n: Node) => n.addr.V4? == v4;
    FilterMembers(nodes, wanted);
    Filter(nodes, wanted)
  }

  /** The first eight ranked entries of the wanted address family. */
  function GenerateCompactNodes(self: Id, t: Table, target: Id, v4: bool, now: Instant): seq<Node>
    requires |t.far| <= ID_BITS
  {
    var it := OfFamily(SortedByDistanceFrom(self, t, target, now), v4);
    if |it| <= 8 then it else it[..8]
  }

  lemma {:induction false} FilterKeepsOrder(nodes: seq<Node>, p: Node -> bool, le: (Node, Node) -> bool)
    requires StrictlySortedBy(nodes, le)
    ensures StrictlySortedBy(Filter(nodes, p), le)
  {
    if nodes != [] {
      FilterKeepsOrder(nodes[..|nodes| - 1], p, le);
      FilterMembers(nodes[..|nodes| - 1], p);
      var n := nodes[|nodes| - 1];
      forall m | m in Filter(nodes[..|nodes| - 1], p)
        ensures le(m, n) && !le(n, m)
      {
        var i :| 0 <= i < |nodes| - 1 && nodes[i] == m;
      }
    }
  }

  /** The answer is the start of a strictly ranked list of exactly the stored entries of the family. */
  lemma CompactNodesAreRanked(self: Id, t: Table, target: Id, v4: bool, now: Instant)
    requires Valid(self, t)
    ensures var it := OfFamily(SortedByDistanceFrom(self, t, target, now), v4);
      && StrictlySortedBy(it, ByRank(target, now))
      && forall n :: n in it <==> Lookup(self, t, n.id) == Some(n) && n.addr.V4? == v4
  {
    RankingIsStrict(self, t, target, now);
    FilterKeepsOrder(SortedByDistanceFrom(self, t, target, now), (n: Node) => n.addr.V4? == v4, ByRank(target, now));
  }

  /**
   The answer holds at most eight distinct entries, all stored and of the wanted family; every
   stored entry of the family it leaves out ranks after all of them, and it leaves some out only
   when it has eight.
   */
  lemma CompactNodesAreClosest(self: Id, t: Table, target: Id, v4: bool, now: Instant)
    requires Valid(self, t)
    ensures var r := GenerateCompactNodes(self, t, target, v4, now);
      && |r| <= 8
      && DistinctIds(r)
      && (forall n :: n in r ==> Lookup(self, t, n.id) == Some(n) && n.addr.V4? == v4)
      && forall n: Node :: Lookup(self, t, n.id) == Some(n) && n.addr.V4? == v4 && n !in r ==>
           |r| == 8 && forall m :: m in r ==> !ByRank(target, now)(n, m)
  {
    GivenAreStored(self, t, target, v4, now);
    OmittedRankLater(self, t, target, v4, now);
  }

  lemma GivenAreStored(self: Id, t: Table, target: Id, v4: bool, now: Instant)
    requires Valid(self, t)
    ensures var r := GenerateCompactNodes(self, t, target, v4, now);
      && |r| <= 8 && DistinctIds(r)
      && forall n :: n in r ==> Lookup(self, t, n.id) == Some(n) && n.addr.V4? == v4
  {
    var it := OfFamily(SortedByDistanceFrom(self, t, target, now), v4);
    CompactNodesAreRanked(self, t, target, v4, now);
    FirstEight(it, ByRank(target, now));
    DistinctEntries(self, t, GenerateCompactNodes(self, t, target, v4, now));
  }

  lemma OmittedRankLater(self: Id, t: Table, target: Id, v4: bool, now: Instant)
    requires Valid(self, t)
    ensures var r := GenerateCompactNodes(self, t, target, v4, now);
      forall n: Node :: Lookup(self, t, n.id) == Some(n) && n.addr.V4? == v4 && n !in r ==>
        |r| == 8 && forall m :: m in r ==> !ByRank(target, now)(n, m)
  {
    CompactNodesAreRanked(self, t, target, v4, now);
    FirstEight(OfFamily(SortedByDistanceFrom(self, t, target, now), v4), ByRank(target, now));
  }

  /** Different entries found by their ids have different ids. */
  lemma DistinctEntries(self: Id, t: Table, r: seq<Node>)
    requires forall n :: n in r ==> Lookup(self, t, n.id) == Some(n)
    requires forall i, j :: 0 <= i < j < |r| ==> r[i] != r[j]
    ensures DistinctIds(r)
  {
    forall i, j | 0 <= i < j < |r|
      ensures r[i].id != r[j].id
    {
      assert Lookup(self, t, r[i].id) == Some(r[i]) && Lookup(self, t, r[j].id) == Some(r[j]);
    }
  }

  lemma FirstEight(it: seq<Node>, le: (Node, Node) -> bool)
    requires StrictlySortedBy(it, le)
    ensures var r := if |it| <= 8 then it else it[..8];
      && (forall i, j :: 0 <= i < j < |r| ==> r[i] != r[j])
      && (forall n :: n in r ==> n in it)
      && forall n, m :: n in it && n !in r && m in r ==> |r| == 8 && !le(n, m)
  {
  }

  /** A good entry is left out only for eight good ones, all closer; a bad one is taken only before worse. */
  lemma CompactNodesPreferGood(self: Id, t: Table, target: Id, v4: bool, now: Instant, omitted: Node, taken: Node)
    requires Valid(self, t) && Lookup(self, t, omitted.id) == Some(omitted) && omitted.addr.V4? == v4
    requires taken in GenerateCompactNodes(self, t, target, v4, now)
    requires omitted !in GenerateCompactNodes(self, t, target, v4, now)
    ensures omitted.StatusAt(now) == Good ==>
      taken.StatusAt(now) == Good && Distance(target, taken.id) < Distance(target, omitted.id)
    ensures taken.StatusAt(now) == Bad ==>
      omitted.StatusAt(now) == Bad && Distance(target, taken.id) < Distance(target, omitted.id)
  {
    CompactNodesAreClosest(self, t, target, v4, now);
  }
}
