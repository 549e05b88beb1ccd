/**
 Peer lists by info-hash: counting them, cleaning one list, and evicting across lists.
 */
module PeerMaps {
  import opened Ids
  import opened Sorting
  import opened Tokens
  import opened Wrappers

  datatype Peer = Peer(addr: Addr, time: Time)

  type Peers = map<Id, seq<Peer>>

  const MAX_PEERS_PER_INFO_HASH: nat := 100
  const PEER_TTL: int := 15 * 60 * SECOND

  // -- Counting --------------------------------------------------------------------------------

  ghost function Pick(m: Peers): (h: Id)
    requires m != map[]
    ensures h in m
  {
    var h :| h in m; h
  }

  /** The number of peers in all lists. */
  ghost function Total(m: Peers): nat
    decreases |m|
  {
    if m == map[] then 0 else |m[Pick(m)]| + Total(m - {Pick(m)})
  }

  /** The total splits off any list, whichever was counted first. */
  lemma {:induction false} TotalMinus(m: Peers, h: Id)
    requires h in m
    ensures Total(m) == |m[h]| + Total(m - {h})
    decreases |m|
  {
    var g := Pick(m);
    if g != h {
      TotalMinus(m - {g}, h);
      TotalMinus(m - {h}, g);
      assert m - {g} - {h} == m - {h} - {g};
    }
  }

  lemma TotalPut(m: Peers, h: Id, list: seq<Peer>)
    ensures Total(m[h := list]) == Total(m) + |list| - if h in m then |m[h]| else 0
  {
    TotalMinus(m[h := list], h);
    if h in m {
      TotalMinus(m, h);
      assert m[h := list] - {h} == m - {h};
    } else {
      assert m[h := list] - {h} == m;
    }
  }

  lemma {:induction false} TotalMonotone(r: Peers, m: Peers)
    requires forall h :: h in r ==> h in m && |r[h]| <= |m[h]|
    ensures Total(r) <= Total(m)
    decreases |r|
  {
    if r != map[] {
      var h := Pick(r);
      TotalMinus(m, h);
      TotalMonotone(r - {h}, m - {h});
    }
  }

  // -- One list --------------------------------------------------------------------------------

  /** The peers announced after `cutoff`. */
  function Recent(list: seq<Peer>, cutoff: Time): (r: seq<Peer>)
    ensures |r| <= |list|
  {
    Filter(list, IsRecent(cutoff))
  }

  function IsRecent(cutoff: Time): Peer -> bool {
    (p: Peer) => p.time > cutoff
  }

  function NewestFirst(): (Peer, Peer) -> bool {
    (a: Peer, b: Peer) => a.time >= b.time
  }

  function OldestFirst(): (Peer, Peer) -> bool {
    (a: Peer, b: Peer) => a.time <= b.time
  }

  /** Drops stale peers, and all but the newest hundred. */
  function CleanList(list: seq<Peer>, cutoff: Time): seq<Peer> {
    var r := Recent(list, cutoff);
    if |r| > MAX_PEERS_PER_INFO_HASH then StableSort(r, NewestFirst())[..MAX_PEERS_PER_INFO_HASH] else r
  }

  ghost predicate DistinctAddrs(list: seq<Peer>) {
    forall i, j :: 0 <= i < j < |list| ==> list[i].addr != list[j].addr
  }

  lemma {:induction false} FilterKeepsDistinct(list: seq<Peer>, p: Peer -> bool)
    requires DistinctAddrs(list)
    ensures DistinctAddrs(Filter(list, p))
  {
    if list != [] {
      var before, x := list[..|list| - 1], list[|list| - 1];
      FilterKeepsDistinct(before, p);
      FilterMembers(before, p);
      forall y | y in Filter(before, p)
        ensures y.addr != x.addr
      {
        assert y in before;
      }
    }
  }

  lemma SortKeepsDistinct(list: seq<Peer>, le: (Peer, Peer) -> bool)
    requires DistinctAddrs(list)
    ensures DistinctAddrs(StableSort(list, le)) && SameMembers(StableSort(list, le), list)
  {
    var sorted := StableSort(list, le);
    SortKeepsMembers(list, le);
    DistinctIsPermutable(list, sorted);
    forall i, j | 0 <= i < j < |sorted|
      ensures sorted[i].addr != sorted[j].addr
    {
      assert sorted[i] in list && sorted[j] in list && sorted[i] != sorted[j];
    }
  }

  /**
   What is left of a list: distinct recent peers, at most a hundred; a recent peer is missing only
   when a hundred are kept, none of them older.  Cleaning again changes nothing.
   */
  lemma CleanListKeepsNewest(list: seq<Peer>, cutoff: Time)
    requires DistinctAddrs(list)
    ensures var r := CleanList(list, cutoff);
      && |r| <= MAX_PEERS_PER_INFO_HASH
      && DistinctAddrs(r)
      && (forall p :: p in r ==> p in list && p.time > cutoff)
      && (forall p, q :: p in list && p.time > cutoff && p !in r && q in r ==>
            |r| == MAX_PEERS_PER_INFO_HASH && q.time >= p.time)
      && CleanList(r, cutoff) == r
  {
    var recent := Recent(list, cutoff);
    FilterKeepsDistinct(list, IsRecent(cutoff));
    FilterMembers(list, IsRecent(cutoff));
    if |recent| > MAX_PEERS_PER_INFO_HASH {
      SortKeepsDistinct(recent, NewestFirst());
      SortSorts(recent, NewestFirst());
      CutSorted(StableSort(recent, NewestFirst()), NewestFirst(), MAX_PEERS_PER_INFO_HASH);
    }
    CleanAgain(CleanList(list, cutoff), cutoff);
  }

  lemma CleanAgain(list: seq<Peer>, cutoff: Time)
    requires |list| <= MAX_PEERS_PER_INFO_HASH && forall p :: p in list ==> p.time > cutoff
    ensures CleanList(list, cutoff) == list
  {
    FilterKeepsAll(list, IsRecent(cutoff));
  }

  /** Cutting a sorted list puts what comes first on one side. */
  lemma CutSorted(sorted: seq<Peer>, le: (Peer, Peer) -> bool, n: nat)
    requires SortedBy(sorted, le) && n <= |sorted|
    ensures forall p, q :: p in sorted[..n] && q in sorted[n..] ==> le(p, q)
    ensures forall p :: p in sorted <==> p in sorted[..n] || p in sorted[n..]
  {
    assert sorted == sorted[..n] + sorted[n..];
  }

  // -- All lists -------------------------------------------------------------------------------

  /** Every list cleaned, and those left empty removed. */
  function Swept(m: Peers, cutoff: Time): Peers {
    map h | h in m && CleanList(m[h], cutoff) != [] :: CleanList(m[h], cutoff)
  }

  ghost predicate ListsOk(m: Peers) {
    forall h :: h in m ==> m[h] != [] && DistinctAddrs(m[h])
  }

  lemma CleanListShrinks(list: seq<Peer>, cutoff: Time)
    ensures |CleanList(list, cutoff)| <= |list|
  {
  }

  lemma SweepShrinks(m: Peers, cutoff: Time)
    ensures Total(Swept(m, cutoff)) <= Total(m)
  {
    forall h | h in m
      ensures |CleanList(m[h], cutoff)| <= |m[h]|
    {
      CleanListShrinks(m[h], cutoff);
    }
    TotalMonotone(Swept(m, cutoff), m);
  }

  lemma SweptIsFixed(m: Peers, cutoff: Time)
    requires ListsOk(m)
    ensures ListsOk(Swept(m, cutoff))
    ensures Swept(Swept(m, cutoff), cutoff) == Swept(m, cutoff)
  {
    var r := Swept(m, cutoff);
    forall h | h in r
      ensures DistinctAddrs(r[h]) && CleanList(r[h], cutoff) == r[h]
    {
      CleanListKeepsNewest(m[h], cutoff);
    }
    CleanListsStay(r, cutoff);
  }

  lemma CleanListsStay(m: Peers, cutoff: Time)
    requires forall h :: h in m ==> m[h] != [] && CleanList(m[h], cutoff) == m[h]
    ensures Swept(m, cutoff) == m
  {
  }

  /** Lists of a hundred peers at most, all recent, are left as they are. */
  lemma RecentListsStay(m: Peers, cutoff: Time)
    requires forall h :: h in m ==> 0 < |m[h]| <= MAX_PEERS_PER_INFO_HASH
    requires forall h, p :: h in m && p in m[h] ==> p.time > cutoff
    ensures Swept(m, cutoff) == m
  {
    forall h | h in m
      ensures CleanList(m[h], cutoff) == m[h]
    {
      CleanAgain(m[h], cutoff);
    }
    CleanListsStay(m, cutoff);
  }

  // -- Eviction --------------------------------------------------------------------------------

  function Oldest(list: seq<Peer>): Time
    requires list != []
  {
    var last := list[|list| - 1];
    if |list| == 1 then last.time
    else
      var t := Oldest(list[..|list| - 1]);
      if last.time < t then last.time else t
  }

  lemma {:induction false} OldestIsLeast(list: seq<Peer>)
    requires list != []
    ensures forall p :: p in list ==> Oldest(list) <= p.time
    ensures exists p :: p in list && p.time == Oldest(list)
  {
    var last := list[|list| - 1];
    assert list == list[..|list| - 1] + [last];
    assert last in list;
    if |list| > 1 {
      OldestIsLeast(list[..|list| - 1]);
    }
  }

  /** All hashes, each once, by the time of their oldest peer. */
  ghost predicate EvictionOrder(m: Peers, order: seq<Id>) {
    && (forall h :: h in order <==> h in m)
    && (forall h :: h in m ==> m[h] != [])
    && (forall i, j :: 0 <= i < j < |order| ==> InOrder(m, order, i, j))
  }

  /** The hash at `i` is another one than that at `j`, and its oldest peer is no younger. */
  ghost predicate InOrder(m: Peers, order: seq<Id>, i: nat, j: nat)
    requires i < j < |order|
  {
    && order[i] in m && m[order[i]] != [] && order[j] in m && m[order[j]] != []
    && order[i] != order[j] && Oldest(m[order[i]]) <= Oldest(m[order[j]])
  }

  ghost predicate CutOk(m: Peers, order: seq<Id>, cut: nat, drop: nat) {
    && cut <= |order|
    && if cut == |order| then drop == 0 else order[cut] in m && drop < |m[order[cut]]|
  }

  /** What is left of the hash at the cut: its peers sorted, without the `drop` oldest. */
  function LeftAtCut(list: seq<Peer>, drop: nat): seq<Peer>
    requires drop <= |list|
  {
    if drop == 0 then list else StableSort(list, OldestFirst())[drop..]
  }

  /** The hashes before the cut gone, the one at the cut trimmed, the later ones untouched. */
  ghost function CutAt(m: Peers, order: seq<Id>, cut: nat, drop: nat): Peers
    requires EvictionOrder(m, order) && CutOk(m, order, cut, drop)
  {
    map h | h in m && h in order[cut..] :: if h == order[cut] then LeftAtCut(m[h], drop) else m[h]
  }

  lemma LeftAtCutIsNewest(list: seq<Peer>, drop: nat)
    requires drop <= |list|
    ensures |LeftAtCut(list, drop)| == |list| - drop
    ensures forall p :: p in LeftAtCut(list, drop) ==> p in list
    ensures forall p, q :: p in list && p !in LeftAtCut(list, drop) && q in LeftAtCut(list, drop) ==> p.time <= q.time
    ensures DistinctAddrs(list) ==> DistinctAddrs(LeftAtCut(list, drop))
  {
    if drop > 0 {
      var sorted := StableSort(list, OldestFirst());
      SortSorts(list, OldestFirst());
      SortKeepsMembers(list, OldestFirst());
      CutSorted(sorted, OldestFirst(), drop);
      if DistinctAddrs(list) {
        SortKeepsDistinct(list, OldestFirst());
      }
    }
  }

  lemma CutKeepsListsOk(m: Peers, order: seq<Id>, cut: nat, drop: nat)
    requires ListsOk(m) && EvictionOrder(m, order) && CutOk(m, order, cut, drop)
    ensures ListsOk(CutAt(m, order, cut, drop))
    ensures forall h :: h in CutAt(m, order, cut, drop) ==>
      && h in m
      && |CutAt(m, order, cut, drop)[h]| <= |m[h]|
      && forall p :: p in CutAt(m, order, cut, drop)[h] ==> p in m[h]
  {
    forall h | h in CutAt(m, order, cut, drop)
      ensures var l := CutAt(m, order, cut, drop)[h];
        l != [] && DistinctAddrs(l) && |l| <= |m[h]| && forall p :: p in l ==> p in m[h]
    {
      if h == order[cut] {
        LeftAtCutIsNewest(m[h], drop);
      }
    }
  }
}
