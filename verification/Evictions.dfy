/**
 Which peers the collector evicts: "oldest first" holds per hash, not over all peers.
 */
module Evictions {
  import opened Ids
  import opened PeerCollector
  import opened PeerMaps
  import opened PeerStores
  import opened Sorting
  import opened Tokens
  import opened Wrappers

  ghost predicate Evicted(m: Peers, r: Peers, h: Id, p: Peer) {
    h in m && p in m[h] && !(h in r && p in r[h])
  }

  ghost predicate Kept(r: Peers, h: Id, p: Peer) {
    h in r && p in r[h]
  }

  /** No evicted peer is newer than a kept one. */
  ghost predicate OldestGoFirst(m: Peers, r: Peers) {
    forall g, h :: PairFair(m, r, g, h)
  }

  /** No peer evicted from the first list is newer than one kept in the second. */
  ghost predicate PairFair(m: Peers, r: Peers, g: Id, h: Id) {
    forall p, q :: Evicted(m, r, g, p) && Kept(r, h, q) ==> p.time <= q.time
  }

  /** No peer of the first list is newer than any of the second. */
  ghost predicate NoneNewer(g: seq<Peer>, h: seq<Peer>) {
    forall p, q :: p in g && q in h ==> p.time <= q.time
  }

  /** The lists do not interleave in time: one that starts no later than another ends before it starts. */
  ghost predicate Separate(m: Peers)
    requires forall h :: h in m ==> m[h] != []
  {
    forall g, h :: g in m && h in m && g != h && Oldest(m[g]) <= Oldest(m[h]) ==> NoneNewer(m[g], m[h])
  }

  // -- Orders of eviction ----------------------------------------------------------------------

  /** A hash among `hs` whose oldest peer is the youngest. */
  lemma {:induction false} YoungestStart(m: Peers, hs: set<Id>) returns (x: Id)
    requires hs != {} && hs <= m.Keys && forall h :: h in m ==> m[h] != []
    ensures x in hs && forall h :: h in hs ==> Oldest(m[h]) <= Oldest(m[x])
    decreases |hs|
  {
    x :| x in hs;
    if hs != {x} {
      var y: Id := YoungestStart(m, hs - {x});
      if Oldest(m[x]) < Oldest(m[y]) {
        x := y;
      }
    }
  }

  lemma OrderExtends(m: Peers, x: Id, order: seq<Id>)
    requires x in m && forall h :: h in m ==> m[h] != []
    requires forall h :: h in m ==> Oldest(m[h]) <= Oldest(m[x])
    requires EvictionOrder(m - {x}, order)
    ensures EvictionOrder(m, order + [x])
  {
    forall i, j | 0 <= i < j < |order + [x]|
      ensures InOrder(m, order + [x], i, j)
    {
      assert order[i] in order;
      if j < |order| {
        assert InOrder(m - {x}, order, i, j);
      }
    }
  }

  lemma {:induction false} OrderExists(m: Peers) returns (order: seq<Id>)
    requires forall h :: h in m ==> m[h] != []
    ensures EvictionOrder(m, order)
    decreases |m|
  {
    if m == map[] {
      order := [];
    } else {
      var x := YoungestStart(m, m.Keys);
      order := OrderExists(m - {x});
      OrderExtends(m, x, order);
      order := order + [x];
    }
  }

  /** Orders of two parts, one wholly older, follow one another. */
  lemma OrdersJoin(m: Peers, first: Peers, second: Peers, a: seq<Id>, b: seq<Id>)
    requires EvictionOrder(first, a) && EvictionOrder(second, b)
    requires first.Keys !! second.Keys && m == first + second
    requires forall g, h :: g in first && h in second ==> Oldest(m[g]) <= Oldest(m[h])
    ensures EvictionOrder(m, a + b)
  {
    assert forall h :: h in a ==> h in first && m[h] == first[h];
    assert forall h :: h in b ==> h in second && m[h] == second[h];
    var order := a + b;
    forall i, j | 0 <= i < j < |order|
      ensures InOrder(m, order, i, j)
    {
      if i < |a| <= j {
        assert order[i] in a && order[j] in b;
      } else if j < |a| {
        assert InOrder(first, a, i, j);
      } else {
        assert InOrder(second, b, i - |a|, j - |a|);
      }
    }
  }

  /** The lists of some of the hashes. */
  ghost function Only(m: Peers, hs: set<Id>): Peers {
    map h | h in m && h in hs :: m[h]
  }

  /** Those of strictly older lists; they go before `g` in every order. */
  ghost function Older(m: Peers, g: Id): set<Id>
    requires g in m && forall h :: h in m ==> m[h] != []
  {
    set h | h in m && Oldest(m[h]) < Oldest(m[g])
  }

  /** Those of other lists that are as old or older; no more than these go before `g`. */
  ghost function AsOld(m: Peers, g: Id): set<Id>
    requires g in m && forall h :: h in m ==> m[h] != []
  {
    set h | h in m && h != g && Oldest(m[h]) <= Oldest(m[g])
  }

  /** Orders of the lists of two sets of hashes, one wholly older, follow one another. */
  lemma PartsJoin(m: Peers, g: set<Id>, h: set<Id>, a: seq<Id>, b: seq<Id>)
    requires g !! h && g <= m.Keys && h <= m.Keys && forall x :: x in m ==> m[x] != []
    requires forall x, y :: x in g && y in h ==> Oldest(m[x]) <= Oldest(m[y])
    requires EvictionOrder(Only(m, g), a) && EvictionOrder(Only(m, h), b)
    ensures EvictionOrder(Only(m, g + h), a + b)
  {
    assert Only(m, g + h) == Only(m, g) + Only(m, h);
    OrdersJoin(Only(m, g + h), Only(m, g), Only(m, h), a, b);
  }

  lemma OrderOne(m: Peers, g: Id)
    requires g in m && m[g] != []
    ensures EvictionOrder(Only(m, {g}), [g])
  {
    assert [g][0] == g;
  }

  /** An order of the hashes up to `h`, in which `g` comes as early as it can. */
  lemma OrderUpTo(m: Peers, g: Id, h: Id) returns (a: seq<Id>, b: seq<Id>)
    requires g in m && h in m && g != h && (forall x :: x in m ==> m[x] != []) && Oldest(m[g]) <= Oldest(m[h])
    ensures EvictionOrder(Only(m, Older(m, g)), a)
    ensures EvictionOrder(Only(m, AsOld(m, h)), a + [g] + b)
  {
    var older, between := Older(m, g), AsOld(m, h) - Older(m, g) - {g};
    a := OrderExists(Only(m, older));
    b := OrderExists(Only(m, between));
    OrderOne(m, g);
    PartsJoin(m, older, {g}, a, [g]);
    PartsJoin(m, older + {g}, between, a + [g], b);
    assert older + {g} + between == AsOld(m, h);
  }

  /**
   Of two hashes, the one with the older peer may come first, also when they are equally old; and it
   may come as early as it can while the other comes as late as it can.
   */
  lemma OrderWith(m: Peers, g: Id, h: Id) returns (order: seq<Id>, i: nat, j: nat)
    requires g in m && h in m && g != h && (forall x :: x in m ==> m[x] != []) && Oldest(m[g]) <= Oldest(m[h])
    ensures EvictionOrder(m, order) && i < j < |order| && order[i] == g && order[j] == h
    ensures Ahead(m, order, i) == Total(Only(m, Older(m, g))) && Ahead(m, order, j) == Total(Only(m, AsOld(m, h)))
  {
    var a, b := OrderUpTo(m, g, h);
    var upTo := a + [g] + b;
    var c := OrderFrom(m, h, upTo);
    order, i, j := upTo + [h] + c, |a|, |upTo|;
    PlacesIn(a, g, b, h, c);
    AheadIs(m, order, a, Older(m, g));
    AheadIs(m, order, upTo, AsOld(m, h));
  }

  lemma PlacesIn(a: seq<Id>, g: Id, b: seq<Id>, h: Id, c: seq<Id>)
    ensures var upTo := a + [g] + b;
      var order := upTo + [h] + c;
      && order[..|a|] == a && order[..|upTo|] == upTo && |a| < |upTo| < |order|
      && order[|a|] == g && order[|upTo|] == h
  {
  }

  lemma AheadIs(m: Peers, order: seq<Id>, a: seq<Id>, hs: set<Id>)
    requires EvictionOrder(m, order) && |a| <= |order| && order[..|a|] == a && EvictionOrder(Only(m, hs), a)
    ensures Ahead(m, order, |a|) == Total(Only(m, hs))
  {
    AheadIsTotal(m, order, |a|);
    FrontIs(m, order, a, hs);
  }

  lemma FrontIs(m: Peers, order: seq<Id>, a: seq<Id>, hs: set<Id>)
    requires |a| <= |order| && order[..|a|] == a && forall h :: h in a <==> h in Only(m, hs)
    ensures Front(m, order, |a|) == Only(m, hs)
  {
  }

  /** An order of the hashes as old as `h` goes on with `h` and the others. */
  lemma OrderFrom(m: Peers, h: Id, upTo: seq<Id>) returns (c: seq<Id>)
    requires h in m && (forall x :: x in m ==> m[x] != []) && EvictionOrder(Only(m, AsOld(m, h)), upTo)
    ensures EvictionOrder(m, upTo + [h] + c)
  {
    var asOld := AsOld(m, h);
    var after := m.Keys - asOld - {h};
    c := OrderExists(Only(m, after));
    OrderOne(m, h);
    PartsJoin(m, asOld, {h}, upTo, [h]);
    PartsJoin(m, asOld + {h}, after, upTo + [h], c);
    assert Only(m, asOld + {h} + after) == m;
  }

  // -- How far a collection gets ---------------------------------------------------------------

  /** The lists of the first `n` hashes. */
  ghost function Front(m: Peers, order: seq<Id>, n: nat): Peers
    requires n <= |order|
  {
    map h | h in m && h in order[..n] :: m[h]
  }

  /** The number of peers in them. */
  ghost function Ahead(m: Peers, order: seq<Id>, n: nat): nat
    requires EvictionOrder(m, order) && n <= |order|
  {
    if n == 0 then 0 else Ahead(m, order, n - 1) + |m[order[n - 1]]|
  }

  lemma AheadIsTotal(m: Peers, order: seq<Id>, n: nat)
    requires EvictionOrder(m, order) && n <= |order|
    ensures Ahead(m, order, n) == Total(Front(m, order, n))
  {
    assert Front(m, order, 0) == map[];
    AheadCountsFrom(m, order, 0, n);
  }

  ghost predicate AheadCounts(m: Peers, order: seq<Id>, n: nat)
    requires EvictionOrder(m, order) && n <= |order|
  {
    Ahead(m, order, n) == Total(Front(m, order, n))
  }

  lemma {:induction false} AheadCountsFrom(m: Peers, order: seq<Id>, n: nat, k: nat)
    requires EvictionOrder(m, order) && n <= k <= |order| && AheadCounts(m, order, n)
    ensures AheadCounts(m, order, k)
    decreases k - n
  {
    if n < k {
      AheadCountsStep(m, order, n);
      AheadCountsFrom(m, order, n + 1, k);
    }
  }

  lemma AheadCountsStep(m: Peers, order: seq<Id>, n: nat)
    requires EvictionOrder(m, order) && n < |order| && AheadCounts(m, order, n)
    ensures AheadCounts(m, order, n + 1)
  {
    FrontStep(m, order, n);
  }

  lemma FrontStep(m: Peers, order: seq<Id>, n: nat)
    requires EvictionOrder(m, order) && n < |order|
    ensures Total(Front(m, order, n + 1)) == Total(Front(m, order, n)) + |m[order[n]]|
  {
    assert order[..n + 1] == order[..n] + [order[n]];
    OrderIsDistinct(m, order);
    assert order[n] !in order[..n];
    assert Front(m, order, n + 1) == Front(m, order, n)[order[n] := m[order[n]]];
    TotalPut(Front(m, order, n), order[n], m[order[n]]);
  }

  lemma {:induction false} AheadGrows(m: Peers, order: seq<Id>, i: nat, j: nat)
    requires EvictionOrder(m, order) && i < j <= |order|
    ensures Ahead(m, order, i) + |m[order[i]]| <= Ahead(m, order, j)
    decreases j
  {
    if i < j - 1 {
      AheadGrows(m, order, i, j - 1);
    }
  }

  /** The peers a whole cut leaves and those it takes make up `total`. */
  ghost predicate CutCounts(m: Peers, order: seq<Id>, cut: nat, total: nat)
    requires EvictionOrder(m, order)
  {
    cut <= |order| && CutOk(m, order, cut, 0) && Total(CutAt(m, order, cut, 0)) + Ahead(m, order, cut) == total
  }

  lemma WholeCutTotal(m: Peers, order: seq<Id>, cut: nat)
    requires EvictionOrder(m, order) && cut <= |order|
    ensures CutCounts(m, order, cut, Total(m))
  {
    CutAtStart(m, order);
    WholeCutFrom(m, order, 0, cut, Total(m));
  }

  lemma {:induction false} WholeCutFrom(m: Peers, order: seq<Id>, n: nat, cut: nat, total: nat)
    requires EvictionOrder(m, order) && n <= cut <= |order| && CutCounts(m, order, n, total)
    ensures CutCounts(m, order, cut, total)
    decreases cut - n
  {
    if n < cut {
      WholeCutStep(m, order, n, total);
      WholeCutFrom(m, order, n + 1, cut, total);
    }
  }

  lemma WholeCutStep(m: Peers, order: seq<Id>, cut: nat, total: nat)
    requires EvictionOrder(m, order) && cut < |order| && CutCounts(m, order, cut, total)
    ensures CutCounts(m, order, cut + 1, total)
  {
    NextHash(m, order, cut);
    WholeHash(m, order, cut);
    OneListLess(CutAt(m, order, cut, 0), CutAt(m, order, cut + 1, 0), order[cut], |m[order[cut]]|);
  }

  lemma OneListLess(m: Peers, r: Peers, h: Id, size: nat)
    requires h in m && |m[h]| == size && m - {h} == r
    ensures Total(m) == Total(r) + size
  {
    TotalMinus(m, h);
  }

  /** What a cut evicts: the lists before it and the peers dropped at it. */
  lemma CutTotal(m: Peers, order: seq<Id>, cut: nat, drop: nat)
    requires EvictionOrder(m, order) && CutOk(m, order, cut, drop)
    ensures Total(CutAt(m, order, cut, drop)) + Ahead(m, order, cut) + drop == Total(m)
  {
    WholeCutTotal(m, order, cut);
    if cut < |order| {
      NextHash(m, order, cut);
      TrimHash(m, order, cut, drop);
      LeftAtCutIsNewest(m[order[cut]], drop);
      TotalPut(CutAt(m, order, cut, 0), order[cut], LeftAtCut(m[order[cut]], drop));
    }
  }

  /** Some cut evicts any given number of peers. */
  lemma {:induction false} CutFor(m: Peers, order: seq<Id>, excess: nat, n: nat) returns (cut: nat, drop: nat)
    requires EvictionOrder(m, order) && n <= |order|
    requires Ahead(m, order, n) <= excess <= Ahead(m, order, |order|)
    ensures CutOk(m, order, cut, drop) && Ahead(m, order, cut) + drop == excess
    decreases |order| - n
  {
    if n == |order| {
      cut, drop := n, 0;
    } else if excess < Ahead(m, order, n + 1) {
      cut, drop := n, excess - Ahead(m, order, n);
    } else {
      cut, drop := CutFor(m, order, excess, n + 1);
    }
  }

  /** `n`, but at least zero and at most `max`. */
  function Clamp(n: int, max: nat): (r: nat)
    ensures r <= max
  {
    if n <= 0 then 0 else if n < max then n else max
  }

  /** How many peers the hash at position `i` gives up when `excess` are evicted. */
  ghost function Share(m: Peers, order: seq<Id>, excess: nat, i: nat): (n: nat)
    requires EvictionOrder(m, order) && i < |order|
    ensures n <= |m[order[i]]|
  {
    Clamp(excess - Ahead(m, order, i), |m[order[i]]|)
  }

  lemma CutGivesShare(m: Peers, order: seq<Id>, cut: nat, drop: nat, excess: nat, i: nat)
    requires EvictionOrder(m, order) && CutOk(m, order, cut, drop) && i < |order|
    requires excess == Ahead(m, order, cut) + drop
    ensures Share(m, order, excess, i) ==
      if i < cut then |m[order[i]]| else if i == cut then drop else 0
  {
    if i < cut {
      AheadGrows(m, order, i, cut);
    } else if cut < i {
      AheadGrows(m, order, cut, i);
    }
  }

  ghost predicate Gone(list: seq<Peer>, n: nat, p: Peer)
    requires n <= |list|
  {
    p in list && p !in LeftAtCut(list, n)
  }

  lemma NothingLeft(list: seq<Peer>)
    requires list != []
    ensures LeftAtCut(list, |list|) == []
  {
  }

  /** Of each list its share of the oldest peers is evicted and the rest kept. */
  lemma ShareIsEvicted(m: Peers, order: seq<Id>, cut: nat, drop: nat, excess: nat, i: nat)
    requires EvictionOrder(m, order) && CutOk(m, order, cut, drop) && i < |order|
    requires excess == Ahead(m, order, cut) + drop
    ensures order[i] in m
    ensures EvictsOf(m, CutAt(m, order, cut, drop), order[i], Share(m, order, excess, i))
  {
    assert order[i] in order;
    LeftAtPlace(m, order, cut, drop, i);
    CutGivesShare(m, order, cut, drop, excess, i);
    LeftIsEvicted(m, CutAt(m, order, cut, drop), order[i], Share(m, order, excess, i));
  }

  /** Of the list under `h` exactly the `n` oldest peers are evicted. */
  ghost predicate EvictsOf(m: Peers, r: Peers, h: Id, n: nat)
    requires h in m && n <= |m[h]|
  {
    forall p :: (Evicted(m, r, h, p) <==> Gone(m[h], n, p)) && (Kept(r, h, p) <==> p in LeftAtCut(m[h], n))
  }

  lemma LeftIsEvicted(m: Peers, r: Peers, h: Id, n: nat)
    requires h in m && m[h] != [] && n <= |m[h]|
    requires h in r <==> n < |m[h]|
    requires h in r ==> r[h] == LeftAtCut(m[h], n)
    ensures EvictsOf(m, r, h, n)
  {
    NothingLeft(m[h]);
  }

  // -- When the oldest go first ----------------------------------------------------------------

  lemma InTail(order: seq<Id>, cut: nat, i: nat)
    requires cut <= |order| && i < |order| && forall j, k :: 0 <= j < k < |order| ==> order[j] != order[k]
    ensures order[i] in order[cut..] <==> cut <= i
    ensures cut < |order| ==> (order[i] == order[cut] <==> i == cut)
  {
    if cut <= i {
      assert order[cut..][i - cut] == order[i];
    }
  }

  /** The place of a hash in the order says what the cut leaves of its list. */
  lemma LeftAtPlace(m: Peers, order: seq<Id>, cut: nat, drop: nat, i: nat)
    requires EvictionOrder(m, order) && CutOk(m, order, cut, drop) && i < |order|
    ensures order[i] in CutAt(m, order, cut, drop) <==> cut <= i
    ensures cut < i ==> CutAt(m, order, cut, drop)[order[i]] == m[order[i]]
    ensures cut == i ==> CutAt(m, order, cut, drop)[order[i]] == LeftAtCut(m[order[i]], drop)
  {
    OrderIsDistinct(m, order);
    InTail(order, cut, i);
  }

  /** Hashes are drained one after the other, those with older peers first: at most one is left in part. */
  lemma DrainedInOrder(m: Peers, r: Peers, max: nat, g: Id, h: Id)
    requires EvictedDownTo(m, r, max) && g in m && h in m
    ensures Oldest(m[g]) < Oldest(m[h]) && (h !in r || r[h] != m[h]) ==> g !in r
    ensures g in r && h in r && r[g] != m[g] && r[h] != m[h] ==> g == h
  {
    var order: seq<Id>, cut: nat, drop: nat :| EvictedBy(m, r, order, cut, drop, max);
    assert g in order && h in order;
    var i: nat :| i < |order| && order[i] == g;
    var j: nat :| j < |order| && order[j] == h;
    LeftAtPlace(m, order, cut, drop, i);
    LeftAtPlace(m, order, cut, drop, j);
    assert j < i ==> InOrder(m, order, j, i);
  }

  /** A collection limited to `limit` peers never evicts a peer newer than one it keeps. */
  ghost predicate FairAt(cfg: Config, s: Store, now: Time, limit: nat) {
    forall t :: Collected(cfg.(maxRememberedPeers := limit), s, t, now) ==>
      OldestGoFirst(Swept(s.peers, now - PEER_TTL), t.peers)
  }

  /** Any cut is what a collection comes to under the limit that it meets. */
  lemma CutIsCollection(cfg: Config, s: Store, now: Time, order: seq<Id>, cut: nat, drop: nat)
    requires var m := Swept(s.peers, now - PEER_TTL);
      EvictionOrder(m, order) && CutOk(m, order, cut, drop) && Total(CutAt(m, order, cut, drop)) < Total(m)
    ensures var r := CutAt(Swept(s.peers, now - PEER_TTL), order, cut, drop);
      Collected(
        cfg.(maxRememberedPeers := Total(r)), s, Store(Newer(s.tokens, now - TOKEN_TTL), r, Total(r)), now)
  {
    var m := Swept(s.peers, now - PEER_TTL);
    var r := CutAt(m, order, cut, drop);
    assert EvictedBy(m, r, order, cut, drop, Total(r));
  }


  /** The most peers `g` can lose when `excess` are evicted: when it comes first among equally old ones. */
  ghost function Most(m: Peers, g: Id, excess: nat): (n: nat)
    requires g in m && forall h :: h in m ==> m[h] != []
    ensures n <= |m[g]|
  {
    Clamp(excess - Total(Only(m, Older(m, g))), |m[g]|)
  }

  /** The fewest it can lose: when it comes last among them. */
  ghost function Fewest(m: Peers, g: Id, excess: nat): (n: nat)
    requires g in m && forall h :: h in m ==> m[h] != []
    ensures n <= |m[g]|
  {
    Clamp(excess - Total(Only(m, AsOld(m, g))), |m[g]|)
  }

  /** The `a` oldest peers of the first list are no newer than all but the `b` oldest of the second. */
  ghost predicate Apart(first: seq<Peer>, a: nat, second: seq<Peer>, b: nat)
    requires a <= |first| && b <= |second|
  {
    forall p, q :: Gone(first, a, p) && q in LeftAtCut(second, b) ==> p.time <= q.time
  }

  /** As far as evicting `excess` peers reaches, what a list may lose is no newer than what a later one keeps. */
  ghost predicate SeparateUpTo(m: Peers, excess: nat)
    requires forall h :: h in m ==> m[h] != []
  {
    forall g, h :: g in m && h in m ==> PairApart(m, excess, g, h)
  }

  ghost predicate PairApart(m: Peers, excess: nat, g: Id, h: Id)
    requires g in m && h in m && forall x :: x in m ==> m[x] != []
  {
    g != h && Oldest(m[g]) <= Oldest(m[h]) ==> Apart(m[g], Most(m, g, excess), m[h], Fewest(m, h, excess))
  }

  lemma FewerAreGone(list: seq<Peer>, a: nat, b: nat, p: Peer)
    requires a <= b <= |list|
    ensures p in LeftAtCut(list, b) ==> p in LeftAtCut(list, a)
    ensures Gone(list, a, p) ==> Gone(list, b, p)
  {
    if b > 0 {
      var sorted := StableSort(list, OldestFirst());
      SortKeepsMembers(list, OldestFirst());
      assert sorted[b..] == sorted[a..][b - a..];
    }
  }

  lemma ApartShrinks(first: seq<Peer>, a: nat, a': nat, second: seq<Peer>, b: nat, b': nat)
    requires a' <= a <= |first| && b <= b' <= |second| && Apart(first, a, second, b)
    ensures Apart(first, a', second, b')
  {
    forall p, q | Gone(first, a', p) && q in LeftAtCut(second, b')
      ensures p.time <= q.time
    {
      FewerAreGone(first, a', a, p);
      FewerAreGone(second, b, b', q);
    }
  }

  /** All strictly older lists are ahead of a hash, and none but those as old. */
  lemma AheadBetween(m: Peers, order: seq<Id>, i: nat)
    requires EvictionOrder(m, order) && i < |order|
    ensures Total(Only(m, Older(m, order[i]))) <= Ahead(m, order, i) <= Total(Only(m, AsOld(m, order[i])))
  {
    var g := order[i];
    AheadIsTotal(m, order, i);
    forall h | h in Older(m, g)
      ensures h in order[..i]
    {
      OlderIsAhead(m, order, i, h);
    }
    forall h | h in order[..i]
      ensures h in AsOld(m, g)
    {
      AheadIsAsOld(m, order, i, h);
    }
    TotalMonotone(Only(m, Older(m, g)), Front(m, order, i));
    TotalMonotone(Front(m, order, i), Only(m, AsOld(m, g)));
  }

  lemma OlderIsAhead(m: Peers, order: seq<Id>, i: nat, h: Id)
    requires EvictionOrder(m, order) && i < |order| && h in Older(m, order[i])
    ensures h in order[..i]
  {
    var j :| 0 <= j < |order| && order[j] == h;
    assert i < j ==> InOrder(m, order, i, j);
    assert j < i;
    assert order[..i][j] == h;
  }

  lemma AheadIsAsOld(m: Peers, order: seq<Id>, i: nat, h: Id)
    requires EvictionOrder(m, order) && i < |order| && h in order[..i]
    ensures h in AsOld(m, order[i])
  {
    var j :| 0 <= j < i && order[j] == h;
    assert InOrder(m, order, j, i);
  }

  lemma ShareBetween(m: Peers, order: seq<Id>, excess: nat, i: nat)
    requires EvictionOrder(m, order) && i < |order|
    ensures Fewest(m, order[i], excess) <= Share(m, order, excess, i) <= Most(m, order[i], excess)
  {
    AheadBetween(m, order, i);
  }

  lemma SharesApart(m: Peers, order: seq<Id>, excess: nat, i: nat, j: nat)
    requires EvictionOrder(m, order) && i < |order| && j < |order| && order[i] != order[j]
    requires Oldest(m[order[i]]) <= Oldest(m[order[j]]) && SeparateUpTo(m, excess)
    ensures Apart(m[order[i]], Share(m, order, excess, i), m[order[j]], Share(m, order, excess, j))
  {
    var g, h := order[i], order[j];
    assert PairApart(m, excess, g, h);
    ShareBetween(m, order, excess, i);
    ShareBetween(m, order, excess, j);
    ApartShrinks(
      m[g], Most(m, g, excess), Share(m, order, excess, i), m[h], Fewest(m, h, excess), Share(m, order, excess, j));
  }

  /** While a later list loses peers an earlier one has lost all of its own. */
  lemma LaterKeepsNothing(m: Peers, order: seq<Id>, excess: nat, i: nat, j: nat)
    requires EvictionOrder(m, order) && i < j < |order|
    ensures Apart(m[order[j]], Share(m, order, excess, j), m[order[i]], Share(m, order, excess, i))
  {
    AheadGrows(m, order, i, j);
    NothingLeft(m[order[i]]);
  }

  lemma ShareOfItself(list: seq<Peer>, n: nat)
    requires n <= |list|
    ensures Apart(list, n, list, n)
  {
    LeftAtCutIsNewest(list, n);
  }

  lemma AllSharesApart(m: Peers, order: seq<Id>, excess: nat, i: nat, j: nat)
    requires EvictionOrder(m, order) && i < |order| && j < |order| && SeparateUpTo(m, excess)
    ensures Apart(m[order[i]], Share(m, order, excess, i), m[order[j]], Share(m, order, excess, j))
  {
    if i < j {
      assert InOrder(m, order, i, j);
      SharesApart(m, order, excess, i, j);
    } else if j < i {
      LaterKeepsNothing(m, order, excess, j, i);
    } else {
      ShareOfItself(m[order[i]], Share(m, order, excess, i));
    }
  }

  /** A cut is fair to two lists exactly when their shares are apart. */
  lemma FairIffApart(m: Peers, order: seq<Id>, cut: nat, drop: nat, excess: nat, i: nat, j: nat)
    requires EvictionOrder(m, order) && CutOk(m, order, cut, drop) && i < |order| && j < |order|
    requires excess == Ahead(m, order, cut) + drop
    ensures PairFair(m, CutAt(m, order, cut, drop), order[i], order[j])
      <==> Apart(m[order[i]], Share(m, order, excess, i), m[order[j]], Share(m, order, excess, j))
  {
    ShareIsEvicted(m, order, cut, drop, excess, i);
    ShareIsEvicted(m, order, cut, drop, excess, j);
    PairFairIffApart(
      m, CutAt(m, order, cut, drop), order[i], Share(m, order, excess, i), order[j], Share(m, order, excess, j));
  }

  lemma PairFairIffApart(m: Peers, r: Peers, g: Id, a: nat, h: Id, b: nat)
    requires g in m && h in m && a <= |m[g]| && b <= |m[h]|
    requires EvictsOf(m, r, g, a) && EvictsOf(m, r, h, b)
    ensures PairFair(m, r, g, h) <==> Apart(m[g], a, m[h], b)
  {
  }

  lemma SeparateCutIsFair(m: Peers, order: seq<Id>, cut: nat, drop: nat, excess: nat)
    requires EvictionOrder(m, order) && CutOk(m, order, cut, drop)
    requires excess == Ahead(m, order, cut) + drop && SeparateUpTo(m, excess)
    ensures OldestGoFirst(m, CutAt(m, order, cut, drop))
  {
    forall g, h
      ensures PairFair(m, CutAt(m, order, cut, drop), g, h)
    {
      if g in order && h in order {
        var i: nat :| i < |order| && order[i] == g;
        var j: nat :| j < |order| && order[j] == h;
        AllSharesApart(m, order, excess, i, j);
        FairIffApart(m, order, cut, drop, excess, i, j);
      }
    }
  }

  /** The cut at which `g` loses the most and `h` the fewest peers they can. */
  lemma UnfairCut(m: Peers, excess: nat, g: Id, h: Id) returns (order: seq<Id>, cut: nat, drop: nat)
    requires g in m && h in m && forall x :: x in m ==> m[x] != []
    requires excess <= Total(m) && !PairApart(m, excess, g, h)
    ensures EvictionOrder(m, order) && CutOk(m, order, cut, drop)
    ensures Ahead(m, order, cut) + drop == excess
    ensures !OldestGoFirst(m, CutAt(m, order, cut, drop))
  {
    var i, j;
    order, i, j := OrderWith(m, g, h);
    AheadOfAll(m, order);
    cut, drop := CutFor(m, order, excess, 0);
    ExtremeShares(m, order, excess, i, j);
    FairIffApart(m, order, cut, drop, excess, i, j);
    assert !PairFair(m, CutAt(m, order, cut, drop), g, h);
  }

  lemma ExtremeShares(m: Peers, order: seq<Id>, excess: nat, i: nat, j: nat)
    requires EvictionOrder(m, order) && i < j < |order|
    requires order[i] in m && order[j] in m && !PairApart(m, excess, order[i], order[j])
    requires Ahead(m, order, i) == Total(Only(m, Older(m, order[i])))
    requires Ahead(m, order, j) == Total(Only(m, AsOld(m, order[j])))
    ensures !Apart(m[order[i]], Share(m, order, excess, i), m[order[j]], Share(m, order, excess, j))
  {
    assert Share(m, order, excess, i) == Most(m, order[i], excess);
    assert Share(m, order, excess, j) == Fewest(m, order[j], excess);
  }

  lemma AheadOfAll(m: Peers, order: seq<Id>)
    requires EvictionOrder(m, order)
    ensures Ahead(m, order, |order|) == Total(m)
  {
    AheadIsTotal(m, order, |order|);
    assert order[..|order|] == order;
    assert Front(m, order, |order|) == m;
  }

  lemma UnfairCollection(cfg: Config, s: Store, now: Time, limit: nat, order: seq<Id>, cut: nat, drop: nat)
    requires var m := Swept(s.peers, now - PEER_TTL);
      && EvictionOrder(m, order) && CutOk(m, order, cut, drop) && Total(CutAt(m, order, cut, drop)) == limit
      && limit < Total(m) && !OldestGoFirst(m, CutAt(m, order, cut, drop))
    ensures !FairAt(cfg, s, now, limit)
  {
    CutIsCollection(cfg, s, now, order, cut, drop);
  }

  lemma UnfairCutTo(m: Peers, limit: nat, excess: nat, g: Id, h: Id)
    returns (order: seq<Id>, cut: nat, drop: nat)
    requires g in m && h in m && forall x :: x in m ==> m[x] != []
    requires limit + excess == Total(m) && !PairApart(m, excess, g, h)
    ensures EvictionOrder(m, order) && CutOk(m, order, cut, drop)
    ensures Total(CutAt(m, order, cut, drop)) == limit
    ensures !OldestGoFirst(m, CutAt(m, order, cut, drop))
  {
    order, cut, drop := UnfairCut(m, excess, g, h);
    CutTotal(m, order, cut, drop);
  }

  lemma SeparateUpToIsFair(cfg: Config, s: Store, now: Time, limit: nat, m: Peers, excess: nat)
    requires m == Swept(s.peers, now - PEER_TTL) && limit + excess == Total(m) && excess > 0
    requires SeparateUpTo(m, excess)
    ensures FairAt(cfg, s, now, limit)
  {
    forall t | Collected(cfg.(maxRememberedPeers := limit), s, t, now)
      ensures OldestGoFirst(m, t.peers)
    {
      SeparateEvictsFairly(m, t.peers, limit, excess);
    }
  }

  lemma SeparateEvictsFairly(m: Peers, r: Peers, limit: nat, excess: nat)
    requires (forall h :: h in m ==> m[h] != []) && limit + excess == Total(m) && SeparateUpTo(m, excess)
    requires EvictedDownTo(m, r, limit)
    ensures OldestGoFirst(m, r)
  {
    var order: seq<Id>, cut: nat, drop: nat :| EvictedBy(m, r, order, cut, drop, limit);
    ExcessIsEvicted(m, r, order, cut, drop, limit, excess);
    SeparateCutIsFair(m, order, cut, drop, excess);
  }

  lemma ExcessIsEvicted(m: Peers, r: Peers, order: seq<Id>, cut: nat, drop: nat, limit: nat, excess: nat)
    requires EvictedBy(m, r, order, cut, drop, limit) && limit + excess == Total(m)
    ensures excess == Ahead(m, order, cut) + drop
  {
    CutTotal(m, order, cut, drop);
  }

  lemma FairUnderIff(cfg: Config, s: Store, now: Time, limit: nat, m: Peers, excess: nat)
    requires m == Swept(s.peers, now - PEER_TTL) && limit + excess == Total(m) && excess > 0
    ensures FairAt(cfg, s, now, limit) <==> SeparateUpTo(m, excess)
  {
    if SeparateUpTo(m, excess) {
      SeparateUpToIsFair(cfg, s, now, limit, m, excess);
    } else {
      var g, h :| g in m && h in m && !PairApart(m, excess, g, h);
      var order, cut, drop := UnfairCutTo(m, limit, excess, g, h);
      UnfairCollection(cfg, s, now, limit, order, cut, drop);
    }
  }

  lemma NothingToEvictIsFair(cfg: Config, s: Store, now: Time, limit: nat)
    requires limit >= Total(Swept(s.peers, now - PEER_TTL))
    ensures FairAt(cfg, s, now, limit)
  {
  }

  /** By how much `m` exceeds the limit. */
  ghost function Excess(m: Peers, limit: nat): nat {
    if limit < Total(m) then Total(m) - limit else 0
  }

  lemma NothingToSeparate(m: Peers)
    requires forall h :: h in m ==> m[h] != []
    ensures SeparateUpTo(m, 0)
  {
  }

  /**
   Under a given limit the oldest peers of all are the ones to go, in whatever order equally old
   hashes are taken, exactly when the swept lists do not interleave as far as the eviction reaches.
   */
  lemma FairAtIff(cfg: Config, s: Store, now: Time, limit: nat, m: Peers)
    requires m == Swept(s.peers, now - PEER_TTL)
    ensures FairAt(cfg, s, now, limit) <==> SeparateUpTo(m, Excess(m, limit))
  {
    var excess := Excess(m, limit);
    if excess == 0 {
      NothingToEvictIsFair(cfg, s, now, limit);
      NothingToSeparate(m);
    } else {
      FairUnderIff(cfg, s, now, limit, m, excess);
    }
  }

  // -- When they do under every limit ----------------------------------------------------------

  lemma SeparateIsEnough(m: Peers, excess: nat)
    requires (forall h :: h in m ==> m[h] != []) && Separate(m)
    ensures SeparateUpTo(m, excess)
  {
    forall g, h | g in m && h in m
      ensures PairApart(m, excess, g, h)
    {
      if g != h && Oldest(m[g]) <= Oldest(m[h]) {
        NoneNewerApart(m[g], Most(m, g, excess), m[h], Fewest(m, h, excess));
      }
    }
  }

  lemma NoneNewerApart(g: seq<Peer>, a: nat, h: seq<Peer>, b: nat)
    requires a <= |g| && b <= |h| && NoneNewer(g, h)
    ensures Apart(g, a, h, b)
  {
    LeftAtCutIsNewest(h, b);
  }

  /** Evicting the older lists and all of `g` leaves a list that starts no earlier whole. */
  lemma WholeOfFirst(m: Peers, g: Id, h: Id) returns (excess: nat)
    requires g in m && h in m && g != h && (forall x :: x in m ==> m[x] != []) && Oldest(m[g]) <= Oldest(m[h])
    ensures excess <= Total(m) && Most(m, g, excess) == |m[g]| && Fewest(m, h, excess) == 0
  {
    var older, asOld := Only(m, Older(m, g)), Only(m, AsOld(m, h));
    TotalPut(older, g, m[g]);
    TotalMonotone(older[g := m[g]], asOld);
    TotalMonotone(asOld, m);
    excess := Total(older) + |m[g]|;
  }

  lemma FirstIsNoneNewer(m: Peers, g: Id, h: Id, excess: nat)
    requires g in m && h in m && g != h && (forall x :: x in m ==> m[x] != []) && Oldest(m[g]) <= Oldest(m[h])
    requires Most(m, g, excess) == |m[g]| && Fewest(m, h, excess) == 0 && PairApart(m, excess, g, h)
    ensures NoneNewer(m[g], m[h])
  {
    NothingLeft(m[g]);
    assert forall p :: p in m[g] ==> Gone(m[g], |m[g]|, p);
  }

  /**
   A collection goes by whole hashes.  Whatever the limit, the oldest peers of all are the ones to
   go exactly when the lists left by the sweep do not interleave in time.
   */
  lemma OldestGoFirstIff(cfg: Config, s: Store, now: Time, m: Peers)
    requires m == Swept(s.peers, now - PEER_TTL)
    ensures Separate(m) <==> forall limit: nat :: FairAt(cfg, s, now, limit)
  {
    if Separate(m) {
      forall limit: nat
        ensures FairAt(cfg, s, now, limit)
      {
        SeparateIsEnough(m, Excess(m, limit));
        FairAtIff(cfg, s, now, limit, m);
      }
    }
    if forall limit: nat :: FairAt(cfg, s, now, limit) {
      forall g, h | g in m && h in m && g != h && Oldest(m[g]) <= Oldest(m[h])
        ensures NoneNewer(m[g], m[h])
      {
        var excess := WholeOfFirst(m, g, h);
        FairSeparates(cfg, s, now, Total(m) - excess, m, excess);
        FirstIsNoneNewer(m, g, h, excess);
      }
    }
  }

  lemma FairSeparates(cfg: Config, s: Store, now: Time, limit: nat, m: Peers, excess: nat)
    requires m == Swept(s.peers, now - PEER_TTL) && limit + excess == Total(m) && FairAt(cfg, s, now, limit)
    ensures SeparateUpTo(m, excess)
  {
    if excess == 0 {
      NothingToSeparate(m);
    } else {
      FairUnderIff(cfg, s, now, limit, m, excess);
    }
  }

  // -- A run that evicts a newer peer ----------------------------------------------------------

  /** Three announcements of one node under one token, a reload with a limit of one, and a collection. */
  function NewerFirstOps(token: Token, g: Id, h: Id): seq<Op> {
    [ HandOut(token),
      AnnouncePort(token, g, 1, 0),
      AnnouncePort(token, h, 1, 1),
      AnnouncePort(token, g, 2, 10),
      Restart(NewerFirstStore(token, g, h, 4), 1, 1),
      Collect(10) ]
  }

  function AnnouncePort(token: Token, infoHash: Id, port: nat, now: Time): Op {
    StoreAnnounce(Announce(token.nodeId, 0, infoHash, port, token.bytes), token.addr, now)
  }

  function NewerFirstPeers(a: Addr, g: Id, h: Id, n: nat): Peers {
    var one, two, other := Peer(a.(port := 1), 0), Peer(a.(port := 2), 10), Peer(a.(port := 1), 1);
    if n <= 1 then map[]
    else if n == 2 then map[g := [one]]
    else if n == 3 then map[g := [one], h := [other]]
    else if n <= 5 then map[g := [one, two], h := [other]]
    else map[h := [other]]
  }

  function NewerFirstStore(token: Token, g: Id, h: Id, n: nat): Store {
    var peersLen := if n <= 1 then 0 else if n <= 3 then n - 1 else if n <= 5 then 3 else 1;
    Store(if n == 0 then [] else [token], NewerFirstPeers(token.addr, g, h, n), peersLen)
  }

  function NewerFirstConfig(cfg: Config, n: nat): Config {
    if n <= 4 then cfg else cfg.(maxRememberedTokens := 1, maxRememberedPeers := 1)
  }

  lemma NewerFirstTotals(a: Addr, g: Id, h: Id)
    requires g != h
    ensures Total(NewerFirstPeers(a, g, h, 5)) == 3 && Total(NewerFirstPeers(a, g, h, 6)) == 1
  {
    var one, two, other := Peer(a.(port := 1), 0), Peer(a.(port := 2), 10), Peer(a.(port := 1), 1);
    var only: Peers := map[g := [one, two]];
    TotalPut(map[], g, [one, two]);
    TotalPut(only, h, [other]);
    TotalPut(map[], h, [other]);
    assert map[][g := [one, two]] == only && only[h := [other]] == NewerFirstPeers(a, g, h, 5);
    assert map[][h := [other]] == NewerFirstPeers(a, g, h, 6);
  }

  lemma NewerFirstCollects(cfg: Config, token: Token, g: Id, h: Id)
    requires g != h && token.time == 0 && cfg.maxRememberedPeers == 1
    ensures Collected(cfg, NewerFirstStore(token, g, h, 5), NewerFirstStore(token, g, h, 6), 10)
  {
    var m, r := NewerFirstPeers(token.addr, g, h, 5), NewerFirstPeers(token.addr, g, h, 6);
    FilterKeepsAll([token], IsAfter(10 - TOKEN_TTL));
    NewerFirstIsSwept(token.addr, g, h);
    NewerFirstIsCut(token.addr, g, h);
    NewerFirstTotals(token.addr, g, h);
    assert EvictedBy(m, r, [g, h], 1, 0, 1);
  }

  lemma NewerFirstIsSwept(a: Addr, g: Id, h: Id)
    requires g != h
    ensures var m := NewerFirstPeers(a, g, h, 5); Swept(m, 10 - PEER_TTL) == m
  {
    var m := NewerFirstPeers(a, g, h, 5);
    RecentListsStay(m, 10 - PEER_TTL);
  }

  lemma NewerFirstIsCut(a: Addr, g: Id, h: Id)
    requires g != h
    ensures var m := NewerFirstPeers(a, g, h, 5);
      && EvictionOrder(m, [g, h]) && CutOk(m, [g, h], 1, 0)
      && CutAt(m, [g, h], 1, 0) == NewerFirstPeers(a, g, h, 6)
  {
    var m := NewerFirstPeers(a, g, h, 5);
    OldestIsLeast(m[g]);
    OldestIsLeast(m[h]);
    assert m[g][0] in m[g];
    OrderOfTwo(m, g, h);
  }

  lemma OrderOfTwo(m: Peers, g: Id, h: Id)
    requires g != h && m.Keys == {g, h} && m[g] != [] && m[h] != [] && Oldest(m[g]) <= Oldest(m[h])
    ensures EvictionOrder(m, [g, h]) && CutOk(m, [g, h], 1, 0) && CutAt(m, [g, h], 1, 0) == map[h := m[h]]
  {
    assert [g, h][0] in [g, h] && [g, h][1] in [g, h];
    assert [g, h][1..] == [h];
  }

  /** What an accepted announcement of a peer that is not listed does. */
  lemma NewPeerIsListed(cfg: Config, s: Store, ann: Announce, from: Addr, now: Time)
    requires CloseEnough(cfg, ann.infoHash) && Accepts(s.tokens, ann.token, ann.id, from)
    requires s.peersLen < cfg.maxRememberedPeers
    requires forall p :: p in ListOf(s.peers, ann.infoHash) ==> p.addr != PeerAddr(ann, from)
    ensures var list := ListOf(s.peers, ann.infoHash) + [Peer(PeerAddr(ann, from), now)];
      StorePeer(cfg, s, ann, from, now).0
        == s.(peers := s.peers[ann.infoHash := list], peersLen := s.peersLen + 1)
  {
  }

  lemma NewerFirstAnnounces(cfg: Config, token: Token, g: Id, h: Id, n: nat)
    requires g != h && CloseEnough(cfg, g) && CloseEnough(cfg, h) && cfg.maxRememberedPeers >= 3 && 1 <= n <= 3
    ensures var op := NewerFirstOps(token, g, h)[n];
      StorePeer(cfg, NewerFirstStore(token, g, h, n), op.ann, op.from, op.now).0
        == NewerFirstStore(token, g, h, n + 1)
  {
    var op, s := NewerFirstOps(token, g, h)[n], NewerFirstStore(token, g, h, n);
    assert token in [token] && Matches(token, token.bytes, token.nodeId, token.addr);
    NewPeerIsListed(cfg, s, op.ann, op.from, op.now);
    var next := NewerFirstPeers(token.addr, g, h, n + 1);
    assert ListOf(s.peers, op.ann.infoHash) + [Peer(PeerAddr(op.ann, op.from), op.now)] == next[op.ann.infoHash];
    assert s.peers[op.ann.infoHash := next[op.ann.infoHash]] == next;
  }

  lemma NewerFirstStep(cfg: Config, token: Token, g: Id, h: Id, n: nat)
    requires g != h && CloseEnough(cfg, g) && CloseEnough(cfg, h) && token.time == 0
    requires cfg.maxRememberedTokens >= 1 && cfg.maxRememberedPeers >= 3 && n < 6
    ensures PeerStores.Step(
      NewerFirstConfig(cfg, n), NewerFirstStore(token, g, h, n), NewerFirstOps(token, g, h)[n],
      NewerFirstConfig(cfg, n + 1), NewerFirstStore(token, g, h, n + 1))
  {
    if 1 <= n <= 3 {
      NewerFirstAnnounces(cfg, token, g, h, n);
    } else if n == 4 {
      NewerFirstTotals(token.addr, g, h);
    } else if n == 5 {
      NewerFirstCollects(NewerFirstConfig(cfg, n), token, g, h);
    }
  }

  /**
   A run in which a collection evicts a peer of time 10 and keeps one of time 1, for any two hashes
   close enough and any token.
   */
  lemma NewerPeerEvictedFirst(cfg: Config, token: Token, g: Id, h: Id)
    returns (configs: seq<Config>, states: seq<Store>, ops: seq<Op>, newer: Peer, older: Peer)
    requires g != h && CloseEnough(cfg, g) && CloseEnough(cfg, h) && token.time == 0
    requires cfg.maxRememberedTokens >= 1 && cfg.maxRememberedPeers >= 3
    ensures IsRun(configs, states, ops) && configs[0] == cfg && |ops| == 6 && ops[5] == Collect(10)
    ensures newer.time == 10 && older.time == 1
    ensures Evicted(states[5].peers, states[6].peers, g, newer) && Kept(states[6].peers, h, older)
  {
    ops := NewerFirstOps(token, g, h);
    configs := seq(7, n requires 0 <= n < 7 => NewerFirstConfig(cfg, n));
    states := seq(7, n requires 0 <= n < 7 => NewerFirstStore(token, g, h, n));
    forall n | 0 <= n < |ops|
      ensures StepAt(configs, states, ops, n)
    {
      NewerFirstStep(cfg, token, g, h, n);
    }
    assert ops[4].dump == states[4];
    newer, older := states[5].peers[g][1], states[6].peers[h][0];
  }
}
