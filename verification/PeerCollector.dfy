/**
 The peer store in place, and its garbage collector phase by phase.

 Iterating the map visits the hashes in any order, so the collector's loops pick them freely.
 */
module PeerCollector {
  import opened Ids
  import opened PeerMaps
  import opened PeerStores
  import opened Sorting
  import opened Tokens
  import opened Wrappers

  lemma {:induction false} TotalOfRest(m: Peers, empty: set<Id>)
    requires forall h :: h in empty ==> h in m && m[h] == []
    ensures Total(m - empty) == Total(m)
    decreases |empty|
  {
    if empty == {} {
      assert m - empty == m;
    } else {
      var h :| h in empty;
      TotalOfRest(m, empty - {h});
      TotalMinus(m - (empty - {h}), h);
      assert m - (empty - {h}) - {h} == m - empty;
    }
  }

  /** Drops stale peers and enforces the limit per list. */
  method CleanOne(list: seq<Peer>, cutoff: Time) returns (r: seq<Peer>)
    ensures r == CleanList(list, cutoff) && |r| <= |list|
  {
    r := Recent(list, cutoff);
    if |r| > MAX_PEERS_PER_INFO_HASH {
      r := StableSort(r, NewestFirst());
      r := r[..MAX_PEERS_PER_INFO_HASH];
    }
  }

  /** Cleans every list in turn, then removes the emptied hashes. */
  method SweepLists(m: Peers, cutoff: Time) returns (r: Peers, removed: nat)
    ensures r == Swept(m, cutoff)
    ensures Total(r) + removed == Total(m)
  {
    r, removed := m, 0;
    var emptyHashes: set<Id> := {};
    var todo := m.Keys;
    while todo != {}
      invariant todo <= m.Keys && r.Keys == m.Keys
      invariant forall h :: h in m ==> r[h] == if h in todo then m[h] else CleanList(m[h], cutoff)
      invariant emptyHashes <= m.Keys
      invariant forall h :: h in m ==> (h in emptyHashes <==> h !in todo && CleanList(m[h], cutoff) == [])
      invariant Total(r) + removed == Total(m)
      decreases todo
    {
      var h :| h in todo;
      var peers := CleanOne(r[h], cutoff);
      removed := removed + (|r[h]| - |peers|);
      TotalPut(r, h, peers);
      r := r[h := peers];
      if peers == [] {
        emptyHashes := emptyHashes + {h};
      }
      todo := todo - {h};
    }
    TotalOfRest(r, emptyHashes);
    r := r - emptyHashes;
  }

  method CountPeers(m: Peers) returns (n: nat)
    ensures n == Total(m)
  {
    n := 0;
    var todo := m;
    while todo != map[]
      invariant n + Total(todo) == Total(m)
      decreases |todo|
    {
      var h :| h in todo;
      TotalMinus(todo, h);
      n := n + |todo[h]|;
      todo := todo - {h};
    }
  }

  // -- The order of eviction -------------------------------------------------------------------

  type Entry = (Id, Time)

  function ByOldest(): (Entry, Entry) -> bool {
    (a: Entry, b: Entry) => a.1 <= b.1
  }

  function Hashes(entries: seq<Entry>): (r: seq<Id>)
    ensures |r| == |entries| && forall i :: 0 <= i < |r| ==> r[i] == entries[i].0
  {
    seq(|entries|, i requires 0 <= i < |entries| => entries[i].0)
  }

  /** The entries list each hash of `keys` once, with the time of its oldest peer. */
  ghost predicate ListsOldest(m: Peers, keys: set<Id>, entries: seq<Entry>) {
    && (forall h :: h in keys ==> h in m && m[h] != [])
    && (forall e :: e in entries <==> e.0 in keys && e.1 == Oldest(m[e.0]))
    && (forall i, j :: 0 <= i < j < |entries| ==> entries[i] != entries[j])
  }

  lemma SortedEntriesAreOrder(m: Peers, entries: seq<Entry>)
    requires ListsOldest(m, m.Keys, entries)
    ensures EvictionOrder(m, Hashes(StableSort(entries, ByOldest())))
  {
    var sorted := StableSort(entries, ByOldest());
    SortSorts(entries, ByOldest());
    SortKeepsMembers(entries, ByOldest());
    DistinctIsPermutable(entries, sorted);
    var order := Hashes(sorted);
    forall i | 0 <= i < |sorted|
      ensures sorted[i].0 in m && sorted[i].1 == Oldest(m[sorted[i].0])
    {
      assert sorted[i] in entries;
    }
    forall h
      ensures h in order <==> h in m
    {
      if h in m {
        assert (h, Oldest(m[h])) in sorted;
        var i :| 0 <= i < |sorted| && sorted[i] == (h, Oldest(m[h]));
        assert order[i] == h;
      }
    }
    forall i, j | 0 <= i < j < |order|
      ensures InOrder(m, order, i, j)
    {
      assert sorted[i] != sorted[j] && sorted[i].1 <= sorted[j].1;
    }
  }

  method EntriesByOldest(m: Peers) returns (entries: seq<Entry>)
    requires forall h :: h in m ==> m[h] != []
    ensures EvictionOrder(m, Hashes(entries))
  {
    entries := [];
    var todo := m.Keys;
    while todo != {}
      invariant todo <= m.Keys
      invariant ListsOldest(m, m.Keys - todo, entries)
      decreases todo
    {
      var h :| h in todo;
      assert (h, Oldest(m[h])) !in entries;
      entries := entries + [(h, Oldest(m[h]))];
      todo := todo - {h};
    }
    assert m.Keys - todo == m.Keys;
    SortedEntriesAreOrder(m, entries);
    entries := StableSort(entries, ByOldest());
  }

  // -- Eviction --------------------------------------------------------------------------------

  /** Takes peers off the front until the list is empty or enough were evicted. */
  method TrimFront(list: seq<Peer>, budget: nat) returns (rest: seq<Peer>, dropped: nat)
    ensures dropped == (if |list| <= budget then |list| else budget)
    ensures rest == list[dropped..]
  {
    rest, dropped := list, 0;
    while rest != [] && dropped < budget
      invariant dropped <= |list| && dropped <= budget
      invariant rest == list[dropped..]
    {
      rest := rest[1..];
      dropped := dropped + 1;
    }
  }

  lemma NextHash(m: Peers, order: seq<Id>, cut: nat)
    requires EvictionOrder(m, order) && CutOk(m, order, cut, 0) && cut < |order|
    ensures order[cut] in CutAt(m, order, cut, 0) && CutAt(m, order, cut, 0)[order[cut]] == m[order[cut]]
    ensures CutOk(m, order, cut + 1, 0)
  {
    assert order[cut..] == [order[cut]] + order[cut + 1..];
  }

  lemma CutWithoutDrop(m: Peers, order: seq<Id>, cut: nat)
    requires EvictionOrder(m, order) && CutOk(m, order, cut, 0)
    ensures CutAt(m, order, cut, 0) == map h | h in m && h in order[cut..] :: m[h]
  {
  }

  lemma WholeHash(m: Peers, order: seq<Id>, cut: nat)
    requires EvictionOrder(m, order) && CutOk(m, order, cut, 0) && CutOk(m, order, cut + 1, 0)
    ensures CutAt(m, order, cut, 0) - {order[cut]} == CutAt(m, order, cut + 1, 0)
  {
    OrderIsDistinct(m, order);
    RestOfOrder(order, cut);
    CutWithoutDrop(m, order, cut);
    CutWithoutDrop(m, order, cut + 1);
  }

  lemma OrderIsDistinct(m: Peers, order: seq<Id>)
    requires EvictionOrder(m, order)
    ensures forall i, j :: 0 <= i < j < |order| ==> order[i] != order[j]
  {
    forall i, j | 0 <= i < j < |order|
      ensures order[i] != order[j]
    {
      assert InOrder(m, order, i, j);
    }
  }

  lemma RestOfOrder(order: seq<Id>, cut: nat)
    requires cut < |order| && forall i, j :: 0 <= i < j < |order| ==> order[i] != order[j]
    ensures forall h :: h in order[cut + 1..] <==> h in order[cut..] && h != order[cut]
    ensures cut + 1 < |order| ==> order[cut + 1] != order[cut]
  {
    assert order[cut..] == [order[cut]] + order[cut + 1..];
  }

  lemma TrimHash(m: Peers, order: seq<Id>, cut: nat, drop: nat)
    requires EvictionOrder(m, order) && CutOk(m, order, cut, drop) && CutOk(m, order, cut, 0) && cut < |order|
    ensures CutAt(m, order, cut, 0)[order[cut] := LeftAtCut(m[order[cut]], drop)] == CutAt(m, order, cut, drop)
  {
    assert order[cut] in order[cut..];
    CutWithoutDrop(m, order, cut);
    UpdateOne(m, order[cut..], order[cut], drop);
  }

  lemma UpdateOne(m: Peers, hs: seq<Id>, g: Id, drop: nat)
    requires g in m && g in hs && drop <= |m[g]|
    ensures (map h | h in m && h in hs :: m[h])[g := LeftAtCut(m[g], drop)]
      == map h | h in m && h in hs :: if h == g then LeftAtCut(m[h], drop) else m[h]
  {
  }

  lemma CutAtStart(m: Peers, order: seq<Id>)
    requires EvictionOrder(m, order)
    ensures CutOk(m, order, 0, 0) && CutAt(m, order, 0, 0) == m
  {
    assert order[0..] == order;
  }

  lemma CutAtEnd(m: Peers, order: seq<Id>)
    requires EvictionOrder(m, order)
    ensures CutAt(m, order, |order|, 0) == map[]
  {
  }

  /** Drains the hash at the cut, its oldest peers first, as far as the budget goes. */
  method DrainHash(ghost m: Peers, ghost order: seq<Id>, ghost i: nat, r: Peers, hash: Id, budget: nat)
    returns (r': Peers, dropped: nat)
    requires EvictionOrder(m, order) && CutOk(m, order, i, 0) && i < |order| && hash == order[i]
    requires r == CutAt(m, order, i, 0) && budget > 0
    ensures dropped == if |m[hash]| <= budget then |m[hash]| else budget
    ensures Total(r') + dropped == Total(r)
    ensures dropped == |m[hash]| ==> CutOk(m, order, i + 1, 0) && r' == CutAt(m, order, i + 1, 0)
    ensures dropped < |m[hash]| ==> CutOk(m, order, i, dropped) && r' == CutAt(m, order, i, dropped)
  {
    NextHash(m, order, i);
    TotalMinus(r, hash);
    var rest;
    rest, dropped := TrimFront(StableSort(r[hash], OldestFirst()), budget);
    TotalPut(r, hash, rest);
    if rest == [] {
      WholeHash(m, order, i);
      r' := r - {hash};
    } else {
      TrimHash(m, order, i, dropped);
      r' := r[hash := rest];
    }
  }

  /** Drains whole hashes, those with the oldest peers first, until the excess is gone. */
  method EvictOldest(m: Peers, toEvict: nat, ghost max: nat) returns (r: Peers, evicted: nat)
    requires (forall h :: h in m ==> m[h] != []) && 0 < toEvict && Total(m) == max + toEvict
    ensures EvictedDownTo(m, r, max)
    ensures evicted == toEvict
  {
    var entries := EntriesByOldest(m);
    ghost var order := Hashes(entries);
    CutAtStart(m, order);
    CutAtEnd(m, order);
    r, evicted := m, 0;
    for i := 0 to |entries|
      invariant evicted < toEvict
      invariant CutOk(m, order, i, 0) && r == CutAt(m, order, i, 0)
      invariant Total(r) + evicted == max + toEvict
    {
      var dropped;
      r, dropped := DrainHash(m, order, i, r, entries[i].0, toEvict - evicted);
      evicted := evicted + dropped;
      if evicted >= toEvict {
        DrainedIsEvicted(m, order, i, r, dropped, max);
        return;
      }
    }
  }

  lemma DrainedIsEvicted(m: Peers, order: seq<Id>, i: nat, r: Peers, dropped: nat, max: nat)
    requires EvictionOrder(m, order) && i < |order| && order[i] in m && dropped <= |m[order[i]]| && Total(r) == max
    requires dropped == |m[order[i]]| ==> CutOk(m, order, i + 1, 0) && r == CutAt(m, order, i + 1, 0)
    requires dropped < |m[order[i]]| ==> CutOk(m, order, i, dropped) && r == CutAt(m, order, i, dropped)
    ensures EvictedDownTo(m, r, max)
  {
    if dropped == |m[order[i]]| {
      assert EvictedBy(m, r, order, i + 1, 0, max);
    } else {
      assert EvictedBy(m, r, order, i, dropped, max);
    }
  }

  /** Brings the number of peers down to the cap. */
  method EnforceCap(m: Peers, max: nat) returns (r: Peers, evicted: nat)
    requires forall h :: h in m ==> m[h] != []
    ensures if Total(m) <= max then r == m && evicted == 0 else EvictedDownTo(m, r, max)
    ensures Total(r) + evicted == Total(m)
  {
    var actualCount := CountPeers(m);
    r, evicted := m, 0;
    if actualCount > max {
      r, evicted := EvictOldest(m, actualCount - max, max);
    }
  }

  // -- The store -------------------------------------------------------------------------------

  class PeerStore {
    const cfg: Config
    var tokens: seq<Token>
    var peers: Peers
    var peersLen: nat

    ghost function View(): Store
      reads this
    {
      Store(tokens, peers, peersLen)
    }

    ghost predicate Valid()
      reads this
    {
      Inv(cfg, View())
    }

    constructor (cfg: Config)
      ensures Valid() && this.cfg == cfg && View() == Store([], map[], 0)
    {
      this.cfg := cfg;
      tokens, peers, peersLen := [], map[], 0;
    }

    /** Reading a dump back recomputes the counter. */
    constructor Load(cfg: Config, tokens: seq<Token>, peers: Peers)
      ensures this.cfg == cfg && View() == Store(tokens, peers, Total(peers))
    {
      this.cfg := cfg;
      this.tokens := tokens;
      this.peers := peers;
      new;
      peersLen := CountPeers(peers);
    }

    /** Hands out a token for later announcements; its bytes are random. */
    method GenTokenFor(bytes: seq<Byte>, nodeId: Id, addr: Addr, now: Time) returns (token: seq<Byte>)
      requires Valid()
      modifies this
      ensures Valid()
      ensures token == bytes
      ensures View() == old(View()).(
        tokens := Push(old(tokens), Token(bytes, nodeId, addr, now), cfg.maxRememberedTokens))
      ensures cfg.maxRememberedTokens > 0 ==> Accepts(tokens, token, nodeId, addr)
    {
      token := bytes;
      tokens := tokens + [Token(bytes, nodeId, addr, now)];
      if |tokens| > cfg.maxRememberedTokens {
        tokens := tokens[1..];
      }
      assert cfg.maxRememberedTokens > 0 ==> tokens[|tokens| - 1] in tokens;
    }

    method StorePeer(ann: Announce, from: Addr, now: Time) returns (stored: bool)
      requires Valid()
      modifies this
      ensures Valid()
      ensures (View(), stored) == PeerStores.StorePeer(cfg, old(View()), ann, from, now)
    {
      StorePeerKeepsInv(cfg, View(), ann, from, now);
      if !CloseEnough(cfg, ann.infoHash) {
        return false;
      }
      if !HasToken(tokens, ann, from) {
        return false;
      }
      var addr := from;
      if ann.impliedPort == 0 {
        addr := addr.(port := ann.port);
      }
      if ann.infoHash in peers {
        var list := peers[ann.infoHash];
        var known := FindPeer(list, addr);
        if known.Some? {
          peers := peers[ann.infoHash := list[known.value := list[known.value].(time := now)]];
          return true;
        }
        if peersLen >= cfg.maxRememberedPeers {
          return false;
        }
        peers := peers[ann.infoHash := list + [Peer(addr, now)]];
      } else {
        if peersLen >= cfg.maxRememberedPeers {
          return false;
        }
        peers := peers[ann.infoHash := [Peer(addr, now)]];
        assert [] + [Peer(addr, now)] == [Peer(addr, now)];
      }
      peersLen := peersLen + 1;
      return true;
    }

    static predicate HasToken(queue: seq<Token>, ann: Announce, from: Addr)
      ensures HasToken(queue, ann, from) <==> Accepts(queue, ann.token, ann.id, from)
    {
      queue != [] && (Matches(queue[0], ann.token, ann.id, from) || HasToken(queue[1..], ann, from))
    }

    method GarbageCollectPeers(now: Time) returns (totalRemoved: nat)
      requires Valid()
      modifies this
      ensures Valid()
      ensures Collected(cfg, old(View()), View(), now)
      ensures totalRemoved == old(peersLen) - peersLen
    {
      ghost var before := View();
      tokens := Newer(tokens, now - TOKEN_TTL);
      var swept, removed := SweepLists(peers, now - PEER_TTL);
      totalRemoved := removed;
      var rest, evicted := EnforceCap(swept, cfg.maxRememberedPeers);
      totalRemoved := totalRemoved + evicted;
      peers := rest;
      peersLen := CountPeers(peers);
      CollectionGuarantees(cfg, before, View(), now);
    }

    /** The known peers for a hash, of the wanted families, in the order they are listed. */
    function GetForInfoHash(h: Id, want: Want): (addrs: seq<Addr>)
      reads this
      ensures forall a :: a in addrs <==>
        Lists(peers, h, a) && (want == WantBoth || (want == WantV4 && a.V4?) || (want == WantV6 && a.V6?))
    {
      WantedAddrs(ListOf(peers, h), want)
    }

    static function WantedAddrs(list: seq<Peer>, want: Want): (addrs: seq<Addr>)
      ensures forall a :: a in addrs <==> Wanted(a, want) && exists p :: p in list && p.addr == a
    {
      if list == [] then []
      else
        assert list == [list[0]] + list[1..];
        (if Wanted(list[0].addr, want) then [list[0].addr] else []) + WantedAddrs(list[1..], want)
    }

    /** `at` are the positions from `n` on of the wanted addresses, in order, and `addrs` what stands there. */
    static ghost predicate Picked(list: seq<Peer>, want: Want, n: nat, addrs: seq<Addr>, at: seq<nat>) {
      && |at| == |addrs|
      && (forall i, j :: 0 <= i < j < |at| ==> at[i] < at[j])
      && (forall k :: 0 <= k < |at| ==> n <= at[k] < |list| && addrs[k] == list[at[k]].addr)
      && (forall i :: n <= i < |list| ==> (i in at <==> Wanted(list[i].addr, want)))
    }

    static lemma PickOne(list: seq<Peer>, want: Want, n: nat, addrs: seq<Addr>, at: seq<nat>)
      requires n < |list| && Picked(list, want, n + 1, addrs, at)
      ensures if Wanted(list[n].addr, want) then Picked(list, want, n, [list[n].addr] + addrs, [n] + at)
              else Picked(list, want, n, addrs, at)
    {
    }

    static lemma WantedHead(list: seq<Peer>, want: Want, n: nat)
      requires n < |list|
      ensures WantedAddrs(list[n..], want) ==
        (if Wanted(list[n].addr, want) then [list[n].addr] else []) + WantedAddrs(list[n + 1..], want)
    {
      assert list[n..][1..] == list[n + 1..];
    }

    static lemma {:induction false} WantedFrom(list: seq<Peer>, want: Want, n: nat) returns (at: seq<nat>)
      requires n <= |list|
      ensures Picked(list, want, n, WantedAddrs(list[n..], want), at)
      decreases |list| - n
    {
      if n == |list| {
        at := [];
      } else {
        at := WantedFrom(list, want, n + 1);
        WantedHead(list, want, n);
        PickOne(list, want, n, WantedAddrs(list[n + 1..], want), at);
        if Wanted(list[n].addr, want) {
          at := [n] + at;
        }
      }
    }

    /** A lookup gives each listing of a wanted family once, in the order of the list. */
    lemma LookupKeepsOrder(h: Id, want: Want) returns (at: seq<nat>)
      ensures Picked(ListOf(peers, h), want, 0, GetForInfoHash(h, want), at)
    {
      at := WantedFrom(ListOf(peers, h), want, 0);
      assert ListOf(peers, h)[0..] == ListOf(peers, h);
    }

    static predicate Wanted(a: Addr, want: Want) {
      if a.V6? then want == WantV6 || want == WantBoth else want == WantV4 || want == WantBoth
    }
  }
}
