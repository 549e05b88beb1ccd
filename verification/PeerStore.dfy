/**
 The store of announced peers: tokens handed out, peers by info-hash, and a counter of all peers.
 */
module PeerStores {
  import opened Ids
  import opened PeerMaps
  import opened Tokens
  import opened Wrappers

  datatype Config = Config(selfId: Id, maxRememberedTokens: nat, maxRememberedPeers: nat, maxDistance: Id)

  datatype Announce = Announce(id: Id, impliedPort: nat, infoHash: Id, port: nat, token: seq<Byte>)

  datatype Want = WantV4 | WantV6 | WantBoth | WantNone

  datatype Store = Store(tokens: seq<Token>, peers: Peers, peersLen: nat)

  // -- Announcing ------------------------------------------------------------------------------

  function FindPeer(list: seq<Peer>, addr: Addr): (r: Option<nat>)
    ensures r.Some? ==> r.value < |list| && list[r.value].addr == addr
    ensures r.None? ==> forall p :: p in list ==> p.addr != addr
  {
    FindFirst(list, (p: Peer) => p.addr == addr)
  }

  /** Where the peer listens: the sender's address, with the announced port unless that is implied. */
  function PeerAddr(ann: Announce, from: Addr): Addr {
    if ann.impliedPort == 0 then from.(port := ann.port) else from
  }

  predicate CloseEnough(cfg: Config, h: Id) {
    Distance(h, cfg.selfId) <= Num(cfg.maxDistance)
  }

  function ListOf(m: Peers, h: Id): seq<Peer> {
    if h in m then m[h] else []
  }

  function StorePeer(cfg: Config, s: Store, ann: Announce, from: Addr, now: Time): (Store, bool) {
    if !CloseEnough(cfg, ann.infoHash) || !Accepts(s.tokens, ann.token, ann.id, from) then (s, false)
    else
      var addr, list := PeerAddr(ann, from), ListOf(s.peers, ann.infoHash);
      match FindPeer(list, addr)
      case Some(i) => (s.(peers := s.peers[ann.infoHash := list[i := list[i].(time := now)]]), true)
      case None =>
        if s.peersLen >= cfg.maxRememberedPeers then (s, false)
        else
          (s.(peers := s.peers[ann.infoHash := list + [Peer(addr, now)]], peersLen := s.peersLen + 1), true)
  }

  ghost predicate Inv(cfg: Config, s: Store) {
    && s.peersLen == Total(s.peers)
    && ListsOk(s.peers)
    && forall h :: h in s.peers ==> CloseEnough(cfg, h)
  }

  /** Announcing keeps the counter exact and the lists clean, and never goes past the cap. */
  lemma StorePeerKeepsInv(cfg: Config, s: Store, ann: Announce, from: Addr, now: Time)
    requires Inv(cfg, s)
    ensures var t := StorePeer(cfg, s, ann, from, now).0;
      Inv(cfg, t) && (t.peersLen <= s.peersLen || t.peersLen <= cfg.maxRememberedPeers)
  {
    var addr, list, h := PeerAddr(ann, from), ListOf(s.peers, ann.infoHash), ann.infoHash;
    match FindPeer(list, addr)
    case Some(i) => TotalPut(s.peers, h, list[i := list[i].(time := now)]);
    case None => TotalPut(s.peers, h, list + [Peer(addr, now)]);
  }

  ghost predicate Lists(m: Peers, h: Id, addr: Addr) {
    exists p :: p in ListOf(m, h) && p.addr == addr
  }

  /** Some token in the queue was handed out to the announcing node, at the address it announces from. */
  ghost predicate ShowsToken(queue: seq<Token>, ann: Announce, from: Addr) {
    exists k :: 0 <= k < |queue| && queue[k].bytes == ann.token && queue[k].nodeId == ann.id && queue[k].addr == from
  }

  lemma AcceptedIfShown(queue: seq<Token>, ann: Announce, from: Addr)
    ensures Accepts(queue, ann.token, ann.id, from) <==> ShowsToken(queue, ann, from)
  {
    if t :| t in queue && Matches(t, ann.token, ann.id, from) {
      var k :| 0 <= k < |queue| && queue[k] == t;
    }
    if k :| 0 <= k < |queue| && queue[k].bytes == ann.token && queue[k].nodeId == ann.id && queue[k].addr == from {
      assert queue[k] in queue && Matches(queue[k], ann.token, ann.id, from);
    }
  }

  /**
   An announcement is stored exactly when it is close enough, shows a token and either refreshes a
   listed peer or finds room; then that peer is listed as of now and no other peer changes.
   */
  lemma StorePeerStoresIff(cfg: Config, s: Store, ann: Announce, from: Addr, now: Time)
    requires Inv(cfg, s)
    ensures var (t, ok) := StorePeer(cfg, s, ann, from, now);
      var addr := if ann.impliedPort != 0 then from else from.(port := ann.port);
      && (ok <==>
            && Num(Xor(ann.infoHash, cfg.selfId)) <= Num(cfg.maxDistance)
            && ShowsToken(s.tokens, ann, from)
            && (Lists(s.peers, ann.infoHash, addr) || s.peersLen < cfg.maxRememberedPeers))
      && (!ok ==> t == s)
      && (ok ==>
            && t.tokens == s.tokens
            && (forall h :: h != ann.infoHash ==> ListOf(t.peers, h) == ListOf(s.peers, h))
            && forall p :: p in ListOf(t.peers, ann.infoHash)
                 <==> p == Peer(addr, now) || (p.addr != addr && p in ListOf(s.peers, ann.infoHash)))
  {
    AcceptedIfShown(s.tokens, ann, from);
    var addr, list := PeerAddr(ann, from), ListOf(s.peers, ann.infoHash);
    match FindPeer(list, addr)
    case Some(i) =>
      assert list[i] in list;
      var u := list[i := list[i].(time := now)];
      forall p
        ensures p in u <==> p == Peer(addr, now) || (p.addr != addr && p in list)
      {
        assert u[i] == Peer(addr, now);
        if p.addr != addr && p in list {
          var j :| 0 <= j < |list| && list[j] == p;
          assert u[j] == p;
        }
      }
    case None =>
  }

  /**
   With an implied port the peer is listed under the address it announced from, otherwise under that
   address with the announced port.  Peers listed before keep their places.
   */
  lemma StoredUnderAddress(cfg: Config, s: Store, ann: Announce, from: Addr, now: Time)
    requires Inv(cfg, s) && StorePeer(cfg, s, ann, from, now).1
    ensures var t := StorePeer(cfg, s, ann, from, now).0;
      && ann.infoHash in t.peers
      && (ann.impliedPort != 0 ==> Peer(from, now) in t.peers[ann.infoHash])
      && (ann.impliedPort == 0 ==>
            match from
            case V4(ip, _) => Peer(V4(ip, ann.port), now) in t.peers[ann.infoHash]
            case V6(ip, _) => Peer(V6(ip, ann.port), now) in t.peers[ann.infoHash])
      && forall h, i :: h in s.peers && 0 <= i < |s.peers[h]| ==>
           h in t.peers && i < |t.peers[h]| && t.peers[h][i].addr == s.peers[h][i].addr
  {
    StorePeerStoresIff(cfg, s, ann, from, now);
    var list := ListOf(StorePeer(cfg, s, ann, from, now).0.peers, ann.infoHash);
    assert Peer(if ann.impliedPort != 0 then from else from.(port := ann.port), now) in list;
  }

  // -- Collecting ------------------------------------------------------------------------------

  ghost predicate EvictedDownTo(m: Peers, r: Peers, max: nat) {
    exists order: seq<Id>, cut: nat, drop: nat :: EvictedBy(m, r, order, cut, drop, max)
  }

  ghost predicate EvictedBy(m: Peers, r: Peers, order: seq<Id>, cut: nat, drop: nat, max: nat) {
    EvictionOrder(m, order) && CutOk(m, order, cut, drop) && r == CutAt(m, order, cut, drop) && Total(r) == max
  }

  /** What a collection at `now` may turn the store into; the order of hashes with equally old peers is free. */
  ghost predicate Collected(cfg: Config, s: Store, t: Store, now: Time) {
    var m := Swept(s.peers, now - PEER_TTL);
    && t.tokens == Newer(s.tokens, now - TOKEN_TTL)
    && t.peersLen == Total(t.peers)
    && if Total(m) <= cfg.maxRememberedPeers then t.peers == m
       else EvictedDownTo(m, t.peers, cfg.maxRememberedPeers)
  }

  /** A list that survives eviction is what was there, or the newest part of that. */
  lemma SurvivorsOf(m: Peers, r: Peers, max: nat, h: Id)
    requires ListsOk(m) && (r == m || EvictedDownTo(m, r, max)) && h in r
    ensures h in m && r[h] != [] && DistinctAddrs(r[h])
    ensures |r[h]| <= |m[h]| && forall p :: p in r[h] ==> p in m[h]
  {
    if r != m {
      var order: seq<Id>, cut: nat, drop: nat :| EvictedBy(m, r, order, cut, drop, max);
      CutKeepsListsOk(m, order, cut, drop);
    }
  }

  /**
   Per list: distinct peers that were there before, at most a hundred, all within the lifetime, and
   none older than a recent one the per-list limit dropped.
   */
  ghost predicate ListGuarantee(before: seq<Peer>, after: seq<Peer>, cutoff: Time) {
    && after != [] && DistinctAddrs(after)
    && |after| <= MAX_PEERS_PER_INFO_HASH
    && (forall q :: q in after ==> q in before && q.time > cutoff)
    && (forall p, q :: p in before && p.time > cutoff && p !in CleanList(before, cutoff) && q in after ==>
          p.time <= q.time)
  }

  lemma PartOfClean(before: seq<Peer>, after: seq<Peer>, cutoff: Time)
    requires DistinctAddrs(before) && DistinctAddrs(after) && after != []
    requires |after| <= |CleanList(before, cutoff)| && forall p :: p in after ==> p in CleanList(before, cutoff)
    ensures ListGuarantee(before, after, cutoff)
  {
    CleanListKeepsNewest(before, cutoff);
  }

  /** After a collection: the invariant, exactly the excess over the cap gone, and the guarantee for each list. */
  lemma CollectionGuarantees(cfg: Config, s: Store, t: Store, now: Time)
    requires Inv(cfg, s) && Collected(cfg, s, t, now)
    ensures Inv(cfg, t)
    ensures var swept := Total(Swept(s.peers, now - PEER_TTL));
      t.peersLen == if swept > cfg.maxRememberedPeers then cfg.maxRememberedPeers else swept
    ensures forall h :: h in t.peers ==> h in s.peers && ListGuarantee(s.peers[h], t.peers[h], now - PEER_TTL)
  {
    CollectionCount(cfg, s, t, now);
    CollectionLists(cfg, s, t, now);
  }

  lemma CollectionCount(cfg: Config, s: Store, t: Store, now: Time)
    requires Collected(cfg, s, t, now)
    ensures t.peersLen == Total(t.peers)
    ensures var swept := Total(Swept(s.peers, now - PEER_TTL));
      t.peersLen == if swept > cfg.maxRememberedPeers then cfg.maxRememberedPeers else swept
  {
  }

  lemma CollectionLists(cfg: Config, s: Store, t: Store, now: Time)
    requires Inv(cfg, s) && Collected(cfg, s, t, now)
    ensures forall h :: h in t.peers ==> h in s.peers && ListGuarantee(s.peers[h], t.peers[h], now - PEER_TTL)
  {
    var m := Swept(s.peers, now - PEER_TTL);
    SweptIsFixed(s.peers, now - PEER_TTL);
    forall h | h in t.peers
      ensures h in s.peers && ListGuarantee(s.peers[h], t.peers[h], now - PEER_TTL)
    {
      SurvivorsOf(m, t.peers, cfg.maxRememberedPeers, h);
      PartOfClean(s.peers[h], t.peers[h], now - PEER_TTL);
    }
  }

  /** Collecting again at the same time changes nothing. */
  lemma CollectTwice(cfg: Config, s: Store, t: Store, u: Store, now: Time)
    requires Inv(cfg, s) && Collected(cfg, s, t, now) && Collected(cfg, t, u, now)
    ensures u == t
  {
    CollectionGuarantees(cfg, s, t, now);
    NewerTwice(s.tokens, now - TOKEN_TTL, now - TOKEN_TTL);
    forall h | h in t.peers
      ensures CleanList(t.peers[h], now - PEER_TTL) == t.peers[h]
    {
      GuaranteedIsClean(s.peers[h], t.peers[h], now - PEER_TTL);
    }
    CleanStoreIsFixed(cfg, t, u, now);
  }

  lemma CleanStoreIsFixed(cfg: Config, t: Store, u: Store, now: Time)
    requires Collected(cfg, t, u, now) && t.peersLen == Total(t.peers) <= cfg.maxRememberedPeers
    requires Newer(t.tokens, now - TOKEN_TTL) == t.tokens
    requires forall h :: h in t.peers ==> t.peers[h] != [] && CleanList(t.peers[h], now - PEER_TTL) == t.peers[h]
    ensures u == t
  {
    CleanListsStay(t.peers, now - PEER_TTL);
  }

  lemma GuaranteedIsClean(before: seq<Peer>, after: seq<Peer>, cutoff: Time)
    requires ListGuarantee(before, after, cutoff)
    ensures CleanList(after, cutoff) == after
  {
    CleanAgain(after, cutoff);
  }

  // -- Runs ------------------------------------------------------------------------------------

  datatype Op =
    | StoreAnnounce(ann: Announce, from: Addr, now: Time)
    | HandOut(token: Token)
    | Collect(now: Time)
    | Restart(dump: Store, maxTokens: nat, maxPeers: nat)

  /** A reload takes everything from the dump, and counts the peers afresh. */
  ghost predicate Step(cfg: Config, s: Store, op: Op, cfg': Config, t: Store) {
    match op
    case StoreAnnounce(ann, from, now) => cfg' == cfg && t == StorePeer(cfg, s, ann, from, now).0
    case HandOut(token) => cfg' == cfg && t == s.(tokens := Push(s.tokens, token, cfg.maxRememberedTokens))
    case Collect(now) => cfg' == cfg && Collected(cfg, s, t, now)
    case Restart(dump, maxTokens, maxPeers) =>
      && cfg' == cfg.(maxRememberedTokens := maxTokens, maxRememberedPeers := maxPeers)
      && t == Store(dump.tokens, dump.peers, Total(dump.peers))
  }

  ghost predicate StepAt(configs: seq<Config>, states: seq<Store>, ops: seq<Op>, n: nat)
    requires |states| == |configs| == |ops| + 1 && n < |ops|
  {
    Step(configs[n], states[n], ops[n], configs[n + 1], states[n + 1])
  }

  /** A run from any state. */
  ghost predicate IsRunFrom(configs: seq<Config>, states: seq<Store>, ops: seq<Op>) {
    |states| == |configs| == |ops| + 1 && forall n :: 0 <= n < |ops| ==> StepAt(configs, states, ops, n)
  }

  /** A dump was written at some point of the run, not necessarily the latest. */
  ghost predicate DumpIsEarlier(states: seq<Store>, ops: seq<Op>, n: nat)
    requires n < |ops| < |states|
  {
    ops[n].Restart? ==> exists k :: 0 <= k <= n && ops[n].dump == states[k]
  }

  ghost predicate IsRun(configs: seq<Config>, states: seq<Store>, ops: seq<Op>) {
    && IsRunFrom(configs, states, ops)
    && states[0] == Store([], map[], 0)
    && forall n :: 0 <= n < |ops| ==> DumpIsEarlier(states, ops, n)
  }

  lemma RunPrefix(configs: seq<Config>, states: seq<Store>, ops: seq<Op>, n: nat)
    requires IsRunFrom(configs, states, ops) && n < |ops|
    ensures IsRunFrom(configs[..n + 1], states[..n + 1], ops[..n])
    ensures Step(configs[n], states[n], ops[n], configs[n + 1], states[n + 1])
  {
    assert StepAt(configs, states, ops, n);
    var cs, ss, os := configs[..n + 1], states[..n + 1], ops[..n];
    forall k | 0 <= k < n
      ensures StepAt(cs, ss, os, k)
    {
      assert StepAt(configs, states, ops, k);
    }
  }

  ghost predicate SameReach(cfg: Config, cfg': Config) {
    cfg'.selfId == cfg.selfId && cfg'.maxDistance == cfg.maxDistance
  }

  lemma {:induction false} ReachStays(configs: seq<Config>, states: seq<Store>, ops: seq<Op>, m: nat)
    requires IsRunFrom(configs, states, ops) && m <= |ops|
    ensures SameReach(configs[0], configs[m])
  {
    if m > 0 {
      ReachStays(configs, states, ops, m - 1);
      assert StepAt(configs, states, ops, m - 1);
    }
  }

  lemma InvUnderOther(cfg: Config, cfg': Config, s: Store)
    requires Inv(cfg, s) && SameReach(cfg, cfg')
    ensures Inv(cfg', s)
  {
    assert forall h :: CloseEnough(cfg, h) == CloseEnough(cfg', h);
  }

  lemma StepKeepsInv(cfg: Config, s: Store, op: Op, cfg': Config, t: Store)
    requires Step(cfg, s, op, cfg', t) && Inv(cfg, s)
    requires op.Restart? ==> Inv(cfg, op.dump)
    ensures Inv(cfg', t)
  {
    match op
    case StoreAnnounce(ann, from, now) => StorePeerKeepsInv(cfg, s, ann, from, now);
    case HandOut(_) =>
    case Collect(now) => CollectionGuarantees(cfg, s, t, now);
    case Restart(_, _, _) => InvUnderOther(cfg, cfg', t);
  }

  ghost predicate AllInv(configs: seq<Config>, states: seq<Store>, m: nat)
    requires m < |configs| == |states|
  {
    forall n :: 0 <= n <= m ==> InvAt(configs, states, n)
  }

  ghost predicate InvAt(configs: seq<Config>, states: seq<Store>, n: nat)
    requires n < |configs| == |states|
  {
    Inv(configs[n], states[n])
  }

  /** A dump from earlier in the run is in order wherever it is loaded. */
  lemma DumpIsOk(configs: seq<Config>, states: seq<Store>, ops: seq<Op>, n: nat)
    requires IsRun(configs, states, ops) && n < |ops| && AllInv(configs, states, n)
    ensures ops[n].Restart? ==> Inv(configs[n], ops[n].dump)
  {
    assert DumpIsEarlier(states, ops, n);
    if ops[n].Restart? {
      var k: nat :| k <= n && ops[n].dump == states[k];
      assert InvAt(configs, states, k);
      ReachStays(configs, states, ops, k);
      ReachStays(configs, states, ops, n);
      InvUnderOther(configs[k], configs[n], states[k]);
    }
  }

  lemma {:induction false} InvUpTo(configs: seq<Config>, states: seq<Store>, ops: seq<Op>, m: nat)
    requires IsRun(configs, states, ops) && m <= |ops|
    ensures AllInv(configs, states, m)
  {
    if m > 0 {
      InvUpTo(configs, states, ops, m - 1);
      InvNext(configs, states, ops, m - 1);
    }
  }

  lemma InvNext(configs: seq<Config>, states: seq<Store>, ops: seq<Op>, n: nat)
    requires IsRun(configs, states, ops) && n < |ops| && AllInv(configs, states, n)
    ensures InvAt(configs, states, n + 1)
  {
    DumpIsOk(configs, states, ops, n);
    assert InvAt(configs, states, n) && StepAt(configs, states, ops, n);
    StepKeepsInv(configs[n], states[n], ops[n], configs[n + 1], states[n + 1]);
  }

  /** Over every run the counter is the sum of the list lengths and every list is in order. */
  lemma RunKeepsInv(configs: seq<Config>, states: seq<Store>, ops: seq<Op>)
    requires IsRun(configs, states, ops)
    ensures forall n :: 0 <= n <= |ops| ==> Inv(configs[n], states[n])
  {
    InvUpTo(configs, states, ops, |ops|);
    forall n | 0 <= n <= |ops|
      ensures Inv(configs[n], states[n])
    {
      assert InvAt(configs, states, n);
    }
  }

  // -- Limits over runs ------------------------------------------------------------------------

  ghost predicate WithinLimits(cfg: Config, s: Store) {
    s.peersLen <= cfg.maxRememberedPeers && |s.tokens| <= cfg.maxRememberedTokens
  }

  /** The operation does not reload a dump under limits it exceeds. */
  ghost predicate LimitsFit(op: Op) {
    op.Restart? ==> op.dump.peersLen <= op.maxPeers && |op.dump.tokens| <= op.maxTokens
  }

  lemma StepKeepsLimitsIff(cfg: Config, s: Store, op: Op, cfg': Config, t: Store)
    requires Inv(cfg, s) && WithinLimits(cfg, s) && Step(cfg, s, op, cfg', t)
    requires op.Restart? ==> Inv(cfg, op.dump)
    ensures WithinLimits(cfg', t) <==> LimitsFit(op)
  {
    match op
    case StoreAnnounce(ann, from, now) => StorePeerKeepsInv(cfg, s, ann, from, now);
    case HandOut(_) =>
    case Collect(now) => CollectionGuarantees(cfg, s, t, now);
    case Restart(_, _, _) =>
  }

  lemma {:induction false} LimitsKept(configs: seq<Config>, states: seq<Store>, ops: seq<Op>, m: nat)
    requires IsRun(configs, states, ops) && m <= |ops|
    requires forall n :: 0 <= n < m ==> LimitsFit(ops[n])
    ensures WithinLimits(configs[m], states[m])
  {
    if m > 0 {
      LimitsKept(configs, states, ops, m - 1);
      InvUpTo(configs, states, ops, m - 1);
      DumpIsOk(configs, states, ops, m - 1);
      assert InvAt(configs, states, m - 1) && StepAt(configs, states, ops, m - 1);
      StepKeepsLimitsIff(configs[m - 1], states[m - 1], ops[m - 1], configs[m], states[m]);
    }
  }

  /** The store stays within its limits over a run exactly when no reload lowers one below what is stored. */
  lemma RunKeepsLimitsIff(configs: seq<Config>, states: seq<Store>, ops: seq<Op>)
    requires IsRun(configs, states, ops)
    ensures (forall n :: 0 <= n <= |ops| ==> WithinLimits(configs[n], states[n]))
      <==> forall n :: 0 <= n < |ops| ==> LimitsFit(ops[n])
  {
    if forall n :: 0 <= n < |ops| ==> LimitsFit(ops[n]) {
      forall n | 0 <= n <= |ops|
        ensures WithinLimits(configs[n], states[n])
      {
        LimitsKept(configs, states, ops, n);
      }
    }
    if forall n :: 0 <= n <= |ops| ==> WithinLimits(configs[n], states[n]) {
      forall n | 0 <= n < |ops|
        ensures LimitsFit(ops[n])
      {
        InvUpTo(configs, states, ops, n);
        DumpIsOk(configs, states, ops, n);
        assert InvAt(configs, states, n) && StepAt(configs, states, ops, n);
        StepKeepsLimitsIff(configs[n], states[n], ops[n], configs[n + 1], states[n + 1]);
      }
    }
  }

  /** A store within its limit has nothing to evict: a collection only sweeps it. */
  lemma WithinLimitOnlySweeps(cfg: Config, s: Store, t: Store, now: Time)
    requires Inv(cfg, s) && s.peersLen <= cfg.maxRememberedPeers && Collected(cfg, s, t, now)
    ensures t.peers == Swept(s.peers, now - PEER_TTL)
  {
    SweepShrinks(s.peers, now - PEER_TTL);
  }

  // -- What a collection keeps -----------------------------------------------------------------

  /** A hundred other peers of the list, under different addresses and none older than `p`. */
  ghost predicate HundredNoOlder(list: seq<Peer>, p: Peer) {
    exists others: seq<Peer> ::
      && |others| == 100 && DistinctAddrs(others)
      && forall q :: q in others ==> q in list && q != p && q.time >= p.time
  }

  lemma CleanKeepsRecent(list: seq<Peer>, cutoff: Time, p: Peer)
    requires DistinctAddrs(list) && p in list && p.time > cutoff
    ensures p in CleanList(list, cutoff) || HundredNoOlder(list, p)
  {
    var r := CleanList(list, cutoff);
    CleanListKeepsNewest(list, cutoff);
    FilterMembers(list, IsRecent(cutoff));
    if p !in r {
      assert |r| == 100;
    }
  }

  /**
   A peer seen within the last 15 minutes survives a collection unless a hundred peers of its list are
   no older, or the cap was exceeded and the collection ends right at it.
   */
  lemma RecentPeersSurvive(cfg: Config, s: Store, t: Store, now: Time, h: Id, p: Peer)
    requires Inv(cfg, s) && Collected(cfg, s, t, now)
    requires h in s.peers && p in s.peers[h] && p.time > now - 900 * SECOND
    ensures
      || (h in t.peers && p in t.peers[h])
      || HundredNoOlder(s.peers[h], p)
      || (s.peersLen > cfg.maxRememberedPeers && t.peersLen == cfg.maxRememberedPeers)
  {
    SweepShrinks(s.peers, now - PEER_TTL);
    CollectionCount(cfg, s, t, now);
    CleanKeepsRecent(s.peers[h], now - PEER_TTL, p);
  }

  /** What stays is peers seen within the last 15 minutes, at most a hundred a list, and tokens of the last 10. */
  lemma OldOnesGo(cfg: Config, s: Store, t: Store, now: Time)
    requires Inv(cfg, s) && Collected(cfg, s, t, now)
    ensures forall h :: h in t.peers ==>
      h in s.peers && 0 < |t.peers[h]| <= 100
      && forall p :: p in t.peers[h] ==> p in s.peers[h] && p.time > now - 900 * SECOND
    ensures forall k :: k in t.tokens <==> k in s.tokens && k.time > now - 600 * SECOND
  {
    CollectionLists(cfg, s, t, now);
    FilterMembers(s.tokens, IsAfter(now - TOKEN_TTL));
  }

  // -- Tokens over runs ------------------------------------------------------------------------

  lemma {:induction false} TokensWereHandedOut(
    configs: seq<Config>, states: seq<Store>, ops: seq<Op>, t: Token, m: nat)
    requires IsRun(configs, states, ops) && m <= |ops| && t in states[m].tokens
    ensures HandOut(t) in ops
    decreases m
  {
    var n := m - 1;
    assert StepAt(configs, states, ops, n) && DumpIsEarlier(states, ops, n);
    if t in states[n].tokens {
      TokensWereHandedOut(configs, states, ops, t, n);
    } else if ops[n].Restart? {
      var k: nat :| k <= n && ops[n].dump == states[k];
      TokensWereHandedOut(configs, states, ops, t, k);
    } else {
      NewTokenIsHandedOut(configs[n], states[n], ops[n], configs[n + 1], states[m], t);
      assert ops[n] in ops;
    }
  }

  lemma NewTokenIsHandedOut(cfg: Config, s: Store, op: Op, cfg': Config, u: Store, t: Token)
    requires Step(cfg, s, op, cfg', u) && !op.Restart? && t in u.tokens && t !in s.tokens
    ensures op == HandOut(t)
  {
    match op
    case Collect(now) => FilterMembers(s.tokens, IsAfter(now - TOKEN_TTL));
    case _ =>
  }

  /**
   Over every run, with reloads and whatever the clock does, an announcement that is stored shows a
   token that was handed out to that node at that address.
   */
  lemma StoredWasHandedOut(
    configs: seq<Config>, states: seq<Store>, ops: seq<Op>, ann: Announce, from: Addr, now: Time)
    requires IsRun(configs, states, ops) && StorePeer(configs[|ops|], states[|ops|], ann, from, now).1
    ensures exists t :: HandOut(t) in ops && Matches(t, ann.token, ann.id, from)
  {
    var t :| t in states[|ops|].tokens && Matches(t, ann.token, ann.id, from);
    TokensWereHandedOut(configs, states, ops, t, |ops|);
  }

  /** Tokens found in a dump count as handed out when it is read. */
  function Loaded(tokens: seq<Token>): seq<TokenOp> {
    if tokens == [] then [] else Loaded(tokens[..|tokens| - 1]) + [Gen(tokens[|tokens| - 1])]
  }

  lemma {:induction false} LoadedQueue(tokens: seq<Token>, limit: nat)
    requires |tokens| <= limit
    ensures Queue(Loaded(tokens), limit) == tokens
  {
    if tokens != [] {
      var before := tokens[..|tokens| - 1];
      LoadedQueue(before, limit);
      assert Loaded(tokens)[..|Loaded(before)|] == Loaded(before);
    }
  }

  /** The token operations of a run that starts with the given tokens. */
  function TokenOps(tokens: seq<Token>, ops: seq<Op>): seq<TokenOp> {
    if ops == [] then Loaded(tokens)
    else
      var before := TokenOps(tokens, ops[..|ops| - 1]);
      match ops[|ops| - 1]
      case HandOut(token) => before + [Gen(token)]
      case Collect(now) => before + [Clean(now)]
      case _ => before
  }

  lemma TokensAfter(cfg: Config, s: Store, op: Op, cfg': Config, t: Store, tokens: seq<Token>, before: seq<Op>)
    requires Step(cfg, s, op, cfg', t) && !op.Restart?
    requires s.tokens == Queue(TokenOps(tokens, before), cfg.maxRememberedTokens)
    ensures cfg' == cfg && t.tokens == Queue(TokenOps(tokens, before + [op]), cfg.maxRememberedTokens)
  {
    TokenOpsAfter(tokens, before, op);
    match op
    case HandOut(token) => QueueAfter(TokenOps(tokens, before), Gen(token), cfg.maxRememberedTokens);
    case Collect(now) => QueueAfter(TokenOps(tokens, before), Clean(now), cfg.maxRememberedTokens);
    case _ =>
  }

  lemma TokenOpsAfter(tokens: seq<Token>, before: seq<Op>, op: Op)
    ensures op.HandOut? ==> TokenOps(tokens, before + [op]) == TokenOps(tokens, before) + [Gen(op.token)]
    ensures op.Collect? ==> TokenOps(tokens, before + [op]) == TokenOps(tokens, before) + [Clean(op.now)]
    ensures !op.HandOut? && !op.Collect? ==> TokenOps(tokens, before + [op]) == TokenOps(tokens, before)
  {
    assert (before + [op])[..|before|] == before;
  }

  lemma {:induction false} TokensOfRun(configs: seq<Config>, states: seq<Store>, ops: seq<Op>)
    requires IsRunFrom(configs, states, ops) && forall op :: op in ops ==> !op.Restart?
    requires |states[0].tokens| <= configs[0].maxRememberedTokens
    ensures configs[|ops|] == configs[0]
    ensures states[|ops|].tokens == Queue(TokenOps(states[0].tokens, ops), configs[0].maxRememberedTokens)
  {
    if ops == [] {
      LoadedQueue(states[0].tokens, configs[0].maxRememberedTokens);
    } else {
      var n := |ops| - 1;
      RunPrefix(configs, states, ops, n);
      assert ops == ops[..n] + [ops[n]] && ops[n] in ops;
      TokensOfRun(configs[..n + 1], states[..n + 1], ops[..n]);
      TokensAfter(configs[n], states[n], ops[n], configs[n + 1], states[n + 1], states[0].tokens, ops[..n]);
    }
  }

  /**
   Between reloads, from any tokens within the limit and under a clock that never goes back, an
   announcement that is stored shows a token of that node at that address that was loaded or handed
   out and is neither pushed out since nor collected.
   */
  lemma StoredIsBacked(
    configs: seq<Config>, states: seq<Store>, ops: seq<Op>, ann: Announce, from: Addr, now: Time)
    requires IsRunFrom(configs, states, ops) && forall op :: op in ops ==> !op.Restart?
    requires |states[0].tokens| <= configs[0].maxRememberedTokens
    requires ClockNeverGoesBack(TokenOps(states[0].tokens, ops))
    requires StorePeer(configs[|ops|], states[|ops|], ann, from, now).1
    ensures exists i: nat ::
      Backs(TokenOps(states[0].tokens, ops), configs[0].maxRememberedTokens, i, ann.token, ann.id, from)
  {
    TokensOfRun(configs, states, ops);
    AcceptedIsBacked(
      TokenOps(states[0].tokens, ops), configs[0].maxRememberedTokens, ann.token, ann.id, from);
  }
}
