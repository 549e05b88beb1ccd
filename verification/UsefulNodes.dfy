/**
 The ranked, size-limited list of nodes a recursive lookup has asked.

 The list decides whether a node found in a reply is worth a request.  `Ask` is that decision as a
 function of the list; the class updates the list in place.
 */
module UsefulNodes {
  import opened Ids
  import opened Sorting
  import opened Wrappers

  const ASK_AGAIN_AFTER: nat := 60 * SECOND

  datatype Useful = Useful(
    id: Id,
    addr: Addr,
    lastRequest: Instant,
    lastResponse: Option<Instant>,
    errorsInARow: nat,
    returnedPeers: bool)

  datatype Event =
    | Asked(id: Id, addr: Addr, depth: nat, now: Instant)
    | Responded(addr: Addr, now: Instant, withPeers: bool)
    | Failed(addr: Addr)

  /** What one lookup fixes: how deep it goes, how many nodes it remembers and what it looks for. */
  datatype Config = Config(maxDepth: nat, limit: nat, infoHash: Id)

  // -- Ranking ---------------------------------------------------------------------------------

  /** No response counts as the longest possible time since one. */
  predicate FresherOrSame(a: Useful, b: Useful, now: Instant) {
    b.lastResponse.None?
    || (a.lastResponse.Some? && Since(now, a.lastResponse.value) <= Since(now, b.lastResponse.value))
  }

  /** Nodes that returned peers first, then nodes that responded, then closer ones, then fresher ones. */
  function ByUse(infoHash: Id, now: Instant): (Useful, Useful) -> bool {
    (a: Useful, b: Useful) =>
      if a.returnedPeers != b.returnedPeers then a.returnedPeers
      else if a.lastResponse.Some? != b.lastResponse.Some? then a.lastResponse.Some?
      else if Distance(infoHash, a.id) != Distance(infoHash, b.id) then
        Distance(infoHash, a.id) < Distance(infoHash, b.id)
      else FresherOrSame(a, b, now)
  }

  ghost predicate DistinctIds(nodes: seq<Useful>) {
    forall i, j :: 0 <= i < j < |nodes| ==> nodes[i].id != nodes[j].id
  }

  lemma ByUseIsPreorder(infoHash: Id, now: Instant)
    ensures TotalPreorder(ByUse(infoHash, now))
  {
  }

  /** Distance settles every tie between different nodes. */
  lemma SortByUse(nodes: seq<Useful>, infoHash: Id, now: Instant)
    requires DistinctIds(nodes)
    ensures var sorted := StableSort(nodes, ByUse(infoHash, now));
      StrictlySortedBy(sorted, ByUse(infoHash, now)) && SameMembers(sorted, nodes) && DistinctIds(sorted)
  {
    var le := ByUse(infoHash, now);
    forall a, b | a in nodes && b in nodes && le(a, b) && le(b, a)
      ensures a == b
    {
      DistanceInjective(infoHash, a.id, b.id);
    }
    ByUseIsPreorder(infoHash, now);
    SortStrictly(nodes, le);
    SortKeepsMembers(nodes, le);
    var sorted := StableSort(nodes, le);
    forall i, j | 0 <= i < j < |sorted|
      ensures sorted[i].id != sorted[j].id
    {
      assert sorted[i] in nodes && sorted[j] in nodes && sorted[i] != sorted[j];
    }
  }

  // -- The decision ----------------------------------------------------------------------------

  function FindById(nodes: seq<Useful>, id: Id): (r: Option<nat>)
    ensures r.Some? ==> r.value < |nodes| && nodes[r.value].id == id
    ensures r.None? ==> forall n :: n in nodes ==> n.id != id
  {
    FindFirst(nodes, (n: Useful) => n.id == id)
  }

  /** The first node with this address. */
  function FindByAddr(nodes: seq<Useful>, addr: Addr): (r: Option<nat>)
    ensures r.Some? ==>
      && r.value < |nodes| && nodes[r.value].addr == addr
      && forall i :: 0 <= i < r.value ==> nodes[i].addr != addr
    ensures r.None? ==> forall n :: n in nodes ==> n.addr != addr
  {
    FindFirst(nodes, (n: Useful) => n.addr == addr)
  }

  function NewUseful(id: Id, addr: Addr, now: Instant): Useful {
    Useful(id, addr, now, None, 0, false)
  }

  /** The list afterwards, and whether the node should be asked. */
  function Ask(cfg: Config, nodes: seq<Useful>, id: Id, addr: Addr, depth: nat, now: Instant): (seq<Useful>, bool) {
    if depth >= cfg.maxDepth then (nodes, false)
    else
      match FindById(nodes, id)
      case Some(i) =>
        if Since(now, nodes[i].lastRequest) > ASK_AGAIN_AFTER then
          (nodes[i := nodes[i].(lastRequest := now)], true)
        else (nodes, false)
      case None =>
        var sorted := StableSort(nodes + [NewUseful(id, addr, now)], ByUse(cfg.infoHash, now));
        if |sorted| > cfg.limit then (sorted[..|sorted| - 1], sorted[|sorted| - 1].id != id) else (sorted, true)
  }

  function Apply(cfg: Config, nodes: seq<Useful>, e: Event): seq<Useful> {
    match e
    case Asked(id, addr, depth, now) => Ask(cfg, nodes, id, addr, depth, now).0
    case Responded(addr, now, withPeers) =>
      (match FindByAddr(nodes, addr)
       case Some(i) =>
         nodes[i := nodes[i].(lastResponse := Some(now), errorsInARow := 0, returnedPeers := withPeers)]
       case None => nodes)
    case Failed(addr) =>
      (match FindByAddr(nodes, addr)
       case Some(i) => nodes[i := nodes[i].(errorsInARow := nodes[i].errorsInARow + 1)]
       case None => nodes)
  }

  ghost predicate Ok(cfg: Config, nodes: seq<Useful>) {
    DistinctIds(nodes) && |nodes| <= cfg.limit
  }

  lemma ApplyKeepsOk(cfg: Config, nodes: seq<Useful>, e: Event)
    requires Ok(cfg, nodes)
    ensures Ok(cfg, Apply(cfg, nodes, e))
  {
    if e.Asked? && e.depth < cfg.maxDepth && FindById(nodes, e.id).None? {
      AskNewKeepsOk(cfg, nodes, e.id, e.addr, e.depth, e.now);
    } else {
      UpdateKeepsDistinct(nodes, Apply(cfg, nodes, e));
    }
  }

  lemma AskNewKeepsOk(cfg: Config, nodes: seq<Useful>, id: Id, addr: Addr, depth: nat, now: Instant)
    requires Ok(cfg, nodes) && depth < cfg.maxDepth && FindById(nodes, id).None?
    ensures Ok(cfg, Ask(cfg, nodes, id, addr, depth, now).0)
  {
    NewcomerIsDistinct(nodes, id, addr, now);
    SortByUse(nodes + [NewUseful(id, addr, now)], cfg.infoHash, now);
  }

  lemma UpdateKeepsDistinct(nodes: seq<Useful>, after: seq<Useful>)
    requires DistinctIds(nodes) && |after| == |nodes|
    requires forall i :: 0 <= i < |nodes| ==> after[i].id == nodes[i].id
    ensures DistinctIds(after)
  {
  }

  lemma NewcomerIsDistinct(nodes: seq<Useful>, id: Id, addr: Addr, now: Instant)
    requires DistinctIds(nodes) && FindById(nodes, id).None?
    ensures DistinctIds(nodes + [NewUseful(id, addr, now)])
  {
  }

  /** `kept` is the best of `all`, at most `limit` of them, in strict order. */
  ghost predicate BestOf(kept: seq<Useful>, all: seq<Useful>, le: (Useful, Useful) -> bool, limit: nat) {
    && |kept| == (if |all| <= limit then |all| else limit)
    && StrictlySortedBy(kept, le)
    && (forall n :: n in kept ==> n in all)
    && (forall n, m :: n in all && n !in kept && m in kept ==> le(m, n) && !le(n, m))
  }

  /**
   A node not listed yet: the list becomes the best `limit` of the old nodes and the new one, in
   strict order, and the answer is whether the new one is among them.
   */
  lemma AskKeepsTheBest(cfg: Config, nodes: seq<Useful>, id: Id, addr: Addr, depth: nat, now: Instant)
    requires Ok(cfg, nodes) && depth < cfg.maxDepth && FindById(nodes, id).None?
    ensures var (kept, answer) := Ask(cfg, nodes, id, addr, depth, now);
      && BestOf(kept, nodes + [NewUseful(id, addr, now)], ByUse(cfg.infoHash, now), cfg.limit)
      && (answer <==> NewUseful(id, addr, now) in kept)
  {
    var all := nodes + [NewUseful(id, addr, now)];
    NewcomerIsDistinct(nodes, id, addr, now);
    SortByUse(all, cfg.infoHash, now);
    TrimKeepsBest(StableSort(all, ByUse(cfg.infoHash, now)), all, ByUse(cfg.infoHash, now), cfg.limit, all[|nodes|]);
  }

  lemma TrimKeepsBest(
    sorted: seq<Useful>, all: seq<Useful>, le: (Useful, Useful) -> bool, limit: nat, newcomer: Useful)
    requires StrictlySortedBy(sorted, le) && SameMembers(sorted, all) && |sorted| == |all| <= limit + 1
    requires newcomer in all && forall n :: n in all && n.id == newcomer.id ==> n == newcomer
    ensures var kept := if |sorted| > limit then sorted[..|sorted| - 1] else sorted;
      && BestOf(kept, all, le, limit)
      && (newcomer in kept <==> |sorted| <= limit || sorted[|sorted| - 1].id != newcomer.id)
  {
    if |sorted| > limit {
      WithoutLast(sorted, all, le);
    }
  }

  lemma WithoutLast(sorted: seq<Useful>, all: seq<Useful>, le: (Useful, Useful) -> bool)
    requires sorted != [] && StrictlySortedBy(sorted, le) && SameMembers(sorted, all)
    ensures var (kept, last) := (sorted[..|sorted| - 1], sorted[|sorted| - 1]);
      && last in all && last !in kept
      && (forall n :: n in kept <==> n in all && n != last)
      && (forall m :: m in kept ==> le(m, last) && !le(last, m))
  {
    var kept, last := sorted[..|sorted| - 1], sorted[|sorted| - 1];
    assert sorted == kept + [last];
    assert last in sorted;
    forall m | m in kept
      ensures le(m, last) && !le(last, m)
    {
      var i :| 0 <= i < |kept| && kept[i] == m;
    }
    forall n
      ensures n in kept <==> n in all && n != last
    {
      assert n in all <==> n in sorted;
      assert last in kept ==> !le(last, last) && le(last, last);
    }
  }

  /** A listed node is asked again exactly when its last request was more than a minute ago. */
  lemma ListedIsAskedAfterAMinute(cfg: Config, nodes: seq<Useful>, i: nat, addr: Addr, depth: nat, now: Instant)
    requires Ok(cfg, nodes) && i < |nodes|
    ensures var (after, yes) := Ask(cfg, nodes, nodes[i].id, addr, depth, now);
      && (yes <==> depth < cfg.maxDepth && Since(now, nodes[i].lastRequest) > 60 * SECOND)
      && after == if yes then nodes[i := nodes[i].(lastRequest := now)] else nodes
  {
    assert nodes[i] in nodes;
    var j := FindById(nodes, nodes[i].id).value;
    assert j == i;
  }

  /** At the depth bound no node is asked and nothing is noted. */
  lemma NothingAtTheBound(cfg: Config, nodes: seq<Useful>, id: Id, addr: Addr, depth: nat, now: Instant)
    ensures depth >= cfg.maxDepth ==> Ask(cfg, nodes, id, addr, depth, now) == (nodes, false)
  {
  }

  /** `a` returned peers, responded or is closer before `b`, in this order of importance. */
  predicate MoreUseful(cfg: Config, a: Useful, b: Useful) {
    if a.returnedPeers != b.returnedPeers then a.returnedPeers
    else if a.lastResponse != b.lastResponse && (a.lastResponse.None? || b.lastResponse.None?) then b.lastResponse.None?
    else Num(Xor(cfg.infoHash, a.id)) < Num(Xor(cfg.infoHash, b.id))
  }

  /**
   A node that is not listed enters as asked now and never answered, and the list that it enters, or
   is refused by, is ordered by use.
   */
  lemma NewcomerIsOrdered(cfg: Config, nodes: seq<Useful>, id: Id, addr: Addr, depth: nat, now: Instant)
    requires Ok(cfg, nodes) && depth < cfg.maxDepth && forall n :: n in nodes ==> n.id != id
    ensures var (after, yes) := Ask(cfg, nodes, id, addr, depth, now);
      && (forall i, j :: 0 <= i < j < |after| ==> MoreUseful(cfg, after[i], after[j]))
      && (yes <==> Useful(id, addr, now, None, 0, false) in after)
      && (|nodes| < cfg.limit ==> yes)
  {
    AskKeepsTheBest(cfg, nodes, id, addr, depth, now);
    AskNewKeepsOk(cfg, nodes, id, addr, depth, now);
    var after := Ask(cfg, nodes, id, addr, depth, now).0;
    forall i, j | 0 <= i < j < |after|
      ensures MoreUseful(cfg, after[i], after[j])
    {
      StrictlyMoreUseful(cfg, after[i], after[j], now);
    }
  }

  lemma StrictlyMoreUseful(cfg: Config, a: Useful, b: Useful, now: Instant)
    requires ByUse(cfg.infoHash, now)(a, b) && !ByUse(cfg.infoHash, now)(b, a) && a.id != b.id
    ensures MoreUseful(cfg, a, b)
  {
    if Distance(cfg.infoHash, a.id) == Distance(cfg.infoHash, b.id) {
      DistanceInjective(cfg.infoHash, a.id, b.id);
    }
  }

  /** `after` differs from `nodes` only in the first node with the address, which becomes `changed` of it. */
  ghost predicate FirstWith(nodes: seq<Useful>, after: seq<Useful>, addr: Addr, changed: Useful -> Useful) {
    && |after| == |nodes|
    && forall i :: 0 <= i < |nodes| ==>
         after[i] ==
           if nodes[i].addr == addr && forall j :: 0 <= j < i ==> nodes[j].addr != addr then changed(nodes[i])
           else nodes[i]
  }

  /** A response is noted with its time, ends the run of errors and says whether it brought peers. */
  lemma ResponseIsNoted(cfg: Config, nodes: seq<Useful>, addr: Addr, at: Instant, withPeers: bool)
    ensures FirstWith(nodes, Apply(cfg, nodes, Responded(addr, at, withPeers)), addr,
      (n: Useful) => Useful(n.id, n.addr, n.lastRequest, Some(at), 0, withPeers))
  {
  }

  /** A failure is one more error of that node and changes nothing else. */
  lemma FailureIsNoted(cfg: Config, nodes: seq<Useful>, addr: Addr)
    ensures FirstWith(nodes, Apply(cfg, nodes, Failed(addr)), addr,
      (n: Useful) => Useful(n.id, n.addr, n.lastRequest, n.lastResponse, n.errorsInARow + 1, n.returnedPeers))
  {
  }

  function LastRequest(nodes: seq<Useful>, id: Id): Option<Instant> {
    match FindById(nodes, id)
    case Some(i) => Some(nodes[i].lastRequest)
    case None => None
  }

  lemma LastRequestIs(nodes: seq<Useful>, n: Useful)
    requires DistinctIds(nodes) && n in nodes
    ensures LastRequest(nodes, n.id) == Some(n.lastRequest)
  {
  }

  predicate AnsweredYes(cfg: Config, nodes: seq<Useful>, e: Event, id: Id) {
    e.Asked? && e.id == id && Ask(cfg, nodes, id, e.addr, e.depth, e.now).1
  }

  /** Yes means the node is now listed as asked just now; a listed node gets a yes only after a minute. */
  lemma YesIsRecorded(cfg: Config, nodes: seq<Useful>, e: Event, id: Id)
    requires Ok(cfg, nodes) && AnsweredYes(cfg, nodes, e, id)
    ensures LastRequest(Apply(cfg, nodes, e), id) == Some(e.now)
    ensures match LastRequest(nodes, id)
      case Some(t) => Since(e.now, t) > ASK_AGAIN_AFTER
      case None => true
  {
    ApplyKeepsOk(cfg, nodes, e);
    match FindById(nodes, id)
    case Some(i) =>
      var after := Apply(cfg, nodes, e);
      assert after[i] in after;
      LastRequestIs(after, after[i]);
    case None =>
      AskKeepsTheBest(cfg, nodes, id, e.addr, e.depth, e.now);
      LastRequestIs(Apply(cfg, nodes, e), NewUseful(id, e.addr, e.now));
  }

  lemma NewcomerMovesNothing(cfg: Config, nodes: seq<Useful>, e: Event, n: Useful)
    requires Ok(cfg, nodes) && e.Asked? && e.depth < cfg.maxDepth && FindById(nodes, e.id).None?
    requires n in Apply(cfg, nodes, e) && n.id != e.id
    ensures n in nodes
  {
    AskKeepsTheBest(cfg, nodes, e.id, e.addr, e.depth, e.now);
    assert n in nodes + [NewUseful(e.id, e.addr, e.now)];
  }

  /** While a node stays listed, only a yes for it changes when it was last asked. */
  lemma OnlyYesMovesLastRequest(cfg: Config, nodes: seq<Useful>, e: Event, id: Id)
    requires Ok(cfg, nodes) && !AnsweredYes(cfg, nodes, e, id)
    requires LastRequest(nodes, id).Some? && LastRequest(Apply(cfg, nodes, e), id).Some?
    ensures LastRequest(Apply(cfg, nodes, e), id) == LastRequest(nodes, id)
  {
    ApplyKeepsOk(cfg, nodes, e);
    var after := Apply(cfg, nodes, e);
    if e.Asked? && e.depth < cfg.maxDepth && FindById(nodes, e.id).None? {
      var n := after[FindById(after, id).value];
      NewcomerMovesNothing(cfg, nodes, e, n);
      LastRequestIs(nodes, n);
    } else {
      var i := FindById(nodes, id).value;
      assert after[i] in after && after[i].id == id && after[i].lastRequest == nodes[i].lastRequest;
      LastRequestIs(after, after[i]);
    }
  }

  function After(cfg: Config, nodes: seq<Useful>, events: seq<Event>): seq<Useful> {
    if events == [] then nodes else Apply(cfg, After(cfg, nodes, events[..|events| - 1]), events[|events| - 1])
  }

  lemma {:induction false} RunKeepsOk(cfg: Config, nodes: seq<Useful>, events: seq<Event>)
    requires Ok(cfg, nodes)
    ensures Ok(cfg, After(cfg, nodes, events))
  {
    if events != [] {
      RunKeepsOk(cfg, nodes, events[..|events| - 1]);
      ApplyKeepsOk(cfg, After(cfg, nodes, events[..|events| - 1]), events[|events| - 1]);
    }
  }

  // -- Nodes that left the list ----------------------------------------------------------------

  /** The node ranks before every node that has not responded and is not closer than `id`. */
  predicate Outranks(cfg: Config, n: Useful, id: Id) {
    n.returnedPeers || n.lastResponse.Some? || Distance(cfg.infoHash, n.id) < Distance(cfg.infoHash, id)
  }

  /** The list is full of other nodes that would all rank before `id`. */
  ghost predicate Gone(cfg: Config, nodes: seq<Useful>, id: Id) {
    && Ok(cfg, nodes) && |nodes| == cfg.limit
    && forall n :: n in nodes ==> n.id != id && Outranks(cfg, n, id)
  }

  /** Whoever ranks before a node without a response outranks its id. */
  lemma RankedBefore(cfg: Config, n: Useful, u: Useful, now: Instant)
    requires ByUse(cfg.infoHash, now)(n, u) && !ByUse(cfg.infoHash, now)(u, n)
    requires !u.returnedPeers && u.lastResponse.None?
    ensures Outranks(cfg, n, u.id)
  {
  }

  /** A newcomer costs a full list the one node that ranks last. */
  lemma DroppedIsLast(cfg: Config, nodes: seq<Useful>, id: Id, addr: Addr, depth: nat, now: Instant, u: Useful)
    requires Ok(cfg, nodes) && depth < cfg.maxDepth && FindById(nodes, id).None?
    requires u in nodes + [NewUseful(id, addr, now)] && u !in Ask(cfg, nodes, id, addr, depth, now).0
    ensures var (all, kept) := (nodes + [NewUseful(id, addr, now)], Ask(cfg, nodes, id, addr, depth, now).0);
      && |kept| == cfg.limit && Ok(cfg, kept)
      && (forall n :: n in kept <==> n in all && n != u)
      && (forall n :: n in kept ==> ByUse(cfg.infoHash, now)(n, u) && !ByUse(cfg.infoHash, now)(u, n))
  {
    var all, le := nodes + [NewUseful(id, addr, now)], ByUse(cfg.infoHash, now);
    NewcomerIsDistinct(nodes, id, addr, now);
    SortByUse(all, cfg.infoHash, now);
    WithoutLast(StableSort(all, le), all, le);
    AskNewKeepsOk(cfg, nodes, id, addr, depth, now);
  }

  /** The node that is dropped has not responded, and all that stay outrank it. */
  lemma DroppedIsGone(cfg: Config, nodes: seq<Useful>, id: Id, addr: Addr, depth: nat, now: Instant, u: Useful)
    requires Ok(cfg, nodes) && depth < cfg.maxDepth && FindById(nodes, id).None?
    requires u in nodes + [NewUseful(id, addr, now)] && u !in Ask(cfg, nodes, id, addr, depth, now).0
    ensures !u.returnedPeers && u.lastResponse.None?
    ensures Gone(cfg, Ask(cfg, nodes, id, addr, depth, now).0, u.id)
  {
    var newcomer, kept := NewUseful(id, addr, now), Ask(cfg, nodes, id, addr, depth, now).0;
    DroppedIsLast(cfg, nodes, id, addr, depth, now, u);
    assert u != newcomer ==> newcomer in kept;
    forall n | n in kept
      ensures n.id != u.id && Outranks(cfg, n, u.id)
    {
      NewcomerIsDistinct(nodes, id, addr, now);
      SameIdSameNode(nodes + [newcomer], n, u);
      RankedBefore(cfg, n, u, now);
    }
  }

  lemma SameIdSameNode(nodes: seq<Useful>, n: Useful, u: Useful)
    requires DistinctIds(nodes) && n in nodes && u in nodes && n != u
    ensures n.id != u.id
  {
    var i :| 0 <= i < |nodes| && nodes[i] == n;
    var j :| 0 <= j < |nodes| && nodes[j] == u;
    assert if i < j then nodes[i].id != nodes[j].id else nodes[j].id != nodes[i].id;
  }

  /** A listed node that leaves the list is gone. */
  lemma LeavingIsGone(cfg: Config, nodes: seq<Useful>, e: Event, id: Id)
    requires Ok(cfg, nodes) && FindById(nodes, id).Some? && FindById(Apply(cfg, nodes, e), id).None?
    ensures Gone(cfg, Apply(cfg, nodes, e), id)
  {
    OnlyNewcomersCost(cfg, nodes, e, id);
    DroppedIsGone(cfg, nodes, e.id, e.addr, e.depth, e.now, nodes[FindById(nodes, id).value]);
  }

  lemma OnlyNewcomersCost(cfg: Config, nodes: seq<Useful>, e: Event, id: Id)
    requires FindById(nodes, id).Some?
    ensures
      || FindById(Apply(cfg, nodes, e), id).Some?
      || (e.Asked? && e.depth < cfg.maxDepth && FindById(nodes, e.id).None?)
  {
    var i, after := FindById(nodes, id).value, Apply(cfg, nodes, e);
    if |after| == |nodes| && after[i].id == id {
      assert after[i] in after;
    }
  }

  /** So is a node that is refused although it was not listed. */
  lemma RefusedIsGone(cfg: Config, nodes: seq<Useful>, id: Id, addr: Addr, depth: nat, now: Instant)
    requires Ok(cfg, nodes) && depth < cfg.maxDepth && FindById(nodes, id).None?
    requires !Ask(cfg, nodes, id, addr, depth, now).1
    ensures Gone(cfg, Ask(cfg, nodes, id, addr, depth, now).0, id)
  {
    AskKeepsTheBest(cfg, nodes, id, addr, depth, now);
    DroppedIsGone(cfg, nodes, id, addr, depth, now, NewUseful(id, addr, now));
  }

  /** Another newcomer on the list outranks a gone node as well, or is not kept. */
  lemma NewcomerKeepsGone(cfg: Config, nodes: seq<Useful>, x: Id, addr: Addr, depth: nat, now: Instant, id: Id)
    requires Gone(cfg, nodes, id) && depth < cfg.maxDepth && FindById(nodes, x).None?
    ensures var (after, yes) := Ask(cfg, nodes, x, addr, depth, now); Gone(cfg, after, id) && (x == id ==> !yes)
  {
    var newcomer, after := NewUseful(x, addr, now), Ask(cfg, nodes, x, addr, depth, now).0;
    var u := DroppedNode(cfg, nodes, x, addr, depth, now);
    DroppedIsGone(cfg, nodes, x, addr, depth, now, u);
    DroppedIsLast(cfg, nodes, x, addr, depth, now, u);
    AskKeepsTheBest(cfg, nodes, x, addr, depth, now);
    assert u != newcomer ==> u in nodes && newcomer in after;
    forall n | n in after
      ensures n.id != id && Outranks(cfg, n, id)
    {
      RankedBefore(cfg, n, u, now);
    }
  }

  /** A full list drops some node for a newcomer. */
  lemma DroppedNode(cfg: Config, nodes: seq<Useful>, id: Id, addr: Addr, depth: nat, now: Instant)
    returns (u: Useful)
    requires Ok(cfg, nodes) && |nodes| == cfg.limit && depth < cfg.maxDepth && FindById(nodes, id).None?
    ensures u in nodes + [NewUseful(id, addr, now)] && u !in Ask(cfg, nodes, id, addr, depth, now).0
  {
    var all, le := nodes + [NewUseful(id, addr, now)], ByUse(cfg.infoHash, now);
    NewcomerIsDistinct(nodes, id, addr, now);
    SortByUse(all, cfg.infoHash, now);
    var sorted := StableSort(all, le);
    u := sorted[|sorted| - 1];
    WithoutLast(sorted, all, le);
  }

  /** A gone node stays gone whatever happens, and is never worth a request again. */
  lemma GoneStays(cfg: Config, nodes: seq<Useful>, e: Event, id: Id)
    requires Gone(cfg, nodes, id)
    ensures Gone(cfg, Apply(cfg, nodes, e), id)
    ensures !AnsweredYes(cfg, nodes, e, id)
  {
    if e.Asked? && e.depth < cfg.maxDepth && FindById(nodes, e.id).None? {
      NewcomerKeepsGone(cfg, nodes, e.id, e.addr, e.depth, e.now, id);
    } else {
      var after := Apply(cfg, nodes, e);
      ApplyKeepsOk(cfg, nodes, e);
      UpdateKeepsRank(cfg, nodes, after, id);
    }
  }

  lemma UpdateKeepsRank(cfg: Config, nodes: seq<Useful>, after: seq<Useful>, id: Id)
    requires Gone(cfg, nodes, id) && Ok(cfg, after) && |after| == |nodes|
    requires forall i :: 0 <= i < |nodes| ==>
      && after[i].id == nodes[i].id
      && (after[i].lastResponse.Some?
          || (after[i].lastResponse == nodes[i].lastResponse && after[i].returnedPeers == nodes[i].returnedPeers))
    ensures Gone(cfg, after, id)
  {
    forall n | n in after
      ensures n.id != id && Outranks(cfg, n, id)
    {
      var i :| 0 <= i < |after| && after[i] == n;
      assert nodes[i] in nodes;
    }
  }

  // -- One request a minute --------------------------------------------------------------------

  /** The node was last asked at `t`, or it is gone. */
  ghost predicate Held(cfg: Config, nodes: seq<Useful>, id: Id, t: Instant) {
    LastRequest(nodes, id) == Some(t) || Gone(cfg, nodes, id)
  }

  lemma HeldStays(cfg: Config, nodes: seq<Useful>, e: Event, id: Id, t: Instant)
    requires Ok(cfg, nodes) && Held(cfg, nodes, id, t) && !AnsweredYes(cfg, nodes, e, id)
    ensures Held(cfg, Apply(cfg, nodes, e), id, t)
  {
    if Gone(cfg, nodes, id) {
      GoneStays(cfg, nodes, e, id);
    } else if LastRequest(Apply(cfg, nodes, e), id).Some? {
      OnlyYesMovesLastRequest(cfg, nodes, e, id);
    } else {
      LeavingIsGone(cfg, nodes, e, id);
    }
  }

  lemma YesAfterAMinute(cfg: Config, nodes: seq<Useful>, e: Event, id: Id, t: Instant)
    requires Ok(cfg, nodes) && Held(cfg, nodes, id, t) && AnsweredYes(cfg, nodes, e, id)
    ensures Since(e.now, t) > ASK_AGAIN_AFTER
  {
    if Gone(cfg, nodes, id) {
      GoneStays(cfg, nodes, e, id);
    } else {
      YesIsRecorded(cfg, nodes, e, id);
    }
  }

  lemma {:induction false} StaysHeld(cfg: Config, nodes: seq<Useful>, events: seq<Event>, id: Id, t: Instant)
    requires Ok(cfg, nodes) && Held(cfg, nodes, id, t)
    requires forall n :: 0 <= n < |events| ==> !AnsweredYes(cfg, After(cfg, nodes, events[..n]), events[n], id)
    ensures Ok(cfg, After(cfg, nodes, events)) && Held(cfg, After(cfg, nodes, events), id, t)
  {
    RunKeepsOk(cfg, nodes, events);
    if events != [] {
      var before := events[..|events| - 1];
      assert forall n :: 0 <= n < |before| ==> before[..n] == events[..n];
      StaysHeld(cfg, nodes, before, id, t);
      RunKeepsOk(cfg, nodes, before);
      HeldStays(cfg, After(cfg, nodes, before), events[|events| - 1], id, t);
    }
  }

  /** Whatever happens in between, also leaving the list, a node gets its next yes only after a minute. */
  lemma OneYesAMinute(cfg: Config, nodes: seq<Useful>, events: seq<Event>, id: Id, t: Instant, again: Event)
    requires Ok(cfg, nodes) && LastRequest(nodes, id) == Some(t)
    requires forall n :: 0 <= n < |events| ==> !AnsweredYes(cfg, After(cfg, nodes, events[..n]), events[n], id)
    ensures AnsweredYes(cfg, After(cfg, nodes, events), again, id) ==> Since(again.now, t) > ASK_AGAIN_AFTER
  {
    StaysHeld(cfg, nodes, events, id, t);
    if AnsweredYes(cfg, After(cfg, nodes, events), again, id) {
      YesAfterAMinute(cfg, After(cfg, nodes, events), again, id, t);
    }
  }

  // -- In place --------------------------------------------------------------------------------

  class RecursiveRequest {
    const cfg: Config
    var usefulNodes: seq<Useful>

    ghost predicate Valid()
      reads this
    {
      Ok(cfg, usefulNodes)
    }

    constructor (cfg: Config)
      ensures Valid() && this.cfg == cfg && usefulNodes == []
    {
      this.cfg := cfg;
      usefulNodes := [];
    }

    method ShouldRequestNode(id: Id, addr: Addr, depth: nat, now: Instant) returns (yes: bool)
      requires Valid()
      modifies this
      ensures Valid()
      ensures (usefulNodes, yes) == Ask(cfg, old(usefulNodes), id, addr, depth, now)
      ensures yes ==> depth < cfg.maxDepth
    {
      ApplyKeepsOk(cfg, usefulNodes, Asked(id, addr, depth, now));
      if depth >= cfg.maxDepth {
        return false;
      }
      var existing := FindById(usefulNodes, id);
      if existing.Some? {
        var n := usefulNodes[existing.value];
        if Since(now, n.lastRequest) > ASK_AGAIN_AFTER {
          usefulNodes := usefulNodes[existing.value := n.(lastRequest := now)];
          return true;
        }
        return false;
      }
      usefulNodes := usefulNodes + [NewUseful(id, addr, now)];
      usefulNodes := StableSort(usefulNodes, ByUse(cfg.infoHash, now));
      if |usefulNodes| > cfg.limit {
        var popped := usefulNodes[|usefulNodes| - 1];
        usefulNodes := usefulNodes[..|usefulNodes| - 1];
        if popped.id == id {
          return false;
        }
      }
      return true;
    }

    method MarkNodeResponded(addr: Addr, now: Instant, withPeers: bool) returns (found: bool)
      requires Valid()
      modifies this
      ensures Valid()
      ensures usefulNodes == Apply(cfg, old(usefulNodes), Responded(addr, now, withPeers))
      ensures found <==> exists n :: n in old(usefulNodes) && n.addr == addr
    {
      ApplyKeepsOk(cfg, usefulNodes, Responded(addr, now, withPeers));
      var node := FindByAddr(usefulNodes, addr);
      if node.Some? {
        var n := usefulNodes[node.value];
        usefulNodes := usefulNodes[
          node.value := n.(lastResponse := Some(now), errorsInARow := 0, returnedPeers := withPeers)];
      }
      return node.Some?;
    }

    method MarkNodeError(addr: Addr) returns (found: bool)
      requires Valid()
      modifies this
      ensures Valid()
      ensures usefulNodes == Apply(cfg, old(usefulNodes), Failed(addr))
      ensures found <==> exists n :: n in old(usefulNodes) && n.addr == addr
    {
      ApplyKeepsOk(cfg, usefulNodes, Failed(addr));
      var node := FindByAddr(usefulNodes, addr);
      if node.Some? {
        var n := usefulNodes[node.value];
        usefulNodes := usefulNodes[node.value := n.(errorsInARow := n.errorsInARow + 1)];
      }
      return node.Some?;
    }
  }
}
