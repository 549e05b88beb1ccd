/**
 The find-node lookup: the loop over visits, with the list of useful nodes deciding what to visit.

 What a lookup does is a function of its trace, the answers it saw in the order it saw them: `Known`
 is the list of useful nodes after a trace and `Queued` everything that was ever to be visited.
 */
module FindNode {
  import opened Ids
  import opened Traversal
  import opened UsefulNodes
  import opened Wrappers

  const MAX_DEPTH: nat := 4
  const USEFUL_NODES_LIMIT: nat := 32

  datatype Reply = Response(peers: seq<Addr>, nodes: seq<(Id, Addr)>) | ErrorReply | NoReply
  {
    /** Nobody collects peers here, so a reply that brings some fails. */
    predicate Succeeds() {
      Response? && peers == []
    }
  }

  datatype Result = Success | NoSuccessfulLookups(errors: nat)

  // -- What one visit finds --------------------------------------------------------------------

  function SameFamily(nodes: seq<(Id, Addr)>, addr: Addr): (r: seq<(Id, Addr)>)
    ensures |r| <= |nodes|
    ensures forall n :: n in r <==> n in nodes && n.1.V4? == addr.V4?
  {
    var same := (n: (Id, Addr)) => n.1.V4? == addr.V4?;
    FilterMembers(nodes, same);
    Filter(nodes, same)
  }

  /** The list after deciding on each node in turn, and visits to those that are worth one. */
  function AskAll(cfg: Config, known: seq<Useful>, nodes: seq<(Id, Addr)>, depth: nat, now: Instant)
    : (seq<Useful>, seq<Visit>)
  {
    if nodes == [] then (known, [])
    else
      var (before, found) := AskAll(cfg, known, nodes[..|nodes| - 1], depth, now);
      var (id, addr) := nodes[|nodes| - 1];
      var (after, yes) := Ask(cfg, before, id, addr, depth, now);
      (after, if yes then found + [Visit(Some(id), addr, depth + 1)] else found)
  }

  /** The list after the last reply of a visit, and the visits that follow from it. */
  function Finish(cfg: Config, known: seq<Useful>, visit: Visit, reply: Reply, now: Instant)
    : (seq<Useful>, seq<Visit>)
  {
    match reply
    case ErrorReply => (known, [])
    case NoReply => (UsefulNodes.Apply(cfg, known, Failed(visit.addr)), [])
    case Response(peers, nodes) =>
      if peers != [] then (known, []) else AskAll(cfg, known, SameFamily(nodes, visit.addr), visit.depth, now)
  }

  /** Visits to nodes of the given ones, one level deeper and within the bound. */
  ghost predicate Follow(found: seq<Visit>, nodes: seq<(Id, Addr)>, depth: nat, maxDepth: nat) {
    forall c :: c in found ==>
      c.id.Some? && (c.id.value, c.addr) in nodes && depth < maxDepth && c.depth == depth + 1
  }

  lemma {:induction false} AskAllFollows(
    cfg: Config, known: seq<Useful>, nodes: seq<(Id, Addr)>, depth: nat, now: Instant)
    requires Ok(cfg, known)
    ensures var (after, found) := AskAll(cfg, known, nodes, depth, now);
      Ok(cfg, after) && Follow(found, nodes, depth, cfg.maxDepth)
  {
    if nodes != [] {
      var before := nodes[..|nodes| - 1];
      AskAllFollows(cfg, known, before, depth, now);
      assert nodes == before + [nodes[|nodes| - 1]];
      var (id, addr) := nodes[|nodes| - 1];
      ApplyKeepsOk(cfg, AskAll(cfg, known, before, depth, now).0, Asked(id, addr, depth, now));
    }
  }

  /** A visit leaves the list in order, and leads one level deeper, to nodes of its own family. */
  lemma FinishFollows(cfg: Config, known: seq<Useful>, visit: Visit, reply: Reply, now: Instant)
    requires Ok(cfg, known)
    ensures var (after, found) := Finish(cfg, known, visit, reply, now);
      && Ok(cfg, after) && Children(visit, found, cfg.maxDepth)
      && (found != [] ==>
            reply.Succeeds() && Follow(found, SameFamily(reply.nodes, visit.addr), visit.depth, cfg.maxDepth))
  {
    match reply
    case ErrorReply =>
    case NoReply => ApplyKeepsOk(cfg, known, Failed(visit.addr));
    case Response(_, nodes) => AskAllFollows(cfg, known, SameFamily(nodes, visit.addr), visit.depth, now);
  }

  predicate Lists(known: seq<Useful>, id: Id) {
    FindById(known, id).Some?
  }

  ghost predicate Mentions(nodes: seq<(Id, Addr)>, id: Id) {
    exists n :: n in nodes && n.0 == id
  }

  ghost predicate Visits(found: seq<Visit>, id: Id) {
    exists c :: c in found && c.id == Some(id)
  }

  lemma AskGrows(cfg: Config, known: seq<Useful>, id: Id, addr: Addr, depth: nat, now: Instant, other: Id)
    requires Ok(cfg, known)
    ensures var after := Ask(cfg, known, id, addr, depth, now).0;
      |after| <= |known| + 1 && (Lists(after, other) ==> Lists(known, other) || other == id)
  {
    var after := Ask(cfg, known, id, addr, depth, now).0;
    if depth < cfg.maxDepth && !Lists(known, id) {
      AskKeepsTheBest(cfg, known, id, addr, depth, now);
      if Lists(after, other) {
        var u := after[FindById(after, other).value];
        assert u in known + [NewUseful(id, addr, now)];
      }
    }
  }

  lemma AskAllLast(cfg: Config, known: seq<Useful>, nodes: seq<(Id, Addr)>, depth: nat, now: Instant, i: nat)
    requires i < |nodes|
    ensures var (before, found) := AskAll(cfg, known, nodes[..i], depth, now);
      var (after, yes) := Ask(cfg, before, nodes[i].0, nodes[i].1, depth, now);
      AskAll(cfg, known, nodes[..i + 1], depth, now)
        == (after, if yes then found + [Visit(Some(nodes[i].0), nodes[i].1, depth + 1)] else found)
  {
    assert nodes[..i + 1][..i] == nodes[..i];
  }

  /** After the first `i` nodes: the list has only those as newcomers, and they are all to be visited. */
  ghost predicate VisitsNew(
    cfg: Config, known: seq<Useful>, nodes: seq<(Id, Addr)>, depth: nat, now: Instant, i: nat, id: Id)
    requires i <= |nodes|
  {
    var (after, found) := AskAll(cfg, known, nodes[..i], depth, now);
    && Ok(cfg, after) && |after| <= |known| + i
    && (Lists(after, id) ==> Lists(known, id) || Mentions(nodes[..i], id))
    && (!Lists(known, id) && Mentions(nodes[..i], id) ==> Visits(found, id))
  }

  lemma VisitsNewStep(
    cfg: Config, known: seq<Useful>, nodes: seq<(Id, Addr)>, depth: nat, now: Instant, i: nat, id: Id)
    requires depth < cfg.maxDepth && |known| + |nodes| <= cfg.limit && i < |nodes|
    requires VisitsNew(cfg, known, nodes, depth, now, i, id)
    ensures VisitsNew(cfg, known, nodes, depth, now, i + 1, id)
  {
    var (before, found) := AskAll(cfg, known, nodes[..i], depth, now);
    AskAllLast(cfg, known, nodes, depth, now, i);
    MentionsLast(nodes, i, id);
    RoomMeansYes(cfg, before, nodes[i], depth, now, found, id);
    ApplyKeepsOk(cfg, before, Asked(nodes[i].0, nodes[i].1, depth, now));
  }

  lemma {:induction false} VisitsNewFrom(
    cfg: Config, known: seq<Useful>, nodes: seq<(Id, Addr)>, depth: nat, now: Instant, i: nat, id: Id)
    requires depth < cfg.maxDepth && |known| + |nodes| <= cfg.limit && i <= |nodes|
    requires VisitsNew(cfg, known, nodes, depth, now, i, id)
    ensures VisitsNew(cfg, known, nodes, depth, now, |nodes|, id)
    decreases |nodes| - i
  {
    if i < |nodes| {
      VisitsNewStep(cfg, known, nodes, depth, now, i, id);
      VisitsNewFrom(cfg, known, nodes, depth, now, i + 1, id);
    }
  }

  /**
   While the list has room and there is depth left, every node of a reply that was not listed before
   is visited, whatever its place in the reply.
   */
  lemma NewNodesAreVisited(
    cfg: Config, known: seq<Useful>, nodes: seq<(Id, Addr)>, depth: nat, now: Instant, id: Id)
    requires Ok(cfg, known) && depth < cfg.maxDepth && |known| + |nodes| <= cfg.limit
    requires !Lists(known, id) && Mentions(nodes, id)
    ensures Visits(AskAll(cfg, known, nodes, depth, now).1, id)
  {
    VisitsNewFrom(cfg, known, nodes, depth, now, 0, id);
    assert nodes[..|nodes|] == nodes;
  }

  /** A node that is not listed gets a yes while there is room. */
  lemma RoomMeansYes(
    cfg: Config, known: seq<Useful>, node: (Id, Addr), depth: nat, now: Instant, found: seq<Visit>, id: Id)
    requires Ok(cfg, known) && depth < cfg.maxDepth && |known| < cfg.limit
    ensures var (after, yes) := Ask(cfg, known, node.0, node.1, depth, now);
      var found' := if yes then found + [Visit(Some(node.0), node.1, depth + 1)] else found;
      && |after| <= |known| + 1
      && (Lists(after, id) ==> Lists(known, id) || node.0 == id)
      && (Visits(found, id) || (node.0 == id && !Lists(known, id)) ==> Visits(found', id))
  {
    AskGrows(cfg, known, node.0, node.1, depth, now, id);
    VisitsLast(found, Visit(Some(node.0), node.1, depth + 1), id);
  }

  lemma MentionsLast(nodes: seq<(Id, Addr)>, i: nat, id: Id)
    requires i < |nodes|
    ensures Mentions(nodes[..i + 1], id) <==> Mentions(nodes[..i], id) || nodes[i].0 == id
  {
    assert nodes[..i + 1] == nodes[..i] + [nodes[i]];
    assert nodes[i] in nodes[..i + 1];
  }

  lemma VisitsLast(found: seq<Visit>, c: Visit, id: Id)
    ensures Visits(found + [c], id) <==> Visits(found, id) || c.id == Some(id)
  {
    assert c in found + [c];
    if x :| x in found && x.id == Some(id) {
      assert x in found + [c];
    }
  }

  // -- What a reply leads to -------------------------------------------------------------------

  lemma FamilyWithOneMore(nodes: seq<(Id, Addr)>, n: (Id, Addr), addr: Addr)
    ensures SameFamily(nodes + [n], addr)
      == SameFamily(nodes, addr) + if n.1.V4? == addr.V4? then [n] else []
  {
    assert (nodes + [n])[..|nodes|] == nodes;
  }

  lemma AskAllWithOneMore(
    cfg: Config, known: seq<Useful>, nodes: seq<(Id, Addr)>, n: (Id, Addr), depth: nat, now: Instant)
    ensures var (before, found) := AskAll(cfg, known, nodes, depth, now);
      var (after, yes) := Ask(cfg, before, n.0, n.1, depth, now);
      AskAll(cfg, known, nodes + [n], depth, now)
        == (after, if yes then found + [Visit(Some(n.0), n.1, depth + 1)] else found)
  {
    assert (nodes + [n])[..|nodes|] == nodes;
  }

  /** One more node of the visited family in a reply without peers is one more decision, at the end. */
  lemma OneMoreOfTheFamily(
    cfg: Config, known: seq<Useful>, visit: Visit, nodes: seq<(Id, Addr)>, n: (Id, Addr), now: Instant)
    requires n.1.V4? == visit.addr.V4?
    ensures var (before, found) := Finish(cfg, known, visit, Response([], nodes), now);
      var (after, yes) := Ask(cfg, before, n.0, n.1, visit.depth, now);
      Finish(cfg, known, visit, Response([], nodes + [n]), now)
        == (after, if yes then found + [Visit(Some(n.0), n.1, visit.depth + 1)] else found)
  {
    FamilyWithOneMore(nodes, n, visit.addr);
    AskAllWithOneMore(cfg, known, SameFamily(nodes, visit.addr), n, visit.depth, now);
  }

  /** A node of the other family changes nothing, and neither does a reply without nodes. */
  lemma OneMoreOfTheOther(
    cfg: Config, known: seq<Useful>, visit: Visit, nodes: seq<(Id, Addr)>, n: (Id, Addr), now: Instant)
    requires n.1.V4? != visit.addr.V4?
    ensures Finish(cfg, known, visit, Response([], nodes + [n]), now)
      == Finish(cfg, known, visit, Response([], nodes), now)
    ensures Finish(cfg, known, visit, Response([], []), now) == (known, [])
  {
    FamilyWithOneMore(nodes, n, visit.addr);
    assert SameFamily(nodes, visit.addr) + [] == SameFamily(nodes, visit.addr);
  }

  /** While there is room on the list and depth left, a reply leads to all its new nodes of the family. */
  lemma NewNodesOfReplyAreVisited(
    cfg: Config, known: seq<Useful>, visit: Visit, nodes: seq<(Id, Addr)>, now: Instant, n: (Id, Addr))
    requires Ok(cfg, known) && visit.depth < cfg.maxDepth && |known| + |nodes| <= cfg.limit
    requires n in nodes && n.1.V4? == visit.addr.V4? && forall u :: u in known ==> u.id != n.0
    ensures exists c ::
      c in Finish(cfg, known, visit, Response([], nodes), now).1 && c.id == Some(n.0) && c.depth == visit.depth + 1
  {
    var family := SameFamily(nodes, visit.addr);
    assert n in family;
    NewNodesAreVisited(cfg, known, family, visit.depth, now, n.0);
    AskAllFollows(cfg, known, family, visit.depth, now);
  }

  /** Other outcomes lead nowhere: no reply is one more error of the node, and an error or peers change nothing. */
  lemma OtherOutcomes(cfg: Config, known: seq<Useful>, visit: Visit, reply: Reply, now: Instant)
    ensures reply == ErrorReply ==> Finish(cfg, known, visit, reply, now) == (known, [])
    ensures reply.Response? && reply.peers != [] ==> Finish(cfg, known, visit, reply, now) == (known, [])
    ensures reply == NoReply ==>
      && Finish(cfg, known, visit, reply, now).1 == []
      && FirstWith(known, Finish(cfg, known, visit, reply, now).0, visit.addr,
           (n: Useful) => Useful(n.id, n.addr, n.lastRequest, n.lastResponse, n.errorsInARow + 1, n.returnedPeers))
  {
  }

  // -- Traces ----------------------------------------------------------------------------------

  /** The first of the two replies of a visit marks its node; the second one ends the visit. */
  datatype Answer =
    | First(addr: Addr, at: Instant, withPeers: bool)
    | Last(visit: Visit, reply: Reply, now: Instant)

  function Known(cfg: Config, trace: seq<Answer>): seq<Useful> {
    if trace == [] then []
    else
      var before := Known(cfg, trace[..|trace| - 1]);
      match trace[|trace| - 1]
      case First(addr, at, withPeers) => UsefulNodes.Apply(cfg, before, Responded(addr, at, withPeers))
      case Last(visit, reply, now) => Finish(cfg, before, visit, reply, now).0
  }

  /** Everything the replies of a trace led to, in that order. */
  function Found(cfg: Config, trace: seq<Answer>): seq<Visit> {
    if trace == [] then []
    else
      var before := trace[..|trace| - 1];
      match trace[|trace| - 1]
      case First(_, _, _) => Found(cfg, before)
      case Last(visit, reply, now) => Found(cfg, before) + Finish(cfg, Known(cfg, before), visit, reply, now).1
  }

  function Initial(addrs: seq<Addr>): seq<Visit> {
    seq(|addrs|, i requires 0 <= i < |addrs| => Visit(None, addrs[i], 0))
  }

  function Queued(cfg: Config, addrs: seq<Addr>, trace: seq<Answer>): seq<Visit> {
    Initial(addrs) + Found(cfg, trace)
  }

  /** The visits that ended, in the order they did. */
  function Ended(trace: seq<Answer>): seq<Visit> {
    if trace == [] then []
    else
      match trace[|trace| - 1]
      case First(_, _, _) => Ended(trace[..|trace| - 1])
      case Last(visit, _, _) => Ended(trace[..|trace| - 1]) + [visit]
  }

  /** How many visits ended with a reply without peers. */
  function Successes(trace: seq<Answer>): (n: nat)
    ensures n <= |Ended(trace)|
  {
    if trace == [] then 0
    else
      match trace[|trace| - 1]
      case First(_, _, _) => Successes(trace[..|trace| - 1])
      case Last(_, reply, _) => Successes(trace[..|trace| - 1]) + if reply.Succeeds() then 1 else 0
  }

  /** What the network has in store: the reply at each point of the trace for whatever visit ends there. */
  type Network = (nat, Visit) -> (Reply, Instant)

  /** Every visit ended with the network's reply, after it was queued. */
  ghost predicate IsTrace(cfg: Config, addrs: seq<Addr>, net: Network, trace: seq<Answer>) {
    trace == []
    || (var before := trace[..|trace| - 1];
        && IsTrace(cfg, addrs, net, before)
        && match trace[|trace| - 1]
           case First(addr, _, _) => exists v :: v in Queued(cfg, addrs, before) && v.addr == addr
           case Last(visit, reply, now) =>
             && (reply, now) == net(|before|, visit)
             && multiset(Ended(trace)) <= multiset(Queued(cfg, addrs, before)))
  }

  // -- How often a node is visited -------------------------------------------------------------

  ghost predicate DistinctVisits(found: seq<Visit>) {
    forall i, j :: 0 <= i < j < |found| ==> found[i].id != found[j].id
  }

  lemma DistinctWithOneMore(found: seq<Visit>, id: Id, addr: Addr, depth: nat)
    requires DistinctVisits(found) && !Visits(found, id)
    ensures DistinctVisits(found + [Visit(Some(id), addr, depth)])
  {
    forall c | c in found
      ensures c.id != Some(id)
    {
    }
  }

  /** Nodes of one reply are visited once each, and were then last asked at that time. */
  lemma {:induction false} AskAllHolds(
    cfg: Config, known: seq<Useful>, nodes: seq<(Id, Addr)>, depth: nat, now: Instant, id: Id)
    requires Ok(cfg, known)
    ensures var (after, found) := AskAll(cfg, known, nodes, depth, now);
      Visits(found, id) ==> Held(cfg, after, id, now)
  {
    if nodes != [] {
      var last := nodes[|nodes| - 1];
      var e := Asked(last.0, last.1, depth, now);
      var (before, found) := AskAll(cfg, known, nodes[..|nodes| - 1], depth, now);
      AskAllFollows(cfg, known, nodes[..|nodes| - 1], depth, now);
      AskAllHolds(cfg, known, nodes[..|nodes| - 1], depth, now, id);
      VisitsLast(found, Visit(Some(last.0), last.1, depth + 1), id);
      if AnsweredYes(cfg, before, e, id) {
        YesIsRecorded(cfg, before, e, id);
      } else if Visits(found, id) {
        HeldStays(cfg, before, e, id, now);
      }
    }
  }

  lemma {:induction false} AskAllOnce(
    cfg: Config, known: seq<Useful>, nodes: seq<(Id, Addr)>, depth: nat, now: Instant)
    requires Ok(cfg, known)
    ensures DistinctVisits(AskAll(cfg, known, nodes, depth, now).1)
  {
    if nodes != [] {
      var last := nodes[|nodes| - 1];
      var e := Asked(last.0, last.1, depth, now);
      var (before, found) := AskAll(cfg, known, nodes[..|nodes| - 1], depth, now);
      AskAllOnce(cfg, known, nodes[..|nodes| - 1], depth, now);
      AskAllFollows(cfg, known, nodes[..|nodes| - 1], depth, now);
      AskAllHolds(cfg, known, nodes[..|nodes| - 1], depth, now, last.0);
      if AnsweredYes(cfg, before, e, last.0) {
        YesIsNew(cfg, before, e, found);
        DistinctWithOneMore(found, last.0, last.1, depth + 1);
      }
    }
  }

  lemma YesIsNew(cfg: Config, known: seq<Useful>, e: Event, found: seq<Visit>)
    requires Ok(cfg, known) && e.Asked? && AnsweredYes(cfg, known, e, e.id)
    requires Visits(found, e.id) ==> Held(cfg, known, e.id, e.now)
    ensures !Visits(found, e.id)
  {
    if Held(cfg, known, e.id, e.now) {
      YesAfterAMinute(cfg, known, e, e.id, e.now);
    }
  }

  /** A node held since `t` either stays so, or is visited again more than a minute after. */
  lemma {:induction false} AskAllKeepsHeld(
    cfg: Config, known: seq<Useful>, nodes: seq<(Id, Addr)>, depth: nat, now: Instant, id: Id, t: Instant)
    requires Ok(cfg, known) && Held(cfg, known, id, t)
    ensures var (after, found) := AskAll(cfg, known, nodes, depth, now);
      if Visits(found, id) then Since(now, t) > ASK_AGAIN_AFTER else Held(cfg, after, id, t)
  {
    if nodes != [] {
      var last := nodes[|nodes| - 1];
      var e := Asked(last.0, last.1, depth, now);
      var (before, found) := AskAll(cfg, known, nodes[..|nodes| - 1], depth, now);
      AskAllFollows(cfg, known, nodes[..|nodes| - 1], depth, now);
      AskAllKeepsHeld(cfg, known, nodes[..|nodes| - 1], depth, now, id, t);
      VisitsLast(found, Visit(Some(last.0), last.1, depth + 1), id);
      if !Visits(found, id) {
        if AnsweredYes(cfg, before, e, id) {
          YesAfterAMinute(cfg, before, e, id, t);
        } else {
          HeldStays(cfg, before, e, id, t);
        }
      }
    }
  }

  lemma FinishKeepsHeld(
    cfg: Config, known: seq<Useful>, visit: Visit, reply: Reply, now: Instant, id: Id, t: Instant)
    requires Ok(cfg, known) && Held(cfg, known, id, t)
    ensures var (after, found) := Finish(cfg, known, visit, reply, now);
      if Visits(found, id) then Since(now, t) > ASK_AGAIN_AFTER else Held(cfg, after, id, t)
  {
    match reply
    case ErrorReply =>
    case NoReply => HeldStays(cfg, known, Failed(visit.addr), id, t);
    case Response(_, nodes) =>
      AskAllKeepsHeld(cfg, known, SameFamily(nodes, visit.addr), visit.depth, now, id, t);
  }

  lemma FinishHolds(cfg: Config, known: seq<Useful>, visit: Visit, reply: Reply, now: Instant, id: Id)
    requires Ok(cfg, known) && Visits(Finish(cfg, known, visit, reply, now).1, id)
    ensures Held(cfg, Finish(cfg, known, visit, reply, now).0, id, now)
  {
    AskAllHolds(cfg, known, SameFamily(reply.nodes, visit.addr), visit.depth, now, id);
  }

  /** No reply leads to two visits of one node. */
  lemma FinishOnce(cfg: Config, known: seq<Useful>, visit: Visit, reply: Reply, now: Instant)
    requires Ok(cfg, known)
    ensures DistinctVisits(Finish(cfg, known, visit, reply, now).1)
  {
    if reply.Succeeds() {
      AskAllOnce(cfg, known, SameFamily(reply.nodes, visit.addr), visit.depth, now);
    }
  }

  lemma {:induction false} KnownIsOk(cfg: Config, trace: seq<Answer>)
    ensures Ok(cfg, Known(cfg, trace))
  {
    if trace != [] {
      var before := trace[..|trace| - 1];
      KnownIsOk(cfg, before);
      match trace[|trace| - 1]
      case First(addr, at, withPeers) => ApplyKeepsOk(cfg, Known(cfg, before), Responded(addr, at, withPeers));
      case Last(visit, reply, now) => FinishFollows(cfg, Known(cfg, before), visit, reply, now);
    }
  }

  lemma VisitsEither(a: seq<Visit>, b: seq<Visit>, id: Id)
    ensures Visits(a + b, id) <==> Visits(a, id) || Visits(b, id)
  {
    if c :| c in a && c.id == Some(id) {
      assert c in a + b;
    }
    if c :| c in b && c.id == Some(id) {
      assert c in a + b;
    }
  }

  /** A node found so far is held since the end of the visit that led to it last. */
  lemma {:induction false} FoundIsHeld(cfg: Config, trace: seq<Answer>, id: Id) returns (m: nat)
    requires Visits(Found(cfg, trace), id)
    ensures m < |trace| && trace[m].Last? && Held(cfg, Known(cfg, trace), id, trace[m].now)
  {
    var before := trace[..|trace| - 1];
    var known := Known(cfg, before);
    KnownIsOk(cfg, before);
    match trace[|trace| - 1]
    case First(addr, at, withPeers) =>
      m := FoundIsHeld(cfg, before, id);
      HeldStays(cfg, known, Responded(addr, at, withPeers), id, trace[m].now);
    case Last(visit, reply, now) =>
      VisitsEither(Found(cfg, before), Finish(cfg, known, visit, reply, now).1, id);
      if Visits(Finish(cfg, known, visit, reply, now).1, id) {
        m := |trace| - 1;
        FinishHolds(cfg, known, visit, reply, now, id);
      } else {
        m := FoundIsHeld(cfg, before, id);
        FinishKeepsHeld(cfg, known, visit, reply, now, id, trace[m].now);
      }
  }

  /** A reply leads to a node found before only when more than a minute has gone by. */
  lemma VisitedAgainAfterAMinute(
    cfg: Config, trace: seq<Answer>, visit: Visit, reply: Reply, now: Instant, id: Id)
    returns (m: nat)
    requires Visits(Found(cfg, trace), id) && Visits(Finish(cfg, Known(cfg, trace), visit, reply, now).1, id)
    ensures m < |trace| && trace[m].Last? && Since(now, trace[m].now) > ASK_AGAIN_AFTER
  {
    m := FoundIsHeld(cfg, trace, id);
    KnownIsOk(cfg, trace);
    FinishKeepsHeld(cfg, Known(cfg, trace), visit, reply, now, id, trace[m].now);
  }

  /** No two visits end more than a minute apart. */
  ghost predicate EndsWithinAMinute(trace: seq<Answer>) {
    forall i, j :: 0 <= i < j < |trace| && trace[i].Last? && trace[j].Last? ==>
      Since(trace[j].now, trace[i].now) <= ASK_AGAIN_AFTER
  }

  /** A lookup whose visits all end within a minute visits no node found in a reply twice. */
  lemma {:induction false} VisitsOnceAMinute(cfg: Config, trace: seq<Answer>)
    requires EndsWithinAMinute(trace)
    ensures DistinctVisits(Found(cfg, trace))
    ensures forall c :: c in Found(cfg, trace) ==> c.id.Some?
  {
    if trace != [] {
      var before := trace[..|trace| - 1];
      VisitsOnceAMinute(cfg, before);
      match trace[|trace| - 1]
      case First(_, _, _) =>
      case Last(visit, reply, now) =>
        KnownIsOk(cfg, before);
        FinishOnce(cfg, Known(cfg, before), visit, reply, now);
        FinishFollows(cfg, Known(cfg, before), visit, reply, now);
        var found := Finish(cfg, Known(cfg, before), visit, reply, now).1;
        forall a, b | a in Found(cfg, before) && b in found
          ensures a.id != b.id
        {
          if a.id == b.id {
            assert Visits(Found(cfg, before), a.id.value) && Visits(found, a.id.value);
            var m := VisitedAgainAfterAMinute(cfg, before, visit, reply, now, a.id.value);
          }
        }
        DistinctJoins(Found(cfg, before), found);
    }
  }

  lemma DistinctJoins(a: seq<Visit>, b: seq<Visit>)
    requires DistinctVisits(a) && DistinctVisits(b) && forall c, d :: c in a && d in b ==> c.id != d.id
    ensures DistinctVisits(a + b)
  {
    var s := a + b;
    forall i, j | 0 <= i < j < |s|
      ensures s[i].id != s[j].id
    {
      if i < |a| <= j {
        assert s[i] in a && s[j] in b;
      }
    }
  }

  // -- The loop --------------------------------------------------------------------------------

  /** Every visit ever queued is waiting, running or ended. */
  ghost predicate Accounted(w: Work, queued: seq<Visit>, ended: seq<Visit>) {
    multiset(queued) == multiset(w.queue) + multiset(w.running) + multiset(ended)
  }

  /** Where the loop stands after a trace. */
  ghost predicate Tracks(
    cfg: Config, known: seq<Useful>, w: Work, addrs: seq<Addr>, net: Network, trace: seq<Answer>)
  {
    && Ok(cfg, known) && known == Known(cfg, trace)
    && Bounded(w, cfg.maxDepth)
    && Accounted(w, Queued(cfg, addrs, trace), Ended(trace))
    && IsTrace(cfg, addrs, net, trace)
  }

  lemma InitialTracks(cfg: Config, addrs: seq<Addr>, net: Network)
    ensures Tracks(cfg, [], Work([], Initial(addrs)), addrs, net, [])
  {
    assert Initial(addrs) + [] == Initial(addrs);
  }

  lemma StartingTracks(
    cfg: Config, known: seq<Useful>, w: Work, addrs: seq<Addr>, net: Network, trace: seq<Answer>)
    requires Tracks(cfg, known, w, addrs, net, trace) && w.queue != []
    ensures Tracks(cfg, known, Starting(w), addrs, net, trace)
  {
    StartingAccounts(w, Queued(cfg, addrs, trace), Ended(trace));
    StartingBounded(w, cfg.maxDepth);
  }

  lemma StartingAccounts(w: Work, queued: seq<Visit>, ended: seq<Visit>)
    requires w.queue != [] && Accounted(w, queued, ended)
    ensures Accounted(Starting(w), queued, ended)
  {
    assert w.queue == [w.queue[0]] + w.queue[1..];
  }

  lemma StartingBounded(w: Work, maxDepth: nat)
    requires w.queue != [] && Bounded(w, maxDepth)
    ensures Bounded(Starting(w), maxDepth)
  {
  }

  lemma RunningIsQueued(w: Work, i: nat, queued: seq<Visit>, ended: seq<Visit>)
    requires i < |w.running| && Accounted(w, queued, ended)
    ensures w.running[i] in queued && multiset(ended + [w.running[i]]) <= multiset(queued)
  {
    assert w.running[i] in multiset(w.running);
    assert w.running[i] in multiset(queued);
  }

  lemma FirstTracks(
    cfg: Config, known: seq<Useful>, w: Work, addrs: seq<Addr>, net: Network, trace: seq<Answer>,
    i: nat, at: Instant, withPeers: bool)
    requires Tracks(cfg, known, w, addrs, net, trace) && i < |w.running|
    ensures var addr := w.running[i].addr;
      Tracks(
        cfg, UsefulNodes.Apply(cfg, known, Responded(addr, at, withPeers)), w, addrs, net,
        trace + [First(addr, at, withPeers)])
  {
    var addr := w.running[i].addr;
    var after := trace + [First(addr, at, withPeers)];
    assert after[..|after| - 1] == trace;
    RunningIsQueued(w, i, Queued(cfg, addrs, trace), Ended(trace));
    ApplyKeepsOk(cfg, known, Responded(addr, at, withPeers));
  }

  lemma CompletingAccounts(w: Work, i: nat, found: seq<Visit>, queued: seq<Visit>, ended: seq<Visit>)
    requires i < |w.running| && Accounted(w, queued, ended)
    ensures Accounted(Completing(w, i, found), queued + found, ended + [w.running[i]])
  {
    assert w.running == w.running[..i] + [w.running[i]] + w.running[i + 1..];
  }

  lemma CompletingBounded(w: Work, i: nat, found: seq<Visit>, maxDepth: nat)
    requires Bounded(w, maxDepth) && i < |w.running| && Children(w.running[i], found, maxDepth)
    ensures Bounded(Completing(w, i, found), maxDepth)
  {
  }

  lemma LastEffect(cfg: Config, addrs: seq<Addr>, trace: seq<Answer>, visit: Visit, reply: Reply, now: Instant)
    ensures var (after, found) := Finish(cfg, Known(cfg, trace), visit, reply, now);
      var trace' := trace + [Last(visit, reply, now)];
      && Known(cfg, trace') == after
      && Queued(cfg, addrs, trace') == Queued(cfg, addrs, trace) + found
      && Ended(trace') == Ended(trace) + [visit]
  {
    var after := trace + [Last(visit, reply, now)];
    assert after[..|after| - 1] == trace;
    var found := Finish(cfg, Known(cfg, trace), visit, reply, now).1;
    assert Initial(addrs) + (Found(cfg, trace) + found) == Initial(addrs) + Found(cfg, trace) + found;
  }

  lemma LastIsTraced(cfg: Config, addrs: seq<Addr>, net: Network, trace: seq<Answer>, visit: Visit)
    requires IsTrace(cfg, addrs, net, trace)
    requires multiset(Ended(trace) + [visit]) <= multiset(Queued(cfg, addrs, trace))
    ensures var (reply, now) := net(|trace|, visit);
      IsTrace(cfg, addrs, net, trace + [Last(visit, reply, now)])
  {
    var (reply, now) := net(|trace|, visit);
    var after := trace + [Last(visit, reply, now)];
    assert after[..|after| - 1] == trace;
    assert Ended(after) == Ended(trace) + [visit];
  }

  lemma LastTracks(
    cfg: Config, known: seq<Useful>, w: Work, addrs: seq<Addr>, net: Network, trace: seq<Answer>, i: nat)
    requires Tracks(cfg, known, w, addrs, net, trace) && i < |w.running|
    ensures var (visit, (reply, now)) := (w.running[i], net(|trace|, w.running[i]));
      var (after, found) := Finish(cfg, known, visit, reply, now);
      Tracks(cfg, after, Completing(w, i, found), addrs, net, trace + [Last(visit, reply, now)])
  {
    var visit := w.running[i];
    var (reply, now) := net(|trace|, visit);
    var found := Finish(cfg, known, visit, reply, now).1;
    FinishFollows(cfg, known, visit, reply, now);
    CompletingBounded(w, i, found, cfg.maxDepth);
    RunningIsQueued(w, i, Queued(cfg, addrs, trace), Ended(trace));
    CompletingAccounts(w, i, found, Queued(cfg, addrs, trace), Ended(trace));
    LastEffect(cfg, addrs, trace, visit, reply, now);
    LastIsTraced(cfg, addrs, net, trace, visit);
  }

  /** The part of a visit that follows its second reply; the visits that follow from it are returned. */
  method RequestOne(req: RecursiveRequest, visit: Visit, reply: Reply, now: Instant)
    returns (ok: bool, found: seq<Visit>)
    requires req.Valid()
    modifies req
    ensures req.Valid()
    ensures ok <==> reply.Response? && reply.peers == []
    ensures (req.usefulNodes, found) == Finish(req.cfg, old(req.usefulNodes), visit, reply, now)
  {
    found := [];
    match reply
    case ErrorReply => ok := false;
    case NoReply =>
      var _ := req.MarkNodeError(visit.addr);
      ok := false;
    case Response(peers, all) =>
      if peers != [] {
        return false, [];
      }
      found := QueueNodes(req, SameFamily(all, visit.addr), visit.depth, now);
      ok := true;
  }

  /** Decides on each node of a reply in turn. */
  method QueueNodes(req: RecursiveRequest, nodes: seq<(Id, Addr)>, depth: nat, now: Instant)
    returns (found: seq<Visit>)
    requires req.Valid()
    modifies req
    ensures req.Valid()
    ensures (req.usefulNodes, found) == AskAll(req.cfg, old(req.usefulNodes), nodes, depth, now)
  {
    ghost var known := req.usefulNodes;
    found := [];
    for i := 0 to |nodes|
      invariant req.Valid()
      invariant (req.usefulNodes, found) == AskAll(req.cfg, known, nodes[..i], depth, now)
    {
      AskAllLast(req.cfg, known, nodes, depth, now, i);
      var yes := req.ShouldRequestNode(nodes[i].0, nodes[i].1, depth, now);
      if yes {
        found := found + [Visit(Some(nodes[i].0), nodes[i].1, depth + 1)];
      }
    }
    assert nodes[..|nodes|] == nodes;
  }

  /** First replies of running visits, any number of them, before some visit ends. */
  method FirstAnswers(
    req: RecursiveRequest, queue: seq<Visit>, futs: seq<Visit>, seen: nat,
    ghost addrs: seq<Addr>, ghost net: Network, ghost trace: seq<Answer>)
    returns (seen': nat, ghost trace': seq<Answer>)
    requires req.Valid() && futs != [] && seen == |trace|
    requires Tracks(req.cfg, req.usefulNodes, Work(queue, futs), addrs, net, trace)
    modifies req
    ensures req.Valid() && seen' == |trace'|
    ensures Tracks(req.cfg, req.usefulNodes, Work(queue, futs), addrs, net, trace')
    ensures Ended(trace') == Ended(trace) && Successes(trace') == Successes(trace)
  {
    seen', trace' := seen, trace;
    var many: nat :| 0 <= many;
    for _ := 0 to many
      invariant req.Valid() && seen' == |trace'|
      invariant Tracks(req.cfg, req.usefulNodes, Work(queue, futs), addrs, net, trace')
      invariant Ended(trace') == Ended(trace) && Successes(trace') == Successes(trace)
    {
      var at: Instant, withPeers: bool := *, *;
      var i :| 0 <= i < |futs|;
      FirstTracks(req.cfg, req.usefulNodes, Work(queue, futs), addrs, net, trace', i, at, withPeers);
      var _ := req.MarkNodeResponded(futs[i].addr, at, withPeers);
      ghost var before := trace';
      seen', trace' := seen' + 1, trace' + [First(futs[i].addr, at, withPeers)];
      assert trace'[..|trace'| - 1] == before;
    }
  }

  /** Pending work at each depth, from the shallowest. */
  function Weights(w: Work): (p: seq<nat>)
    ensures |p| == MAX_DEPTH + 1
  {
    seq(MAX_DEPTH + 1, depth requires 0 <= depth <= MAX_DEPTH => Weight(w, depth))
  }

  ghost predicate Lower(p: seq<nat>, q: seq<nat>)
    requires |p| == |q| == MAX_DEPTH + 1
  {
    exists d :: 0 <= d <= MAX_DEPTH && p[d] < q[d] && p[..d] == q[..d]
  }

  lemma NextIsLower(w: Work, t: Work)
    requires Bounded(w, MAX_DEPTH) && Next(w, t, MAX_DEPTH)
    ensures Lower(Weights(t), Weights(w))
  {
    var d := NextLowers(w, t, MAX_DEPTH);
    assert Weights(t)[d] < Weights(w)[d] && Weights(t)[..d] == Weights(w)[..d];
  }

  lemma LowerIsLexicographic(p: seq<nat>, q: seq<nat>)
    requires |p| == |q| == MAX_DEPTH + 1 && Lower(p, q)
    ensures p[0] < q[0] || (p[0] == q[0] && (p[1] < q[1] || (p[1] == q[1] && (p[2] < q[2]
      || (p[2] == q[2] && (p[3] < q[3] || (p[3] == q[3] && p[4] < q[4])))))))
  {
    var d :| 0 <= d <= MAX_DEPTH && p[d] < q[d] && p[..d] == q[..d];
    assert forall e :: 0 <= e < d ==> p[..d][e] == q[..d][e];
  }

  /** One turn of the loop: queued nodes are taken up first, then some running visit ends. */
  method Turn(
    req: RecursiveRequest, queue: seq<Visit>, futs: seq<Visit>, seen: nat, net: Network,
    ghost addrs: seq<Addr>, ghost trace: seq<Answer>)
    returns (
      queue': seq<Visit>, futs': seq<Visit>, seen': nat, finished: Option<bool>, ghost trace': seq<Answer>)
    requires req.Valid() && req.cfg.maxDepth == MAX_DEPTH && seen == |trace|
    requires Tracks(req.cfg, req.usefulNodes, Work(queue, futs), addrs, net, trace)
    requires queue != [] || futs != []
    modifies req
    ensures req.Valid() && seen' == |trace'|
    ensures Tracks(req.cfg, req.usefulNodes, Work(queue', futs'), addrs, net, trace')
    ensures Lower(Weights(Work(queue', futs')), Weights(Work(queue, futs)))
    ensures |Ended(trace')| == |Ended(trace)| + if finished.Some? then 1 else 0
    ensures Successes(trace') == Successes(trace) + if finished == Some(true) then 1 else 0
  {
    ghost var before := Work(queue, futs);
    if queue != [] {
      StartingTracks(req.cfg, req.usefulNodes, before, addrs, net, trace);
      queue', futs', seen', finished, trace' := queue[1..], futs + [queue[0]], seen, None, trace;
    } else {
      ghost var marked;
      seen', marked := FirstAnswers(req, queue, futs, seen, addrs, net, trace);
      var i :| 0 <= i < |futs|;
      var (reply, now) := net(seen', futs[i]);
      LastTracks(req.cfg, req.usefulNodes, before, addrs, net, marked, i);
      FinishFollows(req.cfg, req.usefulNodes, futs[i], reply, now);
      var ok, found := RequestOne(req, futs[i], reply, now);
      queue', futs', finished := queue + found, WithoutAt(futs, i), Some(ok);
      seen', trace' := seen' + 1, marked + [Last(futs[i], reply, now)];
      assert trace'[..|trace'| - 1] == marked;
      assert Completed(before, Work(queue', futs'), MAX_DEPTH, i, found);
    }
    NextIsLower(before, Work(queue', futs'));
  }

  /** The first visits are to the given addresses, which are all that is known of them. */
  ghost predicate StartsFrom(queued: seq<Visit>, addrs: seq<Addr>) {
    |queued| >= |addrs| && forall i :: 0 <= i < |addrs| ==> queued[i] == Visit(None, addrs[i], 0)
  }

  /** Some visit ended with a reply that brought no peers. */
  ghost predicate SomeSuccess(trace: seq<Answer>) {
    exists a :: a in trace && a.Last? && a.reply.Response? && a.reply.peers == []
  }

  lemma {:induction false} SuccessesCount(trace: seq<Answer>)
    ensures Successes(trace) > 0 <==> SomeSuccess(trace)
  {
    if trace != [] {
      var before, last := trace[..|trace| - 1], trace[|trace| - 1];
      SuccessesCount(before);
      assert trace == before + [last];
      if SomeSuccess(before) {
        var a :| a in before && a.Last? && a.reply.Response? && a.reply.peers == [];
        assert a in trace;
      }
      assert last in trace;
    }
  }

  lemma EverythingEnded(cfg: Config, known: seq<Useful>, addrs: seq<Addr>, net: Network, trace: seq<Answer>)
    requires Tracks(cfg, known, Work([], []), addrs, net, trace)
    ensures multiset(Ended(trace)) == multiset(Queued(cfg, addrs, trace))
    ensures |Ended(trace)| == |Queued(cfg, addrs, trace)| && StartsFrom(Queued(cfg, addrs, trace), addrs)
    ensures Successes(trace) > 0 <==> SomeSuccess(trace)
  {
    SuccessesCount(trace);
    assert |multiset(Ended(trace))| == |Ended(trace)|;
    assert |multiset(Queued(cfg, addrs, trace))| == |Queued(cfg, addrs, trace)|;
  }

  /**
   The whole lookup from the given addresses, for any network.  It ends; by then every visit ever
   queued has ended, the queued ones being the addresses and what the replies led to, and it fails
   exactly when none of the replies counts as a success.
   */
  method FindNodeForRoutingTable(target: Id, addrs: seq<Addr>, net: Network)
    returns (result: Result, ghost trace: seq<Answer>)
    ensures var cfg := Config(4, 32, target);
      && IsTrace(cfg, addrs, net, trace)
      && multiset(Ended(trace)) == multiset(Queued(cfg, addrs, trace))
      && StartsFrom(Queued(cfg, addrs, trace), addrs)
      && result == if SomeSuccess(trace) then Success else NoSuccessfulLookups(|Queued(cfg, addrs, trace)|)
  {
    var req := new RecursiveRequest(Config(MAX_DEPTH, USEFUL_NODES_LIMIT, target));
    var futs := Initial(addrs);
    var queue: seq<Visit> := [];
    var seen, successes, errors := 0, 0, 0;
    trace := [];
    ghost var pending := Weights(Work(queue, futs));
    InitialTracks(req.cfg, addrs, net);
    while queue != [] || futs != []
      invariant req.Valid() && req.cfg == Config(MAX_DEPTH, USEFUL_NODES_LIMIT, target) && fresh(req)
      invariant Tracks(req.cfg, req.usefulNodes, Work(queue, futs), addrs, net, trace) && seen == |trace|
      invariant successes == Successes(trace) && successes + errors == |Ended(trace)|
      invariant pending == Weights(Work(queue, futs))
      decreases pending[0], pending[1], pending[2], pending[3], pending[4]
    {
      var finished;
      queue, futs, seen, finished, trace := Turn(req, queue, futs, seen, net, addrs, trace);
      LowerIsLexicographic(Weights(Work(queue, futs)), pending);
      pending := Weights(Work(queue, futs));
      if finished.Some? {
        if finished.value {
          successes := successes + 1;
        } else {
          errors := errors + 1;
        }
      }
    }
    EverythingEnded(req.cfg, req.usefulNodes, addrs, net, trace);
    result := if successes == 0 then NoSuccessfulLookups(errors) else Success;
  }
}
