/**
 One routing table entry and its status.

 An entry records when it was last asked, last answered and last queried us, and how many errors
 came in a row.  `History` rebuilds these fields from the events that happened to the entry, so
 the status can be read off the events alone.
 */
module Nodes {
  import opened Ids
  import opened Sorting
  import opened Wrappers

  const INACTIVITY_TIMEOUT: nat := 15 * 60 * SECOND

  datatype Status = Good | Questionable | Bad | Unknown

  predicate Within(t: Option<Instant>, now: Instant) {
    t.Some? && Since(now, t.value) < INACTIVITY_TIMEOUT
  }

  predicate Stale(t: Option<Instant>, now: Instant) {
    t.Some? && Since(now, t.value) > INACTIVITY_TIMEOUT
  }

  datatype Node = Node(
    id: Id,
    addr: Addr,
    lastRequest: Option<Instant>,
    lastResponse: Option<Instant>,
    lastQuery: Option<Instant>,
    errorsInARow: nat)
  {
    function StatusAt(now: Instant): Status {
      if lastRequest.Some? && errorsInARow >= 2 then Bad
      else if lastRequest.Some? && lastResponse.Some? && (Within(lastResponse, now) || Within(lastQuery, now)) then Good
      else if (Stale(lastQuery, now) || Stale(lastResponse, now)) && (lastRequest.None? || Stale(lastRequest, now)) then
        Questionable
      else Unknown
    }

    function MarkOutgoingRequest(now: Instant): Node {
      this.(lastRequest := Some(now))
    }

    function MarkLastQuery(now: Instant): Node {
      this.(lastQuery := Some(now))
    }

    function MarkResponse(now: Instant): Node {
      var asked := if lastRequest.None? then Some(now) else lastRequest;
      this.(lastResponse := Some(now), lastRequest := asked, errorsInARow := 0)
    }

    function MarkError(): Node {
      this.(errorsInARow := errorsInARow + 1)
    }
  }

  function NewNode(id: Id, addr: Addr): Node {
    Node(id, addr, None, None, None, 0)
  }

  // -- Status as a function of what happened ---------------------------------------------------

  datatype Event = Requested(at: Instant) | Responded(at: Instant) | Queried(at: Instant) | Failed

  function Apply(n: Node, e: Event): Node {
    match e
    case Requested(t) => n.MarkOutgoingRequest(t)
    case Responded(t) => n.MarkResponse(t)
    case Queried(t) => n.MarkLastQuery(t)
    case Failed => n.MarkError()
  }

  /** An entry after the given events, oldest first. */
  function Replay(n: Node, events: seq<Event>): Node {
    if events == [] then n else Apply(Replay(n, events[..|events| - 1]), events[|events| - 1])
  }

  /** The entry inserted for `id` after the given events. */
  function History(id: Id, addr: Addr, events: seq<Event>): Node {
    Replay(NewNode(id, addr), events)
  }

  predicate EverAsked(events: seq<Event>) {
    exists e :: e in events && (e.Requested? || e.Responded?)
  }

  /** The number of errors after the last response, or since insertion when there was none. */
  function ErrorsSinceResponse(events: seq<Event>): nat {
    if events == [] then 0
    else
      var before := events[..|events| - 1];
      match events[|events| - 1]
      case Responded(_) => 0
      case Failed => ErrorsSinceResponse(before) + 1
      case _ => ErrorsSinceResponse(before)
  }

  function LatestResponse(events: seq<Event>): Option<Instant> {
    if events == [] then None
    else
      match events[|events| - 1]
      case Responded(t) => Some(t)
      case _ => LatestResponse(events[..|events| - 1])
  }

  function LatestQuery(events: seq<Event>): Option<Instant> {
    if events == [] then None
    else
      match events[|events| - 1]
      case Queried(t) => Some(t)
      case _ => LatestQuery(events[..|events| - 1])
  }

  /** The latest request; a first response stands in for one that was not recorded. */
  function LatestRequest(events: seq<Event>): Option<Instant> {
    if events == [] then None
    else
      var before := LatestRequest(events[..|events| - 1]);
      match events[|events| - 1]
      case Requested(t) => Some(t)
      case Responded(t) => if before.None? then Some(t) else before
      case _ => before
  }

  lemma {:induction false} HistoryFields(id: Id, addr: Addr, events: seq<Event>)
    ensures var n := History(id, addr, events);
      && n.id == id && n.addr == addr
      && n.errorsInARow == ErrorsSinceResponse(events)
      && (n.lastRequest.Some? <==> EverAsked(events))
      && n.lastRequest == LatestRequest(events)
      && n.lastResponse == LatestResponse(events)
      && n.lastQuery == LatestQuery(events)
      && (n.lastResponse.Some? ==> n.lastRequest.Some?)
  {
    if events != [] {
      var before, e := events[..|events| - 1], events[|events| - 1];
      HistoryFields(id, addr, before);
      assert events == before + [e];
    }
  }

  /** Bad means asked at least once and failed at least twice since the last answer, at any time. */
  lemma BadFromHistory(id: Id, addr: Addr, events: seq<Event>, now: Instant)
    ensures History(id, addr, events).StatusAt(now) == Bad
      <==> EverAsked(events) && ErrorsSinceResponse(events) >= 2
  {
    HistoryFields(id, addr, events);
  }

  predicate LessThan15MinutesAgo(t: Option<Instant>, now: Instant) {
    t.Some? && Since(now, t.value) < 900 * SECOND
  }

  predicate MoreThan15MinutesAgo(t: Option<Instant>, now: Instant) {
    t.Some? && Since(now, t.value) > 900 * SECOND
  }

  /** Good means not Bad, has answered before, and answered or queried us within the last 15 minutes. */
  lemma GoodFromHistory(id: Id, addr: Addr, events: seq<Event>, now: Instant)
    ensures History(id, addr, events).StatusAt(now) == Good
      <==> ErrorsSinceResponse(events) < 2 && LatestResponse(events).Some?
           && (LessThan15MinutesAgo(LatestResponse(events), now) || LessThan15MinutesAgo(LatestQuery(events), now))
  {
    HistoryFields(id, addr, events);
  }

  /**
   Questionable means neither Bad nor Good, with a response or a query that is more than 15 minutes
   old and no request since that time; all other entries are Unknown.
   */
  lemma QuestionableFromHistory(id: Id, addr: Addr, events: seq<Event>, now: Instant)
    ensures var s := History(id, addr, events).StatusAt(now);
      && (s == Questionable <==>
            && s != Bad && s != Good
            && (MoreThan15MinutesAgo(LatestResponse(events), now) || MoreThan15MinutesAgo(LatestQuery(events), now))
            && (LatestRequest(events).None? || MoreThan15MinutesAgo(LatestRequest(events), now)))
      && (s == Unknown <==> s != Bad && s != Good && s != Questionable)
  {
    HistoryFields(id, addr, events);
  }

  /** An entry asked and answered once, as time goes by; a clock that goes back does no harm. */
  lemma StatusOverTime(id: Id, addr: Addr, at: Instant, now: Instant)
    ensures var n := History(id, addr, [Requested(at), Responded(at)]);
      && (now < at + 900 * SECOND ==> n.StatusAt(now) == Good)
      && (now == at + 900 * SECOND ==> n.StatusAt(now) == Unknown)
      && (now > at + 900 * SECOND ==> n.StatusAt(now) == Questionable)
    ensures History(id, addr, []).StatusAt(now) == Unknown
  {
    var asked, answered := [Requested(at)], [Requested(at), Responded(at)];
    assert answered[..1] == asked && asked[..0] == [];
    assert Replay(NewNode(id, addr), asked) == NewNode(id, addr).MarkOutgoingRequest(at);
  }

  /** Once Bad, an entry stays Bad until it answers. */
  lemma {:induction false} BadPersists(n: Node, events: seq<Event>, now: Instant, later: Instant)
    requires n.StatusAt(now) == Bad
    requires forall e :: e in events ==> !e.Responded?
    ensures Replay(n, events).StatusAt(later) == Bad
  {
    if events != [] {
      BadPersists(n, events[..|events| - 1], now, later);
    }
  }

  /**
   Asking an entry clears Questionable for a whole inactivity period, whatever else happens in it,
   as long as no request is recorded with an earlier clock reading.
   */
  lemma {:induction false} RequestClearsQuestionable(n: Node, events: seq<Event>, asked: Instant, later: Instant)
    requires n.lastRequest.Some? && n.lastRequest.value >= asked
    requires forall e :: e in events && e.Requested? ==> e.at >= asked
    requires Since(later, asked) <= INACTIVITY_TIMEOUT
    ensures Replay(n, events).lastRequest.Some? && Replay(n, events).lastRequest.value >= asked
    ensures Replay(n, events).StatusAt(later) != Questionable
  {
    if events != [] {
      RequestClearsQuestionable(n, events[..|events| - 1], asked, later);
    }
  }

  // -- Orders on entries -----------------------------------------------------------------------

  function ById(): (Node, Node) -> bool {
    (a: Node, b: Node) => Num(a.id) <= Num(b.id)
  }

  function Rank(s: Status): nat {
    match s
    case Good => 0
    case Questionable => 1
    case Unknown => 2
    case Bad => 3
  }

  /** Decent entries first, then by XOR distance from `target`. */
  function ByRank(target: Id, now: Instant): (Node, Node) -> bool {
    (a: Node, b: Node) =>
      var ra, rb := Rank(a.StatusAt(now)), Rank(b.StatusAt(now));
      ra < rb || (ra == rb && Distance(target, a.id) <= Distance(target, b.id))
  }

  ghost predicate DistinctIds(nodes: seq<Node>) {
    forall i, j :: 0 <= i < j < |nodes| ==> nodes[i].id != nodes[j].id
  }

  ghost predicate AscendingIds(nodes: seq<Node>) {
    forall i, j :: 0 <= i < j < |nodes| ==> Num(nodes[i].id) < Num(nodes[j].id)
  }

  lemma SortById(nodes: seq<Node>)
    requires DistinctIds(nodes)
    ensures AscendingIds(StableSort(nodes, ById()))
    ensures SameMembers(StableSort(nodes, ById()), nodes)
  {
    forall a, b | a in nodes && b in nodes && ById()(a, b) && ById()(b, a)
      ensures a == b
    {
      NumInjective(a.id, b.id);
    }
    SortStrictly(nodes, ById());
    SortKeepsMembers(nodes, ById());
  }

  lemma SortByRank(nodes: seq<Node>, target: Id, now: Instant)
    requires DistinctIds(nodes)
    ensures StrictlySortedBy(StableSort(nodes, ByRank(target, now)), ByRank(target, now))
    ensures SameMembers(StableSort(nodes, ByRank(target, now)), nodes)
  {
    var le := ByRank(target, now);
    forall a, b | a in nodes && b in nodes && le(a, b) && le(b, a)
      ensures a == b
    {
      DistanceInjective(target, a.id, b.id);
    }
    SortStrictly(nodes, le);
    SortKeepsMembers(nodes, le);
  }
}
