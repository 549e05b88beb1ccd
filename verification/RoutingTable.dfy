/**
 The routing table of one address family: our own id, the bucket tree and an entry counter.

 `Routing` is the table as a value with one function per operation; the class keeps a real tree in
 step with it.  The lemmas about runs say what holds after any sequence of operations.
 */
module RoutingTables {
  import opened BucketTrees
  import opened Ids
  import opened KBuckets
  import opened LeafIteration
  import opened Nodes
  import opened Sorting
  import opened TableOrder
  import opened Wrappers

  const DEFAULT_MAX_SIZE: nat := 512

  datatype Routing = Routing(id: Id, size: nat, table: Table)

  datatype Op =
    | Add(id: Id, addr: Addr, now: Instant)
    | Report(id: Id, event: Event)

  function New(id: Id, maxSize: nat, now: Instant): Routing {
    Routing(id, 0, Empty(maxSize, now))
  }

  /** Only a response refreshes the bucket. */
  function RefreshFor(e: Event): Option<Instant> {
    match e
    case Responded(at) => Some(at)
    case _ => None
  }

  ghost predicate ValidRouting(r: Routing) {
    KBuckets.Valid(r.id, r.table)
  }

  /** A replacement counts like an addition. */
  function Counted(result: InsertResult): nat {
    match result
    case WasExisting => 0
    case ReplacedBad(_) => 1
    case Added => 1
    case Ignored => 0
  }

  function AddResult(r: Routing, id: Id, addr: Addr, now: Instant): InsertResult
    requires ValidRouting(r)
  {
    KBuckets.AddNode(r.id, r.table, id, addr, now).1
  }

  function Step(r: Routing, op: Op): (s: Routing)
    requires ValidRouting(r)
    ensures ValidRouting(s) && s.id == r.id && s.table.maxSize == r.table.maxSize
  {
    match op
    case Add(id, addr, now) =>
      AddKeepsValid(r.id, r.table, id, addr, now);
      var (table, result) := KBuckets.AddNode(r.id, r.table, id, addr, now);
      Routing(r.id, r.size + Counted(result), table)
    case Report(id, event) =>
      TouchRefinesMap(r.id, r.table, id, RefreshFor(event), event);
      r.(table := Touch(r.id, r.table, id, RefreshFor(event), event))
  }

  // -- Runs ------------------------------------------------------------------------------------

  /** The table after the given operations, oldest first. */
  function Run(r: Routing, ops: seq<Op>): (s: Routing)
    requires ValidRouting(r)
    ensures ValidRouting(s) && s.id == r.id && s.table.maxSize == r.table.maxSize
  {
    if ops == [] then r else Step(Run(r, ops[..|ops| - 1]), ops[|ops| - 1])
  }

  /** The operation offers a contact that is not stored to a bucket holding a Bad entry. */
  ghost predicate Swaps(r: Routing, op: Op) {
    op.Add? && Lookup(r.id, r.table, op.id).None?
    && HasBad(BucketAt(r.table, Shared(r.id, op.id)).nodes, op.now)
  }

  /** The operation offers a contact that is not stored, and there is a Bad entry or room for it. */
  ghost predicate TakesIn(r: Routing, op: Op) {
    Swaps(r, op) || (op.Add? && Lookup(r.id, r.table, op.id).None? && !NoRoom(r.id, r.table, op.id))
  }

  /** How many of the operations met a Bad entry to swap out. */
  ghost function Replacements(r: Routing, ops: seq<Op>): nat
    requires ValidRouting(r)
  {
    if ops == [] then 0
    else
      var before := ops[..|ops| - 1];
      Replacements(r, before) + if Swaps(Run(r, before), ops[|ops| - 1]) then 1 else 0
  }

  /** One operation lengthens the table exactly when it takes a contact in, and never shortens it. */
  lemma StepLengthens(r: Routing, op: Op)
    requires ValidRouting(r)
    ensures Step(r, op).size == r.size + if TakesIn(r, op) then 1 else 0
  {
    if op.Add? {
      AddRefinesMap(r.id, r.table, op.id, op.addr, op.now);
    }
  }

  /**
   After any run from an empty table the tree's own counter is the number of stored entries and
   within the limit, while the table's length also counts every past replacement.
   */
  lemma {:induction false} RunCounts(id: Id, maxSize: nat, start: Instant, ops: seq<Op>)
    ensures ValidRouting(New(id, maxSize, start))
    ensures var r := Run(New(id, maxSize, start), ops);
      && r.table.size == |Entries(id, r.table)| <= maxSize
      && |r.table.far| <= MAX_DEPTH
      && r.size == r.table.size + Replacements(New(id, maxSize, start), ops)
  {
    EmptyIsValid(id, maxSize, start);
    var r0 := New(id, maxSize, start);
    EntriesAreTheMap(id, Run(r0, ops).table);
    if ops != [] {
      RunCounts(id, maxSize, start, ops[..|ops| - 1]);
      var before := Run(r0, ops[..|ops| - 1]);
      match ops[|ops| - 1]
      case Add(x, addr, now) => AddRefinesMap(id, before.table, x, addr, now);
      case Report(x, event) => TouchRefinesMap(id, before.table, x, RefreshFor(event), event);
    }
  }

  ghost predicate SwapsAt(r: Routing, ops: seq<Op>, n: nat)
    requires ValidRouting(r) && n < |ops|
  {
    Swaps(Run(r, ops[..n]), ops[n])
  }

  /** If operation `n` takes a contact in, the length is still below the limit. */
  ghost predicate RoomAt(r: Routing, ops: seq<Op>, n: nat)
    requires ValidRouting(r) && n < |ops|
  {
    TakesIn(Run(r, ops[..n]), ops[n]) ==> Run(r, ops[..n]).size < r.table.maxSize
  }

  lemma PrefixStep(r: Routing, ops: seq<Op>, n: nat)
    requires ValidRouting(r) && n < |ops|
    ensures Run(r, ops[..n + 1]) == Step(Run(r, ops[..n]), ops[n])
    ensures Replacements(r, ops[..n + 1]) == Replacements(r, ops[..n]) + if SwapsAt(r, ops, n) then 1 else 0
  {
    assert ops[..n + 1][..n] == ops[..n];
  }

  /** A counter that starts within a limit stays within it exactly when no hit finds it at the limit. */
  lemma {:induction false} CountWithinIff(counts: seq<nat>, hits: seq<bool>, limit: nat)
    requires |counts| == |hits| + 1 && counts[0] <= limit
    requires forall n :: 0 <= n < |hits| ==> counts[n + 1] == counts[n] + if hits[n] then 1 else 0
    ensures counts[|hits|] <= limit <==> forall n :: 0 <= n < |hits| && hits[n] ==> counts[n] < limit
  {
    if hits != [] {
      CountWithinIff(counts[..|hits|], hits[..|hits| - 1], limit);
    }
  }

  /** The length is the number of stored entries exactly on runs without a replacement. */
  lemma LengthIsStoredIffNoReplacement(id: Id, maxSize: nat, start: Instant, ops: seq<Op>)
    ensures ValidRouting(New(id, maxSize, start))
    ensures var r0 := New(id, maxSize, start);
      var r := Run(r0, ops);
      r.size == |Entries(id, r.table)| <==> forall n :: 0 <= n < |ops| ==> !SwapsAt(r0, ops, n)
  {
    RunCounts(id, maxSize, start, ops);
    NoReplacementsIff(New(id, maxSize, start), ops);
  }

  lemma NoReplacementsIff(r: Routing, ops: seq<Op>)
    requires ValidRouting(r)
    ensures Replacements(r, ops) == 0 <==> forall n :: 0 <= n < |ops| ==> !SwapsAt(r, ops, n)
  {
    var counts := seq(|ops| + 1, n requires 0 <= n <= |ops| => Replacements(r, ops[..n]));
    var hits := seq(|ops|, n requires 0 <= n < |ops| => SwapsAt(r, ops, n));
    forall n | 0 <= n < |ops|
      ensures counts[n + 1] == counts[n] + if hits[n] then 1 else 0
    {
      PrefixStep(r, ops, n);
    }
    CountWithinIff(counts, hits, 0);
    assert ops[..|ops|] == ops;
    assert forall n :: 0 <= n < |ops| ==> hits[n] == SwapsAt(r, ops, n);
  }

  /**
   The length stays within the limit over a run exactly when no operation takes a contact in, be it
   by replacement or into free room, while the length is at the limit.
   */
  lemma LengthWithinLimitIff(r: Routing, ops: seq<Op>)
    requires ValidRouting(r) && r.size <= r.table.maxSize
    ensures Run(r, ops).size <= r.table.maxSize <==> forall n :: 0 <= n < |ops| ==> RoomAt(r, ops, n)
  {
    var counts := seq(|ops| + 1, n requires 0 <= n <= |ops| => Run(r, ops[..n]).size);
    var hits := seq(|ops|, n requires 0 <= n < |ops| => TakesIn(Run(r, ops[..n]), ops[n]));
    forall n | 0 <= n < |ops|
      ensures counts[n + 1] == counts[n] + if hits[n] then 1 else 0
    {
      PrefixStep(r, ops, n);
      StepLengthens(Run(r, ops[..n]), ops[n]);
    }
    CountWithinIff(counts, hits, r.table.maxSize);
    assert ops[..|ops|] == ops;
    assert forall n :: 0 <= n < |ops| ==> RoomAt(r, ops, n) == (hits[n] ==> counts[n] < r.table.maxSize);
  }

  lemma FirstAdd(self: Id, a: Id, addr: Addr)
    ensures ValidRouting(New(self, 1, 0))
    ensures Step(New(self, 1, 0), Add(a, addr, 0)) == OneEntry(self, NewNode(a, addr))
  {
    var entry := NewNode(a, addr);
    assert [] + [entry] == [entry];
    SortedIsFixed([entry], ById());
  }

  lemma ReportChangesEntry(self: Id, a: Id, n: Node)
    requires n.id == a
    ensures ValidRouting(OneEntry(self, n))
    ensures forall e: Event :: !e.Responded? ==>
      Step(OneEntry(self, n), Report(a, e)) == OneEntry(self, Nodes.Apply(n, e))
  {
    assert StoredFar([]) == 0;
    forall e: Event | !e.Responded?
      ensures [n][0 := Nodes.Apply(n, e)] == [Nodes.Apply(n, e)]
    {
    }
  }

  /** A contact that failed twice after being asked, and another contact. */
  function FailTwice(a: Id, addr: Addr): seq<Op> {
    [Add(a, addr, 0)] + [Report(a, Requested(0))] + [Report(a, Failed)] + [Report(a, Failed)]
  }

  function OneEntry(self: Id, n: Node): Routing {
    Routing(self, 1, Table([], Bucket([n], 0), 1, 1))
  }

  lemma FailTwiceLeaves(self: Id, a: Id, addr: Addr)
    ensures ValidRouting(New(self, 1, 0))
    ensures Run(New(self, 1, 0), FailTwice(a, addr)) ==
      OneEntry(self, NewNode(a, addr).MarkOutgoingRequest(0).MarkError().MarkError())
  {
    var r0, n := New(self, 1, 0), NewNode(a, addr);
    var ops := [Add(a, addr, 0)];
    FirstAdd(self, a, addr);
    assert [] + [Add(a, addr, 0)] == ops;
    RunOneMore(r0, [], Add(a, addr, 0));
    ReportOneMore(self, r0, ops, n, Requested(0));
    ReportOneMore(self, r0, ops + [Report(a, Requested(0))], n.MarkOutgoingRequest(0), Failed);
    ReportOneMore(
      self, r0, ops + [Report(a, Requested(0))] + [Report(a, Failed)], n.MarkOutgoingRequest(0).MarkError(), Failed);
  }

  lemma ReportOneMore(self: Id, r0: Routing, ops: seq<Op>, n: Node, e: Event)
    requires ValidRouting(r0) && Run(r0, ops) == OneEntry(self, n) && !e.Responded?
    ensures Run(r0, ops + [Report(n.id, e)]) == OneEntry(self, Nodes.Apply(n, e))
  {
    ReportChangesEntry(self, n.id, n);
    RunOneMore(r0, ops, Report(n.id, e));
  }

  lemma ReplaceOnly(self: Id, n: Node, b: Id, addr: Addr)
    requires n.id != b && n.StatusAt(0) == Bad
    ensures ValidRouting(OneEntry(self, n)) && Step(OneEntry(self, n), Add(b, addr, 0)).size == 2
  {
    var r := OneEntry(self, n);
    assert StoredFar([]) == 0;
    AddRefinesMap(self, r.table, b, addr, 0);
    assert n in r.table.own.nodes;
  }

  /** The length can pass the limit: replacing the only entry of a table for one makes it two. */
  lemma LengthCanExceedLimit(self: Id, a: Id, b: Id, addr: Addr)
    requires a != b
    ensures ValidRouting(New(self, 1, 0))
    ensures Run(New(self, 1, 0), FailTwice(a, addr) + [Add(b, addr, 0)]).size == 2
  {
    FailTwiceLeaves(self, a, addr);
    ReplaceOnly(self, NewNode(a, addr).MarkOutgoingRequest(0).MarkError().MarkError(), b, addr);
    RunOneMore(New(self, 1, 0), FailTwice(a, addr), Add(b, addr, 0));
  }

  lemma RunOneMore(r: Routing, ops: seq<Op>, op: Op)
    requires ValidRouting(r)
    ensures Run(r, ops + [op]) == Step(Run(r, ops), op)
  {
    assert (ops + [op])[..|ops|] == ops;
  }

  /** The address an entry was added with, and what was reported for it since. */
  datatype Life = Life(addr: Addr, events: seq<Event>)

  /** The life of `x` since it last entered the table, if it ever did. */
  function LifeOf(r: Routing, ops: seq<Op>, x: Id): Option<Life>
    requires ValidRouting(r)
  {
    if ops == [] then None
    else
      ExtendLife(Run(r, ops[..|ops| - 1]), ops[|ops| - 1], LifeOf(r, ops[..|ops| - 1], x), x)
  }

  function ExtendLife(r: Routing, op: Op, life: Option<Life>, x: Id): Option<Life>
    requires ValidRouting(r)
  {
    match op
    case Add(id, addr, now) =>
      if id == x && Counted(AddResult(r, id, addr, now)) == 1 then Some(Life(addr, [])) else life
    case Report(id, event) =>
      if id == x && life.Some? then Some(life.value.(events := life.value.events + [event])) else life
  }

  /** Every stored entry has the address it was added with and the replay of what was reported since. */
  lemma {:induction false} EntryIsItsHistory(id: Id, maxSize: nat, start: Instant, ops: seq<Op>, x: Id)
    ensures ValidRouting(New(id, maxSize, start))
    ensures var r0 := New(id, maxSize, start); IsHistory(Run(r0, ops), x, LifeOf(r0, ops, x))
  {
    EmptyIsValid(id, maxSize, start);
    var r0 := New(id, maxSize, start);
    if ops != [] {
      EntryIsItsHistory(id, maxSize, start, ops[..|ops| - 1], x);
      StepKeepsHistory(Run(r0, ops[..|ops| - 1]), ops[|ops| - 1], LifeOf(r0, ops[..|ops| - 1], x), x);
    }
  }

  ghost predicate IsHistory(r: Routing, x: Id, life: Option<Life>) {
    match Lookup(r.id, r.table, x)
    case Some(n) => life.Some? && n == History(x, life.value.addr, life.value.events)
    case None => true
  }

  lemma StepKeepsHistory(r: Routing, op: Op, life: Option<Life>, x: Id)
    requires ValidRouting(r) && IsHistory(r, x, life)
    ensures IsHistory(Step(r, op), x, ExtendLife(r, op, life, x))
  {
    match op
    case Add(y, addr, now) => AddKeepsHistory(r, y, addr, now, life, x);
    case Report(y, event) => ReportKeepsHistory(r, y, event, life, x);
  }

  lemma ReportKeepsHistory(r: Routing, y: Id, event: Event, life: Option<Life>, x: Id)
    requires ValidRouting(r) && IsHistory(r, x, life)
    ensures IsHistory(Step(r, Report(y, event)), x, ExtendLife(r, Report(y, event), life, x))
  {
    TouchRefinesMap(r.id, r.table, y, RefreshFor(event), event);
    if life.Some? {
      var events := life.value.events;
      assert (events + [event])[..|events|] == events;
    }
  }

  lemma AddKeepsHistory(r: Routing, y: Id, addr: Addr, now: Instant, life: Option<Life>, x: Id)
    requires ValidRouting(r) && IsHistory(r, x, life)
    ensures IsHistory(Step(r, Add(y, addr, now)), x, ExtendLife(r, Add(y, addr, now), life, x))
  {
    AddRefinesMap(r.id, r.table, y, addr, now);
    var (u, result) := KBuckets.AddNode(r.id, r.table, y, addr, now);
    assert LookupChange(r.id, r.table, u, x, NewNode(y, addr), result);
  }

  /** In any run a stored entry is Bad exactly when it was asked and failed twice since its last answer. */
  lemma BadInRuns(id: Id, maxSize: nat, start: Instant, ops: seq<Op>, x: Id, now: Instant)
    ensures ValidRouting(New(id, maxSize, start))
    ensures var r0 := New(id, maxSize, start);
      match Lookup(id, Run(r0, ops).table, x)
      case Some(n) =>
        var life := LifeOf(r0, ops, x);
        life.Some?
        && (n.StatusAt(now) == Bad <==> EverAsked(life.value.events) && ErrorsSinceResponse(life.value.events) >= 2)
      case None => true
  {
    EntryIsItsHistory(id, maxSize, start, ops, x);
    match Lookup(id, Run(New(id, maxSize, start), ops).table, x)
    case Some(n) =>
      var life := LifeOf(New(id, maxSize, start), ops, x).value;
      BadFromHistory(x, life.addr, life.events, now);
    case None =>
  }

  /** Of the reports on a stored entry a response refreshes its bucket, and no other report any bucket. */
  lemma ReportRefreshes(r: Routing, id: Id, event: Event, k: nat)
    requires ValidRouting(r) && Lookup(r.id, r.table, id).Some? && k <= |r.table.far|
    ensures var mine := if Shared(r.id, id) < |r.table.far| then Shared(r.id, id) else |r.table.far|;
      BucketAt(Step(r, Report(id, event)).table, k).lastRefreshed ==
        if event.Responded? && k == mine then event.at else BucketAt(r.table, k).lastRefreshed
  {
  }

  // -- The table in place ----------------------------------------------------------------------

  class RoutingTable {
    const id: Id
    var size: nat
    const buckets: BucketTree

    ghost predicate Valid()
      reads this, buckets
    {
      buckets.Valid(id)
    }

    ghost function State(): Routing
      reads this, buckets
    {
      Routing(id, size, buckets.table)
    }

    constructor (id: Id, maxSize: Option<nat>, now: Instant)
      ensures Valid() && fresh(buckets)
      ensures State() == New(id, if maxSize.Some? then maxSize.value else 512, now)
    {
      this.id := id;
      size := 0;
      buckets := new BucketTree(id, if maxSize.Some? then maxSize.value else DEFAULT_MAX_SIZE, now);
    }

    method AddNode(nodeId: Id, addr: Addr, now: Instant) returns (r: InsertResult)
      requires Valid()
      modifies this, buckets
      ensures Valid()
      ensures r == AddResult(old(State()), nodeId, addr, now)
      ensures State() == Step(old(State()), Add(nodeId, addr, now))
    {
      ghost var after := Step(State(), Add(nodeId, addr, now));
      r := buckets.AddNode(id, nodeId, addr, now);
      assert after.table == buckets.table;
      size := size + Counted(r);
    }

    method MarkOutgoingRequest(nodeId: Id, now: Instant) returns (found: bool)
      requires Valid()
      modifies this, buckets
      ensures Valid()
      ensures found <==> Lookup(id, old(State()).table, nodeId).Some?
      ensures State() == Step(old(State()), Report(nodeId, Requested(now)))
    {
      var slot := buckets.GetMut(id, nodeId, None);
      if slot.None? {
        return false;
      }
      var n := buckets.Read(id, slot.value, nodeId);
      buckets.Write(id, slot.value, nodeId, n.MarkOutgoingRequest(now));
      return true;
    }

    method MarkResponse(nodeId: Id, now: Instant) returns (found: bool)
      requires Valid()
      modifies this, buckets
      ensures Valid()
      ensures found <==> Lookup(id, old(State()).table, nodeId).Some?
      ensures State() == Step(old(State()), Report(nodeId, Responded(now)))
    {
      RefreshKeepsEntries(id, buckets.table, nodeId, Some(now));
      var slot := buckets.GetMut(id, nodeId, Some(now));
      if slot.None? {
        return false;
      }
      var n := buckets.Read(id, slot.value, nodeId);
      buckets.Write(id, slot.value, nodeId, n.MarkResponse(now));
      return true;
    }

    method MarkError(nodeId: Id) returns (found: bool)
      requires Valid()
      modifies this, buckets
      ensures Valid()
      ensures found <==> Lookup(id, old(State()).table, nodeId).Some?
      ensures State() == Step(old(State()), Report(nodeId, Failed))
    {
      var slot := buckets.GetMut(id, nodeId, None);
      if slot.None? {
        return false;
      }
      var n := buckets.Read(id, slot.value, nodeId);
      buckets.Write(id, slot.value, nodeId, n.MarkError());
      return true;
    }

    method MarkLastQuery(nodeId: Id, now: Instant) returns (found: bool)
      requires Valid()
      modifies this, buckets
      ensures Valid()
      ensures found <==> Lookup(id, old(State()).table, nodeId).Some?
      ensures State() == Step(old(State()), Report(nodeId, Queried(now)))
    {
      var slot := buckets.GetMut(id, nodeId, None);
      if slot.None? {
        return false;
      }
      var n := buckets.Read(id, slot.value, nodeId);
      buckets.Write(id, slot.value, nodeId, n.MarkLastQuery(now));
      return true;
    }

    /** Collects every entry leaf by leaf and sorts. */
    method SortedByDistanceFrom(target: Id, now: Instant) returns (result: seq<Node>)
      requires Valid()
      ensures |buckets.table.far| <= ID_BITS
      ensures result == TableOrder.SortedByDistanceFrom(id, buckets.table, target, now)
    {
      result := CollectEntries();
      result := StableSort(result, ByRank(target, now));
    }

    method CollectEntries() returns (result: seq<Node>)
      requires Valid()
      ensures |buckets.table.far| <= ID_BITS
      ensures result == Entries(id, buckets.table)
    {
      ghost var todo, all := Walk(id, buckets.table, 0), Entries(id, buckets.table);
      ArenaIsForward(id, buckets.data, buckets.table);
      IterationTilesTheSpace(id, buckets.data, buckets.table);
      var leaves := new LeafIterator(buckets.data);
      ghost var ahead := Leaves(leaves.data, 0);
      result := [];
      while true
        invariant ahead == Pending(leaves.data, leaves.queue)
        invariant LeavesOf(ahead, todo)
        invariant result + Flatten(todo) == all
        decreases |todo|
      {
        var leaf := leaves.Next();
        if leaf.None? {
          return;
        }
        ahead := Pending(leaves.data, leaves.queue);
        TakeLeaf(leaf.value, ahead, todo, result, all);
        result := result + leaf.value.data.bucket.nodes;
        todo := todo[1..];
      }
    }
  }
}
