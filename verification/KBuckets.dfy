/**
 The routing table in its simple form: Kademlia k-buckets.

 `far[k]` holds entries that share exactly `k` leading bits with our own id, `own` holds the rest.
 Only `own` ever splits.  The arena tree of module BucketTree refines this form; here are the
 meaning of insertion as an update of a map from id to entry, and the bound on the depth.
 */
module KBuckets {
  import opened Ids
  import opened Nodes
  import opened Sorting
  import opened Wrappers

  const BUCKET_SIZE: nat := 8

  /** A bucket with fewer than 16 ids cannot hold nine, so no bucket of fewer than 4 bits splits. */
  const MAX_DEPTH: nat := 157

  datatype Bucket = Bucket(nodes: seq<Node>, lastRefreshed: Instant)

  datatype Table = Table(far: seq<Bucket>, own: Bucket, size: nat, maxSize: nat)

  datatype InsertResult = WasExisting | ReplacedBad(replaced: Node) | Added | Ignored

  function Empty(maxSize: nat, now: Instant): Table {
    Table([], Bucket([], now), 0, maxSize)
  }

  function BucketAt(t: Table, k: nat): Bucket {
    if k < |t.far| then t.far[k] else t.own
  }

  function PutBucket(t: Table, k: nat, b: Bucket): Table {
    if k < |t.far| then t.(far := t.far[k := b]) else t.(own := b)
  }

  function StoredFar(far: seq<Bucket>): nat {
    if far == [] then 0 else StoredFar(far[..|far| - 1]) + |far[|far| - 1].nodes|
  }

  function Stored(t: Table): nat {
    StoredFar(t.far) + |t.own.nodes|
  }

  // -- Searching a bucket ----------------------------------------------------------------------

  function FindId(nodes: seq<Node>, id: Id): (r: Option<nat>)
    ensures r.Some? ==> r.value < |nodes| && nodes[r.value].id == id
    ensures r.None? ==> forall n :: n in nodes ==> n.id != id
  {
    FindFirst(nodes, (n: Node) => n.id == id)
  }

  /** The first Bad entry. */
  function FindBad(nodes: seq<Node>, now: Instant): (r: Option<nat>)
    ensures r.Some? ==>
      && r.value < |nodes| && nodes[r.value].StatusAt(now) == Bad
      && forall i :: 0 <= i < r.value ==> nodes[i].StatusAt(now) != Bad
    ensures r.None? ==> forall n :: n in nodes ==> n.StatusAt(now) != Bad
  {
    FindFirst(nodes, (n: Node) => n.StatusAt(now) == Bad)
  }

  /** The entries whose bit `d` is `bit`. */
  function Half(nodes: seq<Node>, d: nat, bit: bool): (r: seq<Node>)
    requires d < ID_BITS
    ensures |r| <= |nodes|
    ensures forall n :: n in r <==> n in nodes && n.id[d] == bit
  {
    if nodes == [] then []
    else
      var n := nodes[|nodes| - 1];
      var r := Half(nodes[..|nodes| - 1], d, bit);
      assert nodes == nodes[..|nodes| - 1] + [n];
      if n.id[d] == bit then r + [n] else r
  }

  lemma {:induction false} HalfKeepsOrder(nodes: seq<Node>, d: nat, bit: bool)
    requires d < ID_BITS && AscendingIds(nodes)
    ensures AscendingIds(Half(nodes, d, bit))
  {
    if nodes != [] {
      HalfKeepsOrder(nodes[..|nodes| - 1], d, bit);
    }
  }

  lemma {:induction false} HalvesAddUp(nodes: seq<Node>, d: nat, bit: bool)
    requires d < ID_BITS
    ensures |Half(nodes, d, bit)| + |Half(nodes, d, !bit)| == |nodes|
  {
    if nodes != [] {
      HalvesAddUp(nodes[..|nodes| - 1], d, bit);
    }
  }

  // -- Insertion -------------------------------------------------------------------------------

  datatype LeafOutcome = Settled(bucket: Bucket, result: InsertResult) | Full

  /** What one bucket does with a new contact; `Full` leaves it to the caller to split or refuse. */
  function AddToBucket(b: Bucket, tableFull: bool, id: Id, addr: Addr, now: Instant): LeafOutcome {
    if FindId(b.nodes, id).Some? then Settled(b, WasExisting)
    else
      match FindBad(b.nodes, now)
      case Some(i) =>
        Settled(Bucket(StableSort(b.nodes[i := NewNode(id, addr)], ById()), now), ReplacedBad(b.nodes[i]))
      case None =>
        if tableFull then Settled(b, Ignored)
        else if |b.nodes| < BUCKET_SIZE then
          Settled(Bucket(StableSort(b.nodes + [NewNode(id, addr)], ById()), now), Added)
        else Full
  }

  /** Splits `own` on the first bit it does not fix; both halves count as refreshed. */
  function Split(self: Id, t: Table, now: Instant): Table
    requires |t.far| < ID_BITS
  {
    var d := |t.far|;
    Table(
      t.far + [Bucket(Half(t.own.nodes, d, !self[d]), now)],
      Bucket(Half(t.own.nodes, d, self[d]), now),
      t.size,
      t.maxSize)
  }

  function Grown(r: InsertResult): nat {
    if r == Added then 1 else 0
  }

  function Settle(t: Table, k: nat, b: Bucket, r: InsertResult): Table {
    PutBucket(t, k, b).(size := t.size + Grown(r))
  }

  /** Insertion, splitting the own bucket until the contact is settled. */
  function AddNode(self: Id, t: Table, id: Id, addr: Addr, now: Instant): (Table, InsertResult)
    requires Valid(self, t)
    decreases ID_BITS - |t.far|
  {
    var k := Shared(self, id);
    match AddToBucket(BucketAt(t, k), t.size == t.maxSize, id, addr, now)
    case Settled(b, r) => (Settle(t, k, b, r), r)
    case Full =>
      if k < |t.far| then (t, Ignored)
      else
        SplitIsDeepEnough(self, t, id);
        SplitKeepsValid(self, t, now);
        AddNode(self, Split(self, t, now), id, addr, now)
  }

  // -- Invariant -------------------------------------------------------------------------------

  ghost predicate BucketOk(b: Bucket) {
    |b.nodes| <= BUCKET_SIZE && AscendingIds(b.nodes)
  }

  ghost predicate ShareExactly(self: Id, nodes: seq<Node>, k: nat) {
    forall n :: n in nodes ==> Shared(self, n.id) == k
  }

  ghost predicate ShareAtLeast(self: Id, nodes: seq<Node>, k: nat) {
    forall n :: n in nodes ==> k <= Shared(self, n.id)
  }

  ghost predicate Valid(self: Id, t: Table) {
    && |t.far| <= MAX_DEPTH
    && (forall k :: 0 <= k < |t.far| ==> BucketOk(t.far[k]) && ShareExactly(self, t.far[k].nodes, k))
    && BucketOk(t.own) && ShareAtLeast(self, t.own.nodes, |t.far|)
    && t.size == Stored(t) <= t.maxSize
  }

  lemma EmptyIsValid(self: Id, maxSize: nat, now: Instant)
    ensures Valid(self, Empty(maxSize, now))
  {
  }

  /** Distinct numbers between `lo` and `hi` leave no more room than `hi - lo + 1`. */
  lemma {:induction false} Crowded(nodes: seq<Node>, id: Id, lo: int, hi: int)
    requires AscendingIds(nodes)
    requires forall n :: n in nodes ==> lo <= Num(n.id) <= hi && Num(n.id) != Num(id)
    requires lo <= Num(id) <= hi
    ensures |nodes| < hi - lo + 1
  {
    if nodes != [] {
      var last := nodes[|nodes| - 1];
      var rest := nodes[..|nodes| - 1];
      if Num(id) < Num(last.id) {
        Crowded(rest, id, lo, Num(last.id) - 1);
      } else {
        Crowded(rest, last.id, lo, Num(id) - 1);
      }
    }
  }

  /** Ids that share their first `|p|` bits number at most 2^(160-|p|). */
  lemma BlockCrowded(p: Bits, nodes: seq<Node>, id: Id)
    requires |p| <= ID_BITS && AscendingIds(nodes)
    requires p <= id && forall n :: n in nodes ==> p <= n.id && n.id != id
    ensures |nodes| < Pow2(ID_BITS - |p|)
  {
    forall n | n in nodes
      ensures Num(First(p)) <= Num(n.id) <= Num(Last(p)) && Num(n.id) != Num(id)
    {
      BlockIsPrefix(p, n.id);
      if Num(n.id) == Num(id) {
        NumInjective(n.id, id);
      }
    }
    BlockIsPrefix(p, id);
    Crowded(nodes, id, Num(First(p)), Num(Last(p)));
    BlockIsAligned(p);
  }

  lemma OwnEntriesHavePrefix(self: Id, t: Table)
    requires Valid(self, t)
    ensures forall n :: n in t.own.nodes ==> self[..|t.far|] <= n.id
  {
    forall n | n in t.own.nodes
      ensures self[..|t.far|] <= n.id
    {
      SharedAtLeast(self, n.id, |t.far|);
    }
  }

  /** Pigeonhole: a bucket of eight entries plus one more id spans at least four bits. */
  lemma SplitIsDeepEnough(self: Id, t: Table, id: Id)
    requires Valid(self, t)
    requires |t.own.nodes| == BUCKET_SIZE && FindId(t.own.nodes, id).None? && |t.far| <= Shared(self, id)
    ensures |t.far| < MAX_DEPTH
  {
    OwnEntriesHavePrefix(self, t);
    SharedAtLeast(self, id, |t.far|);
    BlockCrowded(self[..|t.far|], t.own.nodes, id);
  }

  lemma SplitSides(self: Id, nodes: seq<Node>, d: nat)
    requires d < ID_BITS && ShareAtLeast(self, nodes, d)
    ensures ShareExactly(self, Half(nodes, d, !self[d]), d)
    ensures ShareAtLeast(self, Half(nodes, d, self[d]), d + 1)
  {
    forall n | n in nodes
      ensures n.id[d] == self[d] <==> d < Shared(self, n.id)
    {
      SplitSide(self, n.id, d);
    }
  }

  lemma DeeperIsValid(self: Id, t: Table, side: Bucket, own: Bucket)
    requires Valid(self, t) && |t.far| < MAX_DEPTH
    requires BucketOk(side) && ShareExactly(self, side.nodes, |t.far|)
    requires BucketOk(own) && ShareAtLeast(self, own.nodes, |t.far| + 1)
    requires |side.nodes| + |own.nodes| == |t.own.nodes|
    ensures Valid(self, Table(t.far + [side], own, t.size, t.maxSize))
  {
    var far := t.far + [side];
    assert far[..|far| - 1] == t.far;
    assert StoredFar(far) == StoredFar(t.far) + |side.nodes|;
    forall k | 0 <= k < |far|
      ensures BucketOk(far[k]) && ShareExactly(self, far[k].nodes, k)
    {
      assert k < |t.far| ==> far[k] == t.far[k];
    }
  }

  lemma SplitKeepsValid(self: Id, t: Table, now: Instant)
    requires Valid(self, t) && |t.far| < MAX_DEPTH
    ensures Valid(self, Split(self, t, now))
  {
    var d := |t.far|;
    HalfKeepsOrder(t.own.nodes, d, self[d]);
    HalfKeepsOrder(t.own.nodes, d, !self[d]);
    HalvesAddUp(t.own.nodes, d, self[d]);
    SplitSides(self, t.own.nodes, d);
    DeeperIsValid(self, t, Bucket(Half(t.own.nodes, d, !self[d]), now), Bucket(Half(t.own.nodes, d, self[d]), now));
  }

  lemma SplitSide(self: Id, id: Id, d: nat)
    requires d < ID_BITS && d <= Shared(self, id)
    ensures id[d] == self[d] <==> d < Shared(self, id)
  {
    var k := Shared(self, id);
    SharedIs(self, id);
    if d < k {
      assert self[..k][d] == id[..k][d];
    }
  }

  lemma {:induction false} StoredUpdate(far: seq<Bucket>, k: nat, b: Bucket)
    requires k < |far|
    ensures StoredFar(far[k := b]) == StoredFar(far) - |far[k].nodes| + |b.nodes|
  {
    var n := |far| - 1;
    if k == n {
      assert far[k := b][..n] == far[..n];
    } else {
      StoredUpdate(far[..n], k, b);
      assert far[k := b][..n] == far[..n][k := b];
    }
  }

  lemma SettleKeepsValid(self: Id, t: Table, c: Bucket, r: InsertResult, entry: Node, now: Instant)
    requires Valid(self, t)
    requires BucketChanged(BucketAt(t, Shared(self, entry.id)), c, r, entry, t.size == t.maxSize, now)
    ensures Valid(self, Settle(t, Shared(self, entry.id), c, r))
  {
    var k := Shared(self, entry.id);
    if k < |t.far| {
      StoredUpdate(t.far, k, c);
    }
  }

  /** What bucket `b` may turn into when `entry` is offered to it, and with which result. */
  ghost predicate BucketChanged(b: Bucket, c: Bucket, r: InsertResult, entry: Node, tableFull: bool, now: Instant) {
    && BucketOk(c)
    && |c.nodes| == |b.nodes| + Grown(r)
    && (r == WasExisting <==> FindId(b.nodes, entry.id).Some?)
    && (r.ReplacedBad? <==> FindId(b.nodes, entry.id).None? && HasBad(b.nodes, now))
    && (r == Ignored <==> FindId(b.nodes, entry.id).None? && !HasBad(b.nodes, now) && tableFull)
    && (r == Added ==> |b.nodes| < BUCKET_SIZE)
    && match r
       case WasExisting => c == b
       case Ignored => c == b
       case Added => forall n :: n in c.nodes <==> n in b.nodes || n == entry
       case ReplacedBad(x) =>
         && FirstBad(b.nodes, x, now)
         && forall n :: n in c.nodes <==> (n in b.nodes && n != x) || n == entry
  }

  /** `x` is the Bad entry with the smallest id. */
  ghost predicate FirstBad(nodes: seq<Node>, x: Node, now: Instant) {
    && x in nodes && x.StatusAt(now) == Bad
    && forall n :: n in nodes && n.StatusAt(now) == Bad ==> Num(x.id) <= Num(n.id)
  }

  lemma ReplaceOk(nodes: seq<Node>, i: nat, entry: Node)
    requires i < |nodes| && AscendingIds(nodes) && FindId(nodes, entry.id).None?
    ensures var sorted := StableSort(nodes[i := entry], ById());
      && AscendingIds(sorted)
      && forall n :: n in sorted <==> (n in nodes && n != nodes[i]) || n == entry
  {
    var u := nodes[i := entry];
    assert DistinctIds(u);
    SortById(u);
    forall n
      ensures n in u <==> (n in nodes && n != nodes[i]) || n == entry
    {
      if n in nodes && n != nodes[i] {
        var j :| 0 <= j < |nodes| && nodes[j] == n;
        assert u[j] == n;
      }
      assert u[i] == entry;
    }
  }

  lemma AppendOk(nodes: seq<Node>, entry: Node)
    requires AscendingIds(nodes) && FindId(nodes, entry.id).None?
    ensures var sorted := StableSort(nodes + [entry], ById());
      && AscendingIds(sorted)
      && forall n :: n in sorted <==> n in nodes || n == entry
  {
    assert DistinctIds(nodes + [entry]);
    SortById(nodes + [entry]);
  }

  lemma FirstBadFound(nodes: seq<Node>, now: Instant)
    requires AscendingIds(nodes)
    ensures FindBad(nodes, now).Some? <==> HasBad(nodes, now)
    ensures FindBad(nodes, now).Some? ==> FirstBad(nodes, nodes[FindBad(nodes, now).value], now)
  {
  }

  lemma AddToBucketOk(b: Bucket, tableFull: bool, id: Id, addr: Addr, now: Instant)
    requires BucketOk(b)
    ensures match AddToBucket(b, tableFull, id, addr, now)
      case Full => !tableFull && |b.nodes| == BUCKET_SIZE && FindId(b.nodes, id).None? && !HasBad(b.nodes, now)
      case Settled(c, r) => BucketChanged(b, c, r, NewNode(id, addr), tableFull, now)
  {
    var entry := NewNode(id, addr);
    FirstBadFound(b.nodes, now);
    if FindId(b.nodes, id).None? {
      if HasBad(b.nodes, now) {
        ReplaceOk(b.nodes, FindBad(b.nodes, now).value, entry);
      } else {
        AppendOk(b.nodes, entry);
      }
    }
  }

  /** A bucket that passes a contact on is full and does not hold it. */
  lemma FullBucket(b: Bucket, tableFull: bool, id: Id, addr: Addr, now: Instant)
    requires BucketOk(b) && AddToBucket(b, tableFull, id, addr, now).Full?
    ensures |b.nodes| == BUCKET_SIZE && FindId(b.nodes, id).None?
  {
    AddToBucketOk(b, tableFull, id, addr, now);
  }

  lemma OfferKeepsValid(self: Id, t: Table, id: Id, addr: Addr, now: Instant)
    requires Valid(self, t)
    ensures var k := Shared(self, id);
      match AddToBucket(BucketAt(t, k), t.size == t.maxSize, id, addr, now)
      case Settled(c, r) => Valid(self, Settle(t, k, c, r))
      case Full => true
  {
    var k := Shared(self, id);
    AddToBucketOk(BucketAt(t, k), t.size == t.maxSize, id, addr, now);
    match AddToBucket(BucketAt(t, k), t.size == t.maxSize, id, addr, now)
    case Settled(c, r) => SettleKeepsValid(self, t, c, r, NewNode(id, addr), now);
    case Full =>
  }

  lemma {:induction false} AddKeepsValid(self: Id, t: Table, id: Id, addr: Addr, now: Instant)
    requires Valid(self, t)
    ensures Valid(self, AddNode(self, t, id, addr, now).0)
    ensures |t.far| <= |AddNode(self, t, id, addr, now).0.far|
    ensures AddNode(self, t, id, addr, now).0.maxSize == t.maxSize
    decreases ID_BITS - |t.far|
  {
    var k := Shared(self, id);
    OfferKeepsValid(self, t, id, addr, now);
    if AddToBucket(BucketAt(t, k), t.size == t.maxSize, id, addr, now).Full? && |t.far| <= k {
      FullBucket(BucketAt(t, k), t.size == t.maxSize, id, addr, now);
      SplitIsDeepEnough(self, t, id);
      SplitKeepsValid(self, t, now);
      AddKeepsValid(self, Split(self, t, now), id, addr, now);
    }
  }

  // -- The table as a map from id to entry -----------------------------------------------------

  function FindIn(nodes: seq<Node>, id: Id): (r: Option<Node>)
    ensures r.Some? ==> r.value.id == id
  {
    match FindId(nodes, id)
    case Some(i) => Some(nodes[i])
    case None => None
  }

  function Lookup(self: Id, t: Table, id: Id): Option<Node> {
    FindIn(BucketAt(t, Shared(self, id)).nodes, id)
  }

  lemma LookupIs(nodes: seq<Node>, n: Node)
    requires AscendingIds(nodes) && n in nodes
    ensures FindIn(nodes, n.id) == Some(n)
  {
  }

  /** An entry is found by its id exactly when it is stored in some bucket. */
  lemma LookupFinds(self: Id, t: Table, n: Node)
    requires Valid(self, t)
    ensures Lookup(self, t, n.id) == Some(n)
      <==> n in t.own.nodes || exists k :: 0 <= k < |t.far| && n in t.far[k].nodes
  {
    if n in t.own.nodes {
      LookupIs(t.own.nodes, n);
    }
    forall k | 0 <= k < |t.far| && n in t.far[k].nodes
      ensures Lookup(self, t, n.id) == Some(n)
    {
      LookupIs(t.far[k].nodes, n);
    }
  }

  lemma HalfLookup(nodes: seq<Node>, d: nat, id: Id)
    requires d < ID_BITS && AscendingIds(nodes) && AscendingIds(Half(nodes, d, id[d]))
    ensures FindIn(Half(nodes, d, id[d]), id) == FindIn(nodes, id)
  {
    match FindId(nodes, id)
    case Some(i) => LookupIs(Half(nodes, d, id[d]), nodes[i]);
    case None =>
  }

  lemma SplitKeepsLookup(self: Id, t: Table, now: Instant, id: Id)
    requires Valid(self, t) && |t.far| < MAX_DEPTH
    ensures Lookup(self, Split(self, t, now), id) == Lookup(self, t, id)
  {
    var d := |t.far|;
    if d <= Shared(self, id) {
      SplitSide(self, id, d);
      assert BucketAt(Split(self, t, now), Shared(self, id)).nodes == Half(t.own.nodes, d, id[d]);
      HalfKeepsOrder(t.own.nodes, d, id[d]);
      HalfLookup(t.own.nodes, d, id);
    }
  }

  ghost predicate HasBad(nodes: seq<Node>, now: Instant) {
    exists n :: n in nodes && n.StatusAt(now) == Bad
  }

  /**
   No place is left for `id`: the table is full, or its bucket holds eight entries that all share
   exactly as many leading bits with us as `id` does.
   */
  ghost predicate NoRoom(self: Id, t: Table, id: Id) {
    var k := Shared(self, id);
    var b := BucketAt(t, k);
    t.size == t.maxSize || (|b.nodes| == BUCKET_SIZE && forall n :: n in b.nodes ==> Shared(self, n.id) == k)
  }

  /** The entry found under `x` before (in `t`) and after (in `u`) offering `entry`. */
  ghost predicate LookupChange(self: Id, t: Table, u: Table, x: Id, entry: Node, r: InsertResult) {
    match r
    case WasExisting => Lookup(self, u, x) == Lookup(self, t, x)
    case Ignored => Lookup(self, u, x) == Lookup(self, t, x)
    case Added => Lookup(self, u, x) == if x == entry.id then Some(entry) else Lookup(self, t, x)
    case ReplacedBad(bad) =>
      Lookup(self, u, x) == if x == entry.id then Some(entry) else if x == bad.id then None else Lookup(self, t, x)
  }

  /** Insertion as an update of the map from id to entry, with the exact condition of each result. */
  ghost predicate AddsToMap(self: Id, t: Table, u: Table, r: InsertResult, entry: Node, now: Instant) {
    var b := BucketAt(t, Shared(self, entry.id));
    && (r == WasExisting <==> Lookup(self, t, entry.id).Some?)
    && (r.ReplacedBad? <==> Lookup(self, t, entry.id).None? && HasBad(b.nodes, now))
    && (r == Ignored <==> Lookup(self, t, entry.id).None? && !HasBad(b.nodes, now) && NoRoom(self, t, entry.id))
    && (forall x: Id :: LookupChange(self, t, u, x, entry, r))
    && u.size == t.size + Grown(r)
    && (r.ReplacedBad? ==> FirstBad(b.nodes, r.replaced, now) && Lookup(self, t, r.replaced.id) == Some(r.replaced))
  }

  lemma SettleChangesLookup(
    self: Id, t: Table, c: Bucket, r: InsertResult, entry: Node, now: Instant, x: Id)
    requires Valid(self, t)
    requires BucketChanged(BucketAt(t, Shared(self, entry.id)), c, r, entry, t.size == t.maxSize, now)
    ensures LookupChange(self, t, Settle(t, Shared(self, entry.id), c, r), x, entry, r)
  {
    var k := Shared(self, entry.id);
    var b := BucketAt(t, k);
    var u := Settle(t, k, c, r);
    if Shared(self, x) == k || (|t.far| <= k && |t.far| <= Shared(self, x)) {
      BucketChange(self, t, u, b, c, x, entry, r);
    } else {
      BucketKept(self, t, u, x, entry, r);
    }
  }

  lemma AddSettled(self: Id, t: Table, c: Bucket, r: InsertResult, entry: Node, now: Instant)
    requires Valid(self, t)
    requires BucketChanged(BucketAt(t, Shared(self, entry.id)), c, r, entry, t.size == t.maxSize, now)
    ensures AddsToMap(self, t, Settle(t, Shared(self, entry.id), c, r), r, entry, now)
  {
    var u := Settle(t, Shared(self, entry.id), c, r);
    forall x: Id
      ensures LookupChange(self, t, u, x, entry, r)
    {
      SettleChangesLookup(self, t, c, r, entry, now, x);
    }
    if r.ReplacedBad? {
      LookupFinds(self, t, r.replaced);
    }
  }

  lemma BucketKept(self: Id, t: Table, u: Table, x: Id, entry: Node, r: InsertResult)
    requires Valid(self, t)
    requires BucketAt(u, Shared(self, x)) == BucketAt(t, Shared(self, x))
    requires var (j, k) := (Shared(self, x), Shared(self, entry.id)); j != k && (j < |t.far| || k < |t.far|)
    requires r.ReplacedBad? ==> r.replaced in BucketAt(t, Shared(self, entry.id)).nodes
    ensures LookupChange(self, t, u, x, entry, r)
  {
  }

  /** How a lookup changes when bucket `b` becomes `c`. */
  lemma BucketChange(self: Id, t: Table, u: Table, b: Bucket, c: Bucket, x: Id, entry: Node, r: InsertResult)
    requires AscendingIds(b.nodes) && AscendingIds(c.nodes)
    requires BucketAt(t, Shared(self, x)) == b && BucketAt(u, Shared(self, x)) == c
    requires match r
      case WasExisting => c == b
      case Ignored => c == b
      case Added =>
        FindId(b.nodes, entry.id).None? && forall n :: n in c.nodes <==> n in b.nodes || n == entry
      case ReplacedBad(bad) =>
        && FindId(b.nodes, entry.id).None? && bad in b.nodes
        && forall n :: n in c.nodes <==> (n in b.nodes && n != bad) || n == entry
    ensures LookupChange(self, t, u, x, entry, r)
  {
    match Lookup(self, t, x) {
      case Some(n) =>
        if n in c.nodes {
          LookupIs(c.nodes, n);
        }
      case None =>
    }
    if x == entry.id && entry in c.nodes {
      LookupIs(c.nodes, entry);
    }
    match FindId(c.nodes, x) {
      case Some(i) =>
        if r.ReplacedBad? && c.nodes[i] in b.nodes {
          LookupIs(b.nodes, c.nodes[i]);
          LookupIs(b.nodes, r.replaced);
        }
      case None =>
    }
  }

  /** Splits move entries but leave the condition of every result alone. */
  lemma SplitKeepsRoom(self: Id, t: Table, now: Instant, id: Id)
    requires Valid(self, t) && |t.far| < MAX_DEPTH && |t.far| <= Shared(self, id)
    requires |t.own.nodes| == BUCKET_SIZE && !HasBad(t.own.nodes, now) && t.size != t.maxSize
    ensures NoRoom(self, Split(self, t, now), id) <==> NoRoom(self, t, id)
    ensures !HasBad(BucketAt(Split(self, t, now), Shared(self, id)).nodes, now)
  {
    var d := |t.far|;
    var k := Shared(self, id);
    SplitSide(self, id, d);
    SplitKeepsValid(self, t, now);
    HalvesAddUp(t.own.nodes, d, id[d]);
    var mine, other := Half(t.own.nodes, d, id[d]), Half(t.own.nodes, d, !id[d]);
    assert BucketAt(Split(self, t, now), k).nodes == mine;
    if |mine| < BUCKET_SIZE {
      var n := other[0];
      assert n in other;
      SplitSide(self, n.id, d);
      assert n in t.own.nodes && Shared(self, n.id) != k;
    } else {
      assert forall n :: n in t.own.nodes && n.id[d] == !id[d] ==> n in other;
    }
  }

  lemma SplitThenAdd(self: Id, t: Table, u: Table, r: InsertResult, entry: Node, now: Instant)
    requires Valid(self, t) && |t.far| < MAX_DEPTH && |t.far| <= Shared(self, entry.id)
    requires |t.own.nodes| == BUCKET_SIZE && !HasBad(t.own.nodes, now) && t.size != t.maxSize
    requires AddsToMap(self, Split(self, t, now), u, r, entry, now)
    ensures AddsToMap(self, t, u, r, entry, now)
  {
    var s := Split(self, t, now);
    forall x: Id
      ensures LookupChange(self, s, u, x, entry, r) ==> LookupChange(self, t, u, x, entry, r)
    {
      SplitKeepsLookup(self, t, now, x);
    }
    SplitKeepsLookup(self, t, now, entry.id);
    SplitKeepsRoom(self, t, now, entry.id);
  }

  lemma {:induction false} AddRefinesMap(self: Id, t: Table, id: Id, addr: Addr, now: Instant)
    requires Valid(self, t)
    ensures var (u, r) := AddNode(self, t, id, addr, now); AddsToMap(self, t, u, r, NewNode(id, addr), now)
    decreases ID_BITS - |t.far|
  {
    var k := Shared(self, id);
    var b := BucketAt(t, k);
    var o := AddToBucket(b, t.size == t.maxSize, id, addr, now);
    AddToBucketOk(b, t.size == t.maxSize, id, addr, now);
    if o.Settled? {
      AddSettled(self, t, o.bucket, o.result, NewNode(id, addr), now);
    } else if |t.far| <= k {
      SplitIsDeepEnough(self, t, id);
      SplitKeepsValid(self, t, now);
      var s := Split(self, t, now);
      AddRefinesMap(self, s, id, addr, now);
      var (u, r) := AddNode(self, s, id, addr, now);
      SplitThenAdd(self, t, u, r, NewNode(id, addr), now);
    }
  }

  /** An id whose bucket is still ours after the insertion was not refused, unless the table is full. */
  lemma {:induction false} OwnBucketNeverRefuses(self: Id, t: Table, id: Id, addr: Addr, now: Instant)
    requires Valid(self, t) && t.size < t.maxSize
    ensures var (u, r) := AddNode(self, t, id, addr, now);
      r == Ignored ==> Shared(self, id) < |u.far| && |u.far[Shared(self, id)].nodes| == 8
                       && !HasBad(u.far[Shared(self, id)].nodes, now)
    decreases ID_BITS - |t.far|
  {
    var k := Shared(self, id);
    AddToBucketOk(BucketAt(t, k), t.size == t.maxSize, id, addr, now);
    if AddToBucket(BucketAt(t, k), t.size == t.maxSize, id, addr, now).Full? && |t.far| <= k {
      SplitIsDeepEnough(self, t, id);
      SplitKeepsValid(self, t, now);
      OwnBucketNeverRefuses(self, Split(self, t, now), id, addr, now);
    }
  }

  /** From `t` to `u` the bucket of a contact taken in and those that come from splitting are refreshed, no others. */
  ghost predicate RefreshesExactly(self: Id, t: Table, u: Table, r: InsertResult, id: Id, now: Instant) {
    && |u.far| >= |t.far|
    && forall k :: 0 <= k <= |u.far| ==>
         BucketAt(u, k).lastRefreshed ==
           if RefreshedNow(self, t, u, r, id, k) then now else BucketAt(t, k).lastRefreshed
  }

  predicate RefreshedNow(self: Id, t: Table, u: Table, r: InsertResult, id: Id, k: nat) {
    var mine := if Shared(self, id) < |u.far| then Shared(self, id) else |u.far|;
    (k == mine && (r.Added? || r.ReplacedBad?)) || (k >= |t.far| && |u.far| > |t.far|)
  }

  lemma SettleRefreshes(self: Id, t: Table, id: Id, addr: Addr, now: Instant)
    requires AddToBucket(BucketAt(t, Shared(self, id)), t.size == t.maxSize, id, addr, now).Settled?
    ensures var o := AddToBucket(BucketAt(t, Shared(self, id)), t.size == t.maxSize, id, addr, now);
      RefreshesExactly(self, t, Settle(t, Shared(self, id), o.bucket, o.result), o.result, id, now)
  {
  }

  lemma SplitRefreshes(self: Id, t: Table, u: Table, r: InsertResult, id: Id, now: Instant)
    requires |t.far| < ID_BITS && RefreshesExactly(self, Split(self, t, now), u, r, id, now)
    ensures RefreshesExactly(self, t, u, r, id, now)
  {
    var s := Split(self, t, now);
    assert forall k :: 0 <= k < |t.far| ==> BucketAt(s, k) == BucketAt(t, k);
    assert forall k :: |t.far| <= k ==> BucketAt(s, k).lastRefreshed == now;
  }

  /** Insertion refreshes the bucket of a contact it takes in and the buckets it splits. */
  lemma {:induction false} AddRefreshes(self: Id, t: Table, id: Id, addr: Addr, now: Instant)
    requires Valid(self, t)
    ensures var (u, r) := AddNode(self, t, id, addr, now); RefreshesExactly(self, t, u, r, id, now)
    decreases ID_BITS - |t.far|
  {
    var o := AddToBucket(BucketAt(t, Shared(self, id)), t.size == t.maxSize, id, addr, now);
    if o.Settled? {
      SettleRefreshes(self, t, id, addr, now);
    } else if |t.far| <= Shared(self, id) {
      FullBucket(BucketAt(t, Shared(self, id)), t.size == t.maxSize, id, addr, now);
      SplitIsDeepEnough(self, t, id);
      SplitKeepsValid(self, t, now);
      AddRefreshes(self, Split(self, t, now), id, addr, now);
      var (u, r) := AddNode(self, Split(self, t, now), id, addr, now);
      SplitRefreshes(self, t, u, r, id, now);
    }
  }

  // -- Updating an entry -----------------------------------------------------------------------

  /** The table after a hit for `id`: its bucket counts as refreshed at the given time. */
  function Refreshed(self: Id, t: Table, id: Id, refresh: Option<Instant>): Table {
    var k := Shared(self, id);
    match refresh
    case Some(at) => PutBucket(t, k, BucketAt(t, k).(lastRefreshed := at))
    case None => t
  }

  /** The table with the entry for `id`, if there is one, replaced by `entry`. */
  function Overwritten(self: Id, t: Table, id: Id, entry: Node): Table {
    var k := Shared(self, id);
    var b := BucketAt(t, k);
    match FindId(b.nodes, id)
    case Some(i) => PutBucket(t, k, b.(nodes := b.nodes[i := entry]))
    case None => t
  }

  /** An event reported for `id`: only an entry already stored takes notice. */
  function Touch(self: Id, t: Table, id: Id, refresh: Option<Instant>, e: Event): Table {
    match Lookup(self, t, id)
    case Some(n) => Overwritten(self, Refreshed(self, t, id, refresh), id, Apply(n, e))
    case None => t
  }

  lemma SameSizeKeepsValid(self: Id, t: Table, k: nat, b: Bucket)
    requires Valid(self, t) && BucketOk(b) && |b.nodes| == |BucketAt(t, k).nodes|
    requires if k < |t.far| then ShareExactly(self, b.nodes, k) else ShareAtLeast(self, b.nodes, |t.far|)
    ensures Valid(self, PutBucket(t, k, b))
  {
    if k < |t.far| {
      StoredUpdate(t.far, k, b);
    }
  }

  lemma RefreshKeepsEntries(self: Id, t: Table, id: Id, refresh: Option<Instant>)
    requires Valid(self, t)
    ensures Valid(self, Refreshed(self, t, id, refresh))
    ensures forall x: Id :: Lookup(self, Refreshed(self, t, id, refresh), x) == Lookup(self, t, x)
  {
    var k := Shared(self, id);
    if refresh.Some? {
      SameSizeKeepsValid(self, t, k, BucketAt(t, k).(lastRefreshed := refresh.value));
    }
    forall x: Id
      ensures Lookup(self, Refreshed(self, t, id, refresh), x) == Lookup(self, t, x)
    {
      assert BucketAt(Refreshed(self, t, id, refresh), Shared(self, x)).nodes == BucketAt(t, Shared(self, x)).nodes;
    }
  }

  lemma OverwriteKeepsValid(self: Id, t: Table, id: Id, entry: Node)
    requires Valid(self, t) && entry.id == id
    ensures Valid(self, Overwritten(self, t, id, entry))
    ensures Overwritten(self, t, id, entry).size == t.size
  {
    var k := Shared(self, id);
    var b := BucketAt(t, k);
    match FindId(b.nodes, id)
    case Some(i) =>
      var c := b.(nodes := b.nodes[i := entry]);
      assert forall n :: n in c.nodes ==> n in b.nodes || n == entry;
      SameSizeKeepsValid(self, t, k, c);
    case None =>
  }

  lemma FindAfterOverwrite(nodes: seq<Node>, i: nat, entry: Node, x: Id)
    requires i < |nodes| && nodes[i].id == entry.id && AscendingIds(nodes)
    ensures FindIn(nodes[i := entry], x) == if x == entry.id then Some(entry) else FindIn(nodes, x)
  {
    var u := nodes[i := entry];
    assert u[i] == entry && AscendingIds(u);
    LookupIs(u, entry);
    if x != entry.id {
      match FindId(nodes, x) {
        case Some(j) =>
          assert u[j] == nodes[j];
          LookupIs(u, u[j]);
        case None =>
          assert forall n :: n in u ==> n.id != x;
      }
    }
  }

  lemma OverwriteLookup(self: Id, t: Table, id: Id, entry: Node, x: Id)
    requires Valid(self, t) && entry.id == id && Lookup(self, t, id).Some?
    ensures Lookup(self, Overwritten(self, t, id, entry), x) == if x == id then Some(entry) else Lookup(self, t, x)
  {
    var k := Shared(self, id);
    var nodes := BucketAt(t, k).nodes;
    FindAfterOverwrite(nodes, FindId(nodes, id).value, entry, x);
    var u := Overwritten(self, t, id, entry);
    if Shared(self, x) == k || (|t.far| <= k && |t.far| <= Shared(self, x)) {
      assert BucketAt(u, Shared(self, x)).nodes == nodes[FindId(nodes, id).value := entry];
    } else {
      assert BucketAt(u, Shared(self, x)) == BucketAt(t, Shared(self, x));
    }
  }

  /** An event changes the entry it is for, if stored, and nothing else. */
  lemma TouchRefinesMap(self: Id, t: Table, id: Id, refresh: Option<Instant>, e: Event)
    requires Valid(self, t)
    ensures var u := Touch(self, t, id, refresh, e);
      && Valid(self, u) && u.size == t.size && u.maxSize == t.maxSize && |u.far| == |t.far|
      && forall x: Id :: Lookup(self, u, x) ==
           if x == id && Lookup(self, t, id).Some? then Some(Apply(Lookup(self, t, id).value, e))
           else Lookup(self, t, x)
    ensures refresh.Some? && Lookup(self, t, id).Some? ==>
      BucketAt(Touch(self, t, id, refresh, e), Shared(self, id)).lastRefreshed == refresh.value
  {
    match Lookup(self, t, id)
    case Some(n) =>
      RefreshKeepsEntries(self, t, id, refresh);
      var r := Refreshed(self, t, id, refresh);
      OverwriteKeepsValid(self, r, id, Apply(n, e));
      forall x: Id
        ensures Lookup(self, Overwritten(self, r, id, Apply(n, e)), x) ==
          if x == id then Some(Apply(n, e)) else Lookup(self, t, x)
      {
        OverwriteLookup(self, r, id, Apply(n, e), x);
      }
    case None =>
  }
}
