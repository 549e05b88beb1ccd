/**
 The store of mutable items: one item per target, newer sequence numbers win, the least recently
 updated item goes when there is no room.
 */
module MutableItems {
  import opened Ids
  import opened Wrappers

  datatype Item = Item(
    key: seq<Byte>,
    sig: seq<Byte>,
    sequence: int,
    value: seq<Byte>,
    salt: Option<seq<Byte>>,
    lastUpdated: Instant)

  type Items = map<Id, Item>

  ghost predicate IsOldest(m: Items, t: Id) {
    t in m && forall u :: u in m ==> m[t].lastUpdated <= m[u].lastUpdated
  }

  /** One least recently updated item gone; among equally old ones any may be picked. */
  ghost predicate OneEvicted(m: Items, r: Items) {
    if m == map[] then r == m else exists t :: IsOldest(m, t) && r == m - {t}
  }

  /** The store before inserting: one item less when a new target finds it full. */
  ghost predicate MadeRoom(m: Items, max: nat, target: Id, room: Items) {
    if target !in m && |m| >= max then OneEvicted(m, room) else room == m
  }

  ghost predicate Stored(m: Items, max: nat, target: Id, item: Item, r: Items, stored: bool) {
    if target in m && m[target].sequence >= item.sequence then r == m && !stored
    else stored && exists room: Items :: MadeRoom(m, max, target, room) && r == room[target := item]
  }

  /** Everything removed is no newer than anything kept. */
  ghost predicate OldestRemoved(m: Items, r: Items) {
    && r.Keys <= m.Keys
    && (forall t :: t in r ==> r[t] == m[t])
    && forall t, u :: t in m && t !in r && u in r ==> m[t].lastUpdated <= r[u].lastUpdated
  }

  lemma EvictionShrinks(m: Items, r: Items)
    requires OneEvicted(m, r) && m != map[]
    ensures |r| == |m| - 1 && OldestRemoved(m, r)
  {
    var t :| IsOldest(m, t) && r == m - {t};
    assert r.Keys == m.Keys - {t};
  }

  /** With room for at least one item a store never goes past the limit once within it. */
  lemma StoreKeepsLimit(m: Items, max: nat, target: Id, item: Item, r: Items, stored: bool)
    requires Stored(m, max, target, item, r, stored) && |m| <= max && max >= 1
    ensures |r| <= max
  {
    if stored {
      var room: Items :| MadeRoom(m, max, target, room) && r == room[target := item];
      RoomFits(m, max, target, room);
      InsertKeys(room, target, item);
    }
  }

  /**
   An item is refused, and nothing changes, exactly when its sequence number is no greater than that
   of the item stored for its target.  Storing it evicts nothing unless the target is new and there is
   no room; then one item goes that no other is older than.
   */
  lemma StoredExactly(m: Items, max: nat, target: Id, item: Item, r: Items, stored: bool)
    requires Stored(m, max, target, item, r, stored)
    ensures stored <==> target !in m || item.sequence > m[target].sequence
    ensures !stored ==> r == m
    ensures stored && (target in m || |m| < max || m == map[]) ==> r == m[target := item]
    ensures stored && target !in m && |m| >= max && m != map[] ==>
      exists t: Id :: IsOldest(m, t) && r == (m - {t})[target := item]
  {
    if stored {
      var room: Items :| MadeRoom(m, max, target, room) && r == room[target := item];
    }
  }

  lemma InsertKeys(m: Items, t: Id, item: Item)
    ensures |m[t := item]| == |m.Keys + {t}|
  {
    assert m[t := item].Keys == m.Keys + {t};
  }

  lemma RoomFits(m: Items, max: nat, target: Id, room: Items)
    requires MadeRoom(m, max, target, room) && |m| <= max && max >= 1
    ensures |room.Keys + {target}| <= max
  {
    if target in m {
      assert room.Keys + {target} == m.Keys;
    } else if |m| >= max {
      assert m.Keys != {};
      EvictionShrinks(m, room);
    }
  }

  /** A limit of zero is not kept: the item is stored all the same. */
  lemma ZeroLimitIsExceeded(target: Id, item: Item)
    ensures Stored(map[], 0, target, item, map[target := item], true) && |map[target := item]| > 0
  {
    var room: Items := map[];
    assert map[target := item] == room[target := item];
    assert MadeRoom(map[], 0, target, room);
  }

  // -- Runs ------------------------------------------------------------------------------------

  datatype Op = Store(target: Id, item: Item) | GarbageCollect

  ghost predicate Collected(m: Items, max: nat, r: Items) {
    OldestRemoved(m, r) && |r| == if |m| <= max then |m| else max
  }

  ghost predicate Step(m: Items, max: nat, op: Op, r: Items) {
    match op
    case Store(target, item) => Stored(m, max, target, item, r, true) || Stored(m, max, target, item, r, false)
    case GarbageCollect => Collected(m, max, r)
  }

  ghost predicate IsRun(states: seq<Items>, max: nat, ops: seq<Op>) {
    && |states| == |ops| + 1 && states[0] == map[]
    && forall n :: 0 <= n < |ops| ==> Step(states[n], max, ops[n], states[n + 1])
  }

  /** Every run from an empty store stays within the limit exactly when the limit is at least one. */
  lemma RunsKeepLimitIff(max: nat)
    ensures max >= 1 <==>
      forall states: seq<Items>, ops: seq<Op> :: IsRun(states, max, ops) ==> |states[|ops|]| <= max
  {
    if max >= 1 {
      forall states: seq<Items>, ops: seq<Op> | IsRun(states, max, ops)
        ensures |states[|ops|]| <= max
      {
        RunKeepsLimit(states, max, ops);
      }
    } else {
      var item := Item([], [], 0, [], None, 0);
      var target := First([]);
      ZeroLimitIsExceeded(target, item);
      var states: seq<Items> := [map[], map[target := item]];
      var ops := [Store(target, item)];
      assert Step(states[0], max, ops[0], states[1]);
      assert IsRun(states, max, ops);
    }
  }

  lemma {:induction false} RunKeepsLimit(states: seq<Items>, max: nat, ops: seq<Op>)
    requires IsRun(states, max, ops) && max >= 1
    ensures |states[|ops|]| <= max
  {
    if ops != [] {
      var n := |ops| - 1;
      RunKeepsLimit(states[..n + 1], max, ops[..n]);
      assert Step(states[n], max, ops[n], states[n + 1]);
      match ops[n]
      case Store(target, item) =>
        if Stored(states[n], max, target, item, states[n + 1], true) {
          StoreKeepsLimit(states[n], max, target, item, states[n + 1], true);
        }
      case GarbageCollect =>
    }
  }

  /** What was offered for `target` since it last entered the store. */
  function Offers(states: seq<Items>, ops: seq<Op>, target: Id): seq<int>
    requires |states| == |ops| + 1
  {
    if ops == [] then []
    else
      var n := |ops| - 1;
      ExtendOffers(states[n], ops[n], Offers(states[..n + 1], ops[..n], target), target)
  }

  function ExtendOffers(m: Items, op: Op, offers: seq<int>, target: Id): seq<int> {
    var since := if target in m then offers else [];
    if op.Store? && op.target == target then since + [op.item.sequence] else since
  }

  ghost predicate IsMax(offers: seq<int>, s: int) {
    s in offers && forall o :: o in offers ==> o <= s
  }

  /** The sequence number held for a target is the greatest offered since it last entered. */
  lemma {:induction false} HeldIsGreatestOffer(states: seq<Items>, max: nat, ops: seq<Op>, target: Id)
    requires IsRun(states, max, ops) && target in states[|ops|]
    ensures IsMax(Offers(states, ops, target), states[|ops|][target].sequence)
  {
    var n := |ops| - 1;
    assert Step(states[n], max, ops[n], states[n + 1]);
    if target in states[n] {
      HeldIsGreatestOffer(states[..n + 1], max, ops[..n], target);
    }
    StepKeepsGreatest(states[n], max, ops[n], states[n + 1], Offers(states[..n + 1], ops[..n], target), target);
  }

  lemma StepKeepsGreatest(m: Items, max: nat, op: Op, r: Items, offers: seq<int>, target: Id)
    requires Step(m, max, op, r) && target in r && (target in m ==> IsMax(offers, m[target].sequence))
    ensures IsMax(ExtendOffers(m, op, offers, target), r[target].sequence)
  {
    StepOnTarget(m, max, op, r, target);
  }

  /** One step at a stored target: kept as it was, or replaced by a strictly greater sequence number. */
  lemma StepOnTarget(m: Items, max: nat, op: Op, r: Items, target: Id)
    requires Step(m, max, op, r) && target in r
    ensures target in m && !(op.Store? && op.target == target) ==> r[target] == m[target]
    ensures target !in m ==> op.Store? && op.target == target && r[target] == op.item
    ensures target in m && op.Store? && op.target == target ==>
      if op.item.sequence > m[target].sequence then r[target] == op.item else r[target] == m[target]
  {
    if op.Store? {
      StoreOnTarget(m, max, op.target, op.item, r, target);
    }
  }

  lemma StoreOnTarget(m: Items, max: nat, t: Id, item: Item, r: Items, target: Id)
    requires (Stored(m, max, t, item, r, true) || Stored(m, max, t, item, r, false)) && target in r
    ensures t != target ==> target in m && r[target] == m[target]
    ensures t == target ==> r[target] == if t in m && m[t].sequence >= item.sequence then m[t] else item
  {
  }

  // -- In place --------------------------------------------------------------------------------

  class MutableItemStore {
    var items: Items
    const maxItems: nat

    constructor (maxItems: nat)
      ensures items == map[] && this.maxItems == maxItems
    {
      items := map[];
      this.maxItems := maxItems;
    }

    /** Keeps the item unless one with the same or a greater sequence number is there. */
    method StoreItem(target: Id, item: Item) returns (stored: bool)
      modifies this
      ensures Stored(old(items), maxItems, target, item, items, stored)
    {
      if target in items && items[target].sequence >= item.sequence {
        return false;
      }
      if target !in items && |items| >= maxItems {
        EvictOldest();
      }
      ghost var room := items;
      assert MadeRoom(old(items), maxItems, target, room);
      items := items[target := item];
      assert items == room[target := item];
      return true;
    }

    method GarbageCollect()
      modifies this
      ensures Collected(old(items), maxItems, items)
    {
      while |items| > maxItems
        invariant OldestRemoved(old(items), items)
        invariant |items| >= if |old(items)| <= maxItems then |old(items)| else maxItems
        invariant |items| <= |old(items)|
        decreases |items|
      {
        ghost var before := items;
        EvictOldest();
        EvictionShrinks(before, items);
      }
    }

    method EvictOldest()
      modifies this
      ensures OneEvicted(old(items), items)
    {
      if items == map[] {
        return;
      }
      var key :| key in items;
      var todo := items.Keys - {key};
      while todo != {}
        invariant key in items && todo <= items.Keys
        invariant forall u :: u in items && u !in todo ==> items[key].lastUpdated <= items[u].lastUpdated
        decreases todo
      {
        var u :| u in todo;
        if items[u].lastUpdated < items[key].lastUpdated {
          key := u;
        }
        todo := todo - {u};
      }
      assert IsOldest(items, key);
      items := items - {key};
    }
  }
}
