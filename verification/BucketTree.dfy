/**
 The bucket tree of the program: lookup, update, insertion with splitting, and iteration.

 The arena is the real state; `table` is the k-bucket form it stands for, kept in step by every
 method.
 */
module BucketTrees {
  import opened Arenas
  import opened Ids
  import opened KBuckets
  import opened Nodes
  import opened Sorting
  import opened Wrappers

  /** Where an entry lives: a leaf and a position in its bucket. */
  datatype Slot = Slot(leaf: nat, position: nat)

  /** An id that starts like `start` in the bits its range fixes; the others come from `random`. */
  method GenerateRandomId(random: Id, start: Id, bits: nat) returns (id: Id)
    requires bits <= ID_BITS
    ensures id == start[..ID_BITS - bits] + random[ID_BITS - bits..]
  {
    id := random;
    for bit := 0 to ID_BITS - bits
      invariant id == start[..bit] + random[bit..]
    {
      id := id[bit := start[bit]];
    }
  }

  /** Such an id for a leaf is looked up in that same leaf. */
  lemma RandomWithinRoutesBack(self: Id, data: seq<TreeNode>, t: Table, j: nat, random: Id)
    requires Arena(self, data, t) && j < |data| && data[j].data.Leaf?
    ensures data[j].bits <= ID_BITS
    ensures var fixed := ID_BITS - data[j].bits;
      j == LeafIndex(self, |t.far|, Shared(self, data[j].start[..fixed] + random[fixed..]))
  {
    var i, onChain := IndexLevel(self, |t.far|, j);
    assert if onChain then ChainAt(self, data, t, i) else SideAt(self, data, t, i);
    var p := if onChain then self[..i] else SidePrefix(self, i);
    var id: Id := p + random[|p|..];
    assert data[j].start[..|p|] == p;
    assert id == data[j].start[..ID_BITS - data[j].bits] + random[ID_BITS - data[j].bits..];
    BlockIsPrefix(p, id);
    LeavesPartition(self, data, t, id);
  }

  class BucketTree {
    var data: seq<TreeNode>
    var size: nat
    var maxSize: nat
    ghost var table: Table

    ghost predicate Valid(self: Id)
      reads this
    {
      && Arena(self, data, table)
      && KBuckets.Valid(self, table)
      && size == table.size && maxSize == table.maxSize
    }

    constructor (ghost self: Id, maxSize: nat, now: Instant)
      ensures Valid(self) && table == Empty(maxSize, now)
    {
      data := [TreeNode(ID_BITS, First([]), Last([]), Leaf(Bucket([], now)))];
      size := 0;
      this.maxSize := maxSize;
      table := Empty(maxSize, now);
    }

    /** Walks down to the leaf whose range holds `id`. */
    method GetLeaf(ghost self: Id, id: Id) returns (idx: nat)
      requires Valid(self)
      ensures idx == LeafIndex(self, |table.far|, Shared(self, id)) < |data|
      ensures data[idx].data == Leaf(BucketAt(table, Shared(self, id)))
      ensures forall j :: 0 <= j < |data| && data[j].data.Leaf? ==>
        (InRange(id, data[j].start, data[j].end) <==> j == idx)
    {
      idx := 0;
      ghost var i: nat := 0;
      ghost var d := |table.far|;
      LeavesPartition(self, data, table, id);
      while true
        invariant i <= d
        invariant if i <= Shared(self, id) then idx == Chain(self, i) else i > 0 && idx == LeafIndex(self, d, i - 1)
        invariant i <= Shared(self, id) + 1
        invariant idx < |data|
        decreases d - i
      {
        assert i <= Shared(self, id) ==> ChainAt(self, data, table, i);
        match data[idx].data {
          case Leaf(_) =>
            return;
          case LeftRight(leftIdx, rightIdx) =>
            assert i < d && ChainAt(self, data, table, i);
            LeftChildRange(self, data, table, i, id);
            SplitSide(self, id, i);
            var left := data[leftIdx];
            if Num(id) >= Num(left.start) && Num(id) <= Num(left.end) {
              idx := leftIdx;
            } else {
              idx := rightIdx;
            }
            i := i + 1;
        }
      }
    }

    /** Finds the entry for `id`; a hit with `refresh` set marks the leaf refreshed. */
    method GetMut(ghost self: Id, id: Id, refresh: Option<Instant>) returns (slot: Option<Slot>)
      requires Valid(self)
      modifies this
      ensures Valid(self)
      ensures slot.Some? <==> Lookup(self, old(table), id).Some?
      ensures slot.Some? ==> HoldsAt(self, slot.value, id)
      ensures table == if slot.Some? then Refreshed(self, old(table), id, refresh) else old(table)
    {
      var idx := GetLeaf(self, id);
      var bucket := data[idx].data.bucket;
      match FindId(bucket.nodes, id) {
        case None => return None;
        case Some(position) =>
          RefreshKeepsEntries(self, table, id, refresh);
          if refresh.Some? {
            bucket := bucket.(lastRefreshed := refresh.value);
            Store(self, idx, Shared(self, id), bucket);
          }
          return Some(Slot(idx, position));
      }
    }

    ghost predicate HoldsAt(self: Id, slot: Slot, id: Id)
      requires Valid(self)
      reads this
    {
      var k := Shared(self, id);
      && slot.leaf == LeafIndex(self, |table.far|, k)
      && FindId(BucketAt(table, k).nodes, id) == Some(slot.position)
    }

    /** The entry in a slot. */
    method Read(ghost self: Id, slot: Slot, ghost id: Id) returns (entry: Node)
      requires Valid(self) && HoldsAt(self, slot, id)
      ensures Lookup(self, table, id) == Some(entry)
    {
      LeavesPartition(self, data, table, id);
      entry := data[slot.leaf].data.bucket.nodes[slot.position];
    }

    /** Overwrites the entry in a slot. */
    method Write(ghost self: Id, slot: Slot, ghost id: Id, entry: Node)
      requires Valid(self) && HoldsAt(self, slot, id) && entry.id == id
      modifies this
      ensures Valid(self)
      ensures table == Overwritten(self, old(table), id, entry)
    {
      ghost var k := Shared(self, id);
      LeavesPartition(self, data, table, id);
      var bucket := data[slot.leaf].data.bucket;
      OverwriteKeepsValid(self, table, id, entry);
      Store(self, slot.leaf, k, bucket.(nodes := bucket.nodes[slot.position := entry]));
    }

    method Store(ghost self: Id, idx: nat, ghost k: nat, bucket: Bucket)
      requires Valid(self) && idx == LeafIndex(self, |table.far|, k)
      requires KBuckets.Valid(self, PutBucket(table, k, bucket))
      modifies this
      ensures Valid(self)
      ensures table == PutBucket(old(table), k, bucket)
    {
      ArenaPut(self, data, table, k, bucket);
      data := data[idx := data[idx].(data := Leaf(bucket))];
      table := PutBucket(table, k, bucket);
    }

    /** Stores a bucket that has grown by one entry. */
    method Admit(ghost self: Id, idx: nat, ghost k: nat, bucket: Bucket)
      requires Valid(self) && idx == LeafIndex(self, |table.far|, k)
      requires KBuckets.Valid(self, Settle(table, k, bucket, Added))
      modifies this
      ensures Valid(self)
      ensures table == Settle(old(table), k, bucket, Added)
    {
      ArenaPut(self, data, table, k, bucket);
      data := data[idx := data[idx].(data := Leaf(bucket))];
      size := size + 1;
      ArenaIgnoresSize(self, data, PutBucket(table, k, bucket), size);
      table := Settle(table, k, bucket, Added);
    }

    method AddNode(self: Id, id: Id, addr: Addr, now: Instant) returns (r: InsertResult)
      requires Valid(self)
      modifies this
      ensures Valid(self)
      ensures (table, r) == KBuckets.AddNode(self, old(table), id, addr, now)
    {
      var idx := GetLeaf(self, id);
      r := InsertIntoLeaf(idx, self, id, addr, now);
    }

    /** Splits as long as the leaf for `id` is full and ours. */
    method InsertIntoLeaf(leafIdx: nat, self: Id, id: Id, addr: Addr, now: Instant) returns (r: InsertResult)
      requires Valid(self) && leafIdx == LeafIndex(self, |table.far|, Shared(self, id))
      modifies this
      ensures Valid(self)
      ensures (table, r) == KBuckets.AddNode(self, old(table), id, addr, now)
    {
      var idx := leafIdx;
      ghost var k := Shared(self, id);
      while true
        invariant Valid(self)
        invariant idx == LeafIndex(self, |table.far|, k)
        invariant KBuckets.AddNode(self, table, id, addr, now) == KBuckets.AddNode(self, old(table), id, addr, now)
        decreases ID_BITS - |table.far|
      {
        var settled := OfferToLeaf(idx, self, id, addr, now);
        if settled.Some? {
          return settled.value;
        }
        FullBucket(BucketAt(table, k), table.size == table.maxSize, id, addr, now);

        LeafIsOurs(self, data, table, k);
        if Before(self, data[idx].start) || Before(data[idx].end, self) {
          return Ignored;
        }

        SplitIsDeepEnough(self, table, id);
        idx := SplitTowards(idx, self, id, now);
      }
    }

    /** Splits our own leaf and picks the half `id` falls in. */
    method SplitTowards(idx: nat, ghost self: Id, id: Id, now: Instant) returns (next: nat)
      requires Valid(self) && |table.far| < MAX_DEPTH && idx == Chain(self, |table.far|)
      requires |table.far| <= Shared(self, id)
      modifies this
      ensures Valid(self)
      ensures table == Split(self, old(table), now)
      ensures next == LeafIndex(self, |table.far|, Shared(self, id))
    {
      LeafAfterSplit(self, |table.far|, id);
      var leftIdx, rightIdx, rightStart := SplitLeaf(self, idx, now);
      if Before(id, rightStart) {
        next := leftIdx;
      } else {
        next := rightIdx;
      }
    }

    /** Everything a leaf can do with a contact short of splitting; None when it is full. */
    method OfferToLeaf(idx: nat, ghost self: Id, id: Id, addr: Addr, now: Instant)
      returns (r: Option<InsertResult>)
      requires Valid(self) && idx == LeafIndex(self, |table.far|, Shared(self, id))
      modifies this
      ensures Valid(self) && idx < |data|
      ensures match AddToBucket(
          BucketAt(old(table), Shared(self, id)), old(table).size == old(table).maxSize, id, addr, now)
        case Full => r == None && table == old(table)
        case Settled(c, result) => r == Some(result) && table == Settle(old(table), Shared(self, id), c, result)
    {
      ghost var k := Shared(self, id);
      LeavesPartition(self, data, table, id);
      var nodes := data[idx].data.bucket.nodes;
      OfferKeepsValid(self, table, id, addr, now);
      if FindId(nodes, id).Some? {
        return Some(WasExisting);
      }
      var newNode := NewNode(id, addr);
      var bad := FindBad(nodes, now);
      if bad.Some? {
        var sorted := StableSort(nodes[bad.value := newNode], ById());
        Store(self, idx, k, Bucket(sorted, now));
        return Some(ReplacedBad(nodes[bad.value]));
      }
      if size == maxSize {
        return Some(Ignored);
      }
      if |nodes| < BUCKET_SIZE {
        Admit(self, idx, k, Bucket(StableSort(nodes + [newNode], ById()), now));
        return Some(Added);
      }
      return None;
    }

    /** Gives our own leaf two children holding its lower and upper half. */
    method SplitLeaf(ghost self: Id, idx: nat, now: Instant) returns (leftIdx: nat, rightIdx: nat, rightStart: Id)
      requires Valid(self) && |table.far| < MAX_DEPTH && idx == Chain(self, |table.far|)
      modifies this
      ensures Valid(self)
      ensures table == Split(self, old(table), now)
      ensures leftIdx == 2 * |old(table).far| + 1 && rightIdx == leftIdx + 1
      ensures rightStart == First(self[..|old(table).far|] + [true])
    {
      ghost var before, p := table, self[..|table.far|];
      assert ChainAt(self, data, before, |before.far|);
      OwnEntriesHavePrefix(self, before);
      var left, right := Halve(data[idx], p, now);
      ArenaSplit(self, data, before, now, left, right);
      SplitKeepsValid(self, before, now);
      leftIdx, rightIdx, rightStart := |data|, |data| + 1, right.start;
      data := LinkChildren(data, idx, left, right);
      table := Split(self, before, now);
    }

    /** The two leaves that replace `leaf`. */
    static method Halve(leaf: TreeNode, ghost p: Bits, now: Instant) returns (left: TreeNode, right: TreeNode)
      requires |p| + 2 <= ID_BITS && Block(leaf, p) && leaf.data.Leaf?
      requires forall n :: n in leaf.data.bucket.nodes ==> p <= n.id
      ensures Block(left, p + [false]) && left.data == Leaf(Bucket(Half(leaf.data.bucket.nodes, |p|, false), now))
      ensures Block(right, p + [true]) && right.data == Leaf(Bucket(Half(leaf.data.bucket.nodes, |p|, true), now))
    {
      SplitOfBlock(p);
      var ((ls, le), (rs, re)) := ComputeSplitStartEnd(leaf.start, leaf.end, leaf.bits);
      SplitBoundsOrdered(p);
      assert Before(leaf.start, le);
      assert Before(le, rs);
      assert Before(rs, leaf.end);
      var ld, rd := DrainInto(leaf.data.bucket.nodes, rs, p);
      left := TreeNode(leaf.bits - 1, ls, le, Leaf(Bucket(ld, now)));
      right := TreeNode(leaf.bits - 1, rs, re, Leaf(Bucket(rd, now)));
    }

    /** Hands each entry to the half its id falls in. */
    static method DrainInto(nodes: seq<Node>, rightStart: Id, ghost p: Bits) returns (ld: seq<Node>, rd: seq<Node>)
      requires |p| < ID_BITS && rightStart == First(p + [true])
      requires forall n :: n in nodes ==> p <= n.id
      ensures ld == Half(nodes, |p|, false)
      ensures rd == Half(nodes, |p|, true)
    {
      ld, rd := [], [];
      for j := 0 to |nodes|
        invariant ld == Half(nodes[..j], |p|, false)
        invariant rd == Half(nodes[..j], |p|, true)
      {
        assert nodes[..j + 1][..j] == nodes[..j];
        BeforeRightHalf(p, nodes[j].id);
        if Before(nodes[j].id, rightStart) {
          ld := ld + [nodes[j]];
        } else {
          rd := rd + [nodes[j]];
        }
      }
      assert nodes[..|nodes|] == nodes;
    }
  }
}
