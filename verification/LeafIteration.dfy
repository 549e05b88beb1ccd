/**
 Visiting the leaves of the arena with an explicit stack of indices.

 The iterator yields the leaves in the order of a recursive in-order walk; on a routing table's
 arena these are its buckets by ascending range, and their ranges tile the identifier space.
 */
module LeafIteration {
  import opened Arenas
  import opened Ids
  import opened KBuckets
  import opened Nodes
  import opened TableOrder
  import opened Wrappers

  /** Links only go to later indices, so following them ends. */
  ghost predicate Forward(data: seq<TreeNode>) {
    forall i :: 0 <= i < |data| && data[i].data.LeftRight? ==> i < data[i].data.left && i < data[i].data.right
  }

  /** The leaves under `idx`, left before right; an index outside the arena has none. */
  ghost function Leaves(data: seq<TreeNode>, idx: nat): seq<TreeNode>
    requires Forward(data)
    decreases if idx < |data| then |data| - idx else 0
  {
    if idx >= |data| then []
    else
      match data[idx].data
      case Leaf(_) => [data[idx]]
      case LeftRight(left, right) => Leaves(data, left) + Leaves(data, right)
  }

  ghost function Visits(data: seq<TreeNode>, idx: nat): nat
    requires Forward(data)
    decreases if idx < |data| then |data| - idx else 0
  {
    if idx >= |data| || data[idx].data.Leaf? then 1
    else 1 + Visits(data, data[idx].data.left) + Visits(data, data[idx].data.right)
  }

  /** What a stack of indices still has to yield, top of the stack first. */
  ghost function Pending(data: seq<TreeNode>, queue: seq<nat>): seq<TreeNode>
    requires Forward(data)
  {
    if queue == [] then [] else Leaves(data, queue[|queue| - 1]) + Pending(data, queue[..|queue| - 1])
  }

  ghost function Work(data: seq<TreeNode>, queue: seq<nat>): nat
    requires Forward(data)
  {
    if queue == [] then 0 else Visits(data, queue[|queue| - 1]) + Work(data, queue[..|queue| - 1])
  }

  lemma PushTwo(data: seq<TreeNode>, queue: seq<nat>, right: nat, left: nat)
    requires Forward(data)
    ensures Pending(data, queue + [right] + [left]) == Leaves(data, left) + Leaves(data, right) + Pending(data, queue)
    ensures Work(data, queue + [right] + [left]) == Visits(data, left) + Visits(data, right) + Work(data, queue)
  {
    assert (queue + [right] + [left])[..|queue| + 1] == queue + [right];
    assert (queue + [right])[..|queue|] == queue;
    assert Pending(data, queue + [right]) == Leaves(data, right) + Pending(data, queue);
  }

  class LeafIterator {
    const data: seq<TreeNode>
    var queue: seq<nat>

    constructor (data: seq<TreeNode>)
      requires Forward(data)
      ensures this.data == data
      ensures Pending(data, queue) == Leaves(data, 0)
    {
      this.data := data;
      queue := [0];
      new;
      assert queue[..0] == [];
    }

    /** Pops until a leaf comes up. */
    method Next() returns (r: Option<TreeNode>)
      requires Forward(data)
      modifies this
      ensures match r
        case None => old(Pending(data, queue)) == [] == Pending(data, queue)
        case Some(n) => n.data.Leaf? && old(Pending(data, queue)) == [n] + Pending(data, queue)
    {
      while true
        invariant Pending(data, queue) == old(Pending(data, queue))
        decreases Work(data, queue)
      {
        if queue == [] {
          return None;
        }
        var idx := queue[|queue| - 1];
        queue := queue[..|queue| - 1];
        if idx < |data| {
          match data[idx].data
          case Leaf(_) =>
            return Some(data[idx]);
          case LeftRight(left, right) =>
            PushTwo(data, queue, right, left);
            queue := queue + [right];
            queue := queue + [left];
        }
      }
    }
  }

  // -- On the arena of a table -----------------------------------------------------------------

  lemma ArenaIsForward(self: Id, data: seq<TreeNode>, t: Table)
    requires Arena(self, data, t)
    ensures Forward(data)
  {
    forall j | 0 <= j < |data| && data[j].data.LeftRight?
      ensures j < data[j].data.left && j < data[j].data.right
    {
      var i, onChain := IndexLevel(self, |t.far|, j);
      assert if onChain then ChainAt(self, data, t, i) else SideAt(self, data, t, i);
    }
  }

  /** The leaves' ranges follow each other without gap or overlap from `lo` to `hi`. */
  ghost predicate Tile(leaves: seq<TreeNode>, lo: nat, hi: nat) {
    && leaves != []
    && Num(leaves[0].start) == lo && Num(leaves[|leaves| - 1].end) == hi
    && forall m :: 0 <= m < |leaves| - 1 ==> Num(leaves[m].end) + 1 == Num(leaves[m + 1].start)
  }

  ghost predicate LeavesOf(leaves: seq<TreeNode>, buckets: seq<Bucket>) {
    |leaves| == |buckets| && forall m :: 0 <= m < |leaves| ==> leaves[m].data == Leaf(buckets[m])
  }

  /** Taking the next leaf, when `done` are the entries so far and `all` those of the whole table. */
  lemma TakeLeaf(leaf: TreeNode, rest: seq<TreeNode>, buckets: seq<Bucket>, done: seq<Node>, all: seq<Node>)
    requires LeavesOf([leaf] + rest, buckets) && done + Flatten(buckets) == all
    ensures buckets != [] && leaf.data == Leaf(buckets[0]) && LeavesOf(rest, buckets[1..])
    ensures done + leaf.data.bucket.nodes + Flatten(buckets[1..]) == all
  {
    assert forall m :: 0 <= m < |rest| ==> rest[m] == ([leaf] + rest)[m + 1];
  }

  lemma TileJoins(a: seq<TreeNode>, b: seq<TreeNode>, lo: nat, mid: nat, hi: nat)
    requires Tile(a, lo, mid) && Tile(b, mid + 1, hi)
    ensures Tile(a + b, lo, hi)
  {
  }

  lemma LevelLeaves(self: Id, data: seq<TreeNode>, t: Table, i: nat)
    requires Arena(self, data, t) && Forward(data) && i < |t.far|
    ensures var (side, deeper) := (data[Side(self, i)], Leaves(data, Chain(self, i + 1)));
      Leaves(data, Chain(self, i)) == if self[i] then [side] + deeper else deeper + [side]
  {
    assert ChainAt(self, data, t, i) && SideAt(self, data, t, i);
    assert Leaves(data, Side(self, i)) == [data[Side(self, i)]];
  }

  lemma LevelBuckets(side: TreeNode, deeper: seq<TreeNode>, b: Bucket, rest: seq<Bucket>)
    requires side.data == Leaf(b) && LeavesOf(deeper, rest)
    ensures LeavesOf([side] + deeper, [b] + rest) && LeavesOf(deeper + [side], rest + [b])
  {
  }

  lemma LevelTiles(p: Bits, bit: bool, side: TreeNode, deeper: seq<TreeNode>)
    requires |p| < ID_BITS && Block(side, p + [!bit])
    requires Tile(deeper, Num(First(p + [bit])), Num(Last(p + [bit])))
    ensures Tile(if bit then [side] + deeper else deeper + [side], Num(First(p)), Num(Last(p)))
  {
    HalvesMeet(p);
    assert Tile([side], Num(First(p + [!bit])), Num(Last(p + [!bit])));
    if bit {
      TileJoins([side], deeper, Num(First(p)), Num(Last(p + [false])), Num(Last(p)));
    } else {
      TileJoins(deeper, [side], Num(First(p)), Num(Last(p + [false])), Num(Last(p)));
    }
  }

  /** Below level `i` of the chain, the in-order leaves are the walk's buckets. */
  lemma {:induction false} ChainLeaves(self: Id, data: seq<TreeNode>, t: Table, i: nat)
    requires Arena(self, data, t) && Forward(data) && i <= |t.far|
    ensures LeavesOf(Leaves(data, Chain(self, i)), Walk(self, t, i))
    decreases |t.far| - i
  {
    assert ChainAt(self, data, t, i);
    if i < |t.far| {
      assert SideAt(self, data, t, i);
      ChainLeaves(self, data, t, i + 1);
      LevelLeaves(self, data, t, i);
      LevelBuckets(
        data[Side(self, i)], Leaves(data, Chain(self, i + 1)), t.far[i], Walk(self, t, i + 1));
    }
  }

  /** Those leaves tile the range of the chain's node. */
  lemma {:induction false} ChainTiles(self: Id, data: seq<TreeNode>, t: Table, i: nat)
    requires Arena(self, data, t) && Forward(data) && i <= |t.far|
    ensures Tile(Leaves(data, Chain(self, i)), Num(First(self[..i])), Num(Last(self[..i])))
    decreases |t.far| - i
  {
    assert ChainAt(self, data, t, i);
    if i < |t.far| {
      assert SideAt(self, data, t, i);
      ChainTiles(self, data, t, i + 1);
      LevelLeaves(self, data, t, i);
      assert self[..i + 1] == self[..i] + [self[i]];
      LevelTiles(self[..i], self[i], data[Side(self, i)], Leaves(data, Chain(self, i + 1)));
    }
  }

  /** A full iteration visits each bucket once, by ascending range, and covers every identifier. */
  lemma IterationTilesTheSpace(self: Id, data: seq<TreeNode>, t: Table)
    requires Arena(self, data, t) && Forward(data)
    ensures LeavesOf(Leaves(data, 0), Walk(self, t, 0))
    ensures Tile(Leaves(data, 0), 0, Pow2(ID_BITS) - 1)
    ensures |Leaves(data, 0)| == |LeafIndices(data)|
  {
    ChainLeaves(self, data, t, 0);
    ChainTiles(self, data, t, 0);
    assert self[..0] == [];
    WholeSpace();
    ArenaBound(self, data, t);
    WalkLength(self, t, 0);
  }

  lemma WholeSpace()
    ensures Num(First([])) == 0 && Num(Last([])) == Pow2(ID_BITS) - 1
  {
    NumFill(ID_BITS);
    assert First([]) == Fill(false, ID_BITS);
    assert Last([]) == Fill(true, ID_BITS);
  }

  lemma {:induction false} WalkLength(self: Id, t: Table, i: nat)
    requires i <= |t.far| <= ID_BITS
    ensures |Walk(self, t, i)| == |t.far| - i + 1
    decreases |t.far| - i
  {
    if i < |t.far| {
      WalkLength(self, t, i + 1);
    }
  }
}
