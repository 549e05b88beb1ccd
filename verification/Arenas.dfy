/**
 The routing table as the program stores it: an arena of tree nodes linked by index.

 `Arena` says exactly which arena stands for a table of k-buckets: level `i` of the chain towards
 our own id covers the ids that share our first `i` bits, and its two children sit at indices
 2i+1 and 2i+2.  The lemmas say what the ranges in the arena mean, how many entries there can be,
 and that storing a bucket or splitting our own leaf gives the arena of the changed table.
 */
module Arenas {
  import opened Ids
  import opened KBuckets
  import opened Wrappers

  datatype NodeData = Leaf(bucket: Bucket) | LeftRight(left: nat, right: nat)

  datatype TreeNode = TreeNode(bits: nat, start: Id, end: Id, data: NodeData)

  // -- The arena of a table --------------------------------------------------------------------

  /** Index of the node covering the ids that share our first `i` bits. */
  function Chain(self: Id, i: nat): nat
    requires i <= ID_BITS
  {
    if i == 0 then 0 else if self[i - 1] then 2 * i else 2 * i - 1
  }

  /** Index of its child that does not contain us. */
  function Side(self: Id, i: nat): nat
    requires i < ID_BITS
  {
    if self[i] then 2 * i + 1 else 2 * i + 2
  }

  function SidePrefix(self: Id, i: nat): Bits
    requires i < ID_BITS
  {
    self[..i] + [!self[i]]
  }

  /** The node covers exactly the ids with prefix `p`. */
  ghost predicate Block(n: TreeNode, p: Bits) {
    |p| <= ID_BITS && n.bits == ID_BITS - |p| && n.start == First(p) && n.end == Last(p)
  }

  /** Level `i` of the chain: an inner node above our own leaf, or that leaf. */
  ghost predicate ChainAt(self: Id, data: seq<TreeNode>, t: Table, i: nat)
    requires i <= ID_BITS
  {
    var j := Chain(self, i);
    && j < |data|
    && Block(data[j], self[..i])
    && data[j].data == if i < |t.far| then LeftRight(2 * i + 1, 2 * i + 2) else Leaf(t.own)
  }

  /** The leaf beside the chain below level `i`. */
  ghost predicate SideAt(self: Id, data: seq<TreeNode>, t: Table, i: nat)
    requires i < ID_BITS
  {
    var j := Side(self, i);
    && i < |t.far| && j < |data|
    && Block(data[j], SidePrefix(self, i))
    && data[j].data == Leaf(t.far[i])
  }

  ghost predicate Arena(self: Id, data: seq<TreeNode>, t: Table) {
    && |t.far| <= MAX_DEPTH
    && |data| == 2 * |t.far| + 1
    && (forall i :: 0 <= i <= |t.far| ==> ChainAt(self, data, t, i))
    && (forall i :: 0 <= i < |t.far| ==> SideAt(self, data, t, i))
  }

  /** Index of the leaf for ids that share exactly `k` bits with us. */
  function LeafIndex(self: Id, d: nat, k: nat): nat
    requires d <= ID_BITS
  {
    if k < d then Side(self, k) else Chain(self, d)
  }

  /** Every arena index is on the chain or one of its sides. */
  lemma IndexLevel(self: Id, d: nat, j: nat) returns (i: nat, onChain: bool)
    requires d < ID_BITS && j < 2 * d + 1
    ensures if onChain then i <= d && j == Chain(self, i) else i < d && j == Side(self, i)
  {
    if j == 0 {
      return 0, true;
    }
    i := (j - 1) / 2;
    assert j == 2 * i + 1 || j == 2 * i + 2;
    if j == Chain(self, i + 1) {
      return i + 1, true;
    }
    onChain := false;
  }

  /** The indices in use never collide. */
  lemma IndicesDiffer(self: Id, i: nat, j: nat)
    requires i < ID_BITS && j < ID_BITS
    ensures Chain(self, i) == Chain(self, j) <==> i == j
    ensures Side(self, i) == Side(self, j) <==> i == j
    ensures Chain(self, i) != Side(self, j)
  {
  }

  // -- What the ranges mean --------------------------------------------------------------------

  /** A leaf's range holds exactly the ids of its bucket. */
  lemma LeafRange(self: Id, data: seq<TreeNode>, t: Table, k: nat, id: Id)
    requires Arena(self, data, t) && k <= |t.far|
    ensures var n := data[LeafIndex(self, |t.far|, k)];
      InRange(id, n.start, n.end) <==> if k < |t.far| then Shared(self, id) == k else k <= Shared(self, id)
  {
    if k < |t.far| {
      assert SideAt(self, data, t, k);
      BlockIsPrefix(SidePrefix(self, k), id);
      SharedExactly(self, id, k);
    } else {
      ChainRange(self, data, t, k, id);
    }
  }

  lemma ChainRange(self: Id, data: seq<TreeNode>, t: Table, i: nat, id: Id)
    requires Arena(self, data, t) && i <= |t.far|
    ensures var n := data[Chain(self, i)]; InRange(id, n.start, n.end) <==> i <= Shared(self, id)
  {
    assert ChainAt(self, data, t, i);
    BlockIsPrefix(self[..i], id);
    SharedAtLeast(self, id, i);
  }

  lemma LeftChildRange(self: Id, data: seq<TreeNode>, t: Table, i: nat, id: Id)
    requires Arena(self, data, t) && i < |t.far| && i <= Shared(self, id)
    ensures var n := data[2 * i + 1]; InRange(id, n.start, n.end) <==> !id[i]
  {
    SplitSide(self, id, i);
    if self[i] {
      LeafRange(self, data, t, i, id);
    } else {
      ChainRange(self, data, t, i + 1, id);
    }
  }

  /** A leaf may split exactly when our own id is in its range. */
  lemma LeafIsOurs(self: Id, data: seq<TreeNode>, t: Table, k: nat)
    requires Arena(self, data, t)
    ensures var n := data[LeafIndex(self, |t.far|, k)]; InRange(self, n.start, n.end) <==> |t.far| <= k
  {
    SelfIsShared(self);
    LeafRange(self, data, t, if k < |t.far| then k else |t.far|, self);
  }

  /** The leaves partition the identifiers: every id is in the range of exactly one leaf. */
  lemma LeavesPartition(self: Id, data: seq<TreeNode>, t: Table, id: Id)
    requires Arena(self, data, t)
    ensures var j := LeafIndex(self, |t.far|, Shared(self, id));
      && j < |data| && data[j].data == Leaf(BucketAt(t, Shared(self, id))) && InRange(id, data[j].start, data[j].end)
      && forall m :: 0 <= m < |data| && data[m].data.Leaf? && InRange(id, data[m].start, data[m].end) ==> m == j
  {
    var d, k := |t.far|, Shared(self, id);
    LeafRange(self, data, t, if k < d then k else d, id);
    assert if k < d then SideAt(self, data, t, k) else ChainAt(self, data, t, d);
    forall m | 0 <= m < |data| && data[m].data.Leaf? && InRange(id, data[m].start, data[m].end)
      ensures m == LeafIndex(self, d, k)
    {
      var i, onChain := IndexLevel(self, d, m);
      assert onChain ==> ChainAt(self, data, t, i);
      LeafRange(self, data, t, i, id);
    }
  }

  /** The node at index `j` covers 2^bits ids, from a multiple of 2^bits. */
  ghost predicate AlignedRange(n: TreeNode) {
    n.bits <= ID_BITS && AlignedBlock(Num(n.start), Num(n.end), Pow2(n.bits))
  }

  /** The children of `n` are its lower and upper half. */
  ghost predicate ChildrenAreHalves(data: seq<TreeNode>, n: TreeNode) {
    match n.data
    case Leaf(_) => true
    case LeftRight(l, r) =>
      && l < |data| && r < |data|
      && data[l].bits + 1 == n.bits && data[r].bits + 1 == n.bits
      && data[l].start == n.start && data[r].end == n.end
      && Num(data[l].end) + 1 == Num(data[r].start)
  }

  /** The XOR structure: which distances from us a node's range holds. */
  ghost predicate CoversDistances(self: Id, n: TreeNode) {
    if InRange(self, n.start, n.end) then
      forall id: Id :: InRange(id, n.start, n.end) <==> Distance(self, id) < Pow2(n.bits)
    else
      forall id: Id :: InRange(id, n.start, n.end) <==> Pow2(n.bits) <= Distance(self, id) < Pow2(n.bits + 1)
  }

  lemma HalvesMeet(p: Bits)
    requires |p| < ID_BITS
    ensures First(p + [false]) == First(p) && Last(p + [true]) == Last(p)
    ensures Num(Last(p + [false])) + 1 == Num(First(p + [true]))
  {
    var n := ID_BITS - |p| - 1;
    assert First(p + [false]) == First(p);
    assert Last(p + [true]) == Last(p);
    NumFilled(p + [false], n);
    NumAligned(p + [false], n);
    NumAligned(p + [true], n);
    NumAppend(p, false);
    NumAppend(p, true);
    OneMore(2 * Num(p), Pow2(n));
  }

  lemma OneMore(a: nat, b: nat)
    ensures (a + 1) * b == a * b + b
  {
  }

  lemma SelfIsShared(self: Id)
    ensures Shared(self, self) == ID_BITS
  {
    SharedIs(self, self);
  }

  lemma SideStructure(self: Id, data: seq<TreeNode>, t: Table, i: nat)
    requires Arena(self, data, t) && i < |t.far|
    ensures var n := data[Side(self, i)]; AlignedRange(n) && CoversDistances(self, n)
  {
    var n := data[Side(self, i)];
    assert SideAt(self, data, t, i);
    BlockIsAligned(SidePrefix(self, i));
    SelfIsShared(self);
    LeafRange(self, data, t, i, self);
    forall id: Id
      ensures InRange(id, n.start, n.end) <==> Pow2(n.bits) <= Distance(self, id) < Pow2(n.bits + 1)
    {
      LeafRange(self, data, t, i, id);
      DistanceBand(self, id, i);
    }
  }

  lemma ChainStructure(self: Id, data: seq<TreeNode>, t: Table, i: nat)
    requires Arena(self, data, t) && i <= |t.far|
    ensures var n := data[Chain(self, i)];
      AlignedRange(n) && CoversDistances(self, n) && InRange(self, n.start, n.end)
  {
    var n := data[Chain(self, i)];
    assert ChainAt(self, data, t, i);
    BlockIsAligned(self[..i]);
    SelfIsShared(self);
    ChainRange(self, data, t, i, self);
    forall id: Id
      ensures InRange(id, n.start, n.end) <==> Distance(self, id) < Pow2(n.bits)
    {
      ChainRange(self, data, t, i, id);
      DistanceBall(self, id, i);
    }
  }

  /** Each range in the arena is an aligned block, halved by its children, and a band of XOR distances. */
  lemma ArenaStructure(self: Id, data: seq<TreeNode>, t: Table, j: nat)
    requires Arena(self, data, t) && j < |data|
    ensures AlignedRange(data[j])
    ensures ChildrenAreHalves(data, data[j])
    ensures CoversDistances(self, data[j])
    ensures data[j].data.LeftRight? ==> InRange(self, data[j].start, data[j].end)
  {
    var i, onChain := IndexLevel(self, |t.far|, j);
    if onChain {
      assert ChainAt(self, data, t, i);
      ChainStructure(self, data, t, i);
      if i < |t.far| {
        ChildrenMeet(self, data, t, i);
      }
    } else {
      assert SideAt(self, data, t, i);
      SideStructure(self, data, t, i);
    }
  }

  lemma ChildrenMeet(self: Id, data: seq<TreeNode>, t: Table, i: nat)
    requires Arena(self, data, t) && i < |t.far|
    ensures ChildrenAreHalves(data, data[Chain(self, i)])
  {
    var p := self[..i];
    HalvesMeet(p);
    assert self[..i + 1] == p + [self[i]];
    assert ChainAt(self, data, t, i) && ChainAt(self, data, t, i + 1) && SideAt(self, data, t, i);
  }

  ghost function InnerIndices(data: seq<TreeNode>): set<nat> {
    set j: nat | j < |data| && data[j].data.LeftRight?
  }

  ghost function LeafIndices(data: seq<TreeNode>): set<nat> {
    set j: nat | j < |data| && data[j].data.Leaf?
  }

  ghost function ChainIndices(self: Id, d: nat): set<nat>
    requires d <= ID_BITS
  {
    set i: nat | i < d :: Chain(self, i)
  }

  /** However many insertions there were: 157 inner nodes, 158 leaves and 315 arena entries at most. */
  lemma ArenaBound(self: Id, data: seq<TreeNode>, t: Table)
    requires Arena(self, data, t)
    ensures |data| <= 315
    ensures |InnerIndices(data)| == |t.far| <= 157
    ensures |LeafIndices(data)| == |t.far| + 1 <= 158
  {
    var d := |t.far|;
    forall j: nat | j < |data|
      ensures j in InnerIndices(data) <==> j in ChainIndices(self, d)
    {
      var i, onChain := IndexLevel(self, d, j);
      assert if onChain then ChainAt(self, data, t, i) else SideAt(self, data, t, i);
      forall m: nat | m < d
        ensures Chain(self, m) == j ==> onChain && i == m
        ensures onChain && i == d ==> Chain(self, m) != j
        ensures !onChain ==> Chain(self, m) != j
      {
        IndicesDiffer(self, m, i);
      }
    }
    assert InnerIndices(data) == ChainIndices(self, d);
    ChainsCount(self, d);
    assert LeafIndices(data) == Below(|data|) - InnerIndices(data);
    assert InnerIndices(data) <= Below(|data|);
  }

  lemma {:induction false} ChainsCount(self: Id, d: nat)
    requires d < ID_BITS
    ensures |ChainIndices(self, d)| == d
  {
    if d > 0 {
      ChainsCount(self, d - 1);
      assert ChainIndices(self, d) == ChainIndices(self, d - 1) + {Chain(self, d - 1)};
      forall i: nat | i < d - 1
        ensures Chain(self, i) != Chain(self, d - 1)
      {
        IndicesDiffer(self, i, d - 1);
      }
    }
  }

  ghost function Below(n: nat): (s: set<nat>)
    ensures |s| == n && forall j: nat :: j in s <==> j < n
  {
    if n == 0 then {} else Below(n - 1) + {n - 1}
  }

  // -- Changing the arena ----------------------------------------------------------------------

  lemma ArenaPut(self: Id, data: seq<TreeNode>, t: Table, k: nat, b: Bucket)
    requires Arena(self, data, t)
    ensures var j := LeafIndex(self, |t.far|, k);
      j < |data| && Arena(self, data[j := data[j].(data := Leaf(b))], PutBucket(t, k, b))
  {
    var d, j := |t.far|, LeafIndex(self, |t.far|, k);
    var data', t' := data[j := data[j].(data := Leaf(b))], PutBucket(t, k, b);
    assert if k < d then SideAt(self, data, t, k) else ChainAt(self, data, t, d);
    forall i | 0 <= i <= d
      ensures ChainAt(self, data', t', i)
    {
      assert ChainAt(self, data, t, i);
      IndicesDiffer(self, i, if k < d then k else d);
    }
    forall i | 0 <= i < d
      ensures SideAt(self, data', t', i)
    {
      assert SideAt(self, data, t, i);
      IndicesDiffer(self, if k < d then k else d, i);
    }
  }

  lemma ArenaIgnoresSize(self: Id, data: seq<TreeNode>, t: Table, size: nat)
    requires Arena(self, data, t)
    ensures Arena(self, data, t.(size := size))
  {
    forall i | 0 <= i <= |t.far|
      ensures ChainAt(self, data, t.(size := size), i)
    {
      assert ChainAt(self, data, t, i);
    }
    forall i | 0 <= i < |t.far|
      ensures SideAt(self, data, t.(size := size), i)
    {
      assert SideAt(self, data, t, i);
    }
  }

  /** The two halves of a range: of the end the first free bit is cleared, of the start it is set. */
  function ComputeSplitStartEnd(start: Id, end: Id, bits: nat): (r: ((Id, Id), (Id, Id)))
    requires 0 < bits <= ID_BITS
  {
    var changing := ID_BITS - bits;
    ((start, end[changing := false]), (start[changing := true], end))
  }

  /** For the block of a prefix these are the blocks of its two extensions. */
  lemma SplitOfBlock(p: Bits)
    requires |p| < ID_BITS
    ensures ComputeSplitStartEnd(First(p), Last(p), ID_BITS - |p|)
      == ((First(p + [false]), Last(p + [false])), (First(p + [true]), Last(p + [true])))
  {
    assert First(p) == First(p + [false]);
    assert Last(p) == Last(p + [true]);
    assert Last(p)[|p| := false] == Last(p + [false]);
    assert First(p)[|p| := true] == First(p + [true]);
  }

  /** With at least two bits to spare the four bounds are strictly ordered. */
  lemma SplitBoundsOrdered(p: Bits)
    requires |p| + 2 <= ID_BITS
    ensures var ((ls, le), (rs, re)) := ComputeSplitStartEnd(First(p), Last(p), ID_BITS - |p|);
      Before(ls, le) && Before(le, rs) && Before(rs, re)
  {
    SplitOfBlock(p);
    HalvesMeet(p);
    NumFilled(p + [false], ID_BITS - |p| - 1);
    NumFilled(p + [true], ID_BITS - |p| - 1);
    assert Pow2(ID_BITS - |p| - 1) == 2 * Pow2(ID_BITS - |p| - 2);
  }

  /** Within the block of `p`, the ids before the right half are those with the next bit clear. */
  lemma BeforeRightHalf(p: Bits, id: Id)
    requires |p| < ID_BITS && p <= id
    ensures Before(id, First(p + [true])) <==> !id[|p|]
  {
    BlockIsPrefix(p, id);
    BlockIsPrefix(p + [true], id);
    HalvesMeet(p);
    assert p + [true] <= id <==> id[|p|] by {
      assert id[..|p| + 1] == p + [id[|p|]];
    }
  }

  /** An arena grows by one level when its last chain node gets two leaf children. */
  lemma ArenaGrows(self: Id, data: seq<TreeNode>, t: Table, data': seq<TreeNode>, t': Table)
    requires Arena(self, data, t) && |t.far| < MAX_DEPTH
    requires |data'| == |data| + 2 && |t'.far| == |t.far| + 1 && t'.far[..|t.far|] == t.far
    requires forall j :: 0 <= j < |data| && j != Chain(self, |t.far|) ==> data'[j] == data[j]
    requires var d := |t.far|;
      && data'[Chain(self, d)] == data[Chain(self, d)].(data := LeftRight(2 * d + 1, 2 * d + 2))
      && Block(data'[Chain(self, d + 1)], self[..d + 1]) && data'[Chain(self, d + 1)].data == Leaf(t'.own)
      && Block(data'[Side(self, d)], SidePrefix(self, d)) && data'[Side(self, d)].data == Leaf(t'.far[d])
    ensures Arena(self, data', t')
  {
    var d := |t.far|;
    assert ChainAt(self, data, t, d);
    forall i | 0 <= i <= d + 1
      ensures ChainAt(self, data', t', i)
    {
      if i < d {
        assert ChainAt(self, data, t, i);
        IndicesDiffer(self, i, d);
      }
    }
    forall i | 0 <= i <= d
      ensures SideAt(self, data', t', i)
    {
      if i < d {
        assert SideAt(self, data, t, i);
        IndicesDiffer(self, d, i);
        assert t'.far[i] == t'.far[..d][i];
      }
    }
  }

  /** Which of the two new leaves takes `id`. */
  lemma LeafAfterSplit(self: Id, d: nat, id: Id)
    requires d < ID_BITS && d <= Shared(self, id)
    ensures LeafIndex(self, d + 1, Shared(self, id)) ==
      if Before(id, First(self[..d] + [true])) then 2 * d + 1 else 2 * d + 2
  {
    SharedAtLeast(self, id, d);
    BeforeRightHalf(self[..d], id);
    SplitSide(self, id, d);
  }

  lemma ArenaSplit(self: Id, data: seq<TreeNode>, t: Table, now: Instant, left: TreeNode, right: TreeNode)
    requires Arena(self, data, t) && |t.far| < MAX_DEPTH
    requires var (d, p, nodes) := (|t.far|, self[..|t.far|], t.own.nodes);
      && Block(left, p + [false]) && left.data == Leaf(Bucket(Half(nodes, d, false), now))
      && Block(right, p + [true]) && right.data == Leaf(Bucket(Half(nodes, d, true), now))
    ensures Arena(self, LinkChildren(data, Chain(self, |t.far|), left, right), Split(self, t, now))
  {
    var d := |t.far|;
    var data' := LinkChildren(data, Chain(self, d), left, right);
    assert self[..d + 1] == self[..d] + [self[d]];
    assert data'[2 * d + 1] == left && data'[2 * d + 2] == right;
    ArenaGrows(self, data, t, data', Split(self, t, now));
  }

  /** Appends two nodes and makes them the children of node `idx`. */
  function LinkChildren(data: seq<TreeNode>, idx: nat, left: TreeNode, right: TreeNode): seq<TreeNode>
    requires idx < |data|
  {
    (data + [left] + [right])[idx := data[idx].(data := LeftRight(|data|, |data| + 1))]
  }
}
