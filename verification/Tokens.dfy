/**
 Announce tokens: a bounded queue of the tokens handed out, cleaned of expired ones.
 */
module Tokens {
  import opened Ids
  import opened Wrappers

  /** A reading of the wall clock, in nanoseconds. */
  type Time = int

  const TOKEN_TTL: int := 10 * 60 * SECOND

  datatype Token = Token(bytes: seq<Byte>, nodeId: Id, addr: Addr, time: Time)

  /** Appends a token and drops the oldest one when there are too many. */
  function Push(queue: seq<Token>, t: Token, limit: nat): seq<Token> {
    var q := queue + [t];
    if |q| > limit then q[1..] else q
  }

  /** The tokens handed out after `cutoff`. */
  function Newer(queue: seq<Token>, cutoff: Time): (r: seq<Token>)
    ensures |r| <= |queue|
  {
    Filter(queue, IsAfter(cutoff))
  }

  function IsAfter(cutoff: Time): Token -> bool {
    (t: Token) => t.time > cutoff
  }

  predicate Accepts(queue: seq<Token>, bytes: seq<Byte>, nodeId: Id, addr: Addr) {
    exists t :: t in queue && Matches(t, bytes, nodeId, addr)
  }

  // -- Runs ------------------------------------------------------------------------------------

  datatype TokenOp = Gen(token: Token) | Clean(now: Time)

  function TimeOf(op: TokenOp): Time {
    match op
    case Gen(t) => t.time
    case Clean(now) => now
  }

  /** The queue after the given operations. */
  function Queue(ops: seq<TokenOp>, limit: nat): seq<Token> {
    if ops == [] then []
    else
      var before := Queue(ops[..|ops| - 1], limit);
      match ops[|ops| - 1]
      case Gen(t) => Push(before, t, limit)
      case Clean(now) => Newer(before, now - TOKEN_TTL)
  }

  lemma QueueAfter(ops: seq<TokenOp>, last: TokenOp, limit: nat)
    ensures last.Gen? ==> Queue(ops + [last], limit) == Push(Queue(ops, limit), last.token, limit)
    ensures last.Clean? ==> Queue(ops + [last], limit) == Newer(Queue(ops, limit), last.now - TOKEN_TTL)
  {
    assert (ops + [last])[..|ops|] == ops;
  }

  /** Every token ever handed out, oldest first. */
  function Issued(ops: seq<TokenOp>): seq<Token> {
    if ops == [] then []
    else
      var before := Issued(ops[..|ops| - 1]);
      match ops[|ops| - 1]
      case Gen(t) => before + [t]
      case Clean(_) => before
  }

  /** When the latest cleaning happened. */
  function LastClean(ops: seq<TokenOp>): Option<Time> {
    if ops == [] then None
    else
      match ops[|ops| - 1]
      case Gen(_) => LastClean(ops[..|ops| - 1])
      case Clean(now) => Some(now)
  }

  function LastOf(tokens: seq<Token>, n: nat): seq<Token> {
    if |tokens| <= n then tokens else tokens[|tokens| - n..]
  }

  function Unexpired(tokens: seq<Token>, clean: Option<Time>): seq<Token> {
    match clean
    case None => tokens
    case Some(now) => Newer(tokens, now - TOKEN_TTL)
  }

  ghost predicate ClockNeverGoesBack(ops: seq<TokenOp>) {
    forall i, j :: 0 <= i < j < |ops| ==> TimeOf(ops[i]) <= TimeOf(ops[j])
  }

  ghost predicate Ascending(tokens: seq<Token>) {
    forall i, j :: 0 <= i < j < |tokens| ==> tokens[i].time <= tokens[j].time
  }

  lemma {:induction false} IssuedAscends(ops: seq<TokenOp>)
    requires ClockNeverGoesBack(ops)
    ensures Ascending(Issued(ops))
    ensures ops != [] ==> forall t :: t in Issued(ops) ==> t.time <= TimeOf(ops[|ops| - 1])
    ensures match LastClean(ops)
      case None => true
      case Some(c) => ops != [] && c <= TimeOf(ops[|ops| - 1])
  {
    if ops != [] {
      IssuedAscends(ops[..|ops| - 1]);
    }
  }

  /** Cleaning twice, the second time later, is cleaning once. */
  lemma {:induction false} NewerTwice(tokens: seq<Token>, early: Time, late: Time)
    requires early <= late
    ensures Newer(Newer(tokens, early), late) == Newer(tokens, late)
  {
    if tokens != [] {
      var before, t := tokens[..|tokens| - 1], tokens[|tokens| - 1];
      NewerTwice(before, early, late);
      if t.time > early {
        FilterAppend(Newer(before, early), [t], IsAfter(late));
      }
    }
  }

  /** A full queue gives up its oldest token, unless that one had expired and is gone already. */
  lemma NewerOfLast(tokens: seq<Token>, limit: nat, cutoff: Time)
    requires Ascending(tokens) && |tokens| == limit + 1
    ensures var q := Newer(tokens, cutoff);
      Newer(tokens[1..], cutoff) == if |q| > limit then q[1..] else q
  {
    assert tokens == [tokens[0]] + tokens[1..];
    FilterAppend([tokens[0]], tokens[1..], IsAfter(cutoff));
    if tokens[0].time > cutoff {
      FilterKeepsAll(tokens, IsAfter(cutoff));
    }
  }

  lemma LastWithOneMore(issued: seq<Token>, t: Token, limit: nat)
    requires |issued| >= limit
    ensures var all := LastOf(issued, limit) + [t];
      && |all| == limit + 1
      && all[1..] == LastOf(issued + [t], limit)
      && (Ascending(issued + [t]) ==> Ascending(all))
  {
    assert LastOf(issued, limit) + [t] == (issued + [t])[|issued| - limit..];
  }

  lemma PushOntoFull(full: seq<Token>, t: Token, limit: nat, cutoff: Time)
    requires |full| == limit && Ascending(full + [t]) && t.time > cutoff
    ensures Push(Newer(full, cutoff), t, limit) == Newer((full + [t])[1..], cutoff)
  {
    FilterAppend(full, [t], IsAfter(cutoff));
    NewerOfLast(full + [t], limit, cutoff);
  }

  lemma PushKeeps(issued: seq<Token>, t: Token, limit: nat, cutoff: Time)
    requires Ascending(issued + [t]) && t.time > cutoff
    ensures Push(Newer(LastOf(issued, limit), cutoff), t, limit) == Newer(LastOf(issued + [t], limit), cutoff)
  {
    if |issued| >= limit {
      LastWithOneMore(issued, t, limit);
      PushOntoFull(LastOf(issued, limit), t, limit, cutoff);
    } else {
      FilterAppend(issued, [t], IsAfter(cutoff));
    }
  }

  lemma PushKeepsLast(issued: seq<Token>, t: Token, limit: nat)
    ensures Push(LastOf(issued, limit), t, limit) == LastOf(issued + [t], limit)
  {
    if |issued| >= limit {
      LastWithOneMore(issued, t, limit);
    }
  }

  lemma GenStep(issued: seq<Token>, t: Token, limit: nat, clean: Option<Time>)
    requires Ascending(issued + [t])
    requires clean.Some? ==> clean.value <= t.time
    ensures Push(Unexpired(LastOf(issued, limit), clean), t, limit) == Unexpired(LastOf(issued + [t], limit), clean)
  {
    match clean
    case Some(c) => PushKeeps(issued, t, limit, c - TOKEN_TTL);
    case None => PushKeepsLast(issued, t, limit);
  }

  lemma CleanStep(last: seq<Token>, clean: Option<Time>, now: Time)
    requires clean.Some? ==> clean.value <= now
    ensures Newer(Unexpired(last, clean), now - TOKEN_TTL) == Unexpired(last, Some(now))
  {
    if clean.Some? {
      NewerTwice(last, clean.value - TOKEN_TTL, now - TOKEN_TTL);
    }
  }

  ghost predicate IsLastUnexpired(queue: seq<Token>, issued: seq<Token>, clean: Option<Time>, limit: nat) {
    queue == Unexpired(LastOf(issued, limit), clean) && |queue| <= limit
  }

  lemma StepKeepsLast(queue: seq<Token>, issued: seq<Token>, clean: Option<Time>, op: TokenOp, limit: nat)
    requires IsLastUnexpired(queue, issued, clean, limit)
    requires clean.Some? ==> clean.value <= TimeOf(op)
    requires op.Gen? ==> Ascending(issued + [op.token])
    ensures op.Gen? ==> IsLastUnexpired(Push(queue, op.token, limit), issued + [op.token], clean, limit)
    ensures op.Clean? ==> IsLastUnexpired(Newer(queue, op.now - TOKEN_TTL), issued, Some(op.now), limit)
  {
    match op
    case Gen(t) => GenStep(issued, t, limit, clean);
    case Clean(now) => CleanStep(LastOf(issued, limit), clean, now);
  }

  lemma StepFits(ops: seq<TokenOp>)
    requires ClockNeverGoesBack(ops) && ops != []
    ensures var (before, op) := (ops[..|ops| - 1], ops[|ops| - 1]);
      && ClockNeverGoesBack(before)
      && (LastClean(before).Some? ==> LastClean(before).value <= TimeOf(op))
      && (op.Gen? ==> Ascending(Issued(before) + [op.token]))
  {
    IssuedAscends(ops[..|ops| - 1]);
    IssuedAscends(ops);
  }

  /** The queue is the last `limit` tokens handed out, less those expired at the latest cleaning. */
  lemma {:induction false} QueueIsLastUnexpired(ops: seq<TokenOp>, limit: nat)
    requires ClockNeverGoesBack(ops)
    ensures IsLastUnexpired(Queue(ops, limit), Issued(ops), LastClean(ops), limit)
  {
    if ops != [] {
      var before, op := ops[..|ops| - 1], ops[|ops| - 1];
      StepFits(ops);
      QueueIsLastUnexpired(before, limit);
      StepKeepsLast(Queue(before, limit), Issued(before), LastClean(before), op, limit);
    }
  }

  predicate Matches(t: Token, bytes: seq<Byte>, nodeId: Id, addr: Addr) {
    t.bytes == bytes && t.nodeId == nodeId && t.addr == addr
  }

  /** The `i`-th token handed out is neither pushed out of the queue nor collected as expired. */
  ghost predicate StillGood(issued: seq<Token>, limit: nat, clean: Option<Time>, i: nat)
    requires i < |issued|
  {
    |issued| - limit <= i && (clean.Some? ==> issued[i].time > clean.value - 600 * SECOND)
  }

  lemma QueueMembers(issued: seq<Token>, limit: nat, clean: Option<Time>, t: Token)
    ensures t in Unexpired(LastOf(issued, limit), clean) <==>
      exists i: nat :: i < |issued| && issued[i] == t && StillGood(issued, limit, clean, i)
  {
    var last := LastOf(issued, limit);
    if clean.Some? {
      FilterMembers(last, IsAfter(clean.value - TOKEN_TTL));
    }
    if j :| 0 <= j < |last| && last[j] == t {
      assert issued[j + |issued| - |last|] == t;
    }
    forall i: nat | i < |issued| && issued[i] == t && StillGood(issued, limit, clean, i)
      ensures t in last
    {
      assert last[i - (|issued| - |last|)] == t;
    }
  }

  /** The `i`-th token handed out matches and is still good. */
  ghost predicate Backs(ops: seq<TokenOp>, limit: nat, i: nat, bytes: seq<Byte>, nodeId: Id, addr: Addr) {
    && i < |Issued(ops)|
    && Matches(Issued(ops)[i], bytes, nodeId, addr)
    && StillGood(Issued(ops), limit, LastClean(ops), i)
  }

  /** An announcement is accepted exactly when a matching token was handed out and is still good. */
  lemma AcceptedIsBacked(ops: seq<TokenOp>, limit: nat, bytes: seq<Byte>, nodeId: Id, addr: Addr)
    requires ClockNeverGoesBack(ops)
    ensures Accepts(Queue(ops, limit), bytes, nodeId, addr) <==>
      exists i: nat :: Backs(ops, limit, i, bytes, nodeId, addr)
  {
    QueueIsLastUnexpired(ops, limit);
    var issued, clean := Issued(ops), LastClean(ops);
    if t :| t in Queue(ops, limit) && Matches(t, bytes, nodeId, addr) {
      QueueMembers(issued, limit, clean, t);
      var i: nat :| i < |issued| && issued[i] == t && StillGood(issued, limit, clean, i);
      assert Backs(ops, limit, i, bytes, nodeId, addr);
    }
    forall i: nat | Backs(ops, limit, i, bytes, nodeId, addr)
      ensures Accepts(Queue(ops, limit), bytes, nodeId, addr)
    {
      QueueMembers(issued, limit, clean, issued[i]);
    }
  }
}
