/**
 Outgoing requests and the table of those in flight.

 Requests share a 16-bit counter that wraps; a request waits in a table keyed by its id and the
 peer's address until a reply, a send error or a timeout takes it out.  The functions are the
 atomic steps and a run is any interleaving of them.  Requests are listed in the order their ids
 were handed out; `serial` is that order before wrapping.
 */
module Transactions {
  import opened Wrappers

  const TID_COUNT: nat := 0x1_0000

  type Tid = t: nat | t < TID_COUNT

  // -- Transaction ids on the wire -------------------------------------------------------------

  /** The two bytes a message carries, high byte first. */
  function TidBytes(tid: Tid): seq<Byte> {
    [tid / 256, tid % 256]
  }

  /** Reading an id back; only two-byte ids can be ours. */
  function OurTransactionId(bytes: seq<Byte>): Option<Tid> {
    if |bytes| != 2 then None
    else
      var high: nat, low: nat := bytes[0], bytes[1];
      Some(high * 256 + low)
  }

  /** Exactly the two bytes written for an id read back as that id. */
  lemma TidRoundTrip(bytes: seq<Byte>, tid: Tid)
    ensures OurTransactionId(bytes) == Some(tid) <==> bytes == TidBytes(tid)
  {
    if OurTransactionId(bytes) == Some(tid) {
      assert bytes == [bytes[0], bytes[1]];
    }
  }

  /** The high byte comes first. */
  lemma TidIsBigEndian(high: Byte, low: Byte)
    ensures OurTransactionId([high, low]) == Some(256 * high as int + low as int)
  {
  }

  // -- State -----------------------------------------------------------------------------------

  datatype Outcome = Answered(reply: nat) | SendFailed | TimedOut | Dead

  /**
   `Created` has an id but is not in the table yet; `Waiting` is; `Delivered` has an outcome in its
   channel and `Orphaned` lost the sending end of it; `Done` returned; `Cancelled` was dropped.
   */
  datatype Phase = Created | Waiting | Delivered(outcome: Outcome) | Orphaned | Done(result: Outcome) | Cancelled

  datatype Request = Request(serial: nat, tid: Tid, addr: Addr, phase: Phase)
  {
    function Key(): (Tid, Addr) {
      (tid, addr)
    }

    predicate Live() {
      !phase.Done? && phase != Cancelled
    }
  }

  /** `issued` counts the ids handed out; the program's counter is its value modulo 65536. */
  datatype State = State(
    issued: nat,
    table: map<(Tid, Addr), nat>,
    requests: seq<Request>,
    announced: seq<(nat, Addr)>)
  {
    predicate Is(i: nat, p: Phase) {
      i < |requests| && requests[i].phase == p
    }
  }

  const INITIAL := State(0, map[], [], [])

  datatype Step =
    | Create(addr: Addr)
    | Insert(request: nat)
    | WorkerGone(request: nat)
    | Announce(addr: Addr)
    | Reply(bytes: seq<Byte>, from: Addr, reply: nat)
    | SendError(tid: Tid, to: Addr)
    | Timeout(request: nat)
    | Receive(request: nat)
    | Cancel(request: nat)

  function SetPhase(s: State, i: nat, p: Phase): State
    requires i < |s.requests|
  {
    s.(requests := s.requests[i := s.requests[i].(phase := p)])
  }

  /** The sending end for request `i` is dropped; a request still waiting will notice. */
  function DropSender(s: State, i: nat): State {
    if s.Is(i, Waiting) then SetPhase(s, i, Orphaned) else s
  }

  /** An outcome is sent to request `i`; a receiver that is gone loses it. */
  function Deliver(s: State, i: nat, o: Outcome): State {
    if s.Is(i, Waiting) then SetPhase(s, i, Delivered(o)) else s
  }

  /** Puts request `i` into the table; an entry already there is overwritten and its sender dropped. */
  function PutIn(s: State, i: nat): State
    requires i < |s.requests|
  {
    var key := s.requests[i].Key();
    var displaced := if key in s.table then DropSender(s, s.table[key]) else s;
    SetPhase(displaced, i, Waiting).(table := s.table[key := i])
  }

  /** Takes the entry under `key` out of the table, if any, and sends it the outcome. */
  function TakeOut(s: State, key: (Tid, Addr), o: Outcome): State {
    if key in s.table then Deliver(s, s.table[key], o).(table := s.table - {key}) else s
  }

  /** Request `i` removes whatever the table holds under its key and returns. */
  function Finish(s: State, i: nat, o: Outcome): State
    requires i < |s.requests|
  {
    var key := s.requests[i].Key();
    var removed := if key in s.table then DropSender(s, s.table[key]).(table := s.table - {key}) else s;
    SetPhase(removed, i, Done(o))
  }

  predicate Enabled(s: State, step: Step) {
    match step
    case Insert(i) => s.Is(i, Created)
    case WorkerGone(i) =>
      i < |s.requests| && (s.Is(i, Waiting) || s.requests[i].phase.Delivered? || s.Is(i, Orphaned))
    case Timeout(i) => s.Is(i, Waiting)
    case Receive(i) => i < |s.requests| && (s.requests[i].phase.Delivered? || s.Is(i, Orphaned))
    case Cancel(i) =>
      i < |s.requests| && (s.Is(i, Waiting) || s.requests[i].phase.Delivered? || s.Is(i, Orphaned))
    case _ => true
  }

  function Apply(s: State, step: Step): State
    requires Enabled(s, step)
  {
    match step
    case Create(addr) =>
      var created := Request(s.issued, s.issued % TID_COUNT, addr, Created);
      s.(issued := s.issued + 1, requests := s.requests + [created])
    case Insert(i) => PutIn(s, i)
    case WorkerGone(i) => Finish(s, i, Dead)
    case Announce(addr) => s.(issued := s.issued + 1, announced := s.announced + [(s.issued, addr)])
    case Reply(bytes, from, reply) =>
      var tid := OurTransactionId(bytes);
      if tid.Some? then TakeOut(s, (tid.value, from), Answered(reply)) else s
    case SendError(tid, to) => TakeOut(s, (tid, to), SendFailed)
    case Timeout(i) => Finish(s, i, TimedOut)
    case Receive(i) =>
      if s.requests[i].phase.Delivered? then SetPhase(s, i, Done(s.requests[i].phase.outcome)) else Finish(s, i, Dead)
    case Cancel(i) => SetPhase(s, i, Cancelled)
  }

  // -- The table -------------------------------------------------------------------------------

  /** A waiting request is in the table under its key. */
  ghost predicate WaitingOk(s: State, i: nat)
    requires i < |s.requests|
  {
    var key := s.requests[i].Key();
    s.Is(i, Waiting) ==> key in s.table && s.table[key] == i
  }

  /** An entry belongs to a waiting request or to one that was abandoned. */
  ghost predicate EntryOk(s: State, key: (Tid, Addr))
    requires key in s.table
  {
    var i := s.table[key];
    i < |s.requests| && s.requests[i].Key() == key && (s.Is(i, Waiting) || s.Is(i, Cancelled))
  }

  ghost predicate NobodyOrphaned(s: State) {
    forall i :: 0 <= i < |s.requests| ==> !s.Is(i, Orphaned)
  }

  /** The table holds exactly the waiting requests, under their own keys, plus abandoned ones. */
  ghost predicate TableOk(s: State) {
    && NobodyOrphaned(s)
    && (forall i :: 0 <= i < |s.requests| ==> WaitingOk(s, i))
    && (forall key :: key in s.table ==> EntryOk(s, key))
  }

  /**
   The step would take away the entry of a waiting request other than its own: by inserting over it,
   or by removing it after the worker went away.
   */
  predicate Clashes(s: State, step: Step) {
    match step
    case Insert(i) =>
      i < |s.requests| && s.requests[i].Key() in s.table && s.Is(s.table[s.requests[i].Key()], Waiting)
    case WorkerGone(i) =>
      i < |s.requests| && s.requests[i].Key() in s.table
      && s.table[s.requests[i].Key()] != i && s.Is(s.table[s.requests[i].Key()], Waiting)
    case _ => false
  }

  lemma PutInEffect(s: State, i: nat)
    requires TableOk(s) && Enabled(s, Insert(i)) && !Clashes(s, Insert(i))
    ensures PutIn(s, i) == s.(
      table := s.table[s.requests[i].Key() := i],
      requests := s.requests[i := s.requests[i].(phase := Waiting)])
  {
  }

  lemma InsertKeepsTable(s: State, i: nat)
    requires TableOk(s) && Enabled(s, Insert(i)) && !Clashes(s, Insert(i))
    ensures TableOk(PutIn(s, i))
  {
    PutInEffect(s, i);
    var t := PutIn(s, i);
    forall j | 0 <= j < |t.requests|
      ensures WaitingOk(t, j) && !t.Is(j, Orphaned)
    {
      assert WaitingOk(s, j) && !s.Is(j, Orphaned);
    }
    forall key | key in t.table
      ensures EntryOk(t, key)
    {
      if key != s.requests[i].Key() {
        assert EntryOk(s, key);
      }
    }
  }

  lemma TakeOutKeepsTable(s: State, key: (Tid, Addr), o: Outcome)
    requires TableOk(s)
    ensures TableOk(TakeOut(s, key, o))
  {
    if key in s.table {
      assert EntryOk(s, key);
      var t := TakeOut(s, key, o);
      forall j | 0 <= j < |t.requests|
        ensures WaitingOk(t, j) && !t.Is(j, Orphaned)
      {
        assert WaitingOk(s, j) && !s.Is(j, Orphaned);
      }
      forall k | k in t.table
        ensures EntryOk(t, k)
      {
        assert EntryOk(s, k);
      }
    }
  }

  /** A request that returns while its key holds no other waiting request. */
  lemma FinishEffect(s: State, i: nat, o: Outcome)
    requires TableOk(s) && i < |s.requests| && !s.Is(i, Created) && !Clashes(s, WorkerGone(i))
    ensures Finish(s, i, o) == s.(
      table := s.table - {s.requests[i].Key()},
      requests := s.requests[i := s.requests[i].(phase := Done(o))])
  {
    if s.requests[i].Key() !in s.table {
      assert s.table - {s.requests[i].Key()} == s.table;
    }
  }

  lemma FinishKeepsTable(s: State, i: nat, o: Outcome)
    requires TableOk(s) && i < |s.requests| && s.requests[i].Live() && !s.Is(i, Created) && !Clashes(s, WorkerGone(i))
    ensures TableOk(Finish(s, i, o))
  {
    FinishEffect(s, i, o);
    var t := Finish(s, i, o);
    forall j | 0 <= j < |t.requests|
      ensures WaitingOk(t, j) && !t.Is(j, Orphaned)
    {
      assert WaitingOk(s, j) && !s.Is(j, Orphaned);
    }
    forall key | key in t.table
      ensures EntryOk(t, key)
    {
      assert EntryOk(s, key);
    }
  }

  lemma StopKeepsTable(s: State, i: nat, p: Phase)
    requires TableOk(s) && i < |s.requests| && s.requests[i].Live() && !s.Is(i, Created)
    requires p == Cancelled || (p.Done? && s.requests[i].phase.Delivered?)
    ensures TableOk(SetPhase(s, i, p))
  {
    var t := SetPhase(s, i, p);
    forall j | 0 <= j < |t.requests|
      ensures WaitingOk(t, j) && !t.Is(j, Orphaned)
    {
      assert WaitingOk(s, j) && !s.Is(j, Orphaned);
    }
    forall key | key in t.table
      ensures EntryOk(t, key)
    {
      assert EntryOk(s, key);
    }
  }

  lemma IssueKeepsTable(s: State, step: Step)
    requires TableOk(s) && (step.Create? || step.Announce?)
    ensures TableOk(Apply(s, step))
  {
    var t := Apply(s, step);
    forall j | 0 <= j < |t.requests|
      ensures WaitingOk(t, j) && !t.Is(j, Orphaned)
    {
      if j < |s.requests| {
        assert WaitingOk(s, j) && !s.Is(j, Orphaned);
      }
    }
    forall key | key in t.table
      ensures EntryOk(t, key)
    {
      assert EntryOk(s, key);
    }
  }

  lemma TimeoutNeverClashes(s: State, i: nat)
    requires TableOk(s) && s.Is(i, Waiting)
    ensures !Clashes(s, WorkerGone(i))
  {
    assert WaitingOk(s, i);
  }

  lemma StepKeepsTable(s: State, step: Step)
    requires TableOk(s) && Enabled(s, step) && !Clashes(s, step)
    ensures TableOk(Apply(s, step))
  {
    match step
    case Create(_) => IssueKeepsTable(s, step);
    case Insert(i) => InsertKeepsTable(s, i);
    case WorkerGone(i) => FinishKeepsTable(s, i, Dead);
    case Announce(_) => IssueKeepsTable(s, step);
    case Reply(bytes, from, reply) =>
      var tid := OurTransactionId(bytes);
      if tid.Some? {
        TakeOutKeepsTable(s, (tid.value, from), Answered(reply));
      }
    case SendError(tid, to) => TakeOutKeepsTable(s, (tid, to), SendFailed);
    case Timeout(i) =>
      TimeoutNeverClashes(s, i);
      FinishKeepsTable(s, i, TimedOut);
    case Receive(i) =>
      assert !s.Is(i, Orphaned);
      StopKeepsTable(s, i, Done(s.requests[i].phase.outcome));
    case Cancel(i) => StopKeepsTable(s, i, Cancelled);
  }

  lemma ClashOrphans(s: State, step: Step)
    requires TableOk(s) && Enabled(s, step) && Clashes(s, step)
    ensures !NobodyOrphaned(Apply(s, step))
  {
    var key := s.requests[step.request].Key();
    assert Apply(s, step).Is(s.table[key], Orphaned);
  }

  // -- Executions ------------------------------------------------------------------------------

  ghost predicate IsExecution(steps: seq<Step>, states: seq<State>) {
    && |states| == |steps| + 1
    && states[0] == INITIAL
    && forall n :: 0 <= n < |steps| ==> Enabled(states[n], steps[n]) && states[n + 1] == Apply(states[n], steps[n])
  }

  /** An execution in which no step clashes. */
  ghost predicate IsClean(steps: seq<Step>, states: seq<State>) {
    IsExecution(steps, states) && forall n :: 0 <= n < |steps| ==> !Clashes(states[n], steps[n])
  }

  /** While no step clashes the table is exactly the waiting requests plus abandoned ones. */
  lemma {:induction false} CleanKeepsTable(steps: seq<Step>, states: seq<State>)
    requires IsClean(steps, states)
    ensures forall n :: 0 <= n < |states| ==> TableOk(states[n])
  {
    if steps != [] {
      var m := |steps| - 1;
      CleanKeepsTable(steps[..m], states[..m + 1]);
      assert TableOk(states[..m + 1][m]);
      StepKeepsTable(states[m], steps[m]);
    }
  }

  /** Over every interleaving: no request ever loses its entry to another exactly when no step clashes. */
  lemma {:induction false} OrphanedIffClash(steps: seq<Step>, states: seq<State>)
    requires IsExecution(steps, states)
    ensures IsClean(steps, states) <==> forall n :: 0 <= n < |states| ==> NobodyOrphaned(states[n])
  {
    if IsClean(steps, states) {
      CleanKeepsTable(steps, states);
    } else {
      var m := |steps| - 1;
      OrphanedIffClash(steps[..m], states[..m + 1]);
      if IsClean(steps[..m], states[..m + 1]) {
        CleanKeepsTable(steps[..m], states[..m + 1]);
        assert TableOk(states[..m + 1][m]);
        ClashOrphans(states[m], steps[m]);
        assert !NobodyOrphaned(states[m + 1]);
      } else {
        var n :| 0 <= n < |states[..m + 1]| && !NobodyOrphaned(states[..m + 1][n]);
        assert !NobodyOrphaned(states[n]);
      }
    }
  }

  // -- A rate that keeps executions clean ------------------------------------------------------

  /** Fewer than 65536 ids were handed out since any request now live got its own. */
  predicate WindowOpen(s: State) {
    forall i :: 0 <= i < |s.requests| && s.requests[i].Live() ==> s.issued - s.requests[i].serial < TID_COUNT
  }

  /** Any interleaving in which no id is handed out while the window is closed. */
  ghost predicate IsRun(steps: seq<Step>, states: seq<State>) {
    && IsExecution(steps, states)
    && forall n :: 0 <= n < |steps| && (steps[n].Create? || steps[n].Announce?) ==> WindowOpen(states[n])
  }

  /** Each id is its serial, wrapped. */
  ghost predicate RequestOk(s: State, i: nat)
    requires i < |s.requests|
  {
    var q := s.requests[i];
    q.serial < s.issued && q.tid == q.serial % TID_COUNT
  }

  /** Serials ascend, and stay within one round of the counter while the older request is live. */
  ghost predicate PairOk(s: State, i: nat, j: nat)
    requires i < j < |s.requests|
  {
    var p, q := s.requests[i], s.requests[j];
    p.serial < q.serial && (p.Live() ==> q.serial - p.serial < TID_COUNT)
  }

  ghost predicate AnnounceOk(s: State, a: (nat, Addr), i: nat)
    requires i < |s.requests|
  {
    var q := s.requests[i];
    a.0 < s.issued && a.0 != q.serial && (q.Live() ==> a.0 - q.serial < TID_COUNT)
  }

  ghost predicate NumbersOk(s: State) {
    && (forall i :: 0 <= i < |s.requests| ==> RequestOk(s, i))
    && (forall i, j :: 0 <= i < j < |s.requests| ==> PairOk(s, i, j))
    && (forall a :: a in s.announced ==> a.0 < s.issued)
    && (forall a, i :: a in s.announced && 0 <= i < |s.requests| ==> AnnounceOk(s, a, i))
  }

  lemma SameResidue(a: nat, b: nat)
    requires a < b < a + TID_COUNT
    ensures a % TID_COUNT != b % TID_COUNT
  {
    assert b == a + (b - a);
  }

  /** No two live requests share an id. */
  lemma LiveIdsDiffer(s: State, i: nat, j: nat)
    requires NumbersOk(s) && i < j < |s.requests| && s.requests[i].Live()
    ensures s.requests[i].tid != s.requests[j].tid
  {
    assert PairOk(s, i, j) && RequestOk(s, i) && RequestOk(s, j);
    SameResidue(s.requests[i].serial, s.requests[j].serial);
  }

  lemma NumbersPreventClash(s: State, step: Step)
    requires NumbersOk(s) && TableOk(s) && Enabled(s, step)
    ensures !Clashes(s, step)
  {
    if Clashes(s, step) {
      var i := step.request;
      var j := s.table[s.requests[i].Key()];
      assert EntryOk(s, s.requests[i].Key());
      LiveIdsDiffer(s, if i < j then i else j, if i < j then j else i);
    }
  }

  lemma IssueKeepsNumbers(s: State, step: Step)
    requires NumbersOk(s) && WindowOpen(s) && (step.Create? || step.Announce?)
    ensures NumbersOk(Apply(s, step))
  {
    var t := Apply(s, step);
    forall j | 0 <= j < |t.requests|
      ensures RequestOk(t, j)
    {
      if j < |s.requests| {
        assert RequestOk(s, j);
      }
    }
    forall j, k | 0 <= j < k < |t.requests|
      ensures PairOk(t, j, k)
    {
      assert RequestOk(s, j);
      if k < |s.requests| {
        assert PairOk(s, j, k);
      }
    }
    forall a, j | a in t.announced && 0 <= j < |t.requests|
      ensures AnnounceOk(t, a, j)
    {
      if j < |s.requests| {
        assert RequestOk(s, j);
        if a in s.announced {
          assert AnnounceOk(s, a, j);
        }
      }
    }
  }

  /** Other steps leave the numbering alone, and bring nothing back to life. */
  lemma OtherStepsKeepNumbers(s: State, step: Step)
    requires NumbersOk(s) && TableOk(s) && Enabled(s, step) && !Clashes(s, step)
    requires !step.Create? && !step.Announce?
    ensures NumbersOk(Apply(s, step))
  {
    var t := Apply(s, step);
    StepNewcomer(s, step);
    forall j | 0 <= j < |t.requests|
      ensures RequestOk(t, j) && t.requests[j].serial == s.requests[j].serial
      ensures t.requests[j].Live() ==> s.requests[j].Live()
    {
      assert RequestOk(s, j);
      StepEffect(s, step, j);
    }
    forall j, k | 0 <= j < k < |t.requests|
      ensures PairOk(t, j, k)
    {
      assert PairOk(s, j, k);
    }
    forall a, j | a in t.announced && 0 <= j < |t.requests|
      ensures AnnounceOk(t, a, j)
    {
      assert AnnounceOk(s, a, j);
    }
  }

  /** Within the window no execution clashes, so every result about clean executions applies. */
  lemma {:induction false} RunsAreClean(steps: seq<Step>, states: seq<State>)
    requires IsRun(steps, states)
    ensures IsClean(steps, states)
    ensures forall n :: 0 <= n < |states| ==> NumbersOk(states[n]) && TableOk(states[n])
  {
    if steps != [] {
      var m := |steps| - 1;
      RunsAreClean(steps[..m], states[..m + 1]);
      var s := states[..m + 1][m];
      assert NumbersOk(s) && TableOk(s) && s == states[m];
      NumbersPreventClash(s, steps[m]);
      StepKeepsTable(s, steps[m]);
      if steps[m].Create? || steps[m].Announce? {
        IssueKeepsNumbers(s, steps[m]);
      } else {
        OtherStepsKeepNumbers(s, steps[m]);
      }
    }
  }

  // -- Steps request by request ----------------------------------------------------------------

  /** The phase request `i` has after a step. */
  function NextPhase(s: State, step: Step, i: nat): Phase
    requires Enabled(s, step) && i < |s.requests|
  {
    var p := s.requests[i].phase;
    match step
    case Insert(j) => if j == i then Waiting else p
    case WorkerGone(j) => if j == i then Done(Dead) else p
    case Reply(bytes, from, reply) =>
      if p == Waiting && bytes == TidBytes(s.requests[i].tid) && from == s.requests[i].addr then
        Delivered(Answered(reply))
      else p
    case SendError(tid, to) => if p == Waiting && (tid, to) == s.requests[i].Key() then Delivered(SendFailed) else p
    case Timeout(j) => if j == i then Done(TimedOut) else p
    case Receive(j) => if j == i && p.Delivered? then Done(p.outcome) else p
    case Cancel(j) => if j == i then Cancelled else p
    case _ => p
  }

  /** Each step changes the phases of the requests it is about and of no others. */
  lemma StepEffect(s: State, step: Step, i: nat)
    requires TableOk(s) && Enabled(s, step) && !Clashes(s, step) && i < |s.requests|
    ensures i < |Apply(s, step).requests|
    ensures Apply(s, step).requests[i] == s.requests[i].(phase := NextPhase(s, step, i))
  {
    assert WaitingOk(s, i);
    match step
    case Insert(j) => PutInEffect(s, j);
    case WorkerGone(j) => FinishEffect(s, j, Dead);
    case Timeout(j) =>
      TimeoutNeverClashes(s, j);
      FinishEffect(s, j, TimedOut);
    case Reply(bytes, from, reply) => ReplyGoesToItsRequest(s, bytes, from, reply, i);
    case SendError(tid, to) =>
      if (tid, to) in s.table {
        assert EntryOk(s, (tid, to));
      }
    case Receive(j) => assert !s.Is(j, Orphaned);
    case _ =>
  }

  /** Only handing out an id for a request adds one, and it starts out as created. */
  lemma StepNewcomer(s: State, step: Step)
    requires Enabled(s, step)
    ensures var t := Apply(s, step);
      if step.Create? then |t.requests| == |s.requests| + 1 && t.Is(|s.requests|, Created)
      else |t.requests| == |s.requests|
  {
  }

  /** A reply changes exactly the waiting request whose two-byte id and address it carries. */
  lemma ReplyGoesToItsRequest(s: State, bytes: seq<Byte>, from: Addr, reply: nat, i: nat)
    requires TableOk(s) && i < |s.requests|
    ensures var t := Apply(s, Reply(bytes, from, reply));
      && |t.requests| == |s.requests|
      && (t.requests[i] != s.requests[i] <==>
            s.Is(i, Waiting) && bytes == TidBytes(s.requests[i].tid) && from == s.requests[i].addr)
      && (t.requests[i] != s.requests[i] ==>
            t.requests[i] == s.requests[i].(phase := Delivered(Answered(reply))) && s.requests[i].Key() !in t.table)
  {
    TidRoundTrip(bytes, s.requests[i].tid);
    assert WaitingOk(s, i);
    var tid := OurTransactionId(bytes);
    if tid.Some? && (tid.value, from) in s.table {
      assert EntryOk(s, (tid.value, from));
    }
  }

  /**
   A reply to an announcement, within one round of the counter, reaches no request, and leaves the
   table alone unless an abandoned entry sits under the same id and address.
   */
  lemma AnnounceReplyReachesNobody(s: State, a: (nat, Addr), reply: nat)
    requires NumbersOk(s) && TableOk(s) && a in s.announced && a.0 < s.issued <= a.0 + TID_COUNT
    ensures var key := (a.0 % TID_COUNT, a.1);
      var t := Apply(s, Reply(TidBytes(key.0), a.1, reply));
      && t.requests == s.requests
      && (key in s.table ==> s.Is(s.table[key], Cancelled))
      && (t == s <==> key !in s.table)
  {
    var key := (a.0 % TID_COUNT, a.1);
    TidRoundTrip(TidBytes(key.0), key.0);
    if key in s.table {
      assert EntryOk(s, key) && AnnounceOk(s, a, s.table[key]) && RequestOk(s, s.table[key]);
      var q := s.requests[s.table[key]];
      if q.Live() {
        SameResidue(if q.serial < a.0 then q.serial else a.0, if q.serial < a.0 then a.0 else q.serial);
      }
    }
  }

  // -- Completion ------------------------------------------------------------------------------

  /** The steps in which the future of request `i` returns. */
  predicate Completes(step: Step, i: nat) {
    (step.WorkerGone? || step.Timeout? || step.Receive?) && step.request == i
  }

  /** A request has a step that returns it exactly when it was sent and is not done or cancelled. */
  lemma CanReturnIff(s: State, i: nat)
    ensures CanReturn(s, i) <==> IsSent(s, i)
  {
    var step := if s.Is(i, Waiting) then Timeout(i) else Receive(i);
    if IsSent(s, i) {
      assert Completes(step, i) && Enabled(s, step);
    }
  }

  // -- Executions without end ------------------------------------------------------------------

  ghost predicate StepAt(steps: nat -> Step, states: nat -> State, n: nat) {
    Enabled(states(n), steps(n)) && states(n + 1) == Apply(states(n), steps(n))
  }

  ghost predicate GoesOn(steps: nat -> Step, states: nat -> State) {
    states(0) == INITIAL && forall n: nat :: StepAt(steps, states, n)
  }

  ghost predicate CanReturn(s: State, i: nat) {
    exists step :: Completes(step, i) && Enabled(s, step)
  }

  /** A request that could return at every point from `n` on does so at some point. */
  ghost predicate FairTo(steps: nat -> Step, states: nat -> State, i: nat, n: nat) {
    (forall m: nat :: n <= m ==> CanReturn(states(m), i)) ==> exists m: nat :: n <= m && Completes(steps(m), i)
  }

  ghost predicate IsSent(s: State, i: nat) {
    i < |s.requests| && s.requests[i].Live() && !s.Is(i, Created)
  }

  ghost predicate IsOver(s: State, i: nat) {
    i < |s.requests| && !s.requests[i].Live()
  }

  /** Until a step that returns or drops it a request stays sent, and after that it stays over. */
  lemma SentOrOver(s: State, step: Step, i: nat)
    requires Enabled(s, step)
    ensures IsSent(s, i) && !Closes(step, i) ==> IsSent(Apply(s, step), i)
    ensures Closes(step, i) ==> IsSent(s, i) && IsOver(Apply(s, step), i)
    ensures IsOver(s, i) ==> IsOver(Apply(s, step), i)
  {
  }

  /** A request is only over once some step returned or dropped it. */
  lemma {:induction false} ClosingStep(steps: nat -> Step, states: nat -> State, i: nat, n: nat, k: nat)
    returns (m: nat)
    requires GoesOn(steps, states) && n <= k && IsSent(states(n), i) && !IsSent(states(k), i)
    ensures n <= m < k && Closes(steps(m), i)
    decreases k - n
  {
    assert n < k && StepAt(steps, states, k - 1);
    SentOrOver(states(k - 1), steps(k - 1), i);
    if Closes(steps(k - 1), i) {
      m := k - 1;
    } else {
      m := ClosingStep(steps, states, i, n, k - 1);
    }
  }

  lemma {:induction false} StaysOver(steps: nat -> Step, states: nat -> State, i: nat, n: nat, m: nat)
    requires GoesOn(steps, states) && n <= m && IsOver(states(n), i)
    ensures IsOver(states(m), i)
    decreases m - n
  {
    if n < m {
      StaysOver(steps, states, i, n, m - 1);
      assert StepAt(steps, states, m - 1);
      SentOrOver(states(m - 1), steps(m - 1), i);
    }
  }

  /**
   In every execution that treats it fairly a request that was sent returns or is dropped, clashes or
   not, and it does one of the two exactly once.
   */
  lemma FairRequestsReturnOnce(steps: nat -> Step, states: nat -> State, i: nat, n: nat) returns (m: nat)
    requires GoesOn(steps, states) && IsSent(states(n), i) && FairTo(steps, states, i, n)
    ensures n <= m && Closes(steps(m), i)
    ensures forall k: nat :: Closes(steps(k), i) ==> k == m
  {
    if k: nat :| n <= k && !CanReturn(states(k), i) {
      CanReturnIff(states(k), i);
      m := ClosingStep(steps, states, i, n, k);
    } else {
      m :| n <= m && Completes(steps(m), i);
    }
    forall k: nat | Closes(steps(k), i)
      ensures k == m
    {
      if k < m {
        ClosesOnce(steps, states, i, k, m);
      } else if m < k {
        ClosesOnce(steps, states, i, m, k);
      }
    }
  }

  lemma ClosesOnce(steps: nat -> Step, states: nat -> State, i: nat, n: nat, m: nat)
    requires GoesOn(steps, states) && n < m && Closes(steps(n), i)
    ensures !Closes(steps(m), i)
  {
    assert StepAt(steps, states, n) && StepAt(steps, states, m);
    SentOrOver(states(n), steps(n), i);
    StaysOver(steps, states, i, n + 1, m);
    SentOrOver(states(m), steps(m), i);
  }

  // -- What decides the outcome ----------------------------------------------------------------

  /** The step answers, fails or ends request `i`, whose id and address are given. */
  predicate IsOwn(step: Step, i: nat, tid: Tid, addr: Addr) {
    match step
    case Reply(bytes, from, _) => bytes == TidBytes(tid) && from == addr
    case SendError(t, to) => t == tid && to == addr
    case _ => Closes(step, i) && !step.Receive?
  }

  /** The step makes the future of request `i` return or drops it. */
  predicate Closes(step: Step, i: nat) {
    Completes(step, i) || step == Cancel(i)
  }

  /** The first own step of a request at or after position `n`. */
  function FirstOwn(steps: seq<Step>, n: nat, i: nat, tid: Tid, addr: Addr): (r: Option<nat>)
    ensures r.Some? ==> n <= r.value < |steps| && IsOwn(steps[r.value], i, tid, addr)
    ensures forall k :: n <= k < (if r.Some? then r.value else |steps|) ==> !IsOwn(steps[k], i, tid, addr)
    decreases |steps| - n
  {
    if n >= |steps| then None
    else if IsOwn(steps[n], i, tid, addr) then Some(n)
    else FirstOwn(steps, n + 1, i, tid, addr)
  }

  function FirstClosing(steps: seq<Step>, n: nat, i: nat): (r: Option<nat>)
    ensures r.Some? ==> n <= r.value < |steps| && Closes(steps[r.value], i)
    ensures forall k :: n <= k < (if r.Some? then r.value else |steps|) ==> !Closes(steps[k], i)
    decreases |steps| - n
  {
    if n >= |steps| then None
    else if Closes(steps[n], i) then Some(n)
    else FirstClosing(steps, n + 1, i)
  }

  /** Where a closing step leaves a request that has outcome `o` in its channel. */
  function Closed(step: Step, o: Outcome): Phase {
    match step
    case Cancel(_) => Cancelled
    case WorkerGone(_) => Done(Dead)
    case _ => Done(o)
  }

  /** The phase of a request with outcome `o` in its channel since position `n`. */
  function Settled(steps: seq<Step>, n: nat, i: nat, o: Outcome): Phase {
    match FirstClosing(steps, n, i)
    case Some(k) => Closed(steps[k], o)
    case None => Delivered(o)
  }

  /** The phase of a request put into the table just before position `n`, from the steps alone. */
  function Verdict(steps: seq<Step>, n: nat, i: nat, tid: Tid, addr: Addr): Phase {
    match FirstOwn(steps, n, i, tid, addr)
    case None => Waiting
    case Some(m) =>
      match steps[m]
      case Reply(_, _, reply) => Settled(steps, m + 1, i, Answered(reply))
      case SendError(_, _) => Settled(steps, m + 1, i, SendFailed)
      case Timeout(_) => Done(TimedOut)
      case WorkerGone(_) => Done(Dead)
      case _ => Cancelled
  }

  /** Whether a step leaves a request in phase `p` as it is. */
  predicate Quiet(step: Step, i: nat, q: Request) {
    match q.phase
    case Created => step != Insert(i)
    case Waiting => !IsOwn(step, i, q.tid, q.addr)
    case Delivered(_) => !Closes(step, i)
    case _ => true
  }

  /** A request that is in some phase stays in it until a step that is not quiet for it. */
  lemma {:induction false} StaysWhileQuiet(steps: seq<Step>, states: seq<State>, i: nat, n: nat, m: nat)
    requires IsClean(steps, states) && n <= m <= |steps| && i < |states[n].requests|
    requires forall k :: n <= k < m ==> Quiet(steps[k], i, states[n].requests[i])
    ensures i < |states[m].requests| && states[m].requests[i] == states[n].requests[i]
    decreases m - n
  {
    if n < m {
      StaysWhileQuiet(steps, states, i, n, m - 1);
      CleanBefore(steps, states, m - 1);
      QuietStep(states[m - 1], steps[m - 1], i);
    }
  }

  lemma QuietStep(s: State, step: Step, i: nat)
    requires TableOk(s) && Enabled(s, step) && !Clashes(s, step)
    requires i < |s.requests| && Quiet(step, i, s.requests[i])
    ensures i < |Apply(s, step).requests| && Apply(s, step).requests[i] == s.requests[i]
  {
    StepEffect(s, step, i);
    assert !s.Is(i, Orphaned);
  }

  lemma CleanBefore(steps: seq<Step>, states: seq<State>, m: nat)
    requires IsClean(steps, states) && m < |steps|
    ensures TableOk(states[m]) && Enabled(states[m], steps[m]) && !Clashes(states[m], steps[m])
    ensures states[m + 1] == Apply(states[m], steps[m])
  {
    CleanKeepsTable(steps, states);
  }

  lemma CleanStep(steps: seq<Step>, states: seq<State>, m: nat, i: nat)
    requires IsClean(steps, states) && m < |steps| && i < |states[m].requests|
    ensures Enabled(states[m], steps[m]) && !states[m].Is(i, Orphaned) && i < |states[m + 1].requests|
    ensures states[m + 1].requests[i] == states[m].requests[i].(phase := NextPhase(states[m], steps[m], i))
  {
    CleanBefore(steps, states, m);
    StepEffect(states[m], steps[m], i);
  }

  lemma SettledInRun(steps: seq<Step>, states: seq<State>, i: nat, n: nat)
    requires IsClean(steps, states) && n <= |steps| && i < |states[n].requests|
    requires states[n].requests[i].phase.Delivered?
    ensures i < |states[|steps|].requests|
    ensures states[|steps|].requests[i].phase == Settled(steps, n, i, states[n].requests[i].phase.outcome)
  {
    match FirstClosing(steps, n, i)
    case None => StaysWhileQuiet(steps, states, i, n, |steps|);
    case Some(k) =>
      StaysWhileQuiet(steps, states, i, n, k);
      CleanStep(steps, states, k, i);
      StaysWhileQuiet(steps, states, i, k + 1, |steps|);
  }

  /**
   In every clean execution the steps after its insertion decide where a request is: it waits until
   its first own step; a timeout, a dead worker or a cancellation then ends it for good, and a reply
   or a send error is what it returns unless a later one of these comes before it is collected.
   */
  lemma FirstOwnStepDecides(steps: seq<Step>, states: seq<State>, i: nat, n: nat)
    requires IsClean(steps, states) && n < |steps| && steps[n] == Insert(i)
    ensures i < |states[n].requests| && i < |states[|steps|].requests|
    ensures var q := states[n].requests[i];
      states[|steps|].requests[i] == q.(phase := Verdict(steps, n + 1, i, q.tid, q.addr))
  {
    assert Enabled(states[n], steps[n]);
    var q := states[n].requests[i];
    CleanStep(steps, states, n, i);
    match FirstOwn(steps, n + 1, i, q.tid, q.addr)
    case None => StaysWhileQuiet(steps, states, i, n + 1, |steps|);
    case Some(m) =>
      StaysWhileQuiet(steps, states, i, n + 1, m);
      CleanStep(steps, states, m, i);
      if states[m + 1].requests[i].phase.Delivered? {
        SettledInRun(steps, states, i, m + 1);
        KeepsKey(steps, states, i, m + 1, |steps|);
      } else {
        StaysWhileQuiet(steps, states, i, m + 1, |steps|);
      }
  }

  lemma {:induction false} KeepsKey(steps: seq<Step>, states: seq<State>, i: nat, n: nat, m: nat)
    requires IsClean(steps, states) && n <= m <= |steps| && i < |states[n].requests|
    ensures i < |states[m].requests|
    ensures states[m].requests[i] == states[n].requests[i].(phase := states[m].requests[i].phase)
    decreases m - n
  {
    if n < m {
      KeepsKey(steps, states, i, n, m - 1);
      CleanStep(steps, states, m - 1, i);
    }
  }

  /** Only requests that were put into the table get beyond their creation. */
  lemma {:induction false} WasInserted(steps: seq<Step>, states: seq<State>, i: nat, m: nat) returns (n: nat)
    requires IsExecution(steps, states) && m <= |steps| && i < |states[m].requests| && !states[m].Is(i, Created)
    ensures n < m && steps[n] == Insert(i)
  {
    assert m > 0;
    assert Enabled(states[m - 1], steps[m - 1]) && states[m] == Apply(states[m - 1], steps[m - 1]);
    if steps[m - 1] == Insert(i) {
      n := m - 1;
    } else {
      n := WasInserted(steps, states, i, m - 1);
    }
  }

  /** The request is put into the table, and no reply or send error for it comes before it times out. */
  ghost predicate TimesOut(steps: seq<Step>, n: nat, t: nat, i: nat, tid: Tid, addr: Addr) {
    && n < t < |steps| && steps[n] == Insert(i) && steps[t] == Timeout(i)
    && forall k :: n < k < t ==> !IsOwn(steps[k], i, tid, addr)
  }

  /** A request returns a timeout exactly when its timer fires before anything else of its own. */
  lemma TimedOutIffNothingCame(steps: seq<Step>, states: seq<State>, i: nat)
    requires IsClean(steps, states) && i < |states[|steps|].requests|
    ensures var q := states[|steps|].requests[i];
      q.phase == Done(TimedOut) <==> exists n: nat, t: nat :: TimesOut(steps, n, t, i, q.tid, q.addr)
  {
    var q := states[|steps|].requests[i];
    if q.phase == Done(TimedOut) {
      var n := WasInserted(steps, states, i, |steps|);
      FirstOwnStepDecides(steps, states, i, n);
      VerdictTimedOutIff(steps, n, i, q.tid, q.addr);
    }
    forall n: nat, t: nat | TimesOut(steps, n, t, i, q.tid, q.addr)
      ensures q.phase == Done(TimedOut)
    {
      FirstOwnStepDecides(steps, states, i, n);
      VerdictTimedOutIff(steps, n, i, q.tid, q.addr);
    }
  }

  lemma VerdictTimedOutIff(steps: seq<Step>, n: nat, i: nat, tid: Tid, addr: Addr)
    requires n < |steps| && steps[n] == Insert(i)
    ensures Verdict(steps, n + 1, i, tid, addr) == Done(TimedOut)
      <==> exists t: nat :: TimesOut(steps, n, t, i, tid, addr)
  {
    var first := FirstOwn(steps, n + 1, i, tid, addr);
    if Verdict(steps, n + 1, i, tid, addr) == Done(TimedOut) {
      assert TimesOut(steps, n, first.value, i, tid, addr);
    }
    forall t: nat | TimesOut(steps, n, t, i, tid, addr)
      ensures first == Some(t)
    {
      assert IsOwn(steps[t], i, tid, addr);
    }
  }

  predicate HasReply(p: Phase, reply: nat) {
    p == Delivered(Answered(reply)) || p == Done(Answered(reply))
  }

  /**
   An answer a request returns came, while it was waiting, in a reply carrying its id and from the
   address it was sent to.
   */
  lemma AnswersAreGenuine(steps: seq<Step>, states: seq<State>, i: nat, reply: nat) returns (n: nat)
    requires IsClean(steps, states)
    requires i < |states[|steps|].requests| && HasReply(states[|steps|].requests[i].phase, reply)
    ensures n < |steps| && states[n].Is(i, Waiting)
    ensures var q := states[|steps|].requests[i]; steps[n] == Reply(TidBytes(q.tid), q.addr, reply)
  {
    var q := states[|steps|].requests[i];
    var start := WasInserted(steps, states, i, |steps|);
    FirstOwnStepDecides(steps, states, i, start);
    n := FirstOwn(steps, start + 1, i, q.tid, q.addr).value;
    CleanStep(steps, states, start, i);
    StaysWhileQuiet(steps, states, i, start + 1, n);
  }

  // -- Two concrete executions -----------------------------------------------------------------

  function Announcements(first: nat, n: nat, a: Addr): seq<(nat, Addr)> {
    seq(n, k requires 0 <= k < n => (first + k, a))
  }

  lemma OneMoreAnnouncement(first: nat, n: nat, a: Addr)
    ensures Announcements(first, n, a) + [(first + n, a)] == Announcements(first, n + 1, a)
  {
  }

  /** A request is cancelled, and the counter comes round to its id with an announcement to the same peer. */
  function LeftBehindStep(a: Addr, reply: nat, n: nat): Step {
    if n == 0 then Create(a)
    else if n == 1 then Insert(0)
    else if n == 2 then Cancel(0)
    else if n < 3 + TID_COUNT then Announce(a)
    else Reply(TidBytes(0), a, reply)
  }

  function LeftBehindState(a: Addr, n: nat): State {
    if n == 0 then INITIAL
    else if n == 1 then State(1, map[], [Request(0, 0, a, Created)], [])
    else if n == 2 then State(1, map[(0, a) := 0], [Request(0, 0, a, Waiting)], [])
    else if n < 4 + TID_COUNT then
      State(1 + (n - 3), map[(0, a) := 0], [Request(0, 0, a, Cancelled)], Announcements(1, n - 3, a))
    else State(1 + TID_COUNT, map[], [Request(0, 0, a, Cancelled)], Announcements(1, TID_COUNT, a))
  }

  lemma LeftBehindSteps(a: Addr, reply: nat, n: nat)
    requires n < 4 + TID_COUNT
    ensures var s, step := LeftBehindState(a, n), LeftBehindStep(a, reply, n);
      Enabled(s, step) && WindowOpen(s) && Apply(s, step) == LeftBehindState(a, n + 1)
  {
    if 3 <= n < 3 + TID_COUNT {
      OneMoreAnnouncement(1, n - 3, a);
    } else if n == 3 + TID_COUNT {
      TidRoundTrip(TidBytes(0), 0);
    }
  }

  /**
   A run within the window whose last step is the reply to an announcement and takes away the entry
   a cancelled request left behind.
   */
  lemma AnnounceReplyRemovesLeftBehind(a: Addr, reply: nat) returns (steps: seq<Step>, states: seq<State>)
    ensures IsRun(steps, states) && |steps| == 4 + TID_COUNT
    ensures steps[3 + TID_COUNT] == Reply(TidBytes(0), a, reply)
    ensures (TID_COUNT, a) in states[3 + TID_COUNT].announced && TID_COUNT % TID_COUNT == 0
    ensures states[3 + TID_COUNT].table == map[(0, a) := 0] && states[4 + TID_COUNT].table == map[]
  {
    steps := seq(4 + TID_COUNT, n requires 0 <= n < 4 + TID_COUNT => LeftBehindStep(a, reply, n));
    states := seq(5 + TID_COUNT, n requires 0 <= n < 5 + TID_COUNT => LeftBehindState(a, n));
    forall n | 0 <= n < |steps|
      ensures Enabled(states[n], steps[n]) && states[n + 1] == Apply(states[n], steps[n]) && WindowOpen(states[n])
    {
      LeftBehindSteps(a, reply, n);
    }
    assert Announcements(1, TID_COUNT, a)[TID_COUNT - 1] == (TID_COUNT, a);
  }

  /** One request, 65535 announcements while it waits, and a second request to the same peer. */
  function WrapAroundStep(a: Addr, n: nat): Step {
    if n == 0 || n == 1 + TID_COUNT then Create(a)
    else if n == 1 then Insert(0)
    else if n < 1 + TID_COUNT then Announce(a)
    else if n == 2 + TID_COUNT then Insert(1)
    else Receive(0)
  }

  function WrapAroundState(a: Addr, n: nat): State {
    var all := Announcements(1, TID_COUNT - 1, a);
    var second := Request(TID_COUNT, 0, a, Created);
    if n == 0 then INITIAL
    else if n == 1 then State(1, map[], [Request(0, 0, a, Created)], [])
    else if n < 2 + TID_COUNT then
      State(n - 1, map[(0, a) := 0], [Request(0, 0, a, Waiting)], Announcements(1, n - 2, a))
    else if n == 2 + TID_COUNT then
      State(1 + TID_COUNT, map[(0, a) := 0], [Request(0, 0, a, Waiting), second], all)
    else if n == 3 + TID_COUNT then
      State(1 + TID_COUNT, map[(0, a) := 1], [Request(0, 0, a, Orphaned), second.(phase := Waiting)], all)
    else
      State(1 + TID_COUNT, map[], [Request(0, 0, a, Done(Dead)), second.(phase := Orphaned)], all)
  }

  lemma WrapAroundSteps(a: Addr, n: nat)
    requires n < 4 + TID_COUNT
    ensures var s, step := WrapAroundState(a, n), WrapAroundStep(a, n);
      Enabled(s, step) && Apply(s, step) == WrapAroundState(a, n + 1)
  {
    if 2 <= n < 1 + TID_COUNT {
      OneMoreAnnouncement(1, n - 2, a);
    }
  }

  /**
   With the window exceeded the counter comes round: the second request takes over the first one's
   entry, and the first one, on learning so, removes the second one's.
   */
  lemma WrapAroundLosesBoth(a: Addr) returns (steps: seq<Step>, states: seq<State>)
    ensures IsExecution(steps, states)
    ensures var s := states[|steps|]; s.Is(0, Done(Dead)) && s.Is(1, Orphaned) && s.table == map[]
  {
    steps := seq(4 + TID_COUNT, n requires 0 <= n < 4 + TID_COUNT => WrapAroundStep(a, n));
    states := seq(5 + TID_COUNT, n requires 0 <= n < 5 + TID_COUNT => WrapAroundState(a, n));
    forall n | 0 <= n < |steps|
      ensures Enabled(states[n], steps[n]) && states[n + 1] == Apply(states[n], steps[n])
    {
      WrapAroundSteps(a, n);
    }
  }
}
