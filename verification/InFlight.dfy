/**
 The program's side of the transaction protocol: the wrapping counter and the in-flight table.

 The futures waiting for an outcome are only bookkeeping here; each method is proved to be one step
 of module Transactions.
 */
module InFlight {
  import opened Transactions
  import opened Wrappers

  datatype ReplyResult = Handled | BadTransactionId | RequestNotFound

  class DhtState {
    var nextTransactionId: Tid
    var inflightByTransactionId: map<(Tid, Addr), nat>
    ghost var issued: nat
    ghost var futures: seq<Request>
    ghost var announced: seq<(nat, Addr)>

    ghost predicate Valid()
      reads this
    {
      nextTransactionId == issued % TID_COUNT
    }

    ghost function View(): State
      reads this
    {
      State(issued, inflightByTransactionId, futures, announced)
    }

    constructor ()
      ensures Valid() && View() == INITIAL
    {
      nextTransactionId := 0;
      inflightByTransactionId := map[];
      issued, futures, announced := 0, [], [];
    }

    /** Hands out the next id, for a request or for an announcement. */
    method CreateRequest(addr: Addr, ghost announce: bool) returns (tid: Tid, bytes: seq<Byte>)
      requires Valid()
      modifies this
      ensures Valid()
      ensures View() == Apply(old(View()), if announce then Announce(addr) else Create(addr))
      ensures tid == old(issued) % 65536 && OurTransactionId(bytes) == Some(tid)
    {
      tid := nextTransactionId;
      bytes := TidBytes(tid);
      TidRoundTrip(bytes, tid);
      nextTransactionId := (nextTransactionId + 1) % TID_COUNT;
      if announce {
        announced := announced + [(issued, addr)];
      } else {
        futures := futures + [Request(issued, tid, addr, Created)];
      }
      issued := issued + 1;
    }

    /** Registers the future numbered `i` as waiting. */
    method InsertOutstanding(i: nat, tid: Tid, addr: Addr)
      requires Valid() && Enabled(View(), Insert(i)) && futures[i].Key() == (tid, addr)
      modifies this
      ensures Valid()
      ensures View() == Apply(old(View()), Insert(i))
    {
      if (tid, addr) in inflightByTransactionId {
        Notify(inflightByTransactionId[(tid, addr)], Orphaned);
      }
      futures := futures[i := futures[i].(phase := Waiting)];
      inflightByTransactionId := inflightByTransactionId[(tid, addr) := i];
    }

    /** The receiving end of future `i` learns what became of its sender, if it still listens. */
    ghost method Notify(i: nat, p: Phase)
      modifies this`futures
      ensures |futures| == |old(futures)|
      ensures forall j :: 0 <= j < |futures| ==>
        var q := old(futures)[j];
        futures[j] == if j == i && q.phase == Waiting then q.(phase := p) else q
    {
      if i < |futures| && futures[i].phase == Waiting {
        futures := futures[i := futures[i].(phase := p)];
      }
    }

    /** A message that claims to answer one of ours. */
    method OnReply(bytes: seq<Byte>, from: Addr, ghost reply: nat) returns (r: ReplyResult)
      requires Valid()
      modifies this
      ensures Valid()
      ensures View() == Apply(old(View()), Reply(bytes, from, reply))
      ensures r == BadTransactionId <==> |bytes| != 2
      ensures r == RequestNotFound <==>
        |bytes| == 2 && (OurTransactionId(bytes).value, from) !in old(inflightByTransactionId)
    {
      var tid := OurTransactionId(bytes);
      if tid.None? {
        return BadTransactionId;
      }
      var found := Remove(tid.value, from, Answered(reply));
      return if found then Handled else RequestNotFound;
    }

    /** The socket refused a message that had an id. */
    method OnSendError(tid: Tid, addr: Addr)
      requires Valid()
      modifies this
      ensures Valid()
      ensures View() == Apply(old(View()), SendError(tid, addr))
    {
      var _ := Remove(tid, addr, SendFailed);
    }

    method Remove(tid: Tid, addr: Addr, ghost outcome: Outcome) returns (found: bool)
      requires Valid()
      modifies this
      ensures Valid()
      ensures View() == TakeOut(old(View()), (tid, addr), outcome)
      ensures found <==> (tid, addr) in old(inflightByTransactionId)
    {
      found := (tid, addr) in inflightByTransactionId;
      if found {
        Notify(inflightByTransactionId[(tid, addr)], Delivered(outcome));
        inflightByTransactionId := inflightByTransactionId - {(tid, addr)};
      }
    }

    /** The wait of future `i` ended without an outcome: after the timeout, or for a worker gone. */
    method GiveUp(ghost i: nat, tid: Tid, addr: Addr, timedOut: bool)
      requires Valid() && Enabled(View(), if timedOut then Timeout(i) else WorkerGone(i))
      requires futures[i].Key() == (tid, addr)
      modifies this
      ensures Valid()
      ensures View() == Apply(old(View()), if timedOut then Timeout(i) else WorkerGone(i))
    {
      if (tid, addr) in inflightByTransactionId {
        Notify(inflightByTransactionId[(tid, addr)], Orphaned);
        inflightByTransactionId := inflightByTransactionId - {(tid, addr)};
      }
      futures := futures[i := futures[i].(phase := Done(if timedOut then TimedOut else Dead))];
    }
  }
}
