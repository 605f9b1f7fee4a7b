/**
 One client's session on a metadata server (class `Session` of
 src/mds/SessionMap.h): its state code, the address it is known by, the
 capability push-sequence counter, and its idempotency ledger (the sorted
 set of completed request ids and the waiters for that set to be trimmed).

 Callbacks are opaque ids; `finish_contexts` running a list of callbacks is
 modelled by appending them, in list order, to the session's `finished`
 log.
 */
module Sessions {
  import opened EntityNames
  import opened Ledger

  /** The six state codes `STATE_UNDEF` (0) to `STATE_RECONNECTING` (5). */
  datatype SessionState = Undef | Opening | Open | Closing | Stale | Reconnecting
  {
    /** The integer the C++ `state` field holds for this state. */
    function Code(): (c: int)
      ensures 0 <= c <= 5
      ensures c == 0 <==> this == Undef
    {
      match this
      case Undef => 0
      case Opening => 1
      case Open => 2
      case Closing => 3
      case Stale => 4
      case Reconnecting => 5
    }
  }

  /** Everything the session operations read or write, as one value. */
  datatype SessionView = SessionView(
    state: SessionState,
    inst: EntityInst,
    pushSeq: nat,
    completed: set<nat>,
    trimWaiters: map<nat, CallbackId>,
    finished: seq<CallbackId>)

  /** A default-constructed session: undefined state, push sequence 0, empty ledger. */
  const NewSessionView: SessionView := SessionView(Undef, UnsetInst, 0, {}, map[], [])

  class Session {
    var state: SessionState
    var inst: EntityInst
    var capPushSeq: nat
    var completedRequests: set<nat>
    var waitingForTrim: map<nat, CallbackId>
    /**
     The callbacks this session's trims have run, oldest first. The C++
     class has no such field: it stands for the effect of `finish_contexts`.
     It is kept compiled rather than ghost so that methods can return what
     fired as an ordinary result.
     */
    var finished: seq<CallbackId>

    function View(): SessionView
      reads this
    {
      SessionView(state, inst, capPushSeq, completedRequests, waitingForTrim, finished)
    }

    constructor ()
      ensures View() == NewSessionView
    {
      state := Undef;
      inst := UnsetInst;
      capPushSeq := 0;
      completedRequests := {};
      waitingForTrim := map[];
      finished := [];
    }

    /** `is_opening`, `is_open`, `is_closing`: a comparison of the state code with one constant. */
    predicate IsOpening(): (b: bool)
      reads this
      ensures b <==> state.Code() == 1
    {
      state == Opening
    }

    predicate IsOpen(): (b: bool)
      reads this
      ensures b <==> state.Code() == 2
    {
      state == Open
    }

    predicate IsClosing(): (b: bool)
      reads this
      ensures b <==> state.Code() == 3
    {
      state == Closing
    }

    /** Advances the push sequence and returns its new value. */
    method IncPushSeq() returns (pushSeq: nat)
      modifies this`capPushSeq
      ensures capPushSeq == old(capPushSeq) + 1
      ensures pushSeq == capPushSeq
    {
      capPushSeq := capPushSeq + 1;
      pushSeq := capPushSeq;
    }

    /** The current push sequence; reading it changes nothing. */
    method GetPushSeq() returns (pushSeq: nat)
      ensures pushSeq == capPushSeq
    {
      pushSeq := capPushSeq;
    }

    /** Records request `t` as completed; recording it again changes nothing. */
    method AddCompletedRequest(t: nat)
      modifies this`completedRequests
      ensures completedRequests == old(completedRequests) + {t}
      ensures t in old(completedRequests) ==> completedRequests == old(completedRequests)
      ensures HaveCompletedRequest(t)
    {
      completedRequests := completedRequests + {t};
    }

    /** `completed_requests.count(tid)` is 0 or 1 on a set, so this is membership. */
    predicate HaveCompletedRequest(tid: nat): (b: bool)
      reads this
      ensures b <==> tid in completedRequests
    {
      tid in completedRequests
    }

    /**
     Forgets every completed request below `mintid` (all of them when
     `mintid == 0`), then releases the trim waiters below it in ascending
     key order and runs their callbacks.
     */
    method TrimCompletedRequests(mintid: nat)
      modifies this`completedRequests, this`waitingForTrim, this`finished
      ensures completedRequests == Trimmed(old(completedRequests), mintid)
      ensures waitingForTrim == Pending(old(waitingForTrim), mintid)
      ensures finished == old(finished) + Released(old(waitingForTrim), mintid)
    {
      EraseExpiredRequests(mintid);
      var fls := TakeExpiredWaiters(mintid);
      finished := finished + fls;
    }

    /** The first loop of `trim_completed_requests`: erase from the front of the set while below the watermark. */
    method EraseExpiredRequests(mintid: nat)
      modifies this`completedRequests
      ensures completedRequests == Trimmed(old(completedRequests), mintid)
    {
      while completedRequests != {} && Expired(First(completedRequests), mintid)
        invariant completedRequests <= old(completedRequests)
        invariant forall t :: t in old(completedRequests) && !Expired(t, mintid) ==> t in completedRequests
        decreases |completedRequests|
      {
        completedRequests := completedRequests - {First(completedRequests)};
      }
      assert forall t :: t in completedRequests ==> !Expired(t, mintid) by {
        if completedRequests != {} {
          var least := First(completedRequests);
          assert forall t :: t in completedRequests ==> least <= t;
        }
      }
      TrimmedExactly(old(completedRequests), completedRequests, mintid);
    }

    /**
     The second loop of `trim_completed_requests`: move waiters from the
     front of the map to the returned list while below the watermark.
     */
    method TakeExpiredWaiters(mintid: nat) returns (fls: seq<CallbackId>)
      modifies this`waitingForTrim
      ensures waitingForTrim == Pending(old(waitingForTrim), mintid)
      ensures fls == Released(old(waitingForTrim), mintid)
    {
      ghost var w0 := waitingForTrim;
      fls := [];
      while waitingForTrim != map[] && Expired(First(waitingForTrim.Keys), mintid)
        invariant waitingForTrim.Keys <= w0.Keys
        invariant forall t :: t in waitingForTrim ==> waitingForTrim[t] == w0[t]
        invariant forall t :: t in w0 && !Expired(t, mintid) ==> t in waitingForTrim
        invariant fls + Released(waitingForTrim, mintid) == Released(w0, mintid)
        decreases |waitingForTrim|
      {
        var k := First(waitingForTrim.Keys);
        fls := fls + [waitingForTrim[k]];
        waitingForTrim := waitingForTrim - {k};
      }
      assert forall t :: t in waitingForTrim ==> !Expired(t, mintid) by {
        if waitingForTrim != map[] {
          var least := First(waitingForTrim.Keys);
          assert forall t :: t in waitingForTrim ==> least <= t;
        }
      }
      PendingExactly(w0, waitingForTrim, mintid);
    }

    /** Registers `c` to run once the ledger is trimmed past `tid`, replacing any earlier waiter for `tid`. */
    method AddTrimWaiter(tid: nat, c: CallbackId)
      modifies this`waitingForTrim
      ensures waitingForTrim == old(waitingForTrim)[tid := c]
    {
      waitingForTrim := waitingForTrim[tid := c];
    }
  }

  /** Successive pushes on a new session are numbered 1, 2, 3. */
  method PushSeqCountsFromOne() returns (a: nat, b: nat, c: nat)
    ensures a == 1 && b == 2 && c == 3
  {
    var s := new Session();
    a := s.IncPushSeq();
    b := s.IncPushSeq();
    c := s.IncPushSeq();
  }

  /**
   A waiter registered twice for the same id keeps only the second callback:
   trimming past the id fires that one alone.
   */
  method ReplacedWaiterNeverFires(tid: nat, first: CallbackId, second: CallbackId) returns (fired: seq<CallbackId>)
    ensures fired == [second]
  {
    var s := new Session();
    s.AddTrimWaiter(tid, first);
    s.AddTrimWaiter(tid, second);
    assert s.waitingForTrim == map[tid := second];
    ReleasedSingle(tid, second, tid + 1);
    s.TrimCompletedRequests(tid + 1);
    fired := s.finished;
  }

  /** Trimming to `mintid` keeps a completed id at the watermark and forgets one below it. */
  method TrimKeepsWatermark(mintid: nat) returns (kept: bool, forgotten: bool)
    requires mintid > 0
    ensures kept && forgotten
  {
    var s := new Session();
    s.AddCompletedRequest(mintid - 1);
    s.AddCompletedRequest(mintid);
    s.TrimCompletedRequests(mintid);
    kept := s.HaveCompletedRequest(mintid);
    forgotten := !s.HaveCompletedRequest(mintid - 1);
  }
}
