/**
 The idempotency ledger of a session, as values: the sorted set of
 completed request ids (`std::set<tid_t>`) and the ordered map of trim
 waiters (`std::map<tid_t, Context*>`). Both C++ containers are ordered,
 so "the element at begin()" is the minimum; `First` and `SortedKeys`
 give that order to Dafny's unordered `set` and `map`.

 Trimming to a watermark `mintid` treats `mintid == 0` as "no lower
 bound": every id is then below the watermark.
 */
module Ledger {

  /** A completion callback (`Context*`) is an opaque id. */
  type CallbackId = nat

  /** A non-empty finite set of integers has a least element. */
  lemma {:induction false} MinimumExists(s: set<int>)
    requires s != {}
    ensures exists m :: m in s && forall u :: u in s ==> m <= u
    decreases |s|
  {
    if forall y :: y !in s {
      assert false;
    }
    var x :| x in s;
    var rest := s - {x};
    if rest == {} {
      forall u | u in s ensures x <= u {
        assert u !in rest;
      }
    } else {
      MinimumExists(rest);
      var m :| m in rest && forall u :: u in rest ==> m <= u;
      var least := if x < m then x else m;
      forall u | u in s ensures least <= u {
        if u != x {
          assert u in rest;
        }
      }
      assert least in s;
    }
  }

  /** The element an ordered container holds at `begin()`: the least one. */
  function First(s: set<int>): (m: int)
    requires s != {}
    ensures m in s
    ensures forall u :: u in s ==> m <= u
  {
    MinimumExists(s);
    var m :| m in s && forall u :: u in s ==> m <= u; m
  }

  /** The elements of `s` in the order an ordered container visits them. */
  function SortedKeys(s: set<int>): seq<int>
    decreases |s|
  {
    if s == {} then [] else [First(s)] + SortedKeys(s - {First(s)})
  }

  ghost predicate StrictlyIncreasing(ks: seq<int>)
  {
    forall i, j :: 0 <= i < j < |ks| ==> ks[i] < ks[j]
  }

  /** `SortedKeys(s)` lists every element of `s` exactly once, in ascending order. */
  lemma {:induction false} SortedKeysEnumerates(s: set<int>)
    ensures StrictlyIncreasing(SortedKeys(s))
    ensures forall k :: k in SortedKeys(s) <==> k in s
    ensures |SortedKeys(s)| == |s|
    decreases |s|
  {
    if s != {} {
      var m := First(s);
      var rest := s - {m};
      SortedKeysEnumerates(rest);
      var ks := SortedKeys(s);
      assert ks == [m] + SortedKeys(rest);
      forall i, j | 0 <= i < j < |ks| ensures ks[i] < ks[j] {
        if i == 0 {
          assert ks[j] in rest;
        } else {
          assert ks[i] == SortedKeys(rest)[i - 1] && ks[j] == SortedKeys(rest)[j - 1];
        }
      }
    }
  }

  /** Whether request id `t` lies below the trim watermark `mintid`. */
  predicate Expired(t: nat, mintid: nat)
  {
    mintid == 0 || t < mintid
  }

  /** The completed-request set after trimming to `mintid`. */
  function Trimmed(s: set<nat>, mintid: nat): (r: set<nat>)
    ensures r <= s
    ensures mintid == 0 ==> r == {}
    ensures forall t :: t in r <==> t in s && mintid != 0 && t >= mintid
  {
    set t | t in s && !Expired(t, mintid)
  }

  /** The trim waiters that stay registered after trimming to `mintid`. */
  function Pending(w: map<nat, CallbackId>, mintid: nat): (r: map<nat, CallbackId>)
    ensures mintid == 0 ==> r == map[]
    ensures forall t :: t in r <==> t in w && mintid != 0 && t >= mintid
    ensures forall t :: t in r ==> r[t] == w[t]
  {
    map t | t in w && !Expired(t, mintid) :: w[t]
  }

  /** The keys of the trim waiters that a trim to `mintid` releases. */
  function ExpiredKeys(w: map<nat, CallbackId>, mintid: nat): set<nat>
  {
    set t | t in w && Expired(t, mintid)
  }

  /** The callbacks registered under `ks`, in the order of `ks`. */
  function CallbacksAt(ks: seq<nat>, w: map<nat, CallbackId>): seq<CallbackId>
    requires forall i :: 0 <= i < |ks| ==> ks[i] in w
  {
    if ks == [] then [] else [w[ks[0]]] + CallbacksAt(ks[1..], w)
  }

  lemma {:induction false} CallbacksAtIndex(ks: seq<nat>, w: map<nat, CallbackId>)
    requires forall i :: 0 <= i < |ks| ==> ks[i] in w
    ensures |CallbacksAt(ks, w)| == |ks|
    ensures forall i :: 0 <= i < |ks| ==> CallbacksAt(ks, w)[i] == w[ks[i]]
  {
    if ks != [] {
      CallbacksAtIndex(ks[1..], w);
      forall i | 0 < i < |ks| ensures CallbacksAt(ks, w)[i] == w[ks[i]] {
        assert CallbacksAt(ks, w)[i] == CallbacksAt(ks[1..], w)[i - 1];
      }
    }
  }

  /** The keys of the waiters a trim to `mintid` releases, in the order it visits them. */
  function ReleaseOrder(w: map<nat, CallbackId>, mintid: nat): (ks: seq<nat>)
    ensures StrictlyIncreasing(ks)
    ensures forall k :: k in ks <==> k in w && Expired(k, mintid)
  {
    var keys := ExpiredKeys(w, mintid);
    SortedKeysEnumerates(keys);
    var sorted := SortedKeys(keys);
    assert forall i :: 0 <= i < |sorted| ==> sorted[i] in keys;
    sorted
  }

  /**
   The callbacks a trim to `mintid` fires, in the order it fires them: while
   the least key of the waiter map lies below the watermark, its callback is
   taken and its entry erased.
   */
  function Released(w: map<nat, CallbackId>, mintid: nat): (r: seq<CallbackId>)
    ensures |r| <= |w|
    ensures forall c :: c in r ==> c in w.Values
    decreases |w|
  {
    if w == map[] then []
    else
      var k := First(w.Keys);
      if Expired(k, mintid) then [w[k]] + Released(w - {k}, mintid) else []
  }

  /** A single waiter fires exactly when its key is below the watermark. */
  lemma ReleasedSingle(k: nat, c: CallbackId, mintid: nat)
    ensures Released(map[k := c], mintid) == if Expired(k, mintid) then [c] else []
  {
    var w := map[k := c];
    assert w.Keys == {k};
    assert w - {k} == map[];
  }

  /** `CallbacksAt` reads the map only at the keys it is given. */
  lemma {:induction false} CallbacksAtFrame(ks: seq<nat>, w1: map<nat, CallbackId>, w2: map<nat, CallbackId>)
    requires forall i :: 0 <= i < |ks| ==> ks[i] in w1 && ks[i] in w2 && w1[ks[i]] == w2[ks[i]]
    ensures CallbacksAt(ks, w1) == CallbacksAt(ks, w2)
  {
    if ks != [] {
      CallbacksAtFrame(ks[1..], w1, w2);
    }
  }

  /** The least waiter, when it is below the watermark, heads the release order. */
  lemma ReleaseOrderStep(w: map<nat, CallbackId>, mintid: nat, k: nat)
    requires k in w && Expired(k, mintid)
    requires forall t :: t in w ==> k <= t
    ensures ReleaseOrder(w, mintid) == [k] + ReleaseOrder(w - {k}, mintid)
  {
    var e := ExpiredKeys(w, mintid);
    assert k in e;
    assert First(e) == k;
    assert ExpiredKeys(w - {k}, mintid) == e - {k};
  }

  /**
   Taking waiters from the front of the map fires exactly the callbacks of
   the waiters below the watermark, in ascending key order.
   */
  lemma {:induction false} ReleasedFollowsKeyOrder(w: map<nat, CallbackId>, mintid: nat)
    ensures Released(w, mintid) == CallbacksAt(ReleaseOrder(w, mintid), w)
    decreases |w|
  {
    if w == map[] {
      assert ExpiredKeys(w, mintid) == {};
    } else {
      var k := First(w.Keys);
      if Expired(k, mintid) {
        ReleasedFollowsKeyOrder(w - {k}, mintid);
        ReleaseOrderStep(w, mintid, k);
        CallbacksAtFrame(ReleaseOrder(w - {k}, mintid), w, w - {k});
      } else {
        assert ExpiredKeys(w, mintid) == {};
      }
    }
  }

  /**
   A trim to `mintid` fires the callback of every waiter whose key is below
   the watermark, one per key, in ascending key order, and no other.
   */
  lemma ReleasedInKeyOrder(w: map<nat, CallbackId>, mintid: nat)
    ensures var ks := ReleaseOrder(w, mintid);
      && StrictlyIncreasing(ks)
      && (forall k :: k in ks <==> k in w && Expired(k, mintid))
      && |Released(w, mintid)| == |ks|
      && forall i :: 0 <= i < |ks| ==> Released(w, mintid)[i] == w[ks[i]]
  {
    ReleasedFollowsKeyOrder(w, mintid);
    CallbacksAtIndex(ReleaseOrder(w, mintid), w);
  }

  /** A subset of `s` that keeps every id at or above the watermark and none below it is `Trimmed(s, mintid)`. */
  lemma TrimmedExactly(s: set<nat>, r: set<nat>, mintid: nat)
    requires r <= s
    requires forall t :: t in s && !Expired(t, mintid) ==> t in r
    requires forall t :: t in r ==> !Expired(t, mintid)
    ensures r == Trimmed(s, mintid)
  {
  }

  /** A restriction of `w` that keeps every waiter at or above the watermark and none below it is `Pending(w, mintid)`. */
  lemma PendingExactly(w: map<nat, CallbackId>, r: map<nat, CallbackId>, mintid: nat)
    requires r.Keys <= w.Keys
    requires forall t :: t in r ==> r[t] == w[t]
    requires forall t :: t in w && !Expired(t, mintid) ==> t in r
    requires forall t :: t in r ==> !Expired(t, mintid)
    ensures r == Pending(w, mintid)
  {
    assert r.Keys == Pending(w, mintid).Keys;
  }
}
