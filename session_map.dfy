/**
 The table of sessions a metadata server keeps (class `SessionMap` of
 src/mds/SessionMap.h): one `Session` object per entity name, plus the
 version counters of the persisted table.

 `hash_map<entity_name_t, Session>` stores sessions by value, and callers
 hold `Session*` pointers into it; here the table maps each name to a
 `Session` object, and `Valid()` says no two names share one. The order in
 which a `hash_map` is visited is unspecified, so the loops over the table
 pick the next name nondeterministically.
 */
module SessionTable {
  import opened EntityNames
  import opened Ledger
  import opened Sessions

  /** The names a batch of client instances opens sessions for. */
  function BatchNames(batch: map<int, EntityInst>): (names: set<EntityName>)
    ensures forall c :: c in batch ==> batch[c].name in names
    ensures forall n :: n in names ==> exists c :: c in batch && batch[c].name == n
  {
    set c | c in batch :: batch[c].name
  }

  function KeysNamed(batch: map<int, EntityInst>, n: EntityName): set<int>
  {
    set c | c in batch && batch[c].name == n
  }

  /**
   The greatest batch key whose instance carries name `n`: `open_sessions`
   visits the batch in ascending key order, so that entry is applied last.
   */
  function LastKeyFor(batch: map<int, EntityInst>, n: EntityName): (c: int)
    requires n in BatchNames(batch)
    ensures c in batch && batch[c].name == n
    ensures forall d :: d in batch && batch[d].name == n ==> d <= c
  {
    var ks := KeysNamed(batch, n);
    var c0 :| c0 in batch && batch[c0].name == n;
    assert c0 in ks;
    SortedKeysEnumerates(ks);
    var sorted := SortedKeys(ks);
    var last := sorted[|sorted| - 1];
    assert last in ks;
    forall d | d in batch && batch[d].name == n ensures d <= last {
      assert d in sorted;
      var j :| 0 <= j < |sorted| && sorted[j] == d;
      assert j == |sorted| - 1 || sorted[j] < last;
    }
    last
  }

  /** A session after `open_sessions` has set its instance and opened it. */
  function Reopen(v: SessionView, i: EntityInst): SessionView
  {
    v.(state := Open, inst := i)
  }

  /** The session under `n`, or the one `get_or_add_session` would create. */
  function SessionOrNew(t: map<EntityName, SessionView>, n: EntityName): SessionView
  {
    if n in t then t[n] else NewSessionView
  }

  /**
   The session table, as values, after `open_sessions(batch)`: the entries
   are applied in ascending key order, each reopening (or creating) the
   session its instance names.
   */
  ghost function Opened(t: map<EntityName, SessionView>, batch: map<int, EntityInst>): (r: map<EntityName, SessionView>)
    ensures t.Keys <= r.Keys
    decreases |batch|
  {
    if batch == map[] then t
    else
      var c := First(batch.Keys);
      var i := batch[c];
      Opened(t[i.name := Reopen(SessionOrNew(t, i.name), i)], batch - {c})
  }

  lemma BatchNamesSplit(batch: map<int, EntityInst>, c: int)
    requires c in batch
    ensures BatchNames(batch) == BatchNames(batch - {c}) + {batch[c].name}
  {
    var rest := batch - {c};
    forall n | n in BatchNames(batch) ensures n in BatchNames(rest) + {batch[c].name} {
      var d :| d in batch && batch[d].name == n;
      if d != c {
        assert d in rest && rest[d].name == n;
      }
    }
    forall n | n in BatchNames(rest) ensures n in BatchNames(batch) {
      var d :| d in rest && rest[d].name == n;
      assert d in batch && batch[d].name == n;
    }
  }

  /** Dropping the least entry does not change the last entry of a name that occurs again later. */
  lemma LastKeyWithoutFirst(batch: map<int, EntityInst>, c: int, n: EntityName)
    requires c in batch && forall d :: d in batch ==> c <= d
    requires n in BatchNames(batch - {c})
    ensures n in BatchNames(batch)
    ensures LastKeyFor(batch, n) == LastKeyFor(batch - {c}, n)
  {
    var rest := batch - {c};
    var b := LastKeyFor(rest, n);
    assert b in batch && batch[b].name == n;
    var a := LastKeyFor(batch, n);
    assert c < b <= a;
    assert a in rest && rest[a].name == n;
  }

  /** An entry whose name occurs nowhere else is the last entry of that name. */
  lemma LastKeyOnly(batch: map<int, EntityInst>, c: int)
    requires c in batch
    requires batch[c].name !in BatchNames(batch - {c})
    ensures LastKeyFor(batch, batch[c].name) == c
  {
    var a := LastKeyFor(batch, batch[c].name);
    assert a !in batch - {c};
  }

  lemma {:induction false} OpenedKeys(t: map<EntityName, SessionView>, batch: map<int, EntityInst>)
    ensures Opened(t, batch).Keys == t.Keys + BatchNames(batch)
    decreases |batch|
  {
    if batch != map[] {
      var c := First(batch.Keys);
      var i := batch[c];
      OpenedKeys(t[i.name := Reopen(SessionOrNew(t, i.name), i)], batch - {c});
      BatchNamesSplit(batch, c);
    }
  }

  /** Sessions the batch does not name are left as they were. */
  lemma {:induction false} OpenedOutsideBatch(t: map<EntityName, SessionView>, batch: map<int, EntityInst>, n: EntityName)
    requires n in t && n !in BatchNames(batch)
    ensures n in Opened(t, batch) && Opened(t, batch)[n] == t[n]
    decreases |batch|
  {
    if batch != map[] {
      var c := First(batch.Keys);
      var i := batch[c];
      BatchNamesSplit(batch, c);
      OpenedOutsideBatch(t[i.name := Reopen(SessionOrNew(t, i.name), i)], batch - {c}, n);
    }
  }

  /**
   Every session the batch names ends open with the instance of the batch's
   last entry for it (by key order), keeping the push sequence, ledger,
   waiters and run callbacks it had (those of a new session when it was
   absent).
   */
  lemma {:induction false} OpenedInBatch(t: map<EntityName, SessionView>, batch: map<int, EntityInst>, n: EntityName)
    requires n in BatchNames(batch)
    ensures n in Opened(t, batch)
    ensures Opened(t, batch)[n] == Reopen(SessionOrNew(t, n), batch[LastKeyFor(batch, n)])
    decreases |batch|
  {
    var c := First(batch.Keys);
    var i := batch[c];
    var t' := t[i.name := Reopen(SessionOrNew(t, i.name), i)];
    var rest := batch - {c};
    assert Opened(t, batch) == Opened(t', rest);
    BatchNamesSplit(batch, c);
    if n in BatchNames(rest) {
      OpenedInBatch(t', rest, n);
      LastKeyWithoutFirst(batch, c, n);
    } else {
      OpenedOutsideBatch(t', rest, n);
      LastKeyOnly(batch, c);
    }
  }

  /** When no two batch entries name the same entity, each session gets exactly its entry's instance. */
  lemma OpenedDistinctNames(t: map<EntityName, SessionView>, batch: map<int, EntityInst>, c: int)
    requires forall c, d :: c in batch && d in batch && c != d ==> batch[c].name != batch[d].name
    requires c in batch
    ensures batch[c].name in Opened(t, batch)
    ensures Opened(t, batch)[batch[c].name].state == Open
    ensures Opened(t, batch)[batch[c].name].inst == batch[c]
  {
    OpenedInBatch(t, batch, batch[c].name);
    assert LastKeyFor(batch, batch[c].name) == c;
  }

  class SessionMap {
    var sessions: map<EntityName, Session>
    var version: nat
    var projected: nat
    var committing: nat
    var committed: nat
    var commitWaiters: map<nat, seq<CallbackId>>
    var waitingForLoad: seq<CallbackId>

    /** Every name owns its own session object. */
    ghost predicate Valid()
      reads this`sessions
    {
      forall a, b :: a in sessions && b in sessions && a != b ==> sessions[a] != sessions[b]
    }

    /** The table as values: each name's session contents. */
    ghost function Table(): (t: map<EntityName, SessionView>)
      reads this`sessions, sessions.Values
      ensures Represents(t)
    {
      map k | k in sessions :: sessions[k].View()
    }

    /** `t` lists exactly the names in the table, each with its session's contents. */
    ghost predicate Represents(t: map<EntityName, SessionView>)
      reads this`sessions, sessions.Values
    {
      sessions.Keys == t.Keys && forall k :: k in sessions ==> sessions[k].View() == t[k]
    }

    /** The persistence bookkeeping, which only `open_sessions` (through `version`) changes here. */
    function Persisted(): (nat, nat, nat, nat, map<nat, seq<CallbackId>>, seq<CallbackId>)
      reads this
    {
      (version, projected, committing, committed, commitWaiters, waitingForLoad)
    }

    constructor ()
      ensures Valid() && sessions == map[]
      ensures Persisted() == (0, 0, 0, 0, map[], [])
    {
      sessions := map[];
      version, projected, committing, committed := 0, 0, 0, 0;
      commitWaiters := map[];
      waitingForLoad := [];
    }

    method Empty() returns (b: bool)
      ensures b <==> forall w :: w !in sessions
    {
      b := sessions == map[];
    }

    /** The session for `w`, or null when there is none; the table is left as it was. */
    method GetSession(w: EntityName) returns (s: Session?)
      ensures s != null <==> w in sessions
      ensures s != null ==> s == sessions[w]
    {
      if w in sessions {
        s := sessions[w];
      } else {
        s := null;
      }
    }

    /** The session for `w`, made with the default state when there was none. */
    method GetOrAddSession(w: EntityName) returns (s: Session)
      requires Valid()
      modifies this
      ensures Valid()
      ensures w in sessions && s == sessions[w]
      ensures w in old(sessions) ==> sessions == old(sessions)
      ensures w !in old(sessions) ==> fresh(s) && sessions == old(sessions)[w := s]
      ensures w in old(sessions) ==> s.View() == old(sessions[w].View())
      ensures w !in old(sessions) ==> s.View() == NewSessionView
      ensures Persisted() == old(Persisted())
    {
      if w !in sessions {
        var created := new Session();
        sessions := sessions[w := created];
      }
      s := sessions[w];
    }

    /** The session for `i.name`, made when absent, with its instance set to `i`. */
    method GetOrAddSessionInst(i: EntityInst) returns (s: Session)
      requires Valid()
      modifies this, if i.name in sessions then {sessions[i.name]} else {}
      ensures Valid()
      ensures i.name in sessions && s == sessions[i.name] && s.inst == i
      ensures i.name in old(sessions) ==> sessions == old(sessions)
      ensures i.name !in old(sessions) ==> fresh(s) && sessions == old(sessions)[i.name := s]
      ensures i.name in old(sessions) ==> s.View() == old(sessions[i.name].View()).(inst := i)
      ensures i.name !in old(sessions) ==> s.View() == NewSessionView.(inst := i)
      ensures Persisted() == old(Persisted())
    {
      s := GetOrAddSession(i.name);
      s.inst := i;
    }

    /**
     Runs every pending trim waiter of `s`, empties its ledger, then erases
     the entry named by `s.inst.name`, which need not be the name `s` was
     added under.
     */
    method RemoveSession(s: Session)
      requires Valid()
      modifies this, s
      ensures Valid()
      ensures sessions == old(sessions) - {old(s.inst.name)}
      ensures s.View() == old(s.View()).(completed := {}, trimWaiters := map[],
        finished := old(s.finished) + Released(old(s.waitingForTrim), 0))
      ensures forall k :: k in sessions && sessions[k] != s ==> sessions[k].View() == old(sessions[k].View())
      ensures old(s.inst.name) in old(sessions) && old(sessions[s.inst.name]) == s ==> s !in sessions.Values
      ensures Persisted() == old(Persisted())
    {
      s.TrimCompletedRequests(0);
      sessions := sessions - {s.inst.name};
    }

    /** Whether the session under `k` is a client's, numbered `n`, by the instance it holds. */
    ghost predicate ClientSessionNum(k: EntityName, n: int)
      reads this`sessions, sessions.Values
    {
      k in sessions && sessions[k].inst.name.IsClient() && sessions[k].inst.name.num == n
    }

    /** Adds to `s0` the number of every session whose instance is a client. */
    method GetClientSet(s0: set<int>) returns (s: set<int>)
      ensures forall n :: n in s <==> n in s0 || exists k :: ClientSessionNum(k, n)
    {
      s := s0;
      var todo := sessions.Keys;
      while todo != {}
        invariant todo <= sessions.Keys
        invariant forall n :: n in s <==> n in s0 || exists k :: k !in todo && ClientSessionNum(k, n)
        decreases |todo|
      {
        if forall k :: k !in todo {
          assert false;
        }
        var k :| k in todo;
        var name := sessions[k].inst.name;
        if name.IsClient() {
          s := s + {name.num};
        }
        todo := todo - {k};
      }
    }

    /** Adds to `s0` every session whose instance is a client. */
    method GetClientSessionSet(s0: set<Session>) returns (s: set<Session>)
      ensures forall x :: x in s <==> x in s0 || exists k :: k in sessions && sessions[k] == x && x.inst.name.IsClient()
    {
      s := s0;
      var todo := sessions.Keys;
      while todo != {}
        invariant todo <= sessions.Keys
        invariant forall x :: x in s <==> x in s0 || exists k :: k in sessions && k !in todo && sessions[k] == x && x.inst.name.IsClient()
        decreases |todo|
      {
        if forall k :: k !in todo {
          assert false;
        }
        var k :| k in todo;
        if sessions[k].inst.name.IsClient() {
          s := s + {sessions[k]};
        }
        todo := todo - {k};
      }
    }

    /** One step of `open_sessions`: reopen (or create) the session `inst` names, with instance `inst`. */
    method OpenSession(inst: EntityInst, ghost t: map<EntityName, SessionView>)
      requires Valid() && Represents(t)
      modifies this, if inst.name in sessions then {sessions[inst.name]} else {}
      ensures Valid()
      ensures Represents(t[inst.name := Reopen(SessionOrNew(t, inst.name), inst)])
      ensures forall k :: k in old(sessions) ==> k in sessions && sessions[k] == old(sessions[k])
      ensures forall k :: k in sessions && k !in old(sessions) ==> fresh(sessions[k])
      ensures Persisted() == old(Persisted())
    {
      ghost var before := SessionOrNew(t, inst.name);
      var session := GetOrAddSessionInst(inst);
      session.inst := inst;
      session.state := Open;
      ghost var after := t[inst.name := Reopen(before, inst)];
      assert sessions.Keys == after.Keys;
      forall k | k in sessions
        ensures sessions[k].View() == after[k]
      {
        if k != inst.name {
          assert k in old(sessions) && sessions[k] == old(sessions[k]) != session;
        }
      }
    }

    /**
     Opens a session for every instance in `clientMap`, visiting it in
     ascending key order, and counts the whole batch as one new version.
     */
    method OpenSessions(clientMap: map<int, EntityInst>)
      requires Valid()
      modifies this, sessions.Values
      ensures Valid()
      ensures Represents(Opened(old(Table()), clientMap))
      ensures forall k :: k in old(sessions) ==> k in sessions && sessions[k] == old(sessions[k])
      ensures forall k :: k in sessions && k !in old(sessions) ==> fresh(sessions[k])
      ensures version == old(version) + 1
      ensures (projected, committing, committed) == old((projected, committing, committed))
      ensures commitWaiters == old(commitWaiters) && waitingForLoad == old(waitingForLoad)
    {
      ghost var t0 := Table();
      ghost var t := t0;
      var rest := clientMap;
      while rest != map[]
        invariant Valid()
        invariant Represents(t)
        invariant Opened(t, rest) == Opened(t0, clientMap)
        invariant forall k :: k in old(sessions) ==> k in sessions && sessions[k] == old(sessions[k])
        invariant forall k :: k in sessions && k !in old(sessions) ==> fresh(sessions[k])
        invariant Persisted() == old(Persisted())
        decreases rest.Keys
      {
        var c := First(rest.Keys);
        var inst := rest[c];
        OpenSession(inst, t);
        t := t[inst.name := Reopen(SessionOrNew(t, inst.name), inst)];
        rest := rest - {c};
      }
      version := version + 1;
    }

    /** The instance recorded for `w`, which must have a session. */
    method GetInst(w: EntityName) returns (i: EntityInst)
      requires w in sessions
      ensures i == sessions[w].inst
    {
      i := sessions[w].inst;
    }

    /** Advances the push sequence of client `client`'s session, which must exist. */
    method IncPushSeq(client: int) returns (pushSeq: nat)
      requires ClientName(client) in sessions
      modifies sessions[ClientName(client)]
      ensures pushSeq == sessions[ClientName(client)].capPushSeq == old(sessions[ClientName(client)].capPushSeq) + 1
      ensures sessions[ClientName(client)].View() == old(sessions[ClientName(client)].View()).(pushSeq := pushSeq)
    {
      var s := sessions[ClientName(client)];
      pushSeq := s.IncPushSeq();
    }

    /** The push sequence of client `client`'s session, which must exist. */
    method GetPushSeq(client: int) returns (pushSeq: nat)
      requires ClientName(client) in sessions
      ensures pushSeq == sessions[ClientName(client)].capPushSeq
    {
      var s := sessions[ClientName(client)];
      pushSeq := s.GetPushSeq();
    }

    /** Whether request `rid` is recorded as completed; false when its sender has no session. */
    method HaveCompletedRequest(rid: MetaReqId) returns (b: bool)
      ensures b <==> rid.name in sessions && rid.tid in sessions[rid.name].completedRequests
    {
      var session := GetSession(rid.name);
      b := session != null && session.HaveCompletedRequest(rid.tid);
    }

    /** Records request `rid` as completed in its sender's session, which must exist. */
    method AddCompletedRequest(rid: MetaReqId)
      requires rid.name in sessions
      modifies sessions[rid.name]
      ensures sessions[rid.name].completedRequests == old(sessions[rid.name].completedRequests) + {rid.tid}
      ensures sessions[rid.name].View() == old(sessions[rid.name].View()).(completed := old(sessions[rid.name].completedRequests) + {rid.tid})
      ensures rid.tid in old(sessions[rid.name].completedRequests) ==> sessions[rid.name].View() == old(sessions[rid.name].View())
    {
      var session := GetSession(rid.name);
      session.AddCompletedRequest(rid.tid);
    }

    /** Trims the ledger of `c`'s session, which must exist, to `tid`. */
    method TrimCompletedRequests(c: EntityName, tid: nat)
      requires c in sessions
      modifies sessions[c]
      ensures var s := sessions[c];
        && s.completedRequests == Trimmed(old(s.completedRequests), tid)
        && s.waitingForTrim == Pending(old(s.waitingForTrim), tid)
        && s.finished == old(s.finished) + Released(old(s.waitingForTrim), tid)
        && s.View() == old(s.View()).(completed := s.completedRequests, trimWaiters := s.waitingForTrim, finished := s.finished)
    {
      var session := GetSession(c);
      session.TrimCompletedRequests(tid);
    }
  }

  /**
   Removing a session fires its pending waiters and drops it from the
   table, when the session was opened with an instance.
   */
  method RemovedSessionIsGone(i: EntityInst, tid: nat, cb: CallbackId) returns (found: bool, fired: seq<CallbackId>)
    ensures !found && fired == [cb]
  {
    var m := new SessionMap();
    var s := m.GetOrAddSessionInst(i);
    s.AddTrimWaiter(tid, cb);
    ReleasedSingle(tid, cb, 0);
    m.RemoveSession(s);
    var g := m.GetSession(i.name);
    found := g != null;
    fired := s.finished;
  }

  /**
   A session added by name alone still carries the unset instance, so
   removing it erases the unset name's entry and the session stays.
   */
  method NameOnlySessionSurvivesRemoval(w: EntityName) returns (found: bool)
    requires w != UnsetInst.name
    ensures found
  {
    var m := new SessionMap();
    var s := m.GetOrAddSession(w);
    m.RemoveSession(s);
    var g := m.GetSession(w);
    found := g != null;
  }

  /** Opening two clients leaves both sessions open with their instances, and counts one version. */
  method OpenTwoClients(a: EntityInst, b: EntityInst) returns (v: nat, openA: bool, openB: bool)
    requires a.name != b.name
    ensures v == 1 && openA && openB
  {
    var m := new SessionMap();
    var batch := map[1 := a, 2 := b];
    assert m.Table() == map[];
    OpenedDistinctNames(map[], batch, 1);
    OpenedDistinctNames(map[], batch, 2);
    m.OpenSessions(batch);
    v := m.version;
    var x := m.GetSession(a.name);
    var y := m.GetSession(b.name);
    openA := x != null && x.IsOpen() && x.inst == a;
    openB := y != null && y.IsOpen() && y.inst == b;
  }

  /** An empty batch opens nothing and still counts one version. */
  method OpenEmptyBatch() returns (v: nat, empty: bool)
    ensures v == 1 && empty
  {
    var m := new SessionMap();
    assert m.Table() == map[];
    m.OpenSessions(map[]);
    v := m.version;
    empty := m.Empty();
  }
}
