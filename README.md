# Session table of a metadata server

A model of the in-memory session bookkeeping of a Ceph metadata server (MDS),
`src/mds/SessionMap.h`. Its two classes are modelled as Dafny classes whose
methods update their fields in place:

- `Session` (module `Sessions`, `session.dfy`) is one client's record:
  - a state code from `STATE_UNDEF` to `STATE_RECONNECTING`;
  - the address (`entity_inst_t`) the client is known by;
  - the capability push-sequence counter;
  - an idempotency ledger. This is a sorted set of completed request ids, plus an ordered map of trim waiters from request id to callback.

  `trim_completed_requests(mintid)` is two loops. Each erases entries from the front of an ordered container while they lie below the watermark, and `mintid == 0` means "no lower bound". Here the loops are `EraseExpiredRequests` and `TakeExpiredWaiters`, each proved against functions on values in `ledger.dfy`: the closed-form set and map comprehensions `Trimmed` and `Pending`, and `Released`, a recursive function that mirrors the waiter loop step by step. Lemmas then state what those functions mean:
  - exactly the ids below the watermark go;
  - every waiter below it fires, once each, in ascending key order;
  - the others stay registered.
- `SessionMap` (module `SessionTable`, `session_map.dfy`) maps each entity name to its `Session` object. It also holds the counters `version`, `projected`, `committing` and `committed`, the commit waiters and the load waiters. `Valid()` says that no two names share a session object.

  `open_sessions` visits its batch in ascending key order, which is the order of a `std::map`. It is proved against `Opened`, a function on the table as values. The lemmas `OpenedKeys`, `OpenedOutsideBatch`, `OpenedInBatch` and `OpenedDistinctNames` say what that function does:
  - every named session ends open with the instance of the batch's last entry for that name;
  - missing sessions are created;
  - all other sessions are untouched.

Names, instances and request ids (`entity_name_t`, `entity_inst_t`, `metareqid_t`) are abstracted in `names.dfy`. A callback (`Context*`) is an opaque number. Running a list of callbacks with `finish_contexts` is modelled by appending them, in list order, to the session's `finished` log.

Two behaviours of the header worth noting:

- `remove_session` erases the entry named by the session's *instance*, `s->inst.name`, not the name the session was stored under. A session created by `get_or_add_session(entity_name_t)` still has the default instance. Removing it therefore erases the entry of the unset name, and the session itself stays in the table. `NameOnlySessionSurvivesRemoval` shows this.
- Trim waiters fire in ascending request-id order, the order of `std::map`, and not in the order they were registered. A second registration under the same id replaces the first, whose callback then never fires.

## Model

| member | source | states |
|---|---|---|
| Sessions.SessionState.Code | src/mds/SessionMap.h:33-38 | the six states have the codes 0 to 5, and only `Undef` has code 0 |
| Sessions.Session.constructor | src/mds/SessionMap.h:89-91 | a new session is undefined, with push sequence 0, the unset instance, an empty ledger, no waiters and nothing fired |
| Sessions.Session.IncPushSeq | src/mds/SessionMap.h:54 | the counter grows by exactly one and the new value is returned |
| Sessions.Session.GetPushSeq | src/mds/SessionMap.h:55 | returns the counter and changes nothing |
| Sessions.Session.IsOpening | src/mds/SessionMap.h:44 | true iff the state code is `STATE_OPENING` (1) |
| Sessions.Session.IsOpen | src/mds/SessionMap.h:45 | true iff the state code is `STATE_OPEN` (2) |
| Sessions.Session.IsClosing | src/mds/SessionMap.h:46 | true iff the state code is `STATE_CLOSING` (3) |
| Sessions.Session.HaveCompletedRequest | src/mds/SessionMap.h:84-86 | true iff `tid` is in the ledger (the set's count is 0 or 1) |
| Sessions.PushSeqCountsFromOne | src/mds/SessionMap.h:54 | three pushes on a new session return 1, 2 and 3 |
| Sessions.Session.AddCompletedRequest | src/mds/SessionMap.h:63-65 | the ledger gains exactly `t`, so `t` then counts as completed; re-adding a recorded id changes nothing |
| Sessions.Session.TrimCompletedRequests | src/mds/SessionMap.h:66-80 | the ledger becomes `Trimmed`, the waiters become `Pending`, and exactly the `Released` callbacks are appended to the fired log |
| Sessions.Session.EraseExpiredRequests | src/mds/SessionMap.h:68-70 | erasing the least id while it is below the watermark leaves exactly the ids at or above it (none when the watermark is 0) |
| Sessions.Session.TakeExpiredWaiters | src/mds/SessionMap.h:73-78 | taking the least waiter while it is below the watermark returns the `Released` callbacks and leaves the `Pending` waiters |
| Sessions.Session.AddTrimWaiter | src/mds/SessionMap.h:81-83 | the waiter map gets `c` under `tid`, replacing any earlier callback for `tid` |
| Sessions.ReplacedWaiterNeverFires | src/mds/SessionMap.h:81-83 | after two registrations under one id, a trim past it fires only the second callback |
| Sessions.TrimKeepsWatermark | src/mds/SessionMap.h:66-70 | after a trim to `m`, id `m` is still completed and id `m - 1` is not |
| Ledger.First | src/mds/SessionMap.h:69 | `begin()` of an ordered container is its least element |
| Ledger.SortedKeysEnumerates | src/mds/SessionMap.h:74-77 | the visiting order of an ordered container lists each element once, strictly ascending |
| Ledger.Trimmed | src/mds/SessionMap.h:68-70 | an id survives a trim iff it was recorded, the watermark is non-zero and the id is at least the watermark |
| Ledger.TrimmedExactly | src/mds/SessionMap.h:68-70 | any subset that keeps every id at or above the watermark and none below it is the trim result |
| Ledger.Pending | src/mds/SessionMap.h:74-77 | a waiter stays registered iff its id is at least a non-zero watermark, with its callback unchanged |
| Ledger.PendingExactly | src/mds/SessionMap.h:74-77 | any restriction that keeps every waiter at or above the watermark and none below it is the pending result |
| Ledger.Released | src/mds/SessionMap.h:74-78 | the callbacks the waiter loop collects: never more than there are waiters, and each one registered; `ReleasedInKeyOrder` gives the exact list |
| Ledger.ReleaseOrder | src/mds/SessionMap.h:74-77 | the released ids are exactly the registered ids below the watermark, strictly ascending |
| Ledger.ReleasedFollowsKeyOrder | src/mds/SessionMap.h:74-79 | taking waiters from the front fires the callbacks of the released ids, in that order |
| Ledger.ReleasedInKeyOrder | src/mds/SessionMap.h:72-79 | a trim fires one callback per waiter below the watermark, in ascending id order, and no other |
| Ledger.ReleaseOrderStep | src/mds/SessionMap.h:74-77 | when the least waiter is below the watermark it is released first, then the rest in order |
| Ledger.ReleasedSingle | src/mds/SessionMap.h:74-79 | a lone waiter fires iff its id is below the watermark |
| Ledger.CallbacksAtIndex | src/mds/SessionMap.h:76 | the collected list holds, position by position, the callbacks of the given ids |
| Ledger.CallbacksAtFrame | src/mds/SessionMap.h:76 | collecting callbacks depends only on the entries at the given ids |
| EntityNames.ClientName | src/mds/SessionMap.h:173 | the name of client `n` is a client name with number `n` |
| SessionTable.SessionMap.constructor | src/mds/SessionMap.h:117-119 | a new table is empty, all four counters are 0, and there are no commit or load waiters |
| SessionTable.SessionMap.Empty | src/mds/SessionMap.h:122 | true iff no name has a session |
| SessionTable.SessionMap.GetSession | src/mds/SessionMap.h:123-127 | returns the stored session, or null iff the name is absent; the table is not changed |
| SessionTable.SessionMap.GetOrAddSession | src/mds/SessionMap.h:128-130 | an existing session is returned untouched; otherwise a fresh default session is inserted under the name, and nothing else changes |
| SessionTable.SessionMap.GetOrAddSessionInst | src/mds/SessionMap.h:131-135 | as `GetOrAddSession`, and the session's instance is then `i`; only that session changes |
| SessionTable.SessionMap.RemoveSession | src/mds/SessionMap.h:136-139 | every pending waiter fires in id order, the ledger and waiters are emptied, the entry named by the session's instance is erased, and other sessions and counters are unchanged |
| SessionTable.RemovedSessionIsGone | src/mds/SessionMap.h:136-139 | a session opened with an instance is gone after removal, and its pending waiter has fired |
| SessionTable.NameOnlySessionSurvivesRemoval | src/mds/SessionMap.h:128-130 | a session created by name alone is not erased by `remove_session`, because its instance name is unset |
| SessionTable.SessionMap.GetClientSet | src/mds/SessionMap.h:141-147 | the result is `s0` plus the number of every session whose instance is a client |
| SessionTable.SessionMap.GetClientSessionSet | src/mds/SessionMap.h:148-154 | the result is `s0` plus every session whose instance is a client |
| SessionTable.SessionMap.OpenSession | src/mds/SessionMap.h:160-162 | one loop step: the named session (created if absent) is open with the given instance, and every other session is unchanged |
| SessionTable.SessionMap.OpenSessions | src/mds/SessionMap.h:156-165 | the table becomes `Opened(old table, batch)` with object identities kept; `version` grows by exactly one; the other counters and waiters are unchanged |
| SessionTable.BatchNames | src/mds/SessionMap.h:156-160 | a name is in the batch iff some entry's instance carries it |
| SessionTable.LastKeyFor | src/mds/SessionMap.h:157-159 | the greatest batch key whose instance has the given name |
| SessionTable.Opened | src/mds/SessionMap.h:156-163 | the table after the loop of `open_sessions`; opening never drops a session, and `OpenedKeys`, `OpenedInBatch` and `OpenedOutsideBatch` give the rest |
| SessionTable.OpenedKeys | src/mds/SessionMap.h:156-163 | after opening, the table's names are the old names plus the batch's names |
| SessionTable.OpenedOutsideBatch | src/mds/SessionMap.h:156-163 | sessions the batch does not name are unchanged |
| SessionTable.OpenedInBatch | src/mds/SessionMap.h:156-163 | each named session ends open with the instance of the batch's last entry for that name, keeping its counter, ledger and waiters |
| SessionTable.OpenedDistinctNames | src/mds/SessionMap.h:156-163 | with distinct names in the batch, every entry's session ends open with exactly that entry's instance |
| SessionTable.BatchNamesSplit | src/mds/SessionMap.h:157-159 | the batch's names are those of its first entry and those of the rest |
| SessionTable.LastKeyWithoutFirst | src/mds/SessionMap.h:157-159 | dropping the first entry does not change the last entry of a name that occurs later |
| SessionTable.LastKeyOnly | src/mds/SessionMap.h:157-159 | an entry whose name occurs nowhere else is that name's last entry |
| SessionTable.OpenTwoClients | src/mds/SessionMap.h:156-165 | opening two distinct clients on a new table leaves both open with their instances, at version 1 |
| SessionTable.OpenEmptyBatch | src/mds/SessionMap.h:164 | an empty batch creates nothing and still bumps `version` to 1 |
| SessionTable.SessionMap.GetInst | src/mds/SessionMap.h:168-171 | returns the instance of the named session, which must exist |
| SessionTable.SessionMap.IncPushSeq | src/mds/SessionMap.h:172-174 | the counter of client `n`'s session grows by one and is returned, and nothing else in that session changes; that session must exist |
| SessionTable.SessionMap.GetPushSeq | src/mds/SessionMap.h:175-177 | returns the counter of client `n`'s session, which must exist |
| SessionTable.SessionMap.HaveCompletedRequest | src/mds/SessionMap.h:178-181 | true iff the sender has a session and that session has recorded the id; false for an unknown sender |
| SessionTable.SessionMap.AddCompletedRequest | src/mds/SessionMap.h:182-186 | records the id in the sender's session, which must exist; nothing else in that session changes, and re-adding a recorded id changes nothing |
| SessionTable.SessionMap.TrimCompletedRequests | src/mds/SessionMap.h:187-191 | trims the named session, which must exist, exactly as `Session.TrimCompletedRequests`: ledger, waiters and fired log change as there, and its state, instance and push counter stay |

## Left out

- Persistence. `encode`, `decode`, `init_inode`, `load`, `_load_finish`, `save` and `_save_finish` (src/mds/SessionMap.h:197-204) are only declared in this header. Their bodies and the store I/O they drive are not part of this model. So the ordering `committed <= committing <= projected <= version` and the firing of commit and load waiters are not modelled. `projected`, `committing`, `committed`, `commit_waiters` and `waiting_for_load` are carried as fields that no modelled operation changes.
- The session codec, `Session::_encode` and `_decode` (src/mds/SessionMap.h:93-102). They wrap a serialisation library that is not part of this model. The field order they use is `inst`, then `cap_push_seq`, then `completed_requests`.
- `cap_inodes`, `last_alive` and the `inode` field: nothing in this header reads or writes them. The `MDS*` back-pointer is only stored by the `SessionMap` constructor (src/mds/SessionMap.h:117), whose model takes no argument.
- Callback execution. `Context` objects and `finish_contexts` are foreign code. A callback is an opaque id, and firing one appends it to the session's `finished` log.
- `hash_map` iteration order, which is unspecified. `GetClientSet` and `GetClientSessionSet` pick the next name nondeterministically, and their results are stated as sets.
- `entity_name_t`, `entity_inst_t` and `metareqid_t` come from mdstypes.h, which is not part of this model. A name is a (kind, number) pair, and an address is an opaque number.
- Sessions.Session.IncPushSeq: counters are unbounded integers. The 64-bit wrap-around of `version_t` after 2^64 increments is not modelled, and neither is that of `version` in `SessionTable.SessionMap.OpenSessions`.
- SessionTable.SessionMap.GetInst returns the instance by value. The C++ returns a reference through which callers could modify the stored instance.
- `Session*` pointers held across a removal are not modelled as invalidated. A removed `Session` object simply stays readable.
