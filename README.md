# Session nesting in a Hibernate data-access layer

This project models the core of a small Java data-access layer and proves properties of
that model. The layer has two parts.

- `HibernateUtils` shares one Hibernate session among nested operations on a thread. It
  keeps two thread-local slots, `session` and `depth`. `currentSession()` opens a session
  the first time, with depth 0. If a session is already open, it returns that session and
  adds one to the depth. `closeSession(forceClose)` closes the session and clears both
  slots when the depth is at most 0 or the close is forced. Otherwise it takes one off the
  depth. Misuse is logged, not thrown: closing when nothing is open, and forcing a close at
  a depth other than 0.
- `BaseDao<T>` is the generic DAO. Each operation (`getById`, `create`, `update`, `delete`,
  `evict`, `attach`) gets a session with `currentSession()`, makes its Hibernate calls, and
  calls `closeSession()` in a `finally` block. `create`, `update` and `delete` work in a
  transaction. If a call fails, they roll back only if the transaction was begun, then
  re-throw the exception.

The files:

- `sessions.dfy` (module `Sessions`): one thread's slots as a value, `Slot`.
  `Acquire`, `Release` and `DepthValue` are `currentSession`, `closeSession` and
  `getDepthValue` as functions. `Exec` runs a sequence of requests. The module's lemmas
  cover the invariant (a session is stored iff a depth is, and the depth is never
  negative), the log of sessions opened and closed (at most one open at a time), and
  brackets (one acquire, nested work, one release restores the slots).
- `hibernate_utils.dfy` (module `HibernateUtils`): class `SessionManager`. Its fields
  `session` and `depth` are the two thread-locals, and its methods update them in place.
  Ghost fields `log` and `errors` record every `openSession()`/`close()` and every misuse
  the source logs. `CurrentSession` is proved against `Sessions.Acquire`, `CloseSession`
  and `CloseSessionDefault` against `Sessions.Release`, and `GetDepthValue` against
  `Sessions.DepthValue`. A ghost `trace` records, in order, every request made of the
  manager and every engine call made on its session through `OnSession`.
- `engine.dfy` (module `Engine`): Hibernate as opaque calls that return or throw a
  `RuntimeException`. `Replies` gives the engine's answers: whether `openSession()` throws,
  and which session calls throw. `RunSteps` is what Java does with a straight-line `try`
  block: it runs the calls in order until one throws.
- `base_dao.dfy` (module `Dao`): reference functions `Transactional`, `Lookup` and
  `Untransacted` state which Hibernate calls each DAO operation makes and how it ends. The
  class `BaseDao<T>` has the CRUD methods, the two flags and `addKeywordWildcards`. Each
  CRUD method is proved to leave the manager's slots exactly as it found them, on success
  and on failure, and to make all its Hibernate calls on the session `currentSession()`
  returned, after that request and before its `closeSession()`.
- `depth_overflow.dfy` (module `DepthOverflow`): the 32-bit depth counter as written (see
  Findings).
- `wrappers.dfy`: `Option` and `Result`.

Environment inputs are parameters:

- `openFailure` / `Replies.openSession` says whether the session factory throws.
- `Replies.call` says which session calls throw.
- `stored` is what `get` finds.
- `SessionManager.issued` numbers the sessions the factory opens, so each new handle is
  fresh.

The static `HibernateUtils` is the `SessionManager` object passed to the `BaseDao`
constructor.

One behaviour of the source is modelled as written. `update` and `delete` call
`s.flush()` after `t.commit()`, inside the `try` block. So a flush that throws sends an
already committed transaction to `rollback()` (`Dao.FailedFlushRollsBackCommitted`).
Each operation tests the slot the code tests. `currentSession` (`Sessions.Acquire`) asks
whether a `session` is stored; `closeSession` (`Sessions.Release`) and `getDepthValue`
(`Sessions.DepthValue`) ask whether a `depth` is stored. Each of `Sessions.Acquire` and
`Sessions.Release` excludes only the inputs on which the source would throw a
`NullPointerException`. For `Acquire`, that is a stored session without a depth. For
`Release`, it is a stored depth without a session, on a call that would close (depth at
most 0, or a forced close). A release of such a slot that only decrements the depth is
modelled as the code runs it. The manager's own operations never reach either slot
combination. A stored depth that is negative is handled as the code handles it
(`d <= 0` closes).

## Model

| member | source | states |
|---|---|---|
| `Sessions.Acquire` | src/com/progriff/util/HibernateUtils.java:166-186 | returns the stored session. It keeps an already open session and logs nothing. When none was open, it opens exactly one session, the factory's new handle, and returns it. It keeps the invariant. The depth becomes 0 on open, and old depth + 1 otherwise |
| `Sessions.ProperOpensOnlyWhenNoneOpen` | src/com/progriff/util/HibernateUtils.java:168-176 | in a proper log, every session is opened at a point where no session is open |
| `Sessions.AcquireLogsProperly` | src/com/progriff/util/HibernateUtils.java:166-186 | the log of an acquire opens a session only when none is open. Afterwards exactly the stored session is open |
| `Sessions.Release` | src/com/progriff/util/HibernateUtils.java:194-245 | keeps the invariant. With no depth stored, the slots are unchanged. A misuse is logged iff nothing was open, or a forced close found a depth other than 0. A forced release leaves no depth. A session that survives is the same one |
| `Sessions.ReleaseLogsProperly` | src/com/progriff/util/HibernateUtils.java:194-245 | the log of a release closes only the open session. Afterwards exactly the stored session is open |
| `Sessions.DepthValue` | src/com/progriff/util/HibernateUtils.java:263-271 | never negative under the invariant. It is 0 when no session is open |
| `Sessions.AcquireThenRelease` | src/com/progriff/util/HibernateUtils.java:166-245 | an unforced release undoes an acquire. The slots are restored, no misuse is logged, and one new session is opened and closed iff none was open |
| `Sessions.ReleaseThenAcquire` | src/com/progriff/util/HibernateUtils.java:178-235 | an acquire undoes a release that only decremented the depth. It returns the same handle, which stays open |
| `Sessions.ForcedReleaseClears` | src/com/progriff/util/HibernateUtils.java:198-227 | a forced release always clears both slots, closes the open session, and then reads depth 0. It logs a misuse iff the depth was not exactly 0 |
| `Sessions.Step` | src/com/progriff/util/HibernateUtils.java:166-253 | one request keeps the invariant |
| `Sessions.StepKeepsOneSession` | src/com/progriff/util/HibernateUtils.java:168-209 | one request logs properly and logs at most one event. A session it opens is the factory's next handle, and the factory counter then advances by one |
| `Sessions.Exec` | src/com/progriff/util/HibernateUtils.java:166-253 | any sequence of requests keeps the invariant |
| `Sessions.ExecKeepsOneSession` | src/com/progriff/util/HibernateUtils.java:168-209 | for any sequence of requests, the log is proper: a session is opened only while none is open, and only the open one is closed. The log leaves exactly the stored session open. Every session opened was issued by the factory during the run |
| `Sessions.ProperKeepsAtMostOne` | src/com/progriff/util/HibernateUtils.java:168-209 | following a proper log from at most one open session, at most one session is open at every point of the log |
| `Sessions.OneSessionAtATime` | src/com/progriff/util/HibernateUtils.java:168-209 | for any sequence of requests, at every point of the thread's log at most one session is open |
| `Sessions.OpenedHandlesIncrease` | src/com/progriff/util/HibernateUtils.java:168-177 | for any sequence of requests, the handles of the sessions opened strictly increase along the log, so no two are the same |
| `Sessions.ExecWhileOpen` | src/com/progriff/util/HibernateUtils.java:178-235 | nested requests that never release below depth 1 share the open handle. They open, close and log nothing. The final depth is the start depth plus acquires minus releases |
| `Sessions.BracketRestores` | src/com/progriff/util/HibernateUtils.java:30-34 | acquire, then any well-nested requests, then an unforced release, restores the slots exactly with no misuse. A session is opened and closed only if none was open |
| `Sessions.RepeatedAcquireRelease` | src/com/progriff/util/HibernateUtils.java:33-34 | from a closed thread, n acquires then n unforced releases give exactly one open/close pair of one new handle. The thread ends closed, with no misuse |
| `HibernateUtils.SessionManager.constructor` | src/com/progriff/util/HibernateUtils.java:69-72 | both thread-locals start empty, and the logs are empty |
| `HibernateUtils.SessionManager.CurrentSession` | src/com/progriff/util/HibernateUtils.java:166-186 | the new slots, the result and the log are those of `Sessions.Acquire`. When the factory throws, the exception propagates and nothing changes |
| `HibernateUtils.SessionManager.CloseSession` | src/com/progriff/util/HibernateUtils.java:194-245 | the new slots, log and misuse log are those of `Sessions.Release` |
| `HibernateUtils.SessionManager.CloseSessionDefault` | src/com/progriff/util/HibernateUtils.java:250-253 | exactly `Sessions.Release` with `forceClose` false |
| `HibernateUtils.SessionManager.OnSession` | src/com/progriff/dao/BaseDao.java:39 | one engine call on the session the manager holds: it throws as the engine says, and the trace gains exactly that call on that session |
| `HibernateUtils.OnHandleAt` | src/com/progriff/dao/BaseDao.java:36-39 | each entry of the recorded calls on `s` is the corresponding call, made on `s` |
| `HibernateUtils.OnHandleAppend` | src/com/progriff/dao/BaseDao.java:64-74 | the recorded calls of two runs in a row are those of the first then those of the second |
| `HibernateUtils.SessionManager.GetDepthValue` | src/com/progriff/util/HibernateUtils.java:263-271 | returns `Sessions.DepthValue` of the slots and changes nothing |
| `Engine.RunSteps` | src/com/progriff/dao/BaseDao.java:64-69 | the calls made are a prefix of the `try` block. All but the last returned. Nothing is in flight iff all returned, and otherwise the last call's exception is in flight |
| `Engine.RunStepsStopsAtFirstThrow` | src/com/progriff/dao/BaseDao.java:64-77 | the block stops at the first call that throws, with that call's exception |
| `Dao.TransactionSteps` | src/com/progriff/dao/BaseDao.java:64-69 | definition: the statements of the `try` block of `create`, `update` and `delete`, in order |
| `Dao.TransactionStepsCalls` | src/com/progriff/dao/BaseDao.java:88-94 | for an entity-changing operation, the `try` block never calls `rollback`, and it calls `flush` exactly in `update` and `delete` |
| `Dao.Transactional` | src/com/progriff/dao/BaseDao.java:62-81 | the reference for the `try`/`catch` of the transactional operations. The first call is always `beginTransaction`. The operation returns only after the whole `try` block ran |
| `Dao.Lookup` | src/com/progriff/dao/BaseDao.java:37-53 | the reference for the `try` of `getById`. `get` is the one call, and when it returns its result is what the operation returns |
| `Dao.Untransacted` | src/com/progriff/dao/BaseDao.java:139-146 | the reference for the `try` of `evict` and `attach`. The operation's call is the only one, and the operation throws exactly when that call throws |
| `Dao.RollbackOnlyOnceBegun` | src/com/progriff/dao/BaseDao.java:60-82 | rollback happens iff `beginTransaction` returned and the operation then failed. It is the last call |
| `Dao.FailureRethrown` | src/com/progriff/dao/BaseDao.java:70-77 | the operation returns iff every call returned. When it fails, it re-throws the first failing call's exception, unless the rollback threw |
| `Dao.FlushOnlyAfterCommit` | src/com/progriff/dao/BaseDao.java:84-107 | a flush happens only in `update`/`delete` (never in `create`), and only after begin, work and commit returned |
| `Dao.FailedFlushRollsBackCommitted` | src/com/progriff/dao/BaseDao.java:88-101 | a failing flush after a successful commit is followed by a rollback |
| `Dao.LookupReturnsStored` | src/com/progriff/dao/BaseDao.java:39-48 | `getById` makes one `get`. It returns what was found (object or null) unless `get` threw |
| `Dao.UntransactedPropagates` | src/com/progriff/dao/BaseDao.java:135-160 | `evict`/`attach` make their one call, never roll back, and propagate its exception unchanged |
| `Dao.TransactionTryCases` | src/com/progriff/dao/BaseDao.java:64-69 | the `try` block stops after `beginTransaction`, after the work, after `commit` (always, in `create`) or after `flush`, according to which call throws first, with that call's exception |
| `Dao.BaseDao.TransactionTry` | src/com/progriff/dao/BaseDao.java:63-69 | the `try` block runs as `RunSteps` over begin, work, commit (and flush). `t != null` iff `beginTransaction` returned. Every call it makes is recorded in the trace as made on the held session, in order |
| `Dao.BaseDao.TransactionCatch` | src/com/progriff/dao/BaseDao.java:70-77 | rolls back, on the held session, iff the transaction was begun and a call threw, then re-throws, giving `Transactional`. The rollback is recorded after the `try` block's calls |
| `Dao.BaseDao.RunTransaction` | src/com/progriff/dao/BaseDao.java:62-81 | the `try`/`catch` block as a whole agrees with `Transactional`, and records exactly its calls, all on the held session |
| `Dao.BaseDao.constructor` | src/com/progriff/dao/BaseDao.java:13-14 | filters start disabled, caching starts enabled |
| `Dao.BaseDao.SetFiltersEnabled` | src/com/progriff/dao/BaseDao.java:163-171 | the getter reads back what was set, and the cache flag is untouched |
| `Dao.BaseDao.IsFiltersEnabled` | src/com/progriff/dao/BaseDao.java:163-166 | the stored filters flag (what the constructor and `Dao.BaseDao.SetFiltersEnabled` promise about it is stated there) |
| `Dao.BaseDao.IsCacheEnabled` | src/com/progriff/dao/BaseDao.java:173-176 | the stored cache flag (what the constructor and `Dao.BaseDao.SetCacheEnabled` promise about it is stated there) |
| `Dao.BaseDao.SetCacheEnabled` | src/com/progriff/dao/BaseDao.java:173-181 | the getter reads back what was set, and the filters flag is untouched |
| `Dao.Text` | src/com/progriff/dao/BaseDao.java:27 | definition: what `StringBuffer.append` appends for a string reference, the string itself or "null" for `null` (stated through `Dao.BaseDao.AddKeywordWildcards`) |
| `Dao.BaseDao.AddKeywordWildcards` | src/com/progriff/dao/BaseDao.java:23-31 | the result is two characters longer than the keyword's text, and starts and ends with `%`. Dropping those gives the keyword's text back. A `null` keyword gives "%null%" |
| `Dao.BaseDao.GetById` | src/com/progriff/dao/BaseDao.java:34-58 | the manager is bracketed: slots restored, no misuse, and one session opened and closed iff none was open. The trace is one `currentSession()`, then every call on the session it returned, then one `closeSession(false)`; when opening fails, only the request. Calls and result are `Lookup`'s. When opening fails, the exception propagates and nothing else happens |
| `Dao.BaseDao.Create` | src/com/progriff/dao/BaseDao.java:60-82 | bracketed and traced as above, on success and failure, so the rollback too is made on the acquired session before the release. Calls and outcome are `Transactional` for save, without flush |
| `Dao.BaseDao.Update` | src/com/progriff/dao/BaseDao.java:84-107 | bracketed and traced. Calls and outcome are `Transactional` for update, with flush |
| `Dao.BaseDao.Delete` | src/com/progriff/dao/BaseDao.java:109-133 | bracketed and traced. Calls and outcome are `Transactional` for delete, with flush |
| `Dao.BaseDao.Evict` | src/com/progriff/dao/BaseDao.java:135-147 | bracketed and traced: the `evict` call is made on the acquired session, between acquire and release. It makes one `evict` call and propagates its exception |
| `Dao.BaseDao.Attach` | src/com/progriff/dao/BaseDao.java:149-161 | bracketed and traced. It makes one `refresh` call and propagates its exception |
| `DepthOverflow.JavaIncrement` | src/com/progriff/util/HibernateUtils.java:182-183 | Java's `d + 1` on an `int`: congruent to d + 1 modulo 2^32, within the 32-bit range |
| `DepthOverflow.AcquireAsWritten` | src/com/progriff/util/HibernateUtils.java:166-186 | the source's acquire with a 32-bit depth. It keeps the depth in range, and agrees with `Sessions.Acquire` whenever no session is open or the depth is below the largest `int` |
| `DepthOverflow.WrappedDepthClosesSharedSession` | src/com/progriff/util/HibernateUtils.java:182-200 | at depth 2^31 - 1, one acquire as written and one unforced release close the shared session. With the unbounded counter, the same pair leaves it open |

## Left out

- Cache-statistics hit ratios (`getQueryHitRatio`, `getSecondLevelQueryHitRatio`): floating-point division over Hibernate's counters.
- `SessionFactory` initialisation, `getStatistics`, `getSecondLevelCacheStatistics`, `enableJMX`, `disableJMX`, `closeSessionFactory`: calls into Hibernate and JMX.
- The stack-trace text of the forced-close message, and all log output: a misuse is recorded only as a `UsageError` event. The forced-close event carries the depth.
- `ThreadLocal` partitioning: one thread's slots are modelled. Threads never share slots.
- What Hibernate's `get`, `save`, `update`, `delete`, `evict`, `refresh`, `flush`, `commit` and `rollback` do to the database. They are opaque calls that may throw. This includes the identifier `save` assigns to a new entity.
- `Session.close()` is modelled as never throwing. If it threw, both slots would stay set and its exception would replace the DAO's.
- The manager is modelled only from states its own operations reach. The thread-locals are public in the source, so other code could store other values.
- Exceptions other than `RuntimeException`: the DAO's `catch` blocks only handle those, and the engine calls modelled throw only those.
- `getModelClass()` is abstract: the entity type is the type parameter `T`.
- `UserDao` (an interface) and `UserDaoTest` (tests against a live database).

## Findings

| source | as written | input that shows it | evidently intended | confidence | as-written member | corrected member |
|---|---|---|---|---|---|---|
| src/com/progriff/util/HibernateUtils.java:182-183 | the depth is a Java `Integer`, and `d + 1` wraps at 2^31 - 1 | 2^31 nested `currentSession()` calls on one thread, none released. Depth goes from 2147483647 to -2147483648, and the next `closeSession()` takes the `d <= 0` branch and closes the session the outer callers still hold | the depth keeps counting: a release after an acquire never closes an already open session | not executed; needs 2^31 unreleased acquisitions on one thread | `DepthOverflow.WrappedDepthClosesSharedSession` | `Sessions.AcquireThenRelease` |
