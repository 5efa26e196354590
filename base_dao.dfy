/**
 * `BaseDao`: each CRUD operation brackets opaque engine calls between
 * `currentSession()` and a `closeSession()` in a `finally` block; `create`, `update` and
 * `delete` run theirs in a transaction, rolled back on failure only if it was begun.
 */
module Dao {
  import opened Wrappers
  import opened Engine
  import opened Sessions
  import opened HibernateUtils

  /** The text a Java `StringBuffer` appends for a string reference: `null` appends "null". */
  function Text(s: Option<string>): string {
    match s
    case Some(v) => v
    case None => "null"
  }

  /** How a DAO call ends: it returns a value or throws. */
  datatype Outcome<+T> = Returned(value: T) | Threw(exception: Exception)

  /** The calls a DAO operation makes on its session, and how the operation ends. */
  datatype Exchange<+T> = Exchange(calls: seq<Op>, outcome: Outcome<T>)

  /** The calls that change entities, each of which the DAO runs in a transaction. */
  predicate Mutation(op: Op) {
    op.Save? || op.Update? || op.Delete?
  }

  /** The `try` block of `create` (no flush), `update` and `delete` (flush after commit). */
  function TransactionSteps(work: Op, flushes: bool): seq<Op> {
    if flushes then [BeginTransaction, work, Commit, Flush] else [BeginTransaction, work, Commit]
  }

  /**
   * For an entity-changing operation, the `try` block never rolls back itself, and it
   * flushes exactly in `update` and `delete`.
   */
  lemma TransactionStepsCalls(work: Op, flushes: bool)
    requires Mutation(work)
    ensures Rollback !in TransactionSteps(work, flushes)
    ensures Flush in TransactionSteps(work, flushes) <==> flushes
  {
  }

  /**
   * The transactional operations as a reference: the `try` block runs until a call
   * throws; then `t` is non-null exactly when `beginTransaction()` returned, in which
   * case the transaction is rolled back, and the exception is re-thrown (a rollback that
   * throws replaces it, as Java does with an exception thrown from a `catch` block).
   */
  function Transactional(work: Op, flushes: bool, call: Op -> Option<Exception>): (x: Exchange<()>)
    // the first call is always `beginTransaction()`
    ensures x.calls != [] && x.calls[0] == BeginTransaction
    // the operation returns only after its whole `try` block ran
    ensures x.outcome.Returned? ==> x.calls == TransactionSteps(work, flushes)
  {
    var p := RunSteps(TransactionSteps(work, flushes), call);
    match p.thrown
    case None => Exchange(p.done, Returned(()))
    case Some(e) =>
      if |p.done| == 1 then Exchange(p.done, Threw(e))
      else Exchange(p.done + [Rollback], Threw(match call(Rollback) case Some(e') => e' case None => e))
  }

  /** `getById` as a reference: `get` either throws, or its result (an object or `null`) is returned. */
  function Lookup<T>(call: Op -> Option<Exception>, stored: Option<T>): (x: Exchange<Option<T>>)
    // `get` is the one call, and what it found is returned when it returned
    ensures x.calls == [Get]
    ensures x.outcome.Returned? ==> x.outcome.value == stored
  {
    var p := RunSteps([Get], call);
    match p.thrown
    case Some(e) => Exchange(p.done, Threw(e))
    case None => Exchange(p.done, Returned(stored))
  }

  /** `evict` and `attach` as a reference: one call, its exception propagated. */
  function Untransacted(op: Op, call: Op -> Option<Exception>): (x: Exchange<()>)
    // the operation is the one call, and it throws exactly when that call throws
    ensures x.calls == [op]
    ensures x.outcome.Threw? <==> call(op).Some?
  {
    var p := RunSteps([op], call);
    match p.thrown
    case Some(e) => Exchange(p.done, Threw(e))
    case None => Exchange(p.done, Returned(()))
  }

  /**
   * A rollback happens exactly when `beginTransaction()` returned and the operation
   * then failed, and it is the last call, made after the transaction was begun.
   */
  lemma RollbackOnlyOnceBegun(work: Op, flushes: bool, call: Op -> Option<Exception>)
    requires Mutation(work)
    ensures var x := Transactional(work, flushes, call);
      (Rollback in x.calls <==> call(BeginTransaction).None? && x.outcome.Threw?) &&
      (Rollback in x.calls ==> x.calls[0] == BeginTransaction && x.calls[|x.calls| - 1] == Rollback)
  {
    var steps := TransactionSteps(work, flushes);
    var p := RunSteps(steps, call);
    TransactionStepsCalls(work, flushes);
    assert Rollback !in p.done by {
      assert p.done == steps[..|p.done|];
    }
    if call(BeginTransaction).Some? {
      RunStepsStopsAtFirstThrow(steps, call, 0);
    } else if p.thrown.Some? {
      assert p.done[0] == BeginTransaction;
    }
  }

  /**
   * The operation returns iff every call of its `try` block returned; when it throws,
   * it throws what the first failing call threw, unless the rollback itself threw.
   */
  lemma FailureRethrown(work: Op, flushes: bool, call: Op -> Option<Exception>, i: nat)
    requires Mutation(work) && i < |TransactionSteps(work, flushes)|
    ensures var steps := TransactionSteps(work, flushes);
      var x := Transactional(work, flushes, call);
      (x.outcome.Returned? <==> forall j :: 0 <= j < |steps| ==> call(steps[j]).None?) &&
      (call(steps[i]).Some? && (forall j :: 0 <= j < i ==> call(steps[j]).None?) &&
       (i == 0 || call(Rollback).None?) ==>
         x.outcome == Threw(call(steps[i]).value))
  {
    var steps := TransactionSteps(work, flushes);
    if call(steps[i]).Some? && (forall j :: 0 <= j < i ==> call(steps[j]).None?) {
      RunStepsStopsAtFirstThrow(steps, call, i);
    }
  }

  /** The rollback comes after what the `try` block did, so a DAO call starts with those calls. */
  lemma TransactionalExtendsTry(work: Op, flushes: bool, call: Op -> Option<Exception>)
    ensures var p := RunSteps(TransactionSteps(work, flushes), call);
      var x := Transactional(work, flushes, call);
      x.calls == p.done || x.calls == p.done + [Rollback]
  {
  }

  /** Within the `try` block a flush is made only as its fourth call, after three that returned. */
  lemma FlushIsFourth(work: Op, flushes: bool, call: Op -> Option<Exception>)
    requires Mutation(work)
    ensures var p := RunSteps(TransactionSteps(work, flushes), call);
      Flush in p.done ==>
        flushes && |p.done| == 4 &&
        p.done[0] == BeginTransaction && p.done[1] == work && p.done[2] == Commit &&
        call(BeginTransaction).None? && call(work).None? && call(Commit).None?
  {
    var steps := TransactionSteps(work, flushes);
    var p := RunSteps(steps, call);
    if Flush in p.done {
      var k :| 0 <= k < |p.done| && p.done[k] == Flush;
      assert p.done[k] == steps[k];
      TransactionStepsCalls(work, flushes);
      assert p.done[0] == steps[0] && p.done[1] == steps[1] && p.done[2] == steps[2];
      assert call(p.done[0]).None? && call(p.done[1]).None? && call(p.done[2]).None?;
    }
  }

  /**
   * A flush happens only in `update` and `delete` (never in `create`), and only after
   * `beginTransaction`, the work and `commit` all returned.
   */
  lemma FlushOnlyAfterCommit(work: Op, flushes: bool, call: Op -> Option<Exception>)
    requires Mutation(work)
    ensures var x := Transactional(work, flushes, call);
      Flush in x.calls ==>
        flushes && x.calls[0] == BeginTransaction && x.calls[1] == work && x.calls[2] == Commit &&
        call(BeginTransaction).None? && call(work).None? && call(Commit).None?
  {
    TransactionalExtendsTry(work, flushes, call);
    FlushIsFourth(work, flushes, call);
  }

  /**
   * As written, `update` and `delete` commit before they flush, inside the `try` block:
   * a flush that throws sends an already committed transaction to `rollback()`.
   */
  lemma FailedFlushRollsBackCommitted(work: Op, call: Op -> Option<Exception>)
    requires Mutation(work)
    requires call(BeginTransaction).None? && call(work).None? && call(Commit).None? && call(Flush).Some?
    ensures Transactional(work, true, call).calls == [BeginTransaction, work, Commit, Flush, Rollback]
  {
    RunStepsStopsAtFirstThrow(TransactionSteps(work, true), call, 3);
  }

  /** `getById` returns what `get` found, an object or `null`, unless `get` threw, and never rolls back. */
  lemma LookupReturnsStored<T>(call: Op -> Option<Exception>, stored: Option<T>)
    ensures var x := Lookup(call, stored);
      x.calls == [Get] &&
      x.outcome == if call(Get).Some? then Threw(call(Get).value) else Returned(stored)
  {
  }

  /** `evict` and `attach` make their one call and propagate its exception unchanged. */
  lemma UntransactedPropagates(op: Op, call: Op -> Option<Exception>)
    ensures var x := Untransacted(op, call);
      x.calls == [op] &&
      x.outcome == if call(op).Some? then Threw(call(op).value) else Returned(())
  {
  }

  /**
   * The `try` block of the transactional operations, case by case: it ends at the first
   * of `beginTransaction`, the work, `commit` and (when flushing) `flush` that throws,
   * and otherwise completes.
   */
  lemma TransactionTryCases(work: Op, flushes: bool, call: Op -> Option<Exception>)
    ensures var p := RunSteps(TransactionSteps(work, flushes), call);
      (call(BeginTransaction).Some? ==> p == Progress([BeginTransaction], call(BeginTransaction))) &&
      (call(BeginTransaction).None? && call(work).Some? ==>
         p == Progress([BeginTransaction, work], call(work))) &&
      (call(BeginTransaction).None? && call(work).None? && (call(Commit).Some? || !flushes) ==>
         p == Progress([BeginTransaction, work, Commit], call(Commit))) &&
      (call(BeginTransaction).None? && call(work).None? && call(Commit).None? && flushes ==>
         p == Progress([BeginTransaction, work, Commit, Flush], call(Flush)))
  {
    var steps := TransactionSteps(work, flushes);
    if call(BeginTransaction).Some? {
      RunStepsUnique(steps, call, [BeginTransaction], call(BeginTransaction));
    } else if call(work).Some? {
      RunStepsUnique(steps, call, [BeginTransaction, work], call(work));
    } else if call(Commit).Some? || !flushes {
      RunStepsUnique(steps, call, [BeginTransaction, work, Commit], call(Commit));
    } else {
      RunStepsUnique(steps, call, [BeginTransaction, work, Commit, Flush], call(Flush));
    }
  }

  /**
   * The generic DAO over entities of type `T`. `sessions` is the manager every DAO
   * shares (the static `HibernateUtils`).
   */
  class BaseDao<T> {
    var filtersEnabled: bool
    var cacheEnabled: bool
    const sessions: SessionManager

    function IsFiltersEnabled(): bool
      reads this
    {
      filtersEnabled
    }

    function IsCacheEnabled(): bool
      reads this
    {
      cacheEnabled
    }

    /** Filters start disabled and caching enabled. */
    constructor (sessions: SessionManager)
      ensures this.sessions == sessions && !IsFiltersEnabled() && IsCacheEnabled()
    {
      this.sessions := sessions;
      filtersEnabled := false;
      cacheEnabled := true;
    }

    /** Reading the flag back gives what was set; the other flag is untouched. */
    method SetFiltersEnabled(filtersEnabled: bool)
      modifies this
      ensures IsFiltersEnabled() == filtersEnabled && IsCacheEnabled() == old(IsCacheEnabled())
    {
      this.filtersEnabled := filtersEnabled;
    }

    /** Reading the flag back gives what was set; the other flag is untouched. */
    method SetCacheEnabled(cacheEnabled: bool)
      modifies this
      ensures IsCacheEnabled() == cacheEnabled && IsFiltersEnabled() == old(IsFiltersEnabled())
    {
      this.cacheEnabled := cacheEnabled;
    }

    /**
     * `addKeywordWildcards`: the keyword between two `%` signs, built by appending to a
     * buffer; dropping the first and last character gives the keyword's text back. The
     * keyword is a Java reference (`None` is `null`), and appending `null` appends its
     * text, "null".
     */
    static method AddKeywordWildcards(keyword: Option<string>) returns (r: string)
      ensures |r| == |Text(keyword)| + 2
      ensures r[0] == '%' && r[|r| - 1] == '%'
      ensures r[1..|r| - 1] == Text(keyword)
      ensures keyword.None? ==> r == "%null%"
    {
      var buffer := "";
      buffer := buffer + "%";
      buffer := buffer + Text(keyword);
      buffer := buffer + "%";
      r := buffer;
    }

    /**
     * The `try` block of `create`, `update` and `delete`, each call made on the session
     * the manager holds: `begun` stands for `t != null`, `thrown` for the exception in
     * flight when the block is left.
     */
    method TransactionTry(work: Op, flushes: bool, call: Op -> Option<Exception>)
      returns (begun: bool, thrown: Option<Exception>, ghost calls: seq<Op>)
      requires sessions.session.Some?
      modifies sessions.trace
      ensures sessions.trace.actions == old(sessions.trace.actions) + OnHandle(sessions.session.value, calls)
      ensures RunSteps(TransactionSteps(work, flushes), call) == Progress(calls, thrown)
      ensures begun <==> call(BeginTransaction).None?
    {
      ghost var h := sessions.session.value;
      ghost var before := sessions.trace.actions;
      begun := false;
      calls := [BeginTransaction];
      thrown := sessions.OnSession(BeginTransaction, call);
      assert sessions.trace.actions == before + [Used(h, BeginTransaction)];
      if thrown.None? {
        begun := true;
        thrown := sessions.OnSession(work, call);
        calls := [BeginTransaction, work];
        assert sessions.trace.actions == before + [Used(h, BeginTransaction), Used(h, work)];
        if thrown.None? {
          thrown := sessions.OnSession(Commit, call);
          calls := [BeginTransaction, work, Commit];
          assert sessions.trace.actions == before + [Used(h, BeginTransaction), Used(h, work), Used(h, Commit)];
          if thrown.None? && flushes {
            thrown := sessions.OnSession(Flush, call);
            calls := [BeginTransaction, work, Commit, Flush];
            assert sessions.trace.actions == before + [Used(h, BeginTransaction), Used(h, work), Used(h, Commit), Used(h, Flush)];
          }
        }
      }
      assert sessions.trace.actions == before + OnHandle(h, calls) by {
        OnHandleShort(h, BeginTransaction, work, Commit, Flush);
      }
      assert RunSteps(TransactionSteps(work, flushes), call) == Progress(calls, thrown) by {
        TransactionTryCases(work, flushes, call);
      }
    }

    /**
     * The `catch` block: roll back, on the held session's transaction, only if the
     * transaction was begun, then re-throw. `done` are the calls the `try` block made,
     * recorded after `before`.
     */
    method TransactionCatch(work: Op, flushes: bool, call: Op -> Option<Exception>,
                            begun: bool, thrown: Option<Exception>, ghost done: seq<Op>, ghost before: seq<Action>)
      returns (r: Outcome<()>, ghost calls: seq<Op>)
      requires sessions.session.Some?
      requires RunSteps(TransactionSteps(work, flushes), call) == Progress(done, thrown)
      requires begun <==> call(BeginTransaction).None?
      requires sessions.trace.actions == before + OnHandle(sessions.session.value, done)
      modifies sessions.trace
      ensures calls == if begun && thrown.Some? then done + [Rollback] else done
      ensures sessions.trace.actions == before + OnHandle(sessions.session.value, calls)
      ensures Exchange(calls, r) == Transactional(work, flushes, call)
    {
      assert begun <==> |done| > 1 || thrown.None?;
      calls := done;
      if thrown.Some? {
        r := Threw(thrown.value);
        if begun {
          ghost var h := sessions.session.value;
          var failed := sessions.OnSession(Rollback, call);
          calls := calls + [Rollback];
          assert calls[..|calls| - 1] == done;
          assert sessions.trace.actions == before + (OnHandle(h, done) + [Used(h, Rollback)]);
          if failed.Some? {
            r := Threw(failed.value);
          }
        }
      } else {
        r := Returned(());
      }
    }

    /** The `try`/`catch` of `create`, `update` and `delete`, between acquire and release. */
    method RunTransaction(work: Op, flushes: bool, call: Op -> Option<Exception>) returns (r: Outcome<()>, ghost calls: seq<Op>)
      requires sessions.session.Some?
      modifies sessions.trace
      ensures sessions.trace.actions == old(sessions.trace.actions) + OnHandle(sessions.session.value, calls)
      ensures Exchange(calls, r) == Transactional(work, flushes, call)
    {
      ghost var before := sessions.trace.actions;
      var begun, thrown, done := TransactionTry(work, flushes, call);
      r, calls := TransactionCatch(work, flushes, call, begun, thrown, done, before);
    }

    /**
     * `getById(id)`: `stored` is what the engine's `get` finds for each identifier. If
     * opening the session throws, the exception propagates before the `try`.
     */
    method GetById(id: int, replies: Replies, stored: int -> Option<T>) returns (r: Outcome<Option<T>>, ghost calls: seq<Op>)
      requires sessions.Valid()
      modifies sessions, sessions.trace
      ensures sessions.Valid() && sessions.Bracketed(replies.openSession) && sessions.Traced(replies.openSession, calls)
      ensures old(sessions.OpenFails(replies.openSession)) ==> r == Threw(replies.openSession.value) && calls == []
      ensures !old(sessions.OpenFails(replies.openSession)) ==> Exchange(calls, r) == Lookup(replies.call, stored(id))
    {
      ghost var h := if sessions.session.Some? then sessions.session.value else sessions.issued;
      ghost var before := sessions.trace.actions;
      ghost var s0, i0, l0 := sessions.State(), sessions.issued, sessions.log;
      ghost var a := Acquire(s0, i0);
      AcquireThenRelease(s0, i0);
      var acquired := sessions.CurrentSession(replies.openSession);
      if acquired.Failure? {
        return Threw(acquired.error), [];
      }
      assert sessions.session == Some(h);
      calls := [Get];
      var thrown := sessions.OnSession(Get, replies.call);
      if thrown.Some? {
        r := Threw(thrown.value);
      } else {
        var o := stored(id);
        if o.Some? {
          r := Returned(Some(o.value));
        } else {
          r := Returned(None);
        }
      }
      assert sessions.trace.actions == before + [Request(Sessions.Call.CurrentSession)] + OnHandle(h, calls);
      sessions.CloseSessionDefault();
      ghost var rel := Release(a.slot, false);
      assert sessions.log == l0 + a.events + rel.events;
      assert l0 + a.events + rel.events == l0 + (a.events + rel.events);
    }

    /** `create(o)`: begin, save, commit; no flush. */
    method Create(o: T, replies: Replies) returns (r: Outcome<()>, ghost calls: seq<Op>)
      requires sessions.Valid()
      modifies sessions, sessions.trace
      ensures sessions.Valid() && sessions.Bracketed(replies.openSession) && sessions.Traced(replies.openSession, calls)
      ensures old(sessions.OpenFails(replies.openSession)) ==> r == Threw(replies.openSession.value) && calls == []
      ensures !old(sessions.OpenFails(replies.openSession)) ==> Exchange(calls, r) == Transactional(Save, false, replies.call)
    {
      ghost var h := if sessions.session.Some? then sessions.session.value else sessions.issued;
      ghost var before := sessions.trace.actions;
      ghost var s0, i0, l0 := sessions.State(), sessions.issued, sessions.log;
      ghost var a := Acquire(s0, i0);
      AcquireThenRelease(s0, i0);
      var acquired := sessions.CurrentSession(replies.openSession);
      if acquired.Failure? {
        return Threw(acquired.error), [];
      }
      assert sessions.session == Some(h);
      r, calls := RunTransaction(Save, false, replies.call);
      assert sessions.trace.actions == before + [Request(Sessions.Call.CurrentSession)] + OnHandle(h, calls);
      sessions.CloseSessionDefault();
      ghost var rel := Release(a.slot, false);
      assert sessions.log == l0 + a.events + rel.events;
      assert l0 + a.events + rel.events == l0 + (a.events + rel.events);
    }

    /** `update(o)`: begin, update, commit, flush. */
    method Update(o: T, replies: Replies) returns (r: Outcome<()>, ghost calls: seq<Op>)
      requires sessions.Valid()
      modifies sessions, sessions.trace
      ensures sessions.Valid() && sessions.Bracketed(replies.openSession) && sessions.Traced(replies.openSession, calls)
      ensures old(sessions.OpenFails(replies.openSession)) ==> r == Threw(replies.openSession.value) && calls == []
      ensures !old(sessions.OpenFails(replies.openSession)) ==> Exchange(calls, r) == Transactional(Op.Update, true, replies.call)
    {
      ghost var h := if sessions.session.Some? then sessions.session.value else sessions.issued;
      ghost var before := sessions.trace.actions;
      ghost var s0, i0, l0 := sessions.State(), sessions.issued, sessions.log;
      ghost var a := Acquire(s0, i0);
      AcquireThenRelease(s0, i0);
      var acquired := sessions.CurrentSession(replies.openSession);
      if acquired.Failure? {
        return Threw(acquired.error), [];
      }
      assert sessions.session == Some(h);
      r, calls := RunTransaction(Op.Update, true, replies.call);
      assert sessions.trace.actions == before + [Request(Sessions.Call.CurrentSession)] + OnHandle(h, calls);
      sessions.CloseSessionDefault();
      ghost var rel := Release(a.slot, false);
      assert sessions.log == l0 + a.events + rel.events;
      assert l0 + a.events + rel.events == l0 + (a.events + rel.events);
    }

    /** `delete(o)`: begin, delete, commit, flush. */
    method Delete(o: T, replies: Replies) returns (r: Outcome<()>, ghost calls: seq<Op>)
      requires sessions.Valid()
      modifies sessions, sessions.trace
      ensures sessions.Valid() && sessions.Bracketed(replies.openSession) && sessions.Traced(replies.openSession, calls)
      ensures old(sessions.OpenFails(replies.openSession)) ==> r == Threw(replies.openSession.value) && calls == []
      ensures !old(sessions.OpenFails(replies.openSession)) ==> Exchange(calls, r) == Transactional(Op.Delete, true, replies.call)
    {
      ghost var h := if sessions.session.Some? then sessions.session.value else sessions.issued;
      ghost var before := sessions.trace.actions;
      ghost var s0, i0, l0 := sessions.State(), sessions.issued, sessions.log;
      ghost var a := Acquire(s0, i0);
      AcquireThenRelease(s0, i0);
      var acquired := sessions.CurrentSession(replies.openSession);
      if acquired.Failure? {
        return Threw(acquired.error), [];
      }
      assert sessions.session == Some(h);
      r, calls := RunTransaction(Op.Delete, true, replies.call);
      assert sessions.trace.actions == before + [Request(Sessions.Call.CurrentSession)] + OnHandle(h, calls);
      sessions.CloseSessionDefault();
      ghost var rel := Release(a.slot, false);
      assert sessions.log == l0 + a.events + rel.events;
      assert l0 + a.events + rel.events == l0 + (a.events + rel.events);
    }

    /** `evict(o)`: one call, no `catch`; the exception leaves through the `finally`. */
    method Evict(o: T, replies: Replies) returns (r: Outcome<()>, ghost calls: seq<Op>)
      requires sessions.Valid()
      modifies sessions, sessions.trace
      ensures sessions.Valid() && sessions.Bracketed(replies.openSession) && sessions.Traced(replies.openSession, calls)
      ensures old(sessions.OpenFails(replies.openSession)) ==> r == Threw(replies.openSession.value) && calls == []
      ensures !old(sessions.OpenFails(replies.openSession)) ==> Exchange(calls, r) == Untransacted(Op.Evict, replies.call)
    {
      ghost var h := if sessions.session.Some? then sessions.session.value else sessions.issued;
      ghost var before := sessions.trace.actions;
      ghost var s0, i0, l0 := sessions.State(), sessions.issued, sessions.log;
      ghost var a := Acquire(s0, i0);
      AcquireThenRelease(s0, i0);
      var acquired := sessions.CurrentSession(replies.openSession);
      if acquired.Failure? {
        return Threw(acquired.error), [];
      }
      assert sessions.session == Some(h);
      calls := [Op.Evict];
      var thrown := sessions.OnSession(Op.Evict, replies.call);
      r := if thrown.Some? then Threw(thrown.value) else Returned(());
      assert sessions.trace.actions == before + [Request(Sessions.Call.CurrentSession)] + OnHandle(h, calls);
      sessions.CloseSessionDefault();
      ghost var rel := Release(a.slot, false);
      assert sessions.log == l0 + a.events + rel.events;
      assert l0 + a.events + rel.events == l0 + (a.events + rel.events);
    }

    /** `attach(o)`: `refresh(o)`, no `catch`; the exception leaves through the `finally`. */
    method Attach(o: T, replies: Replies) returns (r: Outcome<()>, ghost calls: seq<Op>)
      requires sessions.Valid()
      modifies sessions, sessions.trace
      ensures sessions.Valid() && sessions.Bracketed(replies.openSession) && sessions.Traced(replies.openSession, calls)
      ensures old(sessions.OpenFails(replies.openSession)) ==> r == Threw(replies.openSession.value) && calls == []
      ensures !old(sessions.OpenFails(replies.openSession)) ==> Exchange(calls, r) == Untransacted(Refresh, replies.call)
    {
      ghost var h := if sessions.session.Some? then sessions.session.value else sessions.issued;
      ghost var before := sessions.trace.actions;
      ghost var s0, i0, l0 := sessions.State(), sessions.issued, sessions.log;
      ghost var a := Acquire(s0, i0);
      AcquireThenRelease(s0, i0);
      var acquired := sessions.CurrentSession(replies.openSession);
      if acquired.Failure? {
        return Threw(acquired.error), [];
      }
      assert sessions.session == Some(h);
      calls := [Refresh];
      var thrown := sessions.OnSession(Refresh, replies.call);
      r := if thrown.Some? then Threw(thrown.value) else Returned(());
      assert sessions.trace.actions == before + [Request(Sessions.Call.CurrentSession)] + OnHandle(h, calls);
      sessions.CloseSessionDefault();
      ghost var rel := Release(a.slot, false);
      assert sessions.log == l0 + a.events + rel.events;
      assert l0 + a.events + rel.events == l0 + (a.events + rel.events);
    }
  }
}
