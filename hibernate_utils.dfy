/**
 * `HibernateUtils`: the per-thread session-nesting manager, for one thread. Its two
 * thread-local slots are fields that `CurrentSession` and `CloseSession` read, bump and
 * write back. Two ghost logs record what the source only does or says: the sessions the
 * factory opened and the manager closed, and the misuses it logged.
 */
module HibernateUtils {
  import opened Wrappers
  import opened Engine
  import opened Sessions

  /** One entry of a thread's trace: a request made of the manager, or an engine call made on a session. */
  datatype Action = Request(call: Call) | Used(handle: Handle, op: Op)

  /** The engine calls `ops`, in order, each made on session `h`. */
  function OnHandle(h: Handle, ops: seq<Op>): (t: seq<Action>)
    ensures |t| == |ops|
    decreases |ops|
  {
    if ops == [] then [] else OnHandle(h, ops[..|ops| - 1]) + [Used(h, ops[|ops| - 1])]
  }

  /** Recording calls in two pieces is recording them whole. */
  lemma {:induction false} OnHandleAppend(h: Handle, a: seq<Op>, b: seq<Op>)
    ensures OnHandle(h, a + b) == OnHandle(h, a) + OnHandle(h, b)
    decreases |b|
  {
    if b == [] {
      assert a + b == a;
    } else {
      var init := b[..|b| - 1];
      assert (a + b)[..|a + b| - 1] == a + init;
      assert (a + b)[|a + b| - 1] == b[|b| - 1];
      OnHandleAppend(h, a, init);
    }
  }

  /** Each recorded call is the corresponding call, made on session `h`. */
  lemma {:induction false} OnHandleAt(h: Handle, ops: seq<Op>, i: nat)
    requires i < |ops|
    ensures OnHandle(h, ops)[i] == Used(h, ops[i])
    decreases |ops|
  {
    if i < |ops| - 1 {
      assert ops[..|ops| - 1][i] == ops[i];
      OnHandleAt(h, ops[..|ops| - 1], i);
    }
  }

  /** The recorded calls of one, two, three and four calls. */
  lemma OnHandleShort(h: Handle, a: Op, b: Op, c: Op, d: Op)
    ensures OnHandle(h, [a]) == [Used(h, a)]
    ensures OnHandle(h, [a, b]) == [Used(h, a), Used(h, b)]
    ensures OnHandle(h, [a, b, c]) == [Used(h, a), Used(h, b), Used(h, c)]
    ensures OnHandle(h, [a, b, c, d]) == [Used(h, a), Used(h, b), Used(h, c), Used(h, d)]
  {
    assert [a][..0] == [];
    assert [a, b][..1] == [a];
    assert [a, b, c][..2] == [a, b];
    assert [a, b, c, d][..3] == [a, b, c];
  }

  /** A thread's trace, kept apart from the manager's own state. */
  class Trace {
    /** Every request made of the manager and every engine call made on its session, in order. */
    ghost var actions: seq<Action>

    constructor ()
      ensures actions == []
    {
      actions := [];
    }
  }

  class SessionManager {
    /** The `session` thread-local. */
    var session: Option<Handle>
    /** The `depth` thread-local. */
    var depth: Option<int>
    /** Sessions the session factory has opened so far; the next one gets this number. */
    var issued: nat
    /** Every `openSession()` and `close()`, in order. */
    ghost var log: seq<Event>
    /** Every misuse `closeSession` logged, in order. */
    ghost var errors: seq<UsageError>
    /** What the thread asked of the manager and did on its sessions. */
    const trace: Trace

    /** The slots as a value. */
    function State(): Slot
      reads this
    {
      Slot(session, depth)
    }

    /**
     * The slots keep the invariant, the log never opens a session twice nor closes one
     * that is not open, exactly the stored session is left open by it, and every handle
     * in the slots or the log came from the factory.
     */
    ghost predicate Valid()
      reads this
    {
      Sessions.Valid(State()) &&
      Proper({}, log) && Apply({}, log) == HeldHandles(State()) &&
      (session.Some? ==> session.value < issued) &&
      forall i :: 0 <= i < |log| ==> log[i].handle < issued
    }

    /** Opening a session here would fail: none is open and the factory would throw. */
    predicate OpenFails(openFailure: Option<Exception>)
      reads this
    {
      session.None? && openFailure.Some?
    }

    /** A thread that has not touched the manager: both thread-locals are `null`. */
    constructor ()
      ensures Valid() && State() == NoSession && issued == 0 && log == [] && errors == [] &&
        fresh(trace) && trace.actions == []
    {
      session := None;
      depth := None;
      issued := 0;
      log := [];
      errors := [];
      trace := new Trace();
    }

    /**
     * `currentSession()`. `openFailure` is what `sessionFactory.openSession()` throws, if
     * it throws; it is only consulted when no session is open, and then the exception
     * propagates with both slots untouched.
     */
    method CurrentSession(openFailure: Option<Exception>) returns (r: Result<Handle, Exception>)
      requires Valid()
      modifies this, trace
      ensures Valid() && errors == old(errors) && trace.actions == old(trace.actions) + [Request(Call.CurrentSession)]
      ensures old(OpenFails(openFailure)) ==>
        r == Failure(openFailure.value) && State() == old(State()) && issued == old(issued) && log == old(log)
      ensures !old(OpenFails(openFailure)) ==>
        var a := Acquire(old(State()), old(issued));
        r == Success(a.handle) && State() == a.slot && issued == old(issued) + |a.events| && log == old(log) + a.events
    {
      trace.actions := trace.actions + [Request(Call.CurrentSession)];
      var s := session;
      if s.None? {
        if openFailure.Some? {
          return Failure(openFailure.value);
        }
        AcquireLogsProperly(State(), issued);
        var h := issued;
        issued := issued + 1;
        log := log + [Opened(h)];
        ApplyAppend({}, old(log), [Opened(h)]);
        session := Some(h);
        depth := Some(0);
        r := Success(h);
      } else {
        var d := depth.value;
        depth := Some(d + 1);
        r := Success(s.value);
      }
    }

    /**
     * `closeSession(forceClose)`: close and clear when the depth is at most 0 or the close
     * is forced, otherwise decrement; log a misuse when nothing is open, or when a close
     * is forced at a depth other than 0.
     */
    method CloseSession(forceClose: bool)
      requires Valid()
      modifies this, trace
      ensures Valid() && issued == old(issued) && trace.actions == old(trace.actions) + [Request(Call.CloseSession(forceClose))]
      ensures var rel := Release(old(State()), forceClose);
        State() == rel.slot && log == old(log) + rel.events && errors == old(errors) + rel.errors
    {
      trace.actions := trace.actions + [Request(Call.CloseSession(forceClose))];
      ReleaseLogsProperly(State(), forceClose);
      if depth.Some? {
        var d := depth.value;
        if d <= 0 || forceClose {
          var h := session.value;
          log := log + [Closed(h)];
          ApplyAppend({}, old(log), [Closed(h)]);
          depth := None;
          session := None;
          if forceClose && d != 0 {
            errors := errors + [ForcedCloseWhileNested(d)];
          }
        } else {
          depth := Some(d - 1);
        }
      } else {
        errors := errors + [CloseOfClosedSession];
      }
    }

    /** `closeSession()`: exactly `closeSession(false)`. */
    method CloseSessionDefault()
      requires Valid()
      modifies this, trace
      ensures Valid() && issued == old(issued) && trace.actions == old(trace.actions) + [Request(Call.CloseSession(false))]
      ensures var rel := Release(old(State()), false);
        State() == rel.slot && log == old(log) + rel.events && errors == old(errors) + rel.errors
    {
      CloseSession(false);
    }

    /**
     * A call the caller makes on the session `currentSession()` returned (`s.get(…)`,
     * `s.beginTransaction()`, `t.commit()`, …): it can only be made while that session is
     * stored and it is recorded against it; only the trace changes, so the manager's
     * slots and logs are untouched. `call` says whether the engine throws.
     */
    method OnSession(op: Op, call: Op -> Option<Exception>) returns (thrown: Option<Exception>)
      requires session.Some?
      modifies trace
      ensures thrown == call(op)
      ensures trace.actions == old(trace.actions) + [Used(session.value, op)]
    {
      trace.actions := trace.actions + [Used(session.value, op)];
      thrown := call(op);
    }

    /** `getDepthValue()`: reads the depth, 0 when none is stored, and changes nothing. */
    method GetDepthValue() returns (d: int)
      ensures d == DepthValue(State())
    {
      if depth.Some? {
        d := depth.value;
      } else {
        d := 0;
      }
    }

    /**
     * What a DAO's acquire/release bracket leaves behind: the slots as they were, no
     * misuse logged, and one new session opened and closed iff none was open and the
     * factory could open one.
     */
    twostate predicate Bracketed(openFailure: Option<Exception>)
      reads this
    {
      State() == old(State()) && errors == old(errors) &&
      if old(session).None? && openFailure.None? then
        issued == old(issued) + 1 && log == old(log) + [Opened(old(issued)), Closed(old(issued))]
      else
        issued == old(issued) && log == old(log)
    }

    /**
     * The trace a DAO call leaves: one `currentSession()`; when it returned, the engine
     * calls `ops`, every one on the session it returned, and then one
     * `closeSession(false)`, as a `finally` makes it; when it threw, nothing more.
     */
    twostate predicate Traced(openFailure: Option<Exception>, ops: seq<Op>)
      reads this, trace
    {
      if old(session).None? && openFailure.Some? then
        trace.actions == old(trace.actions) + [Request(Call.CurrentSession)]
      else
        var h := if old(session).Some? then old(session).value else old(issued);
        trace.actions == old(trace.actions) + [Request(Call.CurrentSession)] + OnHandle(h, ops) + [Request(Call.CloseSession(false))]
    }
  }
}
