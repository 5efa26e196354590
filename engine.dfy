/**
 * The persistence engine (Hibernate) as the session manager and the DAOs see it:
 * opaque calls that either return or throw a runtime exception.
 */
module Engine {
  import opened Wrappers

  /** A `RuntimeException` (in practice a `HibernateException`); its content is opaque. */
  datatype Exception = RuntimeException(code: int)

  /** The calls a DAO makes on a session or on the transaction it began. */
  datatype Op =
    | BeginTransaction
    | Get
    | Save
    | Update
    | Delete
    | Evict
    | Refresh
    | Commit
    | Flush
    | Rollback

  /**
   * How the engine answers: whether the session factory throws when asked to open a
   * session, and, for each call on a session, whether that call throws.
   */
  datatype Replies = Replies(openSession: Option<Exception>, call: Op -> Option<Exception>)

  /** The calls made so far, and the exception in flight, if any. */
  datatype Progress = Progress(done: seq<Op>, thrown: Option<Exception>)

  /**
   * Java's straight-line execution of the calls `steps`: they are made in order and
   * the first one that throws ends the block.
   */
  function RunSteps(steps: seq<Op>, call: Op -> Option<Exception>): (p: Progress)
    // the calls made are a prefix of the block
    ensures |p.done| <= |steps| && p.done == steps[..|p.done|]
    // every call made before the last one returned normally
    ensures forall i :: 0 <= i < |p.done| - 1 ==> call(p.done[i]).None?
    // nothing is in flight exactly when every call of the block returned
    ensures p.thrown.None? <==> (p.done == steps && forall i :: 0 <= i < |steps| ==> call(steps[i]).None?)
    // an exception in flight is the one the last call made threw
    ensures p.thrown.Some? ==> p.done != [] && call(p.done[|p.done| - 1]) == p.thrown
    decreases |steps|
  {
    if steps == [] then Progress([], None)
    else
      match call(steps[0])
      case Some(e) => Progress([steps[0]], Some(e))
      case None =>
        var rest := RunSteps(steps[1..], call);
        Progress([steps[0]] + rest.done, rest.thrown)
  }

  /**
   * The exception in flight is the one thrown by the first call of the block that
   * throws: whichever index `i` holds the first throwing call, `RunSteps` stops there.
   */
  lemma RunStepsStopsAtFirstThrow(steps: seq<Op>, call: Op -> Option<Exception>, i: nat)
    requires i < |steps| && call(steps[i]).Some?
    requires forall j :: 0 <= j < i ==> call(steps[j]).None?
    ensures RunSteps(steps, call) == Progress(steps[..i + 1], call(steps[i]))
  {
    var p := RunSteps(steps, call);
    assert p.thrown.Some?;
    assert |p.done| == i + 1;
  }

  /** When every call of the block returns, all of them are made and nothing is in flight. */
  lemma RunStepsAllReturn(steps: seq<Op>, call: Op -> Option<Exception>)
    requires forall j :: 0 <= j < |steps| ==> call(steps[j]).None?
    ensures RunSteps(steps, call) == Progress(steps, None)
  {
  }

  /**
   * `RunSteps` is the only way to run a block: a prefix of it whose calls before the
   * last returned, ending at a call that threw or at the end of the block, is its run.
   */
  lemma RunStepsUnique(steps: seq<Op>, call: Op -> Option<Exception>, done: seq<Op>, thrown: Option<Exception>)
    requires 0 < |done| <= |steps| && done == steps[..|done|]
    requires forall j :: 0 <= j < |done| - 1 ==> call(steps[j]).None?
    requires thrown == call(done[|done| - 1])
    requires thrown.None? ==> done == steps
    ensures RunSteps(steps, call) == Progress(done, thrown)
  {
    if thrown.Some? {
      RunStepsStopsAtFirstThrow(steps, call, |done| - 1);
    } else {
      RunStepsAllReturn(steps, call);
    }
  }
}
