/**
 * One thread's pair of slots in `HibernateUtils` (the `session` and `depth`
 * thread-locals) as a value, and the two operations on them, `currentSession`
 * (Acquire) and `closeSession(forceClose)` (Release), as functions. The class
 * `HibernateUtils.SessionManager` updates real fields and is proved against these.
 */
module Sessions {
  import opened Wrappers

  /** A session handle; the session factory numbers the sessions it opens. */
  type Handle = nat

  /** The two slots: `null` in either is `None`. */
  datatype Slot = Slot(session: Option<Handle>, depth: Option<int>)

  /** Both slots empty: no unit of work is open on this thread. */
  const NoSession: Slot := Slot(None, None)

  /** The invariant the manager keeps: a session is stored iff a depth is, and depth is never negative. */
  predicate Valid(s: Slot) {
    s.session.Some? == s.depth.Some? && (s.depth.Some? ==> s.depth.value >= 0)
  }

  /** The handles the slots hold: at most one. */
  function HeldHandles(s: Slot): set<Handle> {
    if s.session.Some? then {s.session.value} else {}
  }

  /** A call on the engine that the manager makes: `openSession()` or `close()`. */
  datatype Event = Opened(handle: Handle) | Closed(handle: Handle)

  /** A misuse that `closeSession` logs instead of throwing. */
  datatype UsageError = CloseOfClosedSession | ForcedCloseWhileNested(depth: int)

  function Next(open: set<Handle>, e: Event): set<Handle> {
    match e
    case Opened(h) => open + {h}
    case Closed(h) => open - {h}
  }

  /** The handles still open after `events`, starting from the open handles `open`. */
  function Apply(open: set<Handle>, events: seq<Event>): set<Handle>
    decreases |events|
  {
    if events == [] then open else Apply(Next(open, events[0]), events[1..])
  }

  /** A session is opened only while none is open, and only open handles are closed. */
  predicate Proper(open: set<Handle>, events: seq<Event>)
    decreases |events|
  {
    events == [] ||
    ((match events[0]
      case Opened(h) => open == {}
      case Closed(h) => h in open)
     && Proper(Next(open, events[0]), events[1..]))
  }

  /** Following a log in two pieces is following it whole. */
  lemma {:induction false} ApplyAppend(open: set<Handle>, a: seq<Event>, b: seq<Event>)
    ensures Apply(open, a + b) == Apply(Apply(open, a), b)
    ensures Proper(open, a + b) <==> Proper(open, a) && Proper(Apply(open, a), b)
    decreases |a|
  {
    if a == [] {
      assert a + b == b;
    } else {
      assert (a + b)[0] == a[0];
      assert (a + b)[1..] == a[1..] + b;
      ApplyAppend(Next(open, a[0]), a[1..], b);
    }
  }

  /** In a proper log, each session is opened at a point where no session is open. */
  lemma {:induction false} ProperOpensOnlyWhenNoneOpen(open: set<Handle>, events: seq<Event>, i: nat)
    requires Proper(open, events) && i < |events| && events[i].Opened?
    ensures Apply(open, events[..i]) == {}
    decreases i
  {
    if i == 0 {
      assert events[..0] == [];
    } else {
      assert events[..i][0] == events[0];
      assert events[..i][1..] == events[1..][..i - 1];
      ProperOpensOnlyWhenNoneOpen(Next(open, events[0]), events[1..], i - 1);
    }
  }

  /** `getDepthValue()`: the stored depth, or 0 when there is none. */
  function DepthValue(s: Slot): (d: int)
    ensures Valid(s) ==> d >= 0
    ensures s.session.None? && Valid(s) ==> d == 0
  {
    match s.depth
    case Some(d) => d
    case None => 0
  }

  /** What `currentSession()` leaves: the new slots, the handle returned and the sessions opened. */
  datatype Acquired = Acquired(slot: Slot, handle: Handle, events: seq<Event>)

  /** What `closeSession(forceClose)` leaves: the new slots, the sessions closed and the misuses logged. */
  datatype Released = Released(slot: Slot, events: seq<Event>, errors: seq<UsageError>)

  /**
   * `currentSession()`, where `newHandle` is the handle the factory would open. Only a slot
   * holding a session without a depth is excluded: the source would throw a
   * NullPointerException unboxing it.
   */
  function Acquire(s: Slot, newHandle: Handle): (r: Acquired)
    requires s.session.Some? ==> s.depth.Some?
    // the handle returned is the one now stored
    ensures r.slot.session == Some(r.handle)
    // a session already open is kept and returned; nothing is opened exactly when one was open
    ensures HeldHandles(s) <= HeldHandles(r.slot)
    ensures r.events == [] <==> s.session.Some?
    // with none open, exactly one session is opened: the factory's new one
    ensures s.session.None? ==> r.handle == newHandle && r.events == [Opened(newHandle)]
    // the invariant is kept
    ensures Valid(s) ==> Valid(r.slot)
    // the depth counts the nested acquisitions beyond the outermost one
    ensures Valid(s) ==> DepthValue(r.slot) == if s.session.Some? then DepthValue(s) + 1 else 0
  {
    match s.session
    case None => Acquired(Slot(Some(newHandle), Some(0)), newHandle, [Opened(newHandle)])
    case Some(h) => Acquired(Slot(Some(h), Some(s.depth.value + 1)), h, [])
  }

  /**
   * `closeSession(forceClose)`. Only a slot holding a depth without a session, on a
   * call that would close, is excluded: the source would throw a NullPointerException
   * closing it. Decrementing such a depth is modelled as the code does it.
   */
  function Release(s: Slot, forceClose: bool): (r: Released)
    requires s.depth.Some? && (s.depth.value <= 0 || forceClose) ==> s.session.Some?
    // the invariant is kept
    ensures Valid(s) ==> Valid(r.slot)
    // with no depth stored, nothing changes
    ensures s.depth.None? ==> r.slot == s && r.events == []
    // a misuse is logged iff there was nothing to close, or a close was forced while nested
    ensures r.errors != [] <==> s.depth.None? || (forceClose && s.depth.value != 0)
    // a forced release always leaves no depth; a surviving session is the one that was there
    ensures forceClose ==> r.slot.depth.None?
    ensures r.slot.session.Some? ==> r.slot.session == s.session
  {
    match s.depth
    case None => Released(s, [], [CloseOfClosedSession])
    case Some(d) =>
      if d <= 0 || forceClose then
        Released(NoSession, [Closed(s.session.value)], if forceClose && d != 0 then [ForcedCloseWhileNested(d)] else [])
      else
        Released(Slot(s.session, Some(d - 1)), [], [])
  }

  /**
   * The log of an acquire opens a session only when none is open, and afterwards
   * exactly the stored session is open.
   */
  lemma AcquireLogsProperly(s: Slot, newHandle: Handle)
    requires Valid(s)
    ensures var r := Acquire(s, newHandle);
      Proper(HeldHandles(s), r.events) && Apply(HeldHandles(s), r.events) == HeldHandles(r.slot)
  {
  }

  /** The log of a release closes only the open session, and afterwards exactly the stored session is open. */
  lemma ReleaseLogsProperly(s: Slot, forceClose: bool)
    requires Valid(s)
    ensures var r := Release(s, forceClose);
      Proper(HeldHandles(s), r.events) && Apply(HeldHandles(s), r.events) == HeldHandles(r.slot)
  {
  }

  /**
   * A release undoes an acquire: the slots are as they were, nothing is logged as a
   * misuse, and a session is opened and closed exactly when none was open before.
   */
  lemma AcquireThenRelease(s: Slot, newHandle: Handle)
    requires Valid(s)
    ensures var a := Acquire(s, newHandle);
      var r := Release(a.slot, false);
      r.slot == s && r.errors == [] &&
      a.events + r.events == if s.session.None? then [Opened(newHandle), Closed(newHandle)] else []
  {
  }

  /** An acquire undoes an unforced release that only decremented the depth. */
  lemma ReleaseThenAcquire(s: Slot, newHandle: Handle)
    requires Valid(s) && s.depth.Some? && s.depth.value > 0
    ensures var r := Release(s, false);
      r.events == [] && r.errors == [] && Acquire(r.slot, newHandle) == Acquired(s, s.session.value, [])
  {
  }

  /**
   * A forced release always closes and clears both slots, closing the session that was
   * open, and logs a misuse iff the depth was not exactly 0 (or nothing was open).
   */
  lemma ForcedReleaseClears(s: Slot)
    requires Valid(s)
    ensures var r := Release(s, true);
      r.slot == NoSession && DepthValue(r.slot) == 0 &&
      r.events == (if s.session.Some? then [Closed(s.session.value)] else []) &&
      (r.errors == [] <==> s.depth == Some(0))
  {
  }

  /** A request on the manager: `currentSession()` or `closeSession(forceClose)`. */
  datatype Call = CurrentSession | CloseSession(forceClose: bool)

  /** Where a sequence of requests leaves the slots, the factory's counter and the two logs. */
  datatype Run = Run(slot: Slot, issued: nat, events: seq<Event>, errors: seq<UsageError>)

  /** One request; `issued` sessions have been opened so far, so handle `issued` is newHandle. */
  function Step(s: Slot, issued: nat, c: Call): (r: Run)
    requires Valid(s)
    ensures Valid(r.slot)
  {
    match c
    case CurrentSession =>
      var a := Acquire(s, issued);
      Run(a.slot, issued + |a.events|, a.events, [])
    case CloseSession(f) =>
      var rel := Release(s, f);
      Run(rel.slot, issued, rel.events, rel.errors)
  }

  /** A thread's requests, one after another. */
  function Exec(s: Slot, issued: nat, calls: seq<Call>): (r: Run)
    requires Valid(s)
    ensures Valid(r.slot) && issued <= r.issued
    decreases |calls|
  {
    if calls == [] then Run(s, issued, [], [])
    else
      var first := Step(s, issued, calls[0]);
      var rest := Exec(first.slot, first.issued, calls[1..]);
      Run(rest.slot, rest.issued, first.events + rest.events, first.errors + rest.errors)
  }

  /** Running two sequences of requests one after the other is running them joined. */
  lemma {:induction false} ExecAppend(s: Slot, issued: nat, a: seq<Call>, b: seq<Call>)
    requires Valid(s)
    ensures var ra := Exec(s, issued, a);
      var rb := Exec(ra.slot, ra.issued, b);
      Exec(s, issued, a + b) == Run(rb.slot, rb.issued, ra.events + rb.events, ra.errors + rb.errors)
    decreases |a|
  {
    if a == [] {
      assert a + b == b;
    } else {
      assert (a + b)[0] == a[0];
      assert (a + b)[1..] == a[1..] + b;
      var first := Step(s, issued, a[0]);
      var ra := Exec(first.slot, first.issued, a[1..]);
      var rb := Exec(ra.slot, ra.issued, b);
      ExecAppend(first.slot, first.issued, a[1..], b);
      assert Exec(s, issued, a) == Run(ra.slot, ra.issued, first.events + ra.events, first.errors + ra.errors);
      assert first.events + (ra.events + rb.events) == (first.events + ra.events) + rb.events;
      assert first.errors + (ra.errors + rb.errors) == (first.errors + ra.errors) + rb.errors;
    }
  }

  /**
   * One request logs properly and logs at most one event; a session it opens is handle
   * `issued`, the one the factory issues next.
   */
  lemma StepKeepsOneSession(s: Slot, issued: nat, c: Call)
    requires Valid(s)
    ensures var r := Step(s, issued, c);
      Proper(HeldHandles(s), r.events) && Apply(HeldHandles(s), r.events) == HeldHandles(r.slot) &&
      r.issued == issued + |r.events| * (if c.CurrentSession? then 1 else 0) && |r.events| <= 1 &&
      forall e :: e in r.events && e.Opened? ==> e.handle == issued && r.issued == issued + 1
  {
    match c
    case CurrentSession => AcquireLogsProperly(s, issued);
    case CloseSession(f) => ReleaseLogsProperly(s, f);
  }

  /**
   * Whatever a thread requests, its log is proper: it opens a session only when none is
   * open and closes only the open one; it ends with exactly the stored session open, and
   * every session it opens was issued by the factory during the run.
   */
  lemma {:induction false} ExecKeepsOneSession(s: Slot, issued: nat, calls: seq<Call>)
    requires Valid(s)
    ensures var r := Exec(s, issued, calls);
      Proper(HeldHandles(s), r.events) && Apply(HeldHandles(s), r.events) == HeldHandles(r.slot) &&
      forall e :: e in r.events && e.Opened? ==> issued <= e.handle < r.issued
    decreases |calls|
  {
    if calls != [] {
      var first := Step(s, issued, calls[0]);
      var rest := Exec(first.slot, first.issued, calls[1..]);
      StepKeepsOneSession(s, issued, calls[0]);
      ExecKeepsOneSession(first.slot, first.issued, calls[1..]);
      ApplyAppend(HeldHandles(s), first.events, rest.events);
      assert Exec(s, issued, calls) == Run(rest.slot, rest.issued, first.events + rest.events, first.errors + rest.errors);
      assert first.issued <= rest.issued;
      assert forall e :: e in first.events && e.Opened? ==> issued <= e.handle < first.issued;
    }
  }

  /** Following a proper log from at most one open session, at most one is ever open. */
  lemma {:induction false} ProperKeepsAtMostOne(open: set<Handle>, events: seq<Event>, i: nat)
    requires |open| <= 1 && Proper(open, events) && i <= |events|
    ensures |Apply(open, events[..i])| <= 1
    decreases i
  {
    if i == 0 {
      assert events[..0] == [];
    } else {
      assert events[..i][0] == events[0];
      assert events[..i][1..] == events[1..][..i - 1];
      var next := Next(open, events[0]);
      assert |next| <= 1 by {
        match events[0]
        case Opened(h) => assert next == {h};
        case Closed(h) => assert next <= open;
      }
      ProperKeepsAtMostOne(next, events[1..], i - 1);
    }
  }

  /** Whatever a thread requests, at every point of its log at most one session is open. */
  lemma OneSessionAtATime(s: Slot, issued: nat, calls: seq<Call>, i: nat)
    requires Valid(s) && i <= |Exec(s, issued, calls).events|
    ensures |Apply(HeldHandles(s), Exec(s, issued, calls).events[..i])| <= 1
  {
    ExecKeepsOneSession(s, issued, calls);
    assert |HeldHandles(s)| <= 1 by {
      if s.session.Some? {
        assert HeldHandles(s) == {s.session.value};
      }
    }
    ProperKeepsAtMostOne(HeldHandles(s), Exec(s, issued, calls).events, i);
  }

  /** The sessions a thread opens are all different: their handles strictly increase along the log. */
  lemma {:induction false} OpenedHandlesIncrease(s: Slot, issued: nat, calls: seq<Call>)
    requires Valid(s)
    ensures var ev := Exec(s, issued, calls).events;
      forall i, j :: 0 <= i < j < |ev| && ev[i].Opened? && ev[j].Opened? ==> ev[i].handle < ev[j].handle
    decreases |calls|
  {
    if calls != [] {
      var first := Step(s, issued, calls[0]);
      var rest := Exec(first.slot, first.issued, calls[1..]);
      StepKeepsOneSession(s, issued, calls[0]);
      ExecKeepsOneSession(first.slot, first.issued, calls[1..]);
      OpenedHandlesIncrease(first.slot, first.issued, calls[1..]);
      var ev := first.events + rest.events;
      assert Exec(s, issued, calls).events == ev;
      var n := |first.events|;
      forall i, j | 0 <= i < j < |ev| && ev[i].Opened? && ev[j].Opened?
        ensures ev[i].handle < ev[j].handle
      {
        if i < n {
          assert ev[i] in first.events;
          assert ev[j] == rest.events[j - n];
          assert ev[j] in rest.events;
        } else {
          assert ev[i] == rest.events[i - n] && ev[j] == rest.events[j - n];
        }
      }
    }
  }

  /**
   * Requests that, started at depth `depth`, never release below depth 1: only
   * unforced releases, each made while the depth is positive.
   */
  predicate Nested(calls: seq<Call>, depth: int)
    decreases |calls|
  {
    calls == [] ||
    match calls[0]
    case CurrentSession => Nested(calls[1..], depth + 1)
    case CloseSession(f) => !f && depth > 0 && Nested(calls[1..], depth - 1)
  }

  /** Acquisitions minus releases. */
  function Net(calls: seq<Call>): int
    decreases |calls|
  {
    if calls == [] then 0 else (if calls[0].CurrentSession? then 1 else -1) + Net(calls[1..])
  }

  /** Nesting allowed from a depth is allowed from any larger depth. */
  lemma {:induction false} NestedDeeper(calls: seq<Call>, d: int, e: int)
    requires Nested(calls, d) && d <= e
    ensures Nested(calls, e)
    decreases |calls|
  {
    if calls != [] {
      if calls[0].CurrentSession? {
        NestedDeeper(calls[1..], d + 1, e + 1);
      } else {
        NestedDeeper(calls[1..], d - 1, e - 1);
      }
    }
  }

  /** Joined requests nest iff the first part nests and the second nests from where it ends. */
  lemma {:induction false} NestedAppend(a: seq<Call>, b: seq<Call>, d: int)
    ensures Net(a + b) == Net(a) + Net(b)
    ensures Nested(a + b, d) <==> Nested(a, d) && Nested(b, d + Net(a))
    decreases |a|
  {
    if a == [] {
      assert a + b == b;
    } else {
      assert (a + b)[0] == a[0];
      assert (a + b)[1..] == a[1..] + b;
      NestedAppend(a[1..], b, if a[0].CurrentSession? then d + 1 else d - 1);
    }
  }

  /**
   * While the session stays open underneath, nested requests share it: the handle is
   * untouched, nothing is opened, closed or logged as a misuse, and the depth is the
   * starting depth plus acquisitions minus releases.
   */
  lemma {:induction false} ExecWhileOpen(h: Handle, d: nat, issued: nat, calls: seq<Call>)
    requires Nested(calls, d)
    ensures d + Net(calls) >= 0
    ensures Exec(Slot(Some(h), Some(d)), issued, calls) == Run(Slot(Some(h), Some(d + Net(calls))), issued, [], [])
    decreases |calls|
  {
    if calls != [] {
      match calls[0]
      case CurrentSession =>
        ExecWhileOpen(h, d + 1, issued, calls[1..]);
      case CloseSession(f) =>
        ExecWhileOpen(h, d - 1, issued, calls[1..]);
    }
  }

  /**
   * Requests that release no more than they acquire, then an unforced release, on an
   * open session: all that happens is that final release.
   */
  lemma InnerThenRelease(t: Slot, issued: nat, calls: seq<Call>)
    requires Valid(t) && t.session.Some? && Nested(calls, t.depth.value) && Net(calls) == 0
    ensures var rel := Release(t, false);
      Exec(t, issued, calls + [CloseSession(false)]) == Run(rel.slot, issued, rel.events, rel.errors)
  {
    var close := [CloseSession(false)];
    ExecWhileOpen(t.session.value, t.depth.value, issued, calls);
    assert close[1..] == [];
    ExecAppend(t, issued, calls, close);
  }

  /**
   * The bracket every DAO operation makes: an acquire, any requests that release no
   * more than they acquire, and an unforced release leave the slots exactly as they
   * were and log no misuse; the only sessions opened and closed are one new session,
   * opened and closed, when none was open before.
   */
  lemma BracketRestores(s: Slot, issued: nat, calls: seq<Call>)
    requires Valid(s) && Nested(calls, 0) && Net(calls) == 0
    ensures var r := Exec(s, issued, [CurrentSession] + calls + [CloseSession(false)]);
      r.slot == s && r.errors == [] &&
      r.events == (if s.session.None? then [Opened(issued), Closed(issued)] else []) &&
      r.issued == issued + |r.events| / 2
  {
    var a := Acquire(s, issued);
    var first := Step(s, issued, CurrentSession);
    assert first == Run(a.slot, issued + |a.events|, a.events, []);
    var rel := Release(a.slot, false);
    var whole := [CurrentSession] + calls + [CloseSession(false)];
    assert whole[0] == CurrentSession;
    assert whole[1..] == calls + [CloseSession(false)];
    NestedDeeper(calls, 0, a.slot.depth.value);
    InnerThenRelease(a.slot, first.issued, calls);
    assert Exec(s, issued, whole) == Run(rel.slot, first.issued, a.events + rel.events, [] + rel.errors);
    AcquireThenRelease(s, issued);
  }

  /** `n` acquisitions, each at positive depth or above. */
  lemma {:induction false} AcquisitionsNest(n: nat, d: int)
    ensures Nested(seq(n, _ => CurrentSession), d) && Net(seq(n, _ => CurrentSession)) == n
    decreases n
  {
    if n > 0 {
      assert seq(n, _ => CurrentSession)[1..] == seq(n - 1, _ => CurrentSession);
      AcquisitionsNest(n - 1, d + 1);
    }
  }

  /** `n` unforced releases never reach depth 0 when started at depth `n` or more. */
  lemma {:induction false} ReleasesNest(n: nat, d: int)
    requires d >= n
    ensures Nested(seq(n, _ => CloseSession(false)), d) && Net(seq(n, _ => CloseSession(false))) + n == 0
    decreases n
  {
    if n > 0 {
      assert seq(n, _ => CloseSession(false))[1..] == seq(n - 1, _ => CloseSession(false));
      ReleasesNest(n - 1, d - 1);
    }
  }

  /**
   * From a closed thread, `n` acquires followed by `n` unforced releases open one new
   * session, share it, close it, and leave the thread closed with no misuse logged.
   */
  lemma RepeatedAcquireRelease(n: nat, issued: nat)
    requires n > 0
    ensures Exec(NoSession, issued, seq(n, _ => CurrentSession) + seq(n, _ => CloseSession(false)))
         == Run(NoSession, issued + 1, [Opened(issued), Closed(issued)], [])
  {
    var inner := seq(n - 1, _ => CurrentSession) + seq(n - 1, _ => CloseSession(false));
    assert seq(n, _ => CurrentSession) + seq(n, _ => CloseSession(false))
        == [CurrentSession] + inner + [CloseSession(false)];
    AcquisitionsNest(n - 1, 0);
    ReleasesNest(n - 1, n - 1);
    NestedAppend(seq(n - 1, _ => CurrentSession), seq(n - 1, _ => CloseSession(false)), 0);
    BracketRestores(NoSession, issued, inner);
  }
}
