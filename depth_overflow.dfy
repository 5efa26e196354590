/**
 * The depth counter as the source stores it: a Java `Integer`, bumped with 32-bit `d + 1`.
 * After 2^31 - 1 nested acquisitions one more wraps it to the most negative value, and the
 * `d <= 0` test of `closeSession` then closes a session that outer callers still share.
 * The rest of the model keeps the depth unbounded, as the nesting count is meant to be.
 */
module DepthOverflow {
  import opened Wrappers
  import opened Sessions

  /** Java's `int`. */
  newtype Int32 = x: int | -0x8000_0000 <= x < 0x8000_0000

  /** `d + 1` on a Java `int`: the two's-complement sum, congruent to d + 1 modulo 2^32. */
  function JavaIncrement(d: Int32): (r: Int32)
    ensures (r as int - (d as int + 1)) % 0x1_0000_0000 == 0
  {
    if d == 0x7fff_ffff then -0x8000_0000 else d + 1
  }

  /** `currentSession()` as written, with the stored depth a 32-bit `int`. */
  function AcquireAsWritten(s: Slot, newHandle: Handle): (r: Acquired)
    requires s.session.Some? ==> s.depth.Some? && -0x8000_0000 <= s.depth.value < 0x8000_0000
    ensures r.slot.session == Some(r.handle) && r.slot.depth.Some?
    ensures -0x8000_0000 <= r.slot.depth.value < 0x8000_0000
    // it agrees with the unbounded acquire except where the counter wraps: a new session
    // is opened exactly as there, and a nested one counts up unless at the largest depth
    ensures s.session.None? || s.depth.value < 0x7fff_ffff ==> r == Acquire(s, newHandle)
  {
    match s.session
    case None => Acquired(Slot(Some(newHandle), Some(0)), newHandle, [Opened(newHandle)])
    case Some(h) => Acquired(Slot(Some(h), Some(JavaIncrement(s.depth.value as Int32) as int)), h, [])
  }

  /**
   * At the largest depth, the source's acquire wraps the counter, and the next unforced
   * release closes the shared session; with the unbounded counter the same acquire and
   * release leave the session open at the depth it had.
   */
  lemma WrappedDepthClosesSharedSession(h: Handle, newHandle: Handle)
    ensures var s := Slot(Some(h), Some(0x7fff_ffff));
      var asWritten := Release(AcquireAsWritten(s, newHandle).slot, false);
      var intended := Release(Acquire(s, newHandle).slot, false);
      asWritten.slot == NoSession && asWritten.events == [Closed(h)] &&
      intended.slot == s && intended.events == []
  {
  }
}
