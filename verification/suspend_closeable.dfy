/**
 Scoped closing of a suspendable resource: the `use` extension on a nullable
 `SuspendCloseable` and its `closeFinally` helper.

 Suspension changes nothing in the outcome logic, so both the block and the
 resource's `close()` are modelled by the outcome they produce. A Kotlin
 `Throwable` is a value carrying its list of suppressed throwables; the
 in-place `addSuppressed` of the source becomes a function returning the
 updated throwable, which is then the one that propagates.
 */
module SuspendCloseable {

  datatype Option<+T> = None | Some(value: T)

  /** A thrown `Throwable`: its class, its message and its suppressed list, oldest first. */
  datatype Exc = Exc(kind: string, message: string, suppressed: seq<Exc>)

  /** How a call completes: it returns a value or throws. */
  datatype Outcome<+R> = Returned(value: R) | Thrown(exc: Exc)

  /**
   A receiver of `use`: `null`, or a `SuspendCloseable` whose `close()`
   either completes normally (`onClose == None`) or throws `onClose.value`.
   */
  datatype Resource = Null | Closeable(onClose: Option<Exc>)

  /** The calls `use` makes, in the order it makes them. */
  datatype Event = BlockInvoked | CloseInvoked

  /** What a call to `use` did: the outcome its caller sees and the calls it made. */
  datatype Run<+R> = Run(outcome: Outcome<R>, trace: seq<Event>)

  /** What `closeFinally` did: what it threw, the in-flight cause afterwards, and whether it called `close()`. */
  datatype Cleanup = Cleanup(thrown: Option<Exc>, cause: Option<Exc>, closeCalled: bool)

  predicate CloseSucceeds(res: Resource) {
    res.Closeable? && res.onClose.None?
  }

  predicate CloseFails(res: Resource) {
    res.Closeable? && res.onClose.Some?
  }

  /** True when `close()` appears among the first `i` calls of a trace. */
  predicate ClosedBefore(trace: seq<Event>, i: int)
    requires 0 <= i <= |trace|
  {
    CloseInvoked in trace[..i]
  }

  /** `x` is the throwable `e`, possibly with more suppressed throwables appended after e's own. */
  predicate Extends(x: Exc, e: Exc) {
    && x.kind == e.kind
    && x.message == e.message
    && |e.suppressed| <= |x.suppressed|
    && x.suppressed[..|e.suppressed|] == e.suppressed
  }

  /** `Throwable.addSuppressed`: `c` joins the end of e's suppressed list; nothing else about `e` changes. */
  function AddSuppressed(e: Exc, c: Exc): (r: Exc)
    ensures Extends(r, e)
    ensures |r.suppressed| == |e.suppressed| + 1
    ensures r.suppressed[|e.suppressed|] == c
  {
    e.(suppressed := e.suppressed + [c])
  }

  /**
   `closeFinally(cause)`: nothing for a null receiver; with no cause, a
   plain `close()` whose failure escapes; with a cause, a `close()` whose
   failure is added to the cause's suppressed list and never escapes.
   */
  function CloseFinally(res: Resource, cause: Option<Exc>): (r: Cleanup)
    ensures r.closeCalled <==> res.Closeable?
    ensures r.thrown.Some? <==> cause.None? && CloseFails(res)
    ensures r.thrown.Some? ==> r.thrown == res.onClose
    ensures r.cause.Some? <==> cause.Some?
    ensures cause.Some? && !CloseFails(res) ==> r.cause == cause
    ensures cause.Some? && CloseFails(res) ==> r.cause == Some(AddSuppressed(cause.value, res.onClose.value))
  {
    match res
    case Null => Cleanup(None, cause, false)
    case Closeable(onClose) =>
      if cause.None? then Cleanup(onClose, None, true)
      else match onClose
        case None => Cleanup(None, cause, true)
        case Some(closeException) => Cleanup(None, Some(AddSuppressed(cause.value, closeException)), true)
  }

  /** Leaving a `finally` block: an exception thrown there replaces whatever was in flight. */
  function Completing<R>(inFlight: Outcome<R>, thrownInFinally: Option<Exc>): Outcome<R> {
    if thrownInFinally.Some? then Thrown(thrownInFinally.value) else inFlight
  }

  /**
   `res.use(block)`: runs the block; a throwable it raises becomes the cause
   handed to `closeFinally`; a throwable escaping `closeFinally` replaces the
   in-flight outcome; the calls made along the way are recorded.
   */
  function Use<R>(res: Resource, block: Resource -> Outcome<R>): (run: Run<R>)
    // the block runs exactly once, close() at most once, and only after the block
    ensures multiset(run.trace)[BlockInvoked] == 1
    ensures multiset(run.trace)[CloseInvoked] == (if res.Closeable? then 1 else 0)
    ensures forall i :: 0 <= i < |run.trace| && run.trace[i] == BlockInvoked ==> !ClosedBefore(run.trace, i)
    ensures res.Closeable? ==> ClosedBefore(run.trace, |run.trace|)
    // a null resource is transparent
    ensures res.Null? ==> run.outcome == block(res)
    // block and close() both succeed: the block's value, unchanged
    ensures block(res).Returned? && CloseSucceeds(res) ==> run.outcome == block(res)
    // block throws, close() succeeds: the block's throwable, its suppressed list untouched
    ensures block(res).Thrown? && CloseSucceeds(res) ==> run.outcome == block(res)
    // both throw: the block's throwable wins and gains close()'s as its last suppressed entry
    ensures block(res).Thrown? && CloseFails(res) ==>
              run.outcome == Thrown(AddSuppressed(block(res).exc, res.onClose.value))
    // block succeeds, close() throws: close()'s throwable is the only failure
    ensures block(res).Returned? && CloseFails(res) ==> run.outcome == Thrown(res.onClose.value)
  {
    var inFlight := block(res);
    var exception := if inFlight.Thrown? then Some(inFlight.exc) else None;
    var cleanup := CloseFinally(res, exception);
    // addSuppressed changed the throwable that is still in flight
    var propagated := if cleanup.cause.Some? then Thrown(cleanup.cause.value) else inFlight;
    var trace := [BlockInvoked] + (if cleanup.closeCalled then [CloseInvoked] else []);
    assert trace[..0] == [];
    assert cleanup.closeCalled ==> trace[..|trace|] == [BlockInvoked, CloseInvoked];
    Run(Completing(propagated, cleanup.thrown), trace)
  }

  /**
   Exactly one failure reaches the caller, and no failure is lost: when the
   block threw, the caller sees the block's throwable (never the one from
   `close()`), and a failure of `close()` is then its last suppressed entry.
   */
  lemma BlockFailureTakesPrecedence<R>(res: Resource, block: Resource -> Outcome<R>)
    requires block(res).Thrown?
    ensures Use(res, block).outcome.Thrown?
    ensures Extends(Use(res, block).outcome.exc, block(res).exc)
    ensures CloseFails(res) ==> Use(res, block).outcome != Thrown(res.onClose.value)
    ensures CloseFails(res) ==>
              var x := Use(res, block).outcome.exc;
              |x.suppressed| == |block(res).exc.suppressed| + 1 && x.suppressed[|x.suppressed| - 1] == res.onClose.value
  {
  }

  /**
   Every failure raised during `use` is visible to the caller: `use` throws
   exactly when the block or `close()` threw, and a failure of `close()` is
   either the thrown throwable (block succeeded) or its last suppressed entry
   (block failed).
   */
  lemma NoFailureIsLost<R>(res: Resource, block: Resource -> Outcome<R>)
    ensures (block(res).Thrown? || CloseFails(res)) <==> Use(res, block).outcome.Thrown?
    ensures CloseFails(res) ==>
              var x := Use(res, block).outcome.exc;
              x == res.onClose.value || (|x.suppressed| > 0 && x.suppressed[|x.suppressed| - 1] == res.onClose.value)
  {
  }

  /**
   The scenario of a block throwing `IllegalArgumentException("Block exception")`
   on a resource whose `close()` throws `IllegalStateException("Close failed")`.
   */
  lemma BothFailScenario()
    ensures
      var blockException := Exc("IllegalArgumentException", "Block exception", []);
      var closeException := Exc("IllegalStateException", "Close failed", []);
      var x := Use(Closeable(Some(closeException)), (r: Resource) => Outcome<string>.Thrown(blockException)).outcome;
      && x.Thrown?
      && x.exc.kind == "IllegalArgumentException"
      && x.exc.message == "Block exception"
      && |x.exc.suppressed| == 1
      && x.exc.suppressed[0].kind == "IllegalStateException"
      && x.exc.suppressed[0].message == "Close failed"
  {
  }
}
