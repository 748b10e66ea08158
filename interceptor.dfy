// The decision ManualSEH::ExceptionHandler makes (ManualSEH.cpp), on an
// initialised entry table, as a value.

module Interceptor {
  import opened SehTypes
  import opened EntryPool

  /** Either the fault is declined, or the thread resumes with this context and the table becomes pool. */
  datatype Verdict = Declined | Handled(resume: Context, pool: seq<Entry>)

  /**
   * The thread's current entry decides: none means decline; otherwise the
   * context is replaced by the saved snapshot, the entry is popped and Rax
   * is forced to 0 (FALSE).
   */
  function Intercept(pool: seq<Entry>, tid: ThreadId): (v: Verdict)
    ensures v.Declined? <==> forall j :: 0 <= j < |pool| ==> !Owns(pool[j], tid)
    ensures v.Handled? ==> v.resume.rax == 0 && |v.pool| == |pool|
  {
    match CurrentIndex(pool, tid)
    case None => Declined
    case Some(i) => Handled(pool[i].savedContext.(rax := 0), Popped(pool, tid))
  }

  /** A fault is declined exactly when the faulting thread has no open region. */
  lemma DeclinedIffNoRegion(pool: seq<Entry>, tid: ThreadId)
    ensures Intercept(pool, tid).Declined? <==> ActiveCount(pool, tid) == 0
  {
    CurrentNoneIffNoRegion(pool, tid);
  }

  /**
   * A handled fault resumes the thread in the snapshot of its innermost
   * open region, with Rax zero, and closes exactly that region: the
   * thread's count drops by one and no other thread's regions change.
   */
  lemma HandledConsumesInnermost(pool: seq<Entry>, tid: ThreadId, other: ThreadId)
    requires Intercept(pool, tid).Handled?
    ensures var v := Intercept(pool, tid);
      exists i :: 0 <= i < |pool| && Owns(pool[i], tid) &&
        (forall j :: i < j < |pool| ==> !Owns(pool[j], tid)) &&
        v.resume.rax == 0 && v.resume.registers == pool[i].savedContext.registers &&
        v.pool == pool[i := pool[i].(active := false)]
    ensures var v := Intercept(pool, tid);
      ActiveCount(v.pool, other) + (if other == tid then 1 else 0) == ActiveCount(pool, other)
    ensures other != tid ==> CurrentIndex(Intercept(pool, tid).pool, other) == CurrentIndex(pool, other)
  {
    var i := CurrentIndex(pool, tid).value;
    assert Owns(pool[i], tid);
    PoppedCounts(pool, tid, other);
    if other != tid {
      OtherThreadsUnaffected(pool, ZeroContext, tid, other);
    }
  }

  /**
   * Single thread: a fault right after a push resumes in the pushed
   * snapshot with Rax zero, and the thread is left with the regions it had
   * before the push (none, if it had none).
   */
  lemma FaultAfterPush(s: seq<Entry>, ctx: Context, tid: ThreadId, k: nat)
    requires IsStack(s, tid, k) && k < |s|
    ensures var v := Intercept(Pushed(s, ctx, tid), tid);
      v.Handled? && v.resume == ctx.(rax := 0) &&
      SameActive(v.pool, s) && CurrentIndex(v.pool, tid) == CurrentIndex(s, tid) &&
      (k == 0 ==> CurrentIndex(v.pool, tid).None?)
  {
    var p := Pushed(s, ctx, tid);
    StackPush(s, ctx, tid, k);
    StackCurrentIndex(p, tid, k + 1);
    StackPop(p, tid, k + 1);
    StackCurrentIndex(Popped(p, tid), tid, k);
    StackCurrentIndex(s, tid, k);
  }
}
