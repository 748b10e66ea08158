// The entry table of ManualSEH.cpp as a value: the three scans that
// ManualSehPushEntry, ManualSehGetCurrentEntry and ManualSehPopEntry perform,
// and what they guarantee together.

module EntryPool {
  import opened SehTypes

  /** Entry e is an open protected region of thread tid. */
  predicate Owns(e: Entry, tid: ThreadId)
  {
    e.active && e.threadId == tid
  }

  /** The slot ManualSehPushEntry claims: the lowest-index inactive one. */
  function FreeIndex(s: seq<Entry>): (r: Option<nat>)
    ensures r.Some? ==> r.value < |s| && !s[r.value].active
    ensures r.Some? ==> forall j :: 0 <= j < r.value ==> s[j].active
    ensures r.None? ==> forall j :: 0 <= j < |s| ==> s[j].active
  {
    if |s| == 0 then None
    else if !s[0].active then Some(0)
    else match FreeIndex(s[1..])
      case None => None
      case Some(j) => Some(j + 1)
  }

  /**
   * The slot ManualSehGetCurrentEntry returns for a thread: the highest-index
   * active slot that the thread owns.
   */
  function CurrentIndex(s: seq<Entry>, tid: ThreadId): (r: Option<nat>)
    ensures r.Some? ==> r.value < |s| && Owns(s[r.value], tid)
    ensures r.Some? ==> forall j :: r.value < j < |s| ==> !Owns(s[j], tid)
    ensures r.None? ==> forall j :: 0 <= j < |s| ==> !Owns(s[j], tid)
  {
    if |s| == 0 then None
    else if Owns(s[|s| - 1], tid) then Some(|s| - 1)
    else CurrentIndex(s[..|s| - 1], tid)
  }

  /** The table after a push: the free slot takes the snapshot, becomes active and is stamped. */
  function Pushed(s: seq<Entry>, ctx: Context, tid: ThreadId): (r: seq<Entry>)
    ensures |r| == |s|
  {
    match FreeIndex(s)
    case None => s
    case Some(i) => s[i := Entry(ctx, true, tid)]
  }

  /** The table after a pop: only the active flag of the thread's current slot is cleared. */
  function Popped(s: seq<Entry>, tid: ThreadId): (r: seq<Entry>)
    ensures |r| == |s|
  {
    match CurrentIndex(s, tid)
    case None => s
    case Some(i) => s[i := s[i].(active := false)]
  }

  /** Number of open regions of a thread. */
  function ActiveCount(s: seq<Entry>, tid: ThreadId): nat
  {
    if |s| == 0 then 0 else (if Owns(s[0], tid) then 1 else 0) + ActiveCount(s[1..], tid)
  }

  /** The table RtlZeroMemory leaves: every slot inactive. */
  function Zeroed(n: nat): (r: seq<Entry>)
    ensures |r| == n
  {
    seq(n, _ => ZeroEntry)
  }

  /** Two tables agree on every active slot, and on which slots are active. */
  predicate SameActive(s: seq<Entry>, t: seq<Entry>)
  {
    |s| == |t| &&
    forall j :: 0 <= j < |s| ==> s[j].active == t[j].active && (s[j].active ==> s[j] == t[j])
  }

  /**
   * Single-thread discipline: the active slots are exactly 0..k-1 and all
   * belong to tid.
   */
  predicate IsStack(s: seq<Entry>, tid: ThreadId, k: nat)
  {
    k <= |s| &&
    (forall j :: 0 <= j < |s| ==> (s[j].active <==> j < k)) &&
    (forall j :: 0 <= j < k ==> s[j].threadId == tid)
  }

  // ---------------------------------------------------------------------
  // Counting open regions
  // ---------------------------------------------------------------------

  lemma {:induction false} CountUpdate(s: seq<Entry>, i: nat, e: Entry, tid: ThreadId)
    requires i < |s|
    ensures ActiveCount(s[i := e], tid) + (if Owns(s[i], tid) then 1 else 0)
         == ActiveCount(s, tid) + (if Owns(e, tid) then 1 else 0)
  {
    if i > 0 {
      assert s[i := e][1..] == s[1..][i - 1 := e];
      CountUpdate(s[1..], i - 1, e, tid);
    } else {
      assert s[i := e][1..] == s[1..];
    }
  }

  /** A thread has no open region exactly when it owns no slot at all. */
  lemma {:induction false} CountZeroIffNoOwner(s: seq<Entry>, tid: ThreadId)
    ensures ActiveCount(s, tid) == 0 <==> forall j :: 0 <= j < |s| ==> !Owns(s[j], tid)
  {
    if |s| > 0 {
      CountZeroIffNoOwner(s[1..], tid);
      assert forall j :: 1 <= j < |s| ==> s[1..][j - 1] == s[j];
    }
  }

  /** ManualSehGetCurrentEntry finds nothing exactly when the thread has no open region. */
  lemma CurrentNoneIffNoRegion(s: seq<Entry>, tid: ThreadId)
    ensures CurrentIndex(s, tid).None? <==> ActiveCount(s, tid) == 0
  {
    CountZeroIffNoOwner(s, tid);
  }

  /** A push opens one region for the pushing thread when it succeeds, and none for any other thread. */
  lemma PushedCounts(s: seq<Entry>, ctx: Context, tid: ThreadId, other: ThreadId)
    ensures ActiveCount(Pushed(s, ctx, tid), other)
         == ActiveCount(s, other) + (if FreeIndex(s).Some? && other == tid then 1 else 0)
  {
    match FreeIndex(s)
    case None =>
    case Some(i) => CountUpdate(s, i, Entry(ctx, true, tid), other);
  }

  /** A pop closes one region of the popping thread when it has one, and none of any other thread. */
  lemma PoppedCounts(s: seq<Entry>, tid: ThreadId, other: ThreadId)
    ensures ActiveCount(Popped(s, tid), other) + (if CurrentIndex(s, tid).Some? && other == tid then 1 else 0)
         == ActiveCount(s, other)
  {
    match CurrentIndex(s, tid)
    case None =>
    case Some(i) => CountUpdate(s, i, s[i].(active := false), other);
  }

  // ---------------------------------------------------------------------
  // Isolation between threads and the meaning of "innermost"
  // ---------------------------------------------------------------------

  lemma CurrentIndexAgrees(s: seq<Entry>, t: seq<Entry>, tid: ThreadId)
    requires |s| == |t|
    requires forall j :: 0 <= j < |s| ==> Owns(s[j], tid) == Owns(t[j], tid)
    ensures CurrentIndex(s, tid) == CurrentIndex(t, tid)
  {
    var a := CurrentIndex(s, tid);
    if a.Some? {
      assert Owns(t[a.value], tid);
    }
  }

  /** Another thread's push or pop never changes which slot is a thread's current one. */
  lemma OtherThreadsUnaffected(s: seq<Entry>, ctx: Context, tid: ThreadId, other: ThreadId)
    requires other != tid
    ensures CurrentIndex(Pushed(s, ctx, tid), other) == CurrentIndex(s, other)
    ensures CurrentIndex(Popped(s, tid), other) == CurrentIndex(s, other)
  {
    var p, q := Pushed(s, ctx, tid), Popped(s, tid);
    assert forall j :: 0 <= j < |s| ==> Owns(p[j], other) == Owns(s[j], other);
    CurrentIndexAgrees(p, s, other);
    assert forall j :: 0 <= j < |s| ==> Owns(q[j], other) == Owns(s[j], other);
    CurrentIndexAgrees(q, s, other);
  }

  /**
   * A successful push becomes the thread's current entry exactly when no
   * slot above the free one is already owned by the thread: "innermost"
   * means highest index, not most recently pushed.
   */
  lemma PushedBecomesCurrentIff(s: seq<Entry>, ctx: Context, tid: ThreadId)
    requires FreeIndex(s).Some?
    ensures CurrentIndex(Pushed(s, ctx, tid), tid) == FreeIndex(s)
        <==> forall j :: FreeIndex(s).value < j < |s| ==> !Owns(s[j], tid)
  {
    var f := FreeIndex(s).value;
    var p := Pushed(s, ctx, tid);
    assert p == s[f := Entry(ctx, true, tid)];
    assert Owns(p[f], tid);
    if forall j :: f < j < |s| ==> !Owns(s[j], tid) {
      assert forall j :: f < j < |p| ==> !Owns(p[j], tid);
      var g := CurrentIndex(p, tid);
      assert g.Some? && g.value >= f;
    } else {
      var j :| f < j < |s| && Owns(s[j], tid);
      assert Owns(p[j], tid);
    }
  }

  // ---------------------------------------------------------------------
  // Single-thread use: the thread's regions form a stack 0..k-1
  // ---------------------------------------------------------------------

  lemma StackFreeIndex(s: seq<Entry>, tid: ThreadId, k: nat)
    requires IsStack(s, tid, k)
    ensures FreeIndex(s) == if k < |s| then Some(k) else None
  {
    if k < |s| {
      assert !s[k].active;
    }
  }

  lemma StackCurrentIndex(s: seq<Entry>, tid: ThreadId, k: nat)
    requires IsStack(s, tid, k)
    ensures CurrentIndex(s, tid) == if k > 0 then Some(k - 1) else None
  {
    if k > 0 {
      assert Owns(s[k - 1], tid);
    }
  }

  /** A push onto a non-full stack lands in slot k and leaves a stack of k+1 regions. */
  lemma StackPush(s: seq<Entry>, ctx: Context, tid: ThreadId, k: nat)
    requires IsStack(s, tid, k) && k < |s|
    ensures Pushed(s, ctx, tid) == s[k := Entry(ctx, true, tid)]
    ensures IsStack(Pushed(s, ctx, tid), tid, k + 1)
  {
    StackFreeIndex(s, tid, k);
  }

  /** A push onto a full table fails and changes nothing, whichever threads own the slots. */
  lemma StackPushFull(s: seq<Entry>, ctx: Context, tid: ThreadId)
    requires forall j :: 0 <= j < |s| ==> s[j].active
    ensures FreeIndex(s).None? && Pushed(s, ctx, tid) == s
  {
  }

  /** A pop closes slot k-1 and leaves a stack of k-1 regions. */
  lemma StackPop(s: seq<Entry>, tid: ThreadId, k: nat)
    requires IsStack(s, tid, k) && k > 0
    ensures Popped(s, tid) == s[k - 1 := s[k - 1].(active := false)]
    ensures IsStack(Popped(s, tid), tid, k - 1)
  {
    StackCurrentIndex(s, tid, k);
  }

  /** Popping right after a push on a stack restores every open region: pop undoes push. */
  lemma PushPopRoundTrip(s: seq<Entry>, ctx: Context, tid: ThreadId, k: nat)
    requires IsStack(s, tid, k) && k < |s|
    ensures SameActive(Popped(Pushed(s, ctx, tid), tid), s)
  {
    StackPush(s, ctx, tid, k);
    StackPop(Pushed(s, ctx, tid), tid, k + 1);
  }

  /**
   * Push A, push B: the current entry holds B; after one pop it holds A;
   * after a second pop the thread is back where it started (none, from an
   * empty stack).
   */
  lemma NestedLookup(s: seq<Entry>, a: Context, b: Context, tid: ThreadId, k: nat)
    requires IsStack(s, tid, k) && k + 2 <= |s|
    ensures var s2 := Pushed(Pushed(s, a, tid), b, tid);
      CurrentIndex(s2, tid) == Some(k + 1) && s2[k + 1].savedContext == b &&
      var s3 := Popped(s2, tid);
      CurrentIndex(s3, tid) == Some(k) && s3[k].savedContext == a &&
      CurrentIndex(Popped(s3, tid), tid) == CurrentIndex(s, tid) &&
      (k == 0 ==> CurrentIndex(Popped(s3, tid), tid).None?)
  {
    var s1 := Pushed(s, a, tid);
    StackPush(s, a, tid, k);
    var s2 := Pushed(s1, b, tid);
    StackPush(s1, b, tid, k + 1);
    StackCurrentIndex(s2, tid, k + 2);
    var s3 := Popped(s2, tid);
    StackPop(s2, tid, k + 2);
    StackCurrentIndex(s3, tid, k + 1);
    StackPop(s3, tid, k + 1);
    StackCurrentIndex(Popped(s3, tid), tid, k);
    StackCurrentIndex(s, tid, k);
  }

  /** n pushes in a row: the table afterwards and the result of each push, in order. */
  function PushRun(s: seq<Entry>, ctx: Context, tid: ThreadId, n: nat): (seq<Entry>, seq<bool>)
  {
    if n == 0 then (s, [])
    else
      var (p, results) := PushRun(s, ctx, tid, n - 1);
      (Pushed(p, ctx, tid), results + [FreeIndex(p).Some?])
  }

  lemma {:induction false} PushRunFills(s: seq<Entry>, ctx: Context, tid: ThreadId, k: nat, n: nat)
    requires IsStack(s, tid, k) && k + n <= |s|
    ensures |PushRun(s, ctx, tid, n).0| == |s|
    ensures IsStack(PushRun(s, ctx, tid, n).0, tid, k + n)
    ensures PushRun(s, ctx, tid, n).1 == seq(n, _ => true)
  {
    if n > 0 {
      PushRunFills(s, ctx, tid, k, n - 1);
      var p := PushRun(s, ctx, tid, n - 1).0;
      StackFreeIndex(p, tid, k + n - 1);
      StackPush(p, ctx, tid, k + n - 1);
    }
  }

  /**
   * Capacity: on a freshly zeroed table, MaxEntries pushes by one thread all
   * succeed and the next one fails; after one pop, a push succeeds again.
   */
  lemma Capacity(ctx: Context, tid: ThreadId)
    ensures var (full, results) := PushRun(Zeroed(MaxEntries), ctx, tid, MaxEntries + 1);
      results == seq(MaxEntries, _ => true) + [false] &&
      FreeIndex(Popped(full, tid)).Some?
  {
    var z := Zeroed(MaxEntries);
    assert IsStack(z, tid, 0);
    PushRunFills(z, ctx, tid, 0, MaxEntries);
    var p := PushRun(z, ctx, tid, MaxEntries).0;
    StackPushFull(p, ctx, tid);
    StackPop(p, tid, MaxEntries);
    StackFreeIndex(Popped(p, tid), tid, MaxEntries - 1);
  }

  /**
   * With two threads the current entry need not be the most recent push:
   * thread 1 pushes A, thread 2 pushes X, thread 1 pushes B, thread 2 pops,
   * thread 1 pushes C. C lands in slot 1, below B in slot 2, so the lookup
   * still answers B, and the pop that closes C's region clears B's slot.
   */
  lemma InnermostIsNotLatest(a: Context, x: Context, b: Context, c: Context)
    ensures var s1 := Pushed(Pushed(Pushed(Zeroed(MaxEntries), a, 1), x, 2), b, 1);
      var s2 := Pushed(Popped(s1, 2), c, 1);
      s2[1] == Entry(c, true, 1) &&
      CurrentIndex(s2, 1) == Some(2) && s2[2].savedContext == b &&
      Popped(s2, 1)[1] == Entry(c, true, 1) && !Popped(s2, 1)[2].active
  {
    var z := Zeroed(MaxEntries);
    assert FreeIndex(z) == Some(0) by { assert !z[0].active; }
    var t1 := Pushed(z, a, 1);
    assert FreeIndex(t1) == Some(1) by { assert !t1[1].active; }
    var t2 := Pushed(t1, x, 2);
    assert FreeIndex(t2) == Some(2) by { assert !t2[2].active; }
    var s1 := Pushed(t2, b, 1);
    assert CurrentIndex(s1, 2) == Some(1) by { assert Owns(s1[1], 2); }
    var t3 := Popped(s1, 2);
    assert FreeIndex(t3) == Some(1) by { assert !t3[1].active && t3[0].active; }
    var s2 := Pushed(t3, c, 1);
    assert CurrentIndex(s2, 1) == Some(2) by {
      assert Owns(s2[2], 1);
      assert forall j :: 2 < j < |s2| ==> s2[j] == ZeroEntry;
    }
  }
}
