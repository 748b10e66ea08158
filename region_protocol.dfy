// The __TRY / __EXCEPT macros of ManualSEH.h, as the meaning of a
// protected region for one thread:
//
//   if ( __MSEH_ENTER_TRY( ) ) { body; ManualSehPopEntry( thread ); } else { handler }
//
// The enter step pushes a snapshot that, when restored, looks like the
// enter call returning; a handled fault restores it with Rax = 0, so the
// `if` is re-evaluated and falls into the handler.

module RegionProtocol {
  import opened SehTypes
  import opened EntryPool
  import opened Interceptor

  /** Which arm of the `if` that __TRY opens is taken. */
  datatype Arm = TryArm | ExceptArm

  /** __TRY: the protected body runs only when the enter step returned nonzero (C truth, not just TRUE). */
  function TakenArm(enterResult: Word): (a: Arm)
    ensures a == TryArm <==> enterResult != 0
  {
    if enterResult != 0 then TryArm else ExceptArm
  }

  /** The value __MSEH_ENTER_TRY returns when it is called: nonzero exactly when its push succeeded. */
  function EnterResult(pushed: bool): (r: Word)
    ensures TakenArm(r) == TryArm <==> pushed
  {
    if pushed then 1 else 0
  }

  /**
   * The snapshot the enter step captures: the call site and the stack depth
   * (standing for the instruction and stack pointers) just after the enter
   * call, with a nonzero return value.
   */
  function Captured(site: nat, depth: nat): Context
  {
    Context(1, [site, depth])
  }

  /** Code a thread runs. */
  datatype Stmt =
    | Work                                        // completes normally
    | Fault                                       // raises an exception
    | Then(first: Stmt, next: Stmt)
    | Try(site: nat, body: Stmt, handler: Stmt)   // __TRY { body __EXCEPT } else { handler }

  /** How running a statement ends. */
  datatype Outcome =
    | Completed(pool: seq<Entry>)
    | Resumed(pool: seq<Entry>, context: Context)  // a handled fault: control jumps to the frame of `context`
    | Unhandled(pool: seq<Entry>)                  // ExceptionHandler declined the fault

  /**
   * Runs s on thread tid at nesting depth `depth`, with the exception
   * handler deciding every fault. Every resumption the handler produces
   * carries Rax = 0.
   */
  function Exec(s: Stmt, pool: seq<Entry>, tid: ThreadId, depth: nat): (o: Outcome)
    ensures o.Resumed? ==> o.context.rax == 0
  {
    match s
    case Work => Completed(pool)
    case Fault =>
      (match Intercept(pool, tid)
       case Declined => Unhandled(pool)
       case Handled(ctx, p) => Resumed(p, ctx))
    case Then(first, next) =>
      var o := Exec(first, pool, tid, depth);
      if o.Completed? then Exec(next, o.pool, tid, depth) else o
    case Try(site, body, handler) =>
      var here := Captured(site, depth);
      var entered := Pushed(pool, here, tid);
      match TakenArm(EnterResult(FreeIndex(pool).Some?))
      case ExceptArm => Exec(handler, entered, tid, depth)
      case TryArm =>
        match Exec(body, entered, tid, depth + 1)
        case Completed(p) => Completed(Popped(p, tid))     // __MSEH_EXIT_TRY
        case Unhandled(p) => Unhandled(p)
        case Resumed(p, ctx) =>
          if ctx.registers != here.registers then Resumed(p, ctx)   // an enclosing frame is restored
          else
            match TakenArm(ctx.rax)                               // the `if` sees the forced Rax
            case ExceptArm => Exec(handler, p, tid, depth)
            case TryArm => assert false; Resumed(p, ctx)
  }

  /**
   * What running a statement does to a thread whose k open regions form a
   * stack: completing leaves them as they were; a handled fault resumes in
   * the snapshot of the innermost one (slot k-1) with Rax = 0 and closes
   * it; an unhandled fault only happens with no region open.
   */
  predicate Framed(o: Outcome, pool: seq<Entry>, k: nat)
  {
    match o
    case Completed(p) => SameActive(p, pool)
    case Resumed(p, ctx) =>
      0 < k <= |pool| && ctx == pool[k - 1].savedContext.(rax := 0) &&
      SameActive(p, pool[k - 1 := pool[k - 1].(active := false)])
    case Unhandled(p) => k == 0 && SameActive(p, pool)
  }

  lemma SameActiveKeepsStack(p: seq<Entry>, pool: seq<Entry>, tid: ThreadId, k: nat)
    requires SameActive(p, pool) && IsStack(pool, tid, k)
    ensures IsStack(p, tid, k)
  {
  }

  /** An outcome framed against an intermediate table is framed against any table with the same open regions. */
  lemma Rebase(o: Outcome, p: seq<Entry>, pool: seq<Entry>, k: nat)
    requires SameActive(p, pool) && Framed(o, p, k)
    requires k > 0 ==> k <= |pool| && pool[k - 1].active
    ensures Framed(o, pool, k)
  {
    if o.Resumed? {
      var x := pool[k - 1].(active := false);
      assert p[k - 1] == pool[k - 1];
      assert SameActive(p[k - 1 := x], pool[k - 1 := x]);
    }
  }

  /**
   * Single-thread nesting: a fault inside a protected body always resumes
   * in the handler of the innermost enclosing region whose push
   * succeeded, consuming exactly that region's entry; a region that
   * completes pops its own entry exactly once.
   */
  lemma {:induction false} ExecFramed(s: Stmt, pool: seq<Entry>, tid: ThreadId, depth: nat, k: nat)
    requires IsStack(pool, tid, k)
    ensures Framed(Exec(s, pool, tid, depth), pool, k)
    decreases s, 1
  {
    match s
    case Work =>
    case Fault =>
      StackCurrentIndex(pool, tid, k);
      if k > 0 {
        StackPop(pool, tid, k);
      }
    case Then(first, next) =>
      var o := Exec(first, pool, tid, depth);
      ExecFramed(first, pool, tid, depth, k);
      if o.Completed? {
        SameActiveKeepsStack(o.pool, pool, tid, k);
        ExecFramed(next, o.pool, tid, depth, k);
        Rebase(Exec(next, o.pool, tid, depth), o.pool, pool, k);
      }
    case Try(site, body, handler) =>
      ExecFramedTry(site, body, handler, pool, tid, depth, k);
  }

  /** The region case of ExecFramed. */
  lemma {:induction false} ExecFramedTry(site: nat, body: Stmt, handler: Stmt, pool: seq<Entry>,
                                         tid: ThreadId, depth: nat, k: nat)
    requires IsStack(pool, tid, k)
    ensures Framed(Exec(Try(site, body, handler), pool, tid, depth), pool, k)
    decreases Try(site, body, handler), 0
  {
    var here := Captured(site, depth);
    if k < |pool| {
      StackPush(pool, here, tid, k);
      var entered := Pushed(pool, here, tid);
      ExecFramed(body, entered, tid, depth + 1, k + 1);
      var o := Exec(body, entered, tid, depth + 1);
      var closed := entered[k := entered[k].(active := false)];
      assert SameActive(closed, pool);
      match o
      case Completed(p) =>
        SameActiveKeepsStack(p, entered, tid, k + 1);
        StackPop(p, tid, k + 1);
      case Unhandled(p) =>
      case Resumed(p, ctx) =>
        SameActiveKeepsStack(p, closed, tid, k);
        SameActiveKeepsStack(p, pool, tid, k);
        ExecFramed(handler, p, tid, depth, k);
        Rebase(Exec(handler, p, tid, depth), p, pool, k);
    } else {
      StackPushFull(pool, here, tid);
      ExecFramed(handler, pool, tid, depth, k);
    }
  }

  /** A fault outside every protected region is never turned into a resumption: it reaches the platform. */
  lemma FaultOutsideRegionsIsUnhandled(s: Stmt, pool: seq<Entry>, tid: ThreadId, depth: nat)
    requires IsStack(pool, tid, 0)
    ensures !Exec(s, pool, tid, depth).Resumed?
    ensures Exec(Then(s, Fault), pool, tid, depth).Unhandled?
  {
    ExecFramed(s, pool, tid, depth, 0);
    var o := Exec(s, pool, tid, depth);
    if o.Completed? {
      SameActiveKeepsStack(o.pool, pool, tid, 0);
      ExecFramed(Fault, o.pool, tid, depth, 0);
    }
  }

  /** A body that completes never reaches the handler, and its entry is popped exactly once. */
  lemma CompletedRegionPopsOnce(site: nat, handler: Stmt, pool: seq<Entry>, tid: ThreadId, depth: nat, k: nat)
    requires IsStack(pool, tid, k) && k < |pool|
    ensures var o := Exec(Try(site, Work, handler), pool, tid, depth);
      o.Completed? && SameActive(o.pool, pool) &&
      ActiveCount(o.pool, tid) == ActiveCount(pool, tid) &&
      o.pool[k] == Entry(Captured(site, depth), false, tid)
  {
    var here := Captured(site, depth);
    StackPush(pool, here, tid, k);
    var entered := Pushed(pool, here, tid);
    StackPop(entered, tid, k + 1);
    PushedCounts(pool, here, tid, tid);
    PoppedCounts(entered, tid, tid);
    StackCurrentIndex(entered, tid, k + 1);
  }

  /** Unfolds one region whose push succeeded and whose body was resumed into the region's own frame. */
  lemma TryResumedAtOwnFrame(site: nat, body: Stmt, handler: Stmt, pool: seq<Entry>, tid: ThreadId,
                             depth: nat, p: seq<Entry>)
    requires FreeIndex(pool).Some?
    requires Exec(body, Pushed(pool, Captured(site, depth), tid), tid, depth + 1)
          == Resumed(p, Captured(site, depth).(rax := 0))
    ensures Exec(Try(site, body, handler), pool, tid, depth) == Exec(handler, p, tid, depth)
  {
  }

  /**
   * Any body that completes, however it is built (nested regions, faults
   * handled inside it), leaves the `__EXCEPT` branch unrun, and
   * `__MSEH_EXIT_TRY` pops the region's own entry: the enclosing regions
   * are as they were before the `__TRY`.
   */
  lemma {:induction false} BodyCompletedPopsOnce(site: nat, body: Stmt, handler: Stmt, pool: seq<Entry>,
                                                 tid: ThreadId, depth: nat, k: nat)
    requires IsStack(pool, tid, k) && k < |pool|
    requires Exec(body, Pushed(pool, Captured(site, depth), tid), tid, depth + 1).Completed?
    ensures var p := Exec(body, Pushed(pool, Captured(site, depth), tid), tid, depth + 1).pool;
      Exec(Try(site, body, handler), pool, tid, depth) == Completed(Popped(p, tid)) &&
      SameActive(Popped(p, tid), pool) && IsStack(Popped(p, tid), tid, k)
  {
    var here := Captured(site, depth);
    StackFreeIndex(pool, tid, k);
    StackPush(pool, here, tid, k);
    var entered := Pushed(pool, here, tid);
    ExecFramed(body, entered, tid, depth + 1, k + 1);
    var p := Exec(body, entered, tid, depth + 1).pool;
    SameActiveKeepsStack(p, entered, tid, k + 1);
    StackPop(p, tid, k + 1);
  }

  /**
   * A fault anywhere in a protected body that no nested region handles
   * resumes in this region's own `__EXCEPT` branch, with this region's
   * entry consumed and the enclosing regions as they were.
   */
  lemma {:induction false} BodyFaultRunsHandler(site: nat, body: Stmt, handler: Stmt, pool: seq<Entry>,
                                                tid: ThreadId, depth: nat, k: nat)
    requires IsStack(pool, tid, k) && k < |pool|
    requires Exec(body, Pushed(pool, Captured(site, depth), tid), tid, depth + 1).Resumed?
    ensures var p := Exec(body, Pushed(pool, Captured(site, depth), tid), tid, depth + 1).pool;
      SameActive(p, pool) && IsStack(p, tid, k) &&
      Exec(Try(site, body, handler), pool, tid, depth) == Exec(handler, p, tid, depth)
  {
    var here := Captured(site, depth);
    StackFreeIndex(pool, tid, k);
    StackPush(pool, here, tid, k);
    var entered := Pushed(pool, here, tid);
    ExecFramed(body, entered, tid, depth + 1, k + 1);
    var o := Exec(body, entered, tid, depth + 1);
    var closed := entered[k := entered[k].(active := false)];
    assert SameActive(closed, pool);
    assert SameActive(o.pool, pool);
    SameActiveKeepsStack(o.pool, pool, tid, k);
    TryResumedAtOwnFrame(site, body, handler, pool, tid, depth, o.pool);
  }

  /**
   * A fault in a protected body resumes in that region's handler, with the
   * region's entry consumed and the enclosing regions untouched.
   */
  lemma FaultRunsHandler(site: nat, handler: Stmt, pool: seq<Entry>, tid: ThreadId, depth: nat, k: nat)
    requires IsStack(pool, tid, k) && k < |pool|
    ensures var after := pool[k := Entry(Captured(site, depth), false, tid)];
      SameActive(after, pool) &&
      Exec(Try(site, Fault, handler), pool, tid, depth) == Exec(handler, after, tid, depth)
  {
    var here := Captured(site, depth);
    var after := pool[k := Entry(here, false, tid)];
    StackFreeIndex(pool, tid, k);
    StackPush(pool, here, tid, k);
    var entered := Pushed(pool, here, tid);
    StackCurrentIndex(entered, tid, k + 1);
    StackPop(entered, tid, k + 1);
    assert Popped(entered, tid) == after;
    assert Exec(Fault, entered, tid, depth + 1) == Resumed(after, here.(rax := 0));
    TryResumedAtOwnFrame(site, Fault, handler, pool, tid, depth, after);
  }

  /**
   * When the push fails (every slot is active, whichever threads own them)
   * the body never runs: the handler runs at once on the unchanged table.
   */
  lemma FullPoolSkipsBody(site: nat, body: Stmt, handler: Stmt, pool: seq<Entry>, tid: ThreadId, depth: nat)
    requires forall j :: 0 <= j < |pool| ==> pool[j].active
    ensures Exec(Try(site, body, handler), pool, tid, depth) == Exec(handler, pool, tid, depth)
  {
  }

  /**
   * The enter step sends the `if` into the body exactly when its push
   * opened a region for the thread, whatever the other threads hold.
   */
  lemma BodyRunsIffRegionOpened(pool: seq<Entry>, ctx: Context, tid: ThreadId)
    ensures TakenArm(EnterResult(FreeIndex(pool).Some?)) == TryArm
        <==> ActiveCount(Pushed(pool, ctx, tid), tid) == ActiveCount(pool, tid) + 1
  {
    PushedCounts(pool, ctx, tid, tid);
  }

  /**
   * Without the single-thread discipline the handler can pick the wrong
   * region: with the thread's older entry in slot 1 and slot 0 free, the
   * region's push lands in slot 0, a fault in its body resumes the frame
   * saved in slot 1, the region's own handler is skipped, and its entry
   * stays active.
   */
  lemma StaleEntryMisroutes(older: Context, site: nat, handler: Stmt, tid: ThreadId)
    requires older.registers != Captured(site, 0).registers
    ensures var pool := Zeroed(MaxEntries)[1 := Entry(older, true, tid)];
      var o := Exec(Try(site, Fault, handler), pool, tid, 0);
      o.Resumed? && o.context == older.(rax := 0) && |o.pool| == MaxEntries &&
      o.pool[0] == Entry(Captured(site, 0), true, tid) && !o.pool[1].active
  {
    var pool := Zeroed(MaxEntries)[1 := Entry(older, true, tid)];
    var here := Captured(site, 0);
    assert FreeIndex(pool) == Some(0) by { assert !pool[0].active; }
    var entered := Pushed(pool, here, tid);
    assert CurrentIndex(entered, tid) == Some(1) by {
      assert Owns(entered[1], tid);
      assert forall j :: 1 < j < |entered| ==> entered[j] == ZeroEntry;
    }
    var after := entered[1 := entered[1].(active := false)];
    assert Exec(Fault, entered, tid, 1) == Resumed(after, older.(rax := 0));
  }
}
