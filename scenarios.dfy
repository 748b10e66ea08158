// Client code driving one Engine through usage scenarios,
// using only the contracts of its methods and the lemmas about the tables.

module Scenarios {
  import opened SehTypes
  import opened EntryPool
  import opened RecordBuffer
  import opened Interceptor
  import opened ManualSeh

  /** Thread 3 pushes once; a fault is handled, resumes in the snapshot with Rax 0, and leaves no entry. */
  method HandledFault(snapshot: Context, faulting: Context, exc: ExceptionRecord)
  {
    var engine := new Engine(false);
    var ok := engine.Initialize(true, true);
    assert ok && engine.data[..] == Zeroed(MaxEntries);
    assert IsStack(engine.data[..], 3, 0);
    FaultAfterPush(engine.data[..], snapshot, 3, 0);
    StackFreeIndex(engine.data[..], 3, 0);
    var pushed := engine.PushEntry(snapshot, 3);
    assert pushed;
    var handled, resumed := engine.ExceptionHandler(faulting, exc, 3);
    assert handled && resumed == snapshot.(rax := 0);
    var current := engine.GetCurrentEntry(3);
    assert current.None?;
  }

  /** Thread 2 never pushes: its fault is declined and its context is left alone. */
  method UnrelatedFault(other: Context, faulting: Context, exc: ExceptionRecord)
  {
    var engine := new Engine(false);
    var ok := engine.Initialize(true, true);
    var pushed := engine.PushEntry(other, 1);
    assert IsStack(Zeroed(MaxEntries), 1, 0);
    StackPush(Zeroed(MaxEntries), other, 1, 0);
    assert !Owns(engine.data[0], 2);
    var handled, resumed := engine.ExceptionHandler(faulting, exc, 2);
    assert !handled && resumed == faulting;
  }

  /** Two faults on one thread with diagnostics enabled: only the second is retrievable. */
  method DiagnosticOverwrite(snapshot: Context, c1: Context, e1: ExceptionRecord, c2: Context, e2: ExceptionRecord)
  {
    var engine := new Engine(true);
    var ok := engine.Initialize(true, true);
    assert ok && engine.recordsInitialized;
    var z := engine.data[..];
    assert IsStack(z, 5, 0);
    StackPush(z, snapshot, 5, 0);
    var pushed := engine.PushEntry(snapshot, 5);
    StackCurrentIndex(engine.data[..], 5, 1);
    var handled, resumed := engine.ExceptionHandler(c1, e1, 5);
    assert handled;
    StackPop(Pushed(z, snapshot, 5), 5, 1);
    StackPush(engine.data[..], snapshot, 5, 0);
    pushed := engine.PushEntry(snapshot, 5);
    StackCurrentIndex(engine.data[..], 5, 1);
    var r0 := ZeroedRecords(MaxEntries);
    assert RecordSlot(r0, 5) == Some(0) by { assert !Owned(r0[0]); }
    handled, resumed := engine.ExceptionHandler(c2, e2, 5);
    assert handled;
    SecondFaultOverwrites(r0, c1, e1, c2, e2, 5);
    var ctx := engine.GetContextRecord(5);
    var exc := engine.GetExceptionRecord(5);
    assert ctx == Some(c2) && exc == Some(e2);
  }

  /** Initialize, then Shutdown twice: every operation then reports failure or none. */
  method DoubleShutdown(snapshot: Context, faulting: Context, exc: ExceptionRecord)
  {
    var engine := new Engine(true);
    var ok := engine.Initialize(true, true);
    engine.Shutdown();
    engine.Shutdown();
    var pushed := engine.PushEntry(snapshot, 1);
    var popped := engine.PopEntry(1);
    var current := engine.GetCurrentEntry(1);
    var handled, resumed := engine.ExceptionHandler(faulting, exc, 1);
    var code := engine.GetCode(1);
    assert !pushed && !popped && current.None? && !handled && resumed == faulting && code == 0;
  }

  /** A failed record allocation: Initialize reports failure, yet the entry table is live. */
  method PartialInitialize(snapshot: Context)
  {
    var engine := new Engine(true);
    var ok := engine.Initialize(true, false);
    assert !ok && engine.initialized && !engine.recordsInitialized;
    assert !engine.data[0].active;
    var pushed := engine.PushEntry(snapshot, 1);
    assert pushed;
  }
}
