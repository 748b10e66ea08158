// The runtime of ManualSEH.cpp: the global entry and record tables, the
// scans that push, look up and pop them, the exception handler, and the
// Initialize/Shutdown lifecycle.

module ManualSeh {
  import opened SehTypes
  import opened EntryPool
  import opened RecordBuffer
  import opened Interceptor

  /**
   * The process-wide ManualSEH state. `initialized` stands for
   * g_SEHData != NULL and `recordsInitialized` for g_SEHRecords != NULL;
   * `obtainInfo` is the MANUALSEH_OBTAIN_INFO build switch.
   */
  class Engine {
    const obtainInfo: bool
    var initialized: bool
    var recordsInitialized: bool
    var data: array<Entry>
    var records: array<Record>

    ghost predicate Valid()
      reads this, records
    {
      data.Length == MaxEntries && records.Length == MaxEntries &&
      (!obtainInfo ==> !recordsInitialized) &&
      WellFormed(records[..])
    }

    /** The globals before Initialize: both table pointers NULL. */
    constructor (obtainInfo: bool)
      ensures Valid() && this.obtainInfo == obtainInfo
      ensures !initialized && !recordsInitialized
      ensures fresh(data) && fresh(records)
    {
      this.obtainInfo := obtainInfo;
      initialized, recordsInitialized := false, false;
      data := new Entry[MaxEntries](_ => ZeroEntry);
      records := new Record[MaxEntries](_ => ZeroRecord);
      new;
      assert records[..] == ZeroedRecords(MaxEntries);
      ZeroedWellFormed(MaxEntries, 1);
    }

    /**
     * ManualSEH::Initialize. The two allocations are inputs: the entry table
     * is allocated and zeroed, then (with MANUALSEH_OBTAIN_INFO) the record
     * table. A failed second allocation returns false with the entry table
     * already in place.
     */
    method Initialize(dataAllocOk: bool, recordsAllocOk: bool) returns (ok: bool)
      requires Valid()
      modifies this
      ensures Valid()
      ensures ok == (dataAllocOk && (!obtainInfo || recordsAllocOk))
      ensures initialized == dataAllocOk
      ensures dataAllocOk ==> fresh(data) && data[..] == Zeroed(MaxEntries)
      ensures !dataAllocOk ==> data == old(data)
      ensures recordsInitialized == if dataAllocOk && obtainInfo then recordsAllocOk else old(recordsInitialized)
      ensures dataAllocOk && obtainInfo && recordsAllocOk ==> fresh(records) && records[..] == ZeroedRecords(MaxEntries)
      ensures !(dataAllocOk && obtainInfo && recordsAllocOk) ==> records == old(records)
    {
      if !dataAllocOk {
        initialized := false;
        return false;
      }
      data := new Entry[MaxEntries](_ => ZeroEntry);
      initialized := true;
      if obtainInfo {
        if !recordsAllocOk {
          recordsInitialized := false;
          return false;
        }
        records := new Record[MaxEntries](_ => ZeroRecord);
        recordsInitialized := true;
        assert records[..] == ZeroedRecords(MaxEntries);
        ZeroedWellFormed(MaxEntries, 1);
      }
      assert data[..] == Zeroed(MaxEntries);
      ok := true;
    }

    /** ManualSEH::Shutdown: both table pointers become NULL; a second call leaves both flags false. */
    method Shutdown()
      requires Valid()
      modifies this
      ensures Valid()
      ensures !initialized && !recordsInitialized
      ensures data == old(data) && records == old(records)
    {
      initialized := false;
      if obtainInfo {
        recordsInitialized := false;
      }
    }

    /** ManualSehPushEntry: claim the lowest-index inactive slot for the snapshot. */
    method PushEntry(ctx: Context, tid: ThreadId) returns (ok: bool)
      requires Valid()
      modifies data
      ensures Valid()
      ensures ok <==> initialized && FreeIndex(old(data[..])).Some?
      ensures data[..] == if initialized then Pushed(old(data[..]), ctx, tid) else old(data[..])
    {
      ok := false;
      if !initialized {
        return;
      }
      var i := 0;
      while i < MaxEntries
        invariant 0 <= i <= MaxEntries
        invariant data[..] == old(data[..])
        invariant forall j :: 0 <= j < i ==> data[j].active
      {
        if !data[i].active {
          ok := true;
          data[i] := data[i].(savedContext := ctx);
          data[i] := data[i].(active := true);
          data[i] := data[i].(threadId := tid);
          assert FreeIndex(old(data[..])) == Some(i);
          return;
        }
        i := i + 1;
      }
    }

    /**
     * ManualSehGetCurrentEntry: scan from the top for an active slot the
     * thread owns. The slot's index stands for the returned pointer.
     */
    method GetCurrentEntry(tid: ThreadId) returns (r: Option<nat>)
      requires Valid()
      ensures r == if initialized then CurrentIndex(data[..], tid) else None
      ensures r.Some? ==> r.value < MaxEntries && data[r.value].active && data[r.value].threadId == tid
    {
      if !initialized {
        return None;
      }
      var i := MaxEntries;
      while i > 0
        invariant 0 <= i <= MaxEntries
        invariant forall j :: i <= j < MaxEntries ==> !Owns(data[j], tid)
      {
        if data[i - 1].active && data[i - 1].threadId == tid {
          return Some(i - 1);
        }
        i := i - 1;
      }
      return None;
    }

    /** ManualSehPopEntry: clear the active flag of the thread's current slot. */
    method PopEntry(tid: ThreadId) returns (ok: bool)
      requires Valid()
      modifies data
      ensures Valid()
      ensures ok <==> initialized && CurrentIndex(old(data[..]), tid).Some?
      ensures data[..] == if initialized then Popped(old(data[..]), tid) else old(data[..])
    {
      if !initialized {
        return false;
      }
      var i := MaxEntries;
      while i > 0
        invariant 0 <= i <= MaxEntries
        invariant data[..] == old(data[..])
        invariant forall j :: i <= j < MaxEntries ==> !Owns(data[j], tid)
      {
        if data[i - 1].active && data[i - 1].threadId == tid {
          assert CurrentIndex(old(data[..]), tid) == Some(i - 1);
          data[i - 1] := data[i - 1].(active := false);
          return true;
        }
        i := i - 1;
      }
      return false;
    }

    /** ManualSehPushRecord: overwrite the first slot owned by the thread or by nobody, and stamp it. */
    method PushRecord(ctx: Context, exc: ExceptionRecord, tid: ThreadId) returns (ok: bool)
      requires Valid()
      modifies records
      ensures Valid()
      ensures ok <==> recordsInitialized && RecordSlot(old(records[..]), tid).Some?
      ensures records[..] == if recordsInitialized then RecordPushed(old(records[..]), ctx, exc, tid) else old(records[..])
    {
      ok := false;
      if !recordsInitialized {
        return;
      }
      var i := 0;
      while i < MaxEntries
        invariant 0 <= i <= MaxEntries
        invariant records[..] == old(records[..])
        invariant forall j :: 0 <= j < i ==> records[j].threadId != tid && Owned(records[j])
      {
        if records[i].threadId == tid || records[i].threadId == NullThread {
          ok := true;
          records[i] := records[i].(contextRecord := ctx);
          records[i] := records[i].(exceptionRecord := exc);
          records[i] := records[i].(threadId := tid);
          assert RecordSlot(old(records[..]), tid) == Some(i);
          PushKeepsWellFormed(old(records[..]), ctx, exc, tid);
          return;
        }
        i := i + 1;
      }
    }

    /** ManualSehGetCurrentRecord: the first slot whose owner is the thread. */
    method GetCurrentRecord(tid: ThreadId) returns (r: Option<nat>)
      requires Valid()
      ensures r == if recordsInitialized then RecordIndex(records[..], tid) else None
      ensures r.Some? ==> r.value < MaxEntries && records[r.value].threadId == tid
    {
      if !recordsInitialized {
        return None;
      }
      var i := 0;
      while i < MaxEntries
        invariant 0 <= i <= MaxEntries
        invariant forall j :: 0 <= j < i ==> records[j].threadId != tid
      {
        if records[i].threadId == tid {
          return Some(i);
        }
        i := i + 1;
      }
      return None;
    }

    /** ManualSEH::GetContextRecord: the faulting context stored for the thread, if any. */
    method GetContextRecord(tid: ThreadId) returns (r: Option<Context>)
      requires Valid()
      ensures r.Some? <==> recordsInitialized && RecordIndex(records[..], tid).Some?
      ensures r.Some? ==> r.value == records[RecordIndex(records[..], tid).value].contextRecord
    {
      var current := GetCurrentRecord(tid);
      if current.Some? {
        return Some(records[current.value].contextRecord);
      }
      return None;
    }

    /** ManualSEH::GetExceptionRecord: the exception record stored for the thread, if any. */
    method GetExceptionRecord(tid: ThreadId) returns (r: Option<ExceptionRecord>)
      requires Valid()
      ensures r.Some? <==> recordsInitialized && RecordIndex(records[..], tid).Some?
      ensures r.Some? ==> r.value == records[RecordIndex(records[..], tid).value].exceptionRecord
    {
      var current := GetCurrentRecord(tid);
      if current.Some? {
        return Some(records[current.value].exceptionRecord);
      }
      return None;
    }

    /** ManualSEH::GetCode: the stored exception code, or 0 (NULL) when there is no record. */
    method GetCode(tid: ThreadId) returns (code: UInt32)
      requires Valid()
      ensures code == if recordsInitialized && RecordIndex(records[..], tid).Some?
                      then records[RecordIndex(records[..], tid).value].exceptionRecord.code
                      else 0
    {
      var current := GetCurrentRecord(tid);
      if current.Some? {
        return records[current.value].exceptionRecord.code;
      }
      return 0;
    }

    /**
     * ManualSEH::ExceptionHandler, run on the faulting thread tid. `resumed`
     * is the faulting CONTEXT after the call. When the pool is set up and
     * the thread has an open region, the faulting context and exception
     * are recorded first (MANUALSEH_OBTAIN_INFO), then the context is
     * replaced by the saved snapshot, the entry is popped and Rax is forced
     * to FALSE; otherwise nothing changes and the fault is declined.
     */
    method ExceptionHandler(ctx: Context, exc: ExceptionRecord, tid: ThreadId)
      returns (handled: bool, resumed: Context)
      requires Valid()
      modifies data, records
      ensures Valid()
      ensures var v := if initialized then Intercept(old(data[..]), tid) else Declined;
        handled == v.Handled? &&
        (v.Declined? ==>
           resumed == ctx && data[..] == old(data[..]) && records[..] == old(records[..])) &&
        (v.Handled? ==>
           resumed == v.resume && data[..] == v.pool &&
           records[..] == if recordsInitialized then RecordPushed(old(records[..]), ctx, exc, tid)
                          else old(records[..]))
    {
      handled, resumed := false, ctx;
      if !initialized {
        return;
      }
      var current := GetCurrentEntry(tid);
      if current.Some? {
        if obtainInfo {
          var _ := PushRecord(ctx, exc, tid);
        }
        resumed := data[current.value].savedContext;
        var _ := PopEntry(tid);
        resumed := resumed.(rax := 0);
        handled := true;
      }
    }
  }
}
