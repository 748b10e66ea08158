# ManualSEH runtime engine, modelled in Dafny

ManualSEH gives code without structured-exception metadata (manually mapped
images, injected code) a working `__TRY` / `__EXCEPT`. The enter step of a
`__TRY` pushes a snapshot of the thread's CPU context into a fixed table of 64
entries. A vectored exception handler, `ManualSEH::ExceptionHandler`, catches
every fault. If the faulting thread owns an active entry, the handler overwrites
the faulting context with that snapshot, pops the entry and forces `Rax` to 0.
The thread then resumes as if the enter call had just returned FALSE, so the
`if` that `__TRY` opens falls into its `else`, the `__EXCEPT` branch. When the
body completes normally, `__EXCEPT` pops the entry. An optional second table
keeps, per thread, the context and exception record of the last handled fault
(`MANUALSEH_OBTAIN_INFO`).

The model has these parts:

- `SehTypes` (seh_types.dfy): the slot layouts `MANUALSEH_DATA` (`Entry`) and
  `MANUALSEH_RECORD` (`Record`), and the capacity `MaxEntries = 64`. `CONTEXT`
  is a value with an `rax` field; all its other registers are opaque. Thread
  ids are naturals, and 0 stands for NULL.
- `EntryPool` (entry_pool.dfy): the entry table as a sequence. It has the
  three scans of push, current-entry lookup and pop as functions
  (`FreeIndex`, `CurrentIndex`, `Pushed`, `Popped`), and lemmas about them:
  open-region counts, isolation between threads, single-thread stack
  discipline, capacity, and where "innermost" differs from "last pushed".
- `RecordBuffer` (record_buffer.dfy): the record table in the same style.
  Its invariant is that owned slots form a prefix and no thread owns two
  slots. Its lemmas cover the push/lookup round trip and overwrite on a
  second fault.
- `Interceptor` (interceptor.dfy): `Intercept`, the handler's decision on an
  initialised table, and lemmas about it.
- `ManualSeh` (manual_seh.dfy): class `Engine`. It holds the two tables as
  arrays, the flags `initialized` (`g_SEHData != NULL`) and
  `recordsInitialized` (`g_SEHRecords != NULL`), and the build switch
  `obtainInfo`. Each routine of ManualSEH.cpp is a method with the source's
  loops. Every method is proved against the functions above.
- `RegionProtocol` (region_protocol.dfy): the `__TRY` / `__EXCEPT` /
  `__MSEH_EXIT_TRY` macros as a big-step semantics `Exec` of nested protected
  regions on one thread. Faults in it are decided by `Intercept`. Resuming
  re-evaluates the `if` with the restored `Rax`.
- `Scenarios` (scenarios.dfy): client methods that drive one `Engine` through
  several usage scenarios: a handled fault, an unrelated fault, a diagnostic
  overwrite, a double shutdown and a partial initialisation.

Behaviour of the code that the model follows, some of which its comments
describe differently (the comments at ManualSEH.cpp:107 and 125 describe the
slot the lookup returns as the thread's last or latest pushed entry):

- "Current" or "innermost" means the highest-index active slot of the thread.
  It does not mean the most recently pushed one (ManualSEH.cpp:107, 125).
  The two agree only while a single thread uses the table
  (`EntryPool.PushedBecomesCurrentIff`, `EntryPool.InnermostIsNotLatest`).
  With another thread's freed slot below, a fault can resume an enclosing
  region and leave the inner region's entry active
  (`RegionProtocol.StaleEntryMisroutes`).
- When the entry allocation succeeds and the record allocation fails,
  `Initialize` returns FALSE. The entry table is still live, so pushes and
  the handler work (ManualSEH.cpp:387-391, `Scenarios.PartialInitialize`).
  When the entry allocation fails, `g_SEHData` is reset to NULL even if an
  earlier `Initialize` had succeeded.
- `ManualSehPushEntry` and `ManualSehPushRecord` take a spin lock.
  `ManualSehPopEntry` and the lookups do not.
- `ManualSehGetCurrentRecord(NULL)` returns the first unowned slot. `GetCode`
  returns 0 both when there is no record and when the stored code is 0.

## Model

| member | source | states |
|---|---|---|
| `EntryPool.FreeIndex` | ManualSEH.cpp:74-96 | the slot a push claims is the lowest-index inactive one; none exactly when every slot is active |
| `EntryPool.CurrentIndex` | ManualSEH.cpp:127-138 | the slot the lookup returns is active and owned by the thread, and no higher slot is; none exactly when the thread owns no active slot |
| `EntryPool.Pushed` | ManualSEH.cpp:74-96 | a push keeps the table's size; a success writes only the slot `FreeIndex` names (see `Engine.PushEntry`) |
| `EntryPool.Popped` | ManualSEH.cpp:163-176 | a pop keeps the table's size and clears only the active flag of the slot `CurrentIndex` names |
| `EntryPool.CurrentNoneIffNoRegion` | ManualSEH.cpp:120-138 | the lookup finds nothing exactly when the thread has zero open regions |
| `EntryPool.PushedCounts` | ManualSEH.cpp:74-103 | a successful push adds one open region for the pushing thread; a failed push adds none; no other thread's count changes |
| `EntryPool.PoppedCounts` | ManualSEH.cpp:163-176 | a pop removes exactly one open region of the popping thread when it has one, and none of any other thread |
| `EntryPool.OtherThreadsUnaffected` | ManualSEH.cpp:82-95 | another thread's push or pop never changes which slot is this thread's current one |
| `EntryPool.PushedBecomesCurrentIff` | ManualSEH.cpp:127-136 | a pushed entry becomes the thread's current one exactly when the thread owns no slot above the free one (both directions) |
| `EntryPool.StackFreeIndex` | ManualSEH.cpp:74-96 | with one thread's k regions in slots 0..k-1, a push claims slot k, or fails when k is the capacity |
| `EntryPool.StackCurrentIndex` | ManualSEH.cpp:127-136 | with one thread's k regions in slots 0..k-1, the current entry is slot k-1, or none when k = 0 |
| `EntryPool.StackPush` | ManualSEH.cpp:82-94 | a push onto a stack of k < 64 regions writes slot k and leaves a stack of k+1 |
| `EntryPool.StackPushFull` | ManualSEH.cpp:74-103 | a push onto a table whose every slot is active, whichever threads own them, fails and changes nothing |
| `EntryPool.StackPop` | ManualSEH.cpp:163-174 | a pop on a stack of k > 0 regions clears slot k-1 and leaves a stack of k-1 |
| `EntryPool.PushPopRoundTrip` | ManualSEH.cpp:163-174 | a pop right after a push on a stack restores every open region |
| `EntryPool.NestedLookup` | ManualSEH.cpp:127-136 | push A then B: the lookup gives B; after one pop it gives A; after a second pop it gives what it gave before (none from no region) |
| `EntryPool.PushRunFills` | ManualSEH.cpp:74-96 | n pushes onto a stack of k regions with k+n <= capacity all succeed and leave a stack of k+n |
| `EntryPool.Capacity` | ManualSEH.h:27 | on a zeroed 64-slot table, 64 pushes succeed and the 65th fails; after one pop a push succeeds again |
| `EntryPool.InnermostIsNotLatest` | ManualSEH.cpp:127-136 | with two threads, the last entry a thread pushed can sit below an older one, so the lookup and the pop pick the older one |
| `RecordBuffer.RecordSlot` | ManualSEH.cpp:215-231 | the slot a record push writes is the first one owned by the thread or by nobody; none exactly when every slot belongs to another thread |
| `RecordBuffer.RecordIndex` | ManualSEH.cpp:259-268 | the record lookup returns the first slot whose owner is the thread; none when no slot is |
| `RecordBuffer.RecordPushed` | ManualSEH.cpp:215-231 | a record push keeps the table's size; a success overwrites and stamps only the slot `RecordSlot` names |
| `RecordBuffer.ZeroedWellFormed` | ManualSEH.cpp:393 | a zeroed record table has no owned slot and no record for any non-NULL thread |
| `RecordBuffer.PushKeepsWellFormed` | ManualSEH.cpp:215-231 | a record push keeps the owned slots a prefix of the table, one slot per thread |
| `RecordBuffer.PushFailsIffFullOfOthers` | ManualSEH.cpp:215-238 | on a well-formed table, a record push fails exactly when every slot is owned and none by this thread |
| `RecordBuffer.PushThenLookup` | ManualSEH.cpp:219-227 | after a successful record push, the thread's lookup returns that slot, holding exactly what was pushed |
| `RecordBuffer.SecondFaultOverwrites` | ManualSEH.cpp:219-227 | a second record push by the same thread overwrites the first one's slot, so only the second context and exception remain |
| `RecordBuffer.OtherThreadLookupUnaffected` | ManualSEH.cpp:259-268 | a record push by one thread never changes what another non-NULL thread looks up |
| `Interceptor.Intercept` | ManualSEH.cpp:331-364 | the handler declines exactly when the thread owns no active slot; a handled fault always resumes with Rax 0 and keeps the table's size |
| `Interceptor.DeclinedIffNoRegion` | ManualSEH.cpp:331-367 | the handler declines exactly when the faulting thread has no open region, whatever the exception |
| `Interceptor.HandledConsumesInnermost` | ManualSEH.cpp:337-364 | a handled fault resumes in the innermost entry's snapshot with Rax 0 and clears exactly that entry; the thread's count drops by one and other threads are untouched |
| `Interceptor.FaultAfterPush` | ManualSEH.cpp:331-364 | with one thread, a fault right after a push resumes in the pushed snapshot with Rax 0 and leaves the regions the thread had before (none if it had none) |
| `ManualSeh.Engine.constructor` | ManualSEH.cpp:20-23 | before Initialize both table pointers are NULL |
| `ManualSeh.Engine.Initialize` | ManualSEH.cpp:376-396 | success iff every allocation succeeds; fresh tables are all zero (every entry inactive, every record unowned); a failed record allocation returns false with the entry table live |
| `ManualSeh.Engine.Shutdown` | ManualSEH.cpp:405-410 | both table pointers become NULL on every call, so a second call leaves both flags false |
| `ManualSeh.Engine.PushEntry` | ManualSEH.cpp:62-103 | returns true iff the pool is initialised and a slot is inactive; the table becomes `Pushed` of the old one; on false nothing changes |
| `ManualSeh.Engine.GetCurrentEntry` | ManualSEH.cpp:120-138 | read-only; returns `CurrentIndex` of the table, or none when the pool is uninitialised |
| `ManualSeh.Engine.PopEntry` | ManualSEH.cpp:155-177 | returns true iff the pool is initialised and the thread has a current entry; the table becomes `Popped` of the old one |
| `ManualSeh.Engine.PushRecord` | ManualSEH.cpp:202-238 | returns true iff the record table exists and `RecordSlot` finds a slot; the table becomes `RecordPushed` of the old one and stays well formed |
| `ManualSeh.Engine.GetCurrentRecord` | ManualSEH.cpp:255-268 | read-only; returns `RecordIndex` of the record table, or none when it does not exist |
| `ManualSeh.Engine.GetContextRecord` | ManualSEH.cpp:277-283 | the context stored in the thread's record, or none |
| `ManualSeh.Engine.GetExceptionRecord` | ManualSEH.cpp:292-298 | the exception record stored in the thread's record, or none |
| `ManualSeh.Engine.GetCode` | ManualSEH.cpp:307-313 | the stored exception code, or 0 when the thread has no record |
| `ManualSeh.Engine.ExceptionHandler` | ManualSEH.cpp:324-367 | uninitialised pool or no entry: returns false, context and tables unchanged; otherwise returns true, the context becomes the entry's snapshot with Rax 0, the entry is popped, and the faulting context and exception are recorded first |
| `RegionProtocol.EnterResult` | ManualSEH.h:43 | the value the enter call returns sends the `if` into the body exactly when its push succeeded |
| `RegionProtocol.BodyRunsIffRegionOpened` | ManualSEH.h:43 | the `if` takes the body on any nonzero return; the body of a `__TRY` runs exactly when the enter step opened one more region for the thread, whatever other threads hold |
| `RegionProtocol.Exec` | ManualSEH.h:43-51 | every resumption produced by a handled fault carries Rax = 0, which is what sends the `if` of `__TRY` to its `else` |
| `RegionProtocol.ExecFramed` | ManualSEH.h:36-51 | with one thread: a completed statement leaves the open regions as they were; a handled fault resumes in the innermost enclosing region's snapshot and closes exactly it; an unhandled fault happens only with no region open |
| `RegionProtocol.FaultOutsideRegionsIsUnhandled` | ManualSEH.cpp:337-367 | with no region open, a fault reaches the platform and is never turned into a resumption |
| `RegionProtocol.BodyCompletedPopsOnce` | ManualSEH.h:43-51 | with one thread, any body that completes (nested regions and handled faults included) never runs the `__EXCEPT` branch; `__MSEH_EXIT_TRY` pops the region's own entry, leaving the enclosing regions as they were |
| `RegionProtocol.CompletedRegionPopsOnce` | ManualSEH.h:49-51 | the body `Work` instance: the region completes, its entry is popped exactly once, and the thread's count is back where it was |
| `RegionProtocol.BodyFaultRunsHandler` | ManualSEH.h:43-51 | with one thread, a fault anywhere in a protected body that no nested region handles runs this region's `__EXCEPT` branch, with this region's entry consumed and the enclosing regions intact |
| `RegionProtocol.FaultRunsHandler` | ManualSEH.h:43-51 | the body `Fault` instance: the handler runs on the table with exactly the region's slot cleared |
| `RegionProtocol.FullPoolSkipsBody` | ManualSEH.h:43-44 | when every slot is active, whichever threads own them, the enter step's push fails, the body never runs and the `__EXCEPT` branch runs at once on the unchanged table |
| `RegionProtocol.StaleEntryMisroutes` | ManualSEH.cpp:127-136 | with the thread's older entry above a free slot, a fault in a new region resumes the older frame, skips the new region's handler and leaves its entry active |

## Left out

- Spin locks (ManualSEH.cpp:71-72, 212-213): every scan-and-update is one atomic step, and there is no interleaving of threads inside an operation.
- `ManualSehCurrentThread` is an OS call. The thread id is a parameter of every operation.
- Allocation: `VirtualAlloc`/`ExAllocatePool` success is a boolean input of `Initialize`. Byte lengths and the request size are not modelled.
- Record table size: `Initialize` sizes the record table with the length computed from `sizeof(MANUALSEH_DATA)` (ManualSEH.cpp:376, 387), while the record scans index 64 `MANUALSEH_RECORD` slots (ManualSEH.cpp:215, 259). The model's record array always has 64 slots, so it assumes that allocation is large enough; whether it is depends on the struct sizes and the `DECLSPEC_ALIGN(2048)` padding, which are not modelled.
- Release of memory: `Shutdown` hands both pointers to the free routine even when they are already NULL, for example on a second call. What the allocator does with NULL is not modelled; the model only shows that the tables become unreachable.
- `CONTEXT` and `EXCEPTION_RECORD` layouts and `DECLSPEC_ALIGN`: only `Rax` and the exception code are interpreted.
- `__MSEH_ENTER_TRY` (declared at ManualSEH.h:166, defined elsewhere): modelled as a push of a snapshot that records the call site and nesting depth. It returns nonzero exactly when the push succeeds. Rewriting the captured instruction and stack pointers is not modelled.
- The unused sentinels `MANUALSEH_START_TRY_MAGIC`/`MANUALSEH_END_TRY_MAGIC` and the undefined `GetExceptionContext`: no code uses or defines them.
- The platform's vectored-exception dispatcher that calls `ExceptionHandler`, and the resumption of the thread with the returned context.
- ManualSeh.Engine.ExceptionHandler: it returns the new context as an out-parameter. It does not write through a caller's pointer, so aliasing of that buffer is not modelled.
- ManualSeh.Engine.GetCurrentEntry: the slot index stands for the returned pointer. Writes through that pointer by callers are not modelled.
- ManualSeh.Engine.GetContextRecord, ManualSeh.Engine.GetExceptionRecord: they return a copy of the stored value. The source returns a pointer into the record slot (ManualSEH.cpp:280, 295), which the thread's next handled fault overwrites in place; that aliasing is not modelled.
- RegionProtocol.Exec: it covers one thread. It does not cover the record table, or exits from a protected body other than completion or a fault (an early `return` that skips `__MSEH_EXIT_TRY`).
