// Slot layouts and capacity of ManualSEH (ManualSEH.h).

module SehTypes {

  /** MANUALSEH_MAX_ENTRIES: capacity of both the entry table and the record table. */
  const MaxEntries: nat := 64

  /** A thread identifier (a HANDLE); 0 stands for NULL. */
  type ThreadId = nat
  const NullThread: ThreadId := 0

  type Word = x: int | 0 <= x < 0x1_0000_0000_0000_0000
  type UInt32 = x: int | 0 <= x < 0x1_0000_0000

  /**
   * A CPU context snapshot (CONTEXT). Only the return-value register Rax is
   * interpreted; every other register (instruction and stack pointer
   * included) is an opaque list of values.
   */
  datatype Context = Context(rax: Word, registers: seq<int>)

  /** An EXCEPTION_RECORD: its code and the rest of its payload, uninterpreted. */
  datatype ExceptionRecord = ExceptionRecord(code: UInt32, details: seq<int>)

  /** MANUALSEH_DATA: one saved snapshot, its active flag and its owning thread. */
  datatype Entry = Entry(savedContext: Context, active: bool, threadId: ThreadId)

  /** MANUALSEH_RECORD: the last fault seen on a thread; owned while threadId is not NULL. */
  datatype Record = Record(contextRecord: Context, exceptionRecord: ExceptionRecord, threadId: ThreadId)

  /** The all-zero context, exception record and slots that RtlZeroMemory leaves behind. */
  const ZeroContext: Context := Context(0, [])
  const ZeroException: ExceptionRecord := ExceptionRecord(0, [])
  const ZeroEntry: Entry := Entry(ZeroContext, false, NullThread)
  const ZeroRecord: Record := Record(ZeroContext, ZeroException, NullThread)

  datatype Option<T> = None | Some(value: T)
}
