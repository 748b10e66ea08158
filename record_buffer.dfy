// The diagnostic record table of ManualSEH.cpp as a value: the scans of
// ManualSehPushRecord and ManualSehGetCurrentRecord and what they guarantee.

module RecordBuffer {
  import opened SehTypes

  /** A record slot is owned while its thread identifier is not NULL. */
  predicate Owned(r: Record)
  {
    r.threadId != NullThread
  }

  /** The slot ManualSehPushRecord writes: the first one owned by the thread or by nobody. */
  function RecordSlot(s: seq<Record>, tid: ThreadId): (r: Option<nat>)
    ensures r.Some? ==> r.value < |s| && (s[r.value].threadId == tid || !Owned(s[r.value]))
    ensures r.Some? ==> forall j :: 0 <= j < r.value ==> s[j].threadId != tid && Owned(s[j])
    ensures r.None? ==> forall j :: 0 <= j < |s| ==> s[j].threadId != tid && Owned(s[j])
  {
    if |s| == 0 then None
    else if s[0].threadId == tid || !Owned(s[0]) then Some(0)
    else match RecordSlot(s[1..], tid)
      case None => None
      case Some(j) => Some(j + 1)
  }

  /** The slot ManualSehGetCurrentRecord returns: the first one whose owner is the thread. */
  function RecordIndex(s: seq<Record>, tid: ThreadId): (r: Option<nat>)
    ensures r.Some? ==> r.value < |s| && s[r.value].threadId == tid
    ensures r.Some? ==> forall j :: 0 <= j < r.value ==> s[j].threadId != tid
    ensures r.None? ==> forall j :: 0 <= j < |s| ==> s[j].threadId != tid
  {
    if |s| == 0 then None
    else if s[0].threadId == tid then Some(0)
    else match RecordIndex(s[1..], tid)
      case None => None
      case Some(j) => Some(j + 1)
  }

  /** The table after ManualSehPushRecord: the chosen slot is overwritten and stamped. */
  function RecordPushed(s: seq<Record>, ctx: Context, exc: ExceptionRecord, tid: ThreadId): (r: seq<Record>)
    ensures |r| == |s|
  {
    match RecordSlot(s, tid)
    case None => s
    case Some(i) => s[i := Record(ctx, exc, tid)]
  }

  /** The table RtlZeroMemory leaves: no slot owned. */
  function ZeroedRecords(n: nat): (r: seq<Record>)
    ensures |r| == n
  {
    seq(n, _ => ZeroRecord)
  }

  /**
   * The shape every reachable record table has: the owned slots form a
   * prefix of the table, and no thread owns two slots.
   */
  predicate WellFormed(s: seq<Record>)
  {
    (forall i, j :: 0 <= i < j < |s| && Owned(s[j]) ==> Owned(s[i])) &&
    (forall i, j :: 0 <= i < j < |s| && Owned(s[i]) ==> s[i].threadId != s[j].threadId)
  }

  lemma ZeroedWellFormed(n: nat, tid: ThreadId)
    requires tid != NullThread
    ensures WellFormed(ZeroedRecords(n))
    ensures RecordIndex(ZeroedRecords(n), tid).None?
  {
  }

  /** ManualSehPushRecord keeps the owned slots a prefix, one slot per thread. */
  lemma PushKeepsWellFormed(s: seq<Record>, ctx: Context, exc: ExceptionRecord, tid: ThreadId)
    requires WellFormed(s)
    ensures WellFormed(RecordPushed(s, ctx, exc, tid))
  {
    match RecordSlot(s, tid)
    case None =>
    case Some(p) =>
      var r := RecordPushed(s, ctx, exc, tid);
      assert r == s[p := Record(ctx, exc, tid)];
      if Owned(s[p]) {
        assert s[p].threadId == tid;
      } else {
        assert forall j :: p < j < |s| ==> !Owned(s[j]);
      }
      forall i, j | 0 <= i < j < |r| && Owned(r[j])
        ensures Owned(r[i])
      {
        if i != p && j != p {
          assert Owned(s[j]);
        }
      }
  }

  /** Under a well-formed table, a push finds no slot exactly when every slot belongs to another thread. */
  lemma PushFailsIffFullOfOthers(s: seq<Record>, tid: ThreadId)
    requires WellFormed(s) && |s| > 0
    ensures RecordSlot(s, tid).None? <==> Owned(s[|s| - 1]) && RecordIndex(s, tid).None?
  {
    if Owned(s[|s| - 1]) {
      assert forall j :: 0 <= j < |s| ==> Owned(s[j]);
    }
  }

  /** What a push stores is what the lookup for the same thread returns. */
  lemma PushThenLookup(s: seq<Record>, ctx: Context, exc: ExceptionRecord, tid: ThreadId)
    requires RecordSlot(s, tid).Some?
    ensures var r := RecordPushed(s, ctx, exc, tid);
      RecordIndex(r, tid) == RecordSlot(s, tid) &&
      r[RecordSlot(s, tid).value] == Record(ctx, exc, tid)
  {
    var p := RecordSlot(s, tid).value;
    var r := RecordPushed(s, ctx, exc, tid);
    assert r[p].threadId == tid;
    var q := RecordIndex(r, tid);
    assert q.Some? && q.value <= p;
  }

  /**
   * A second fault on the same thread overwrites the slot of the first:
   * only the second context and exception remain retrievable.
   */
  lemma SecondFaultOverwrites(s: seq<Record>, c1: Context, e1: ExceptionRecord,
                              c2: Context, e2: ExceptionRecord, tid: ThreadId)
    requires RecordSlot(s, tid).Some?
    ensures var p := RecordSlot(s, tid).value;
      var r := RecordPushed(RecordPushed(s, c1, e1, tid), c2, e2, tid);
      r == s[p := Record(c2, e2, tid)] &&
      RecordIndex(r, tid) == Some(p)
  {
    var p := RecordSlot(s, tid).value;
    var r1 := RecordPushed(s, c1, e1, tid);
    PushThenLookup(s, c1, e1, tid);
    assert RecordSlot(r1, tid) == Some(p) by {
      assert r1[p].threadId == tid;
      assert forall j :: 0 <= j < p ==> r1[j] == s[j];
    }
    PushThenLookup(r1, c2, e2, tid);
  }

  /** A push by one thread never changes what another (non-NULL) thread looks up. */
  lemma OtherThreadLookupUnaffected(s: seq<Record>, ctx: Context, exc: ExceptionRecord,
                                    tid: ThreadId, other: ThreadId)
    requires other != tid && other != NullThread
    ensures RecordIndex(RecordPushed(s, ctx, exc, tid), other) == RecordIndex(s, other)
  {
    var r := RecordPushed(s, ctx, exc, tid);
    assert forall j :: 0 <= j < |s| ==> (r[j].threadId == other <==> s[j].threadId == other);
    var a := RecordIndex(s, other);
    if a.Some? {
      assert r[a.value].threadId == other;
    }
    var b := RecordIndex(r, other);
    if b.Some? {
      assert s[b.value].threadId == other;
    }
  }
}
