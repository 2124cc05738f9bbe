/** Which calls write their event, and how large the log can grow. */
module EventLogWrites {
  import opened Sequences
  import opened EventLog

  // The operations a call comes to

  /** The renames of the backups that exist, from `.i` down. */
  function Renames(f: Files, i: nat): seq<Op> {
    if i == 0 then []
    else (if i in f.backups then [Rename(i)] else []) + Renames(f, i - 1)
  }

  /** In order, when none of them fails: the size, and for an oversized log the unlink and the renames. */
  function Operations(f: Files): seq<Op> {
    [GetSize] +
    if f.current.None? || Bytes(f.current.value) <= 50 * 1024 * 1024 then []
    else (if 5 in f.backups then [Unlink] else []) + Renames(f, 4) + [RenameCurrent]
  }

  /** The first of them that does not succeed stops the process. */
  predicate Stopping(ops: seq<Op>, faults: map<Op, Fault>) {
    ops != [] && if ops[0] in faults then faults[ops[0]] == Stops else Stopping(ops[1..], faults)
  }

  ghost predicate StopsAt(ops: seq<Op>, faults: map<Op, Fault>, k: int) {
    0 <= k < |ops| && ops[k] in faults && faults[ops[k]] == Stops && forall j :: 0 <= j < k ==> !(ops[j] in faults)
  }

  lemma {:induction false} StoppingIff(ops: seq<Op>, faults: map<Op, Fault>)
    ensures Stopping(ops, faults) <==> exists k :: StopsAt(ops, faults, k)
  {
    if ops != [] {
      StoppingIff(ops[1..], faults);
      if ops[0] in faults {
        assert Stopping(ops, faults) ==> StopsAt(ops, faults, 0);
      } else {
        if k :| StopsAt(ops[1..], faults, k) {
          assert StopsAt(ops, faults, k + 1);
        }
        if k :| StopsAt(ops, faults, k) {
          assert k > 0 && StopsAt(ops[1..], faults, k - 1);
        }
      }
    }
  }

  lemma RenamesStep(f: Files, i: nat, more: seq<Op>)
    ensures i > 0 ==> Renames(f, i) + more == (if i in f.backups then [Rename(i)] else []) + (Renames(f, i - 1) + more)
    ensures Renames(f, 0) + more == more
  {
  }

  lemma {:induction false} RenamesAgree(f: Files, g: Files, i: nat)
    requires forall j :: 1 <= j <= i ==> (j in f.backups <==> j in g.backups)
    ensures Renames(f, i) == Renames(g, i)
  {
    if i > 0 {
      RenamesAgree(f, g, i - 1);
    }
  }

  lemma {:induction false} ShiftStopsIff(f: Files, i: nat, faults: map<Op, Fault>)
    requires f.current.Some?
    ensures Shift(f, i, faults).1 == Stopped <==> Stopping(Renames(f, i) + [RenameCurrent], faults)
    decreases i
  {
    RenamesStep(f, i, [RenameCurrent]);
    if i > 0 {
      var ops := Renames(f, i - 1) + [RenameCurrent];
      if i !in f.backups {
        assert [] + ops == ops;
        ShiftStopsIff(f, i - 1, faults);
      } else {
        assert ([Rename(i)] + ops)[1..] == ops;
        var g := f.(backups := f.backups[i + 1 := f.backups[i]] - {i});
        RenamesAgree(f, g, i - 1);
        ShiftStopsIff(g, i - 1, faults);
      }
    } else {
      assert [RenameCurrent][1..] == [];
    }
  }

  lemma RotateStopsIff(f: Files, faults: map<Op, Fault>)
    ensures Rotate(f, faults).1 == Stopped <==> Stopping(Operations(f), faults)
  {
    hide Shift, Renames, Bytes;
    var ops := Operations(f);
    assert ops[0] == GetSize;
    if GetSize !in faults && Oversized(f) {
      var renames := Renames(f, 4) + [RenameCurrent];
      ShiftStopsIff(f, 4, faults);
      if 5 in f.backups {
        var less := f.(backups := f.backups - {5});
        RenamesAgree(f, less, 4);
        ShiftStopsIff(less, 4, faults);
        assert ops[1..] == [Unlink] + renames && ([Unlink] + renames)[1..] == renames;
      } else {
        assert ops[1..] == renames;
      }
    } else {
      assert !Oversized(f) ==> ops[1..] == [];
    }
  }

  /**
   * A call's event is written exactly if the append does not fail and none of the operations it comes to
   * stops the process; a rotation that merely fails loses nothing. Then the event is what is read last,
   * and else nothing is.
   */
  lemma WrittenIff(f: Files, e: Event, faults: map<Op, Fault>)
    ensures var (g, written) := AppendResult(f, e, faults);
      && (written <==> !(Append in faults) && !(exists k :: StopsAt(Operations(f), faults, k)))
      && Readable(g) == Readable(Rotate(f, faults).0) + if written then [e] else []
  {
    hide Rotate, Operations, Written, Readable;
    RotateStopsIff(f, faults);
    StoppingIff(Operations(f), faults);
    WrittenReads(Rotate(f, faults).0, e);
    assert Readable(Rotate(f, faults).0) + [] == Readable(Rotate(f, faults).0);
  }

  /** The events of all calls, in order. */
  function EventsOf(calls: seq<Call>): seq<Event> {
    if calls == [] then [] else EventsOf(calls[..|calls| - 1]) + [calls[|calls| - 1].e]
  }

  /** Calls in which no append fails and no process stops: failing renames and unlinks are allowed. */
  ghost predicate Surviving(calls: seq<Call>) {
    forall c, op :: c in calls && op in c.faults ==> op != Append && c.faults[op] == Fails
  }

  /** Such calls write every event; without any fault in particular. */
  lemma {:induction false} EveryEventIsWritten(calls: seq<Call>)
    requires Surviving(calls)
    ensures Appended(calls) == EventsOf(calls)
  {
    if calls != [] {
      hide AppendResult, Run, Surviving;
      var before, last := calls[..|calls| - 1], calls[|calls| - 1];
      SurvivingCalls(calls);
      EveryEventIsWritten(before);
      SurvivingWrites(Run(before), last);
    }
  }

  ghost predicate Survives(c: Call) {
    forall op :: op in c.faults ==> op != Append && c.faults[op] == Fails
  }

  lemma SurvivingCalls(calls: seq<Call>)
    requires Surviving(calls) && calls != []
    ensures Surviving(calls[..|calls| - 1]) && Survives(calls[|calls| - 1])
  {
    assert calls[|calls| - 1] in calls;
  }

  lemma SurvivingWrites(f: Files, c: Call)
    requires Survives(c)
    ensures AppendResult(f, c.e, c.faults).1
  {
    WrittenIff(f, c.e, c.faults);
    hide AppendResult, Operations;
  }

  /**
   * Without faults what is read is the end of the sequence of all calls' events, and anything is missing
   * only while more than five times the limit is kept after it.
   */
  lemma FaultFreeLog(calls: seq<Call>)
    requires FaultFree(calls)
    ensures Suffix(Readable(Run(calls)), EventsOf(calls))
    ensures Readable(Run(calls)) != EventsOf(calls) ==> Bytes(Readable(Run(calls))) > 5 * 50 * 1024 * 1024
  {
    hide Readable, Run, Bytes, FaultFree, Surviving, Suffix, Appended, EventsOf, Packed;
    FaultFreeSurvives(calls);
    EveryEventIsWritten(calls);
    LogIsSuffix(calls);
    var n := DroppedOnlyWhenFull(calls);
  }

  lemma FaultFreeSurvives(calls: seq<Call>)
    requires FaultFree(calls)
    ensures Surviving(calls)
  {
  }

  // The log does not grow without bound

  /** The limit, and one event. */
  ghost predicate Bounded(f: Files, most: nat) {
    && (f.current.Some? ==> Bytes(f.current.value) <= 50 * 1024 * 1024 + most)
    && (forall k :: k in f.backups ==> 1 <= k <= 5 && Bytes(f.backups[k]) <= 50 * 1024 * 1024 + most)
  }

  lemma {:induction false} ShiftKeepsBound(f: Files, i: nat, faults: map<Op, Fault>, most: nat)
    requires Bounded(f, most) && i <= 4
    ensures Bounded(Shift(f, i, faults).0, most)
    decreases i
  {
    hide Bytes;
    if i > 0 {
      if i !in f.backups {
        ShiftKeepsBound(f, i - 1, faults, most);
      } else if Rename(i) !in faults {
        ShiftKeepsBound(f.(backups := f.backups[i + 1 := f.backups[i]] - {i}), i - 1, faults, most);
      }
    }
  }

  lemma RotateKeepsBound(f: Files, most: nat)
    requires Bounded(f, most) && (forall k :: k in f.backups ==> 1 <= k <= 5)
    ensures var g := Rotate(f, map[]).0;
      Bounded(g, most) && (g.current.Some? ==> Bytes(g.current.value) <= 50 * 1024 * 1024)
  {
    hide Bytes;
    var less := f.(backups := f.backups - {5});
    ShiftKeepsBound(f, 4, map[], most);
    ShiftKeepsBound(less, 4, map[], most);
    ShiftTakesCurrent(f, 4);
    ShiftTakesCurrent(less, 4);
    hide Shift;
  }

  lemma {:induction false} ShiftTakesCurrent(f: Files, i: nat)
    requires i <= 4
    ensures f.current.Some? ==> Shift(f, i, map[]).0.current.None?
    decreases i
  {
    if i > 0 {
      ShiftTakesCurrent(if i in f.backups then f.(backups := f.backups[i + 1 := f.backups[i]] - {i}) else f, i - 1);
    }
  }

  /**
   * Without faults no file exceeds the limit by more than one event, and there are never more than five
   * backups.
   */
  lemma {:induction false} LogIsBounded(calls: seq<Call>, most: nat)
    requires FaultFree(calls) && forall c :: c in calls ==> |c.e.line| + 1 <= most
    ensures Bounded(Run(calls), most)
  {
    if calls != [] {
      var before, last := calls[..|calls| - 1], calls[|calls| - 1];
      assert last in calls;
      LogIsBounded(before, most);
      RotateKeepsBound(Run(before), most);
      var g := Rotate(Run(before), map[]).0;
      var log := if g.current.Some? then g.current.value else [];
      BytesConcat(log, [last.e]);
      OneEvent(last.e);
      WrittenIff(Run(before), last.e, map[]);
      hide Rotate, Bytes;
    }
  }

  lemma OneEvent(e: Event)
    ensures Bytes([e]) == |e.line| + 1 && Bytes([]) == 0
  {
    assert [e][1..] == [];
  }
}
