/** The size-rotated event log of the watchdog, under failing file operations and sudden stops. */
module EventLog {
  import opened Sequences

  const MAX_BYTES := 50 * 1024 * 1024
  const BACKUPS: nat := 5

  /** One event is one line. */
  datatype Event = Event(line: string)

  /** The log and its numbered backups; missing files are absent. */
  datatype Files = Files(current: Option<seq<Event>>, backups: map<nat, seq<Event>>)

  /** The file operations of one append. */
  datatype Op = GetSize | Unlink | Rename(from: nat) | RenameCurrent | Append

  /** An operation raises OSError, or the process stops just before it. */
  datatype Fault = Fails | Stops

  datatype Outcome = Done | Aborted | Stopped

  function Bytes(log: seq<Event>): nat {
    if log == [] then 0 else |log[0].line| + 1 + Bytes(log[1..])
  }

  // One append, as a function of the files and the faults

  function Faulty(f: Files, fault: Fault): (Files, Outcome) {
    (f, if fault == Fails then Aborted else Stopped)
  }

  /** The renames from `.i` upwards in number, that is `.i` to `.i+1`, then the next lower one, then the log itself. */
  function Shift(f: Files, i: nat, faults: map<Op, Fault>): (Files, Outcome)
    decreases i
  {
    if i == 0 then
      if RenameCurrent in faults then Faulty(f, faults[RenameCurrent])
      else if f.current.None? then (f, Aborted)
      else (Files(None, f.backups[1 := f.current.value]), Done)
    else if i !in f.backups then Shift(f, i - 1, faults)
    else if Rename(i) in faults then Faulty(f, faults[Rename(i)])
    else Shift(f.(backups := f.backups[i + 1 := f.backups[i]] - {i}), i - 1, faults)
  }

  predicate Oversized(f: Files) {
    f.current.Some? && Bytes(f.current.value) > MAX_BYTES
  }

  function Rotate(f: Files, faults: map<Op, Fault>): (Files, Outcome) {
    if GetSize in faults then Faulty(f, faults[GetSize])
    else if !Oversized(f) then (f, Done)
    else if BACKUPS in f.backups then
      if Unlink in faults then Faulty(f, faults[Unlink])
      else Shift(f.(backups := f.backups - {BACKUPS}), BACKUPS - 1, faults)
    else Shift(f, BACKUPS - 1, faults)
  }

  function Written(f: Files, e: Event): Files {
    f.(current := Some((if f.current.Some? then f.current.value else []) + [e]))
  }

  /** The files after one call, and whether the event was written. */
  function AppendResult(f: Files, e: Event, faults: map<Op, Fault>): (Files, bool) {
    var (g, outcome) := Rotate(f, faults);
    if outcome == Stopped || Append in faults then (g, false) else (Written(g, e), true)
  }

  class Log {
    var current: Option<seq<Event>>
    var backups: map<nat, seq<Event>>

    ghost function State(): Files
      reads this
    {
      Files(current, backups)
    }

    method AppendEvent(e: Event, faults: map<Op, Fault>) returns (written: bool)
      modifies this
      ensures (State(), written) == AppendResult(old(State()), e, faults)
    {
      var outcome := RotateIfOversized(faults);
      // a failed rotation only means going on with the oversized file
      if outcome == Stopped || Append in faults {
        return false;
      }
      current := Some((if current.Some? then current.value else []) + [e]);
      return true;
    }

    method RotateIfOversized(faults: map<Op, Fault>) returns (outcome: Outcome)
      modifies this
      ensures (State(), outcome) == Rotate(old(State()), faults)
    {
      if GetSize in faults {
        return if faults[GetSize] == Fails then Aborted else Stopped;
      }
      if current.None? {
        return Done;
      }
      var size := LogSize(current.value);
      if size <= MAX_BYTES {
        return Done;
      }
      if BACKUPS in backups {
        if Unlink in faults {
          return if faults[Unlink] == Fails then Aborted else Stopped;
        }
        backups := backups - {BACKUPS};
      }
      ghost var f := State();
      for i := BACKUPS - 1 downto 0
        invariant Shift(State(), i, faults) == Shift(f, BACKUPS - 1, faults)
        invariant current == f.current
      {
        var src := i + 1;
        if src in backups {
          if Rename(src) in faults {
            return if faults[Rename(src)] == Fails then Aborted else Stopped;
          }
          backups := backups[src + 1 := backups[src]] - {src};
        }
      }
      if RenameCurrent in faults {
        return if faults[RenameCurrent] == Fails then Aborted else Stopped;
      }
      backups := backups[1 := current.value];
      current := None;
      return Done;
    }
  }

  method LogSize(log: seq<Event>) returns (size: nat)
    ensures size == Bytes(log)
  {
    size := 0;
    for i := 0 to |log|
      invariant size + Bytes(log[i..]) == Bytes(log)
    {
      assert log[i..][1..] == log[i + 1..];
      size := size + |log[i].line| + 1;
    }
    assert log[|log|..] == [];
  }

  // Reading the log back

  function Backup(backups: map<nat, seq<Event>>, k: nat): seq<Event> {
    if k in backups then backups[k] else []
  }

  /** `.k` down to `.1`. */
  function ReadBackups(backups: map<nat, seq<Event>>, k: nat): seq<Event> {
    if k == 0 then [] else Backup(backups, k) + ReadBackups(backups, k - 1)
  }

  /** `.5` to `.1`, then the current log. */
  function Readable(f: Files): seq<Event> {
    ReadBackups(f.backups, BACKUPS) + (if f.current.Some? then f.current.value else [])
  }

  ghost predicate Suffix(a: seq<Event>, b: seq<Event>) {
    |a| <= |b| && a == b[|b| - |a|..]
  }

  lemma {:induction false} ReadBackupsAgree(a: map<nat, seq<Event>>, b: map<nat, seq<Event>>, k: nat)
    requires forall j :: 1 <= j <= k ==> Backup(a, j) == Backup(b, j)
    ensures ReadBackups(a, k) == ReadBackups(b, k)
  {
    if k > 0 {
      ReadBackupsAgree(a, b, k - 1);
    }
  }

  /** Moving a backup up into an empty slot does not change what is read. */
  lemma {:induction false} MovingUpKeeps(backups: map<nat, seq<Event>>, i: nat, k: nat)
    requires 1 <= i < k && i in backups && i + 1 !in backups
    ensures ReadBackups(backups[i + 1 := backups[i]] - {i}, k) == ReadBackups(backups, k)
  {
    var moved := backups[i + 1 := backups[i]] - {i};
    if k == i + 1 {
      ReadBackupsAgree(moved, backups, i - 1);
      assert ReadBackups(moved, k) == backups[i] + ([] + ReadBackups(moved, i - 1));
      assert ReadBackups(backups, k) == [] + (backups[i] + ReadBackups(backups, i - 1));
    } else {
      MovingUpKeeps(backups, i, k - 1);
    }
  }

  /** Wherever the renames are interrupted, the log reads the same. */
  lemma {:induction false} ShiftKeeps(f: Files, i: nat, faults: map<Op, Fault>)
    requires i < BACKUPS && i + 1 !in f.backups
    ensures Readable(Shift(f, i, faults).0) == Readable(f)
    decreases i
  {
    if i == 0 {
      if RenameCurrent !in faults && f.current.Some? {
        var g := f.backups[1 := f.current.value];
        MovingInKeeps(f.backups, f.current.value, BACKUPS);
        assert ReadBackups(g, BACKUPS) + [] == ReadBackups(g, BACKUPS);
      }
    } else if i !in f.backups {
      ShiftKeeps(f, i - 1, faults);
    } else if Rename(i) !in faults {
      MovingUpKeeps(f.backups, i, BACKUPS);
      ShiftKeeps(f.(backups := f.backups[i + 1 := f.backups[i]] - {i}), i - 1, faults);
    }
  }

  lemma {:induction false} MovingInKeeps(backups: map<nat, seq<Event>>, log: seq<Event>, k: nat)
    requires 1 <= k && 1 !in backups
    ensures ReadBackups(backups[1 := log], k) == ReadBackups(backups, k) + log
  {
    if k == 1 {
      assert ReadBackups(backups[1 := log], 0) == [] && ReadBackups(backups, 0) == [];
      assert log + [] == log && [] + log == log;
    } else {
      MovingInKeeps(backups, log, k - 1);
      assert Backup(backups, k) + (ReadBackups(backups, k - 1) + log) ==
             (Backup(backups, k) + ReadBackups(backups, k - 1)) + log;
    }
  }

  /** Only removing `.5` loses anything, and it loses exactly that file, the oldest part. */
  lemma RotateDropsOldest(f: Files, faults: map<Op, Fault>)
    ensures var g := Rotate(f, faults).0;
      || Readable(g) == Readable(f)
      || (BACKUPS in f.backups && Oversized(f) && Readable(f) == f.backups[BACKUPS] + Readable(g))
  {
    hide Shift, Readable, Bytes;
    if GetSize !in faults && Oversized(f) {
      if BACKUPS !in f.backups {
        ShiftKeeps(f, BACKUPS - 1, faults);
      } else if Unlink !in faults {
        var less := f.(backups := f.backups - {BACKUPS});
        ShiftKeeps(less, BACKUPS - 1, faults);
        UnlinkDrops(f);
      }
    }
  }

  lemma UnlinkDrops(f: Files)
    requires BACKUPS in f.backups
    ensures Readable(f) == f.backups[BACKUPS] + Readable(f.(backups := f.backups - {BACKUPS}))
  {
    var less := f.backups - {BACKUPS};
    var current := if f.current.Some? then f.current.value else [];
    ReadBackupsAgree(less, f.backups, BACKUPS - 1);
    var rest := ReadBackups(f.backups, BACKUPS - 1);
    assert ReadBackups(less, BACKUPS) == [] + rest == rest;
    assert ReadBackups(f.backups, BACKUPS) == f.backups[BACKUPS] + rest;
    assert f.backups[BACKUPS] + (rest + current) == (f.backups[BACKUPS] + rest) + current;
  }

  lemma WrittenReads(f: Files, e: Event)
    ensures Readable(Written(f, e)) == Readable(f) + [e]
  {
    var log := if f.current.Some? then f.current.value else [];
    assert ReadBackups(f.backups, BACKUPS) + (log + [e]) == (ReadBackups(f.backups, BACKUPS) + log) + [e];
  }

  // Whole runs

  datatype Call = Call(e: Event, faults: map<Op, Fault>)

  function Run(calls: seq<Call>): Files {
    if calls == [] then Files(None, map[])
    else
      var last := calls[|calls| - 1];
      AppendResult(Run(calls[..|calls| - 1]), last.e, last.faults).0
  }

  /** The events that were written, in order. */
  function Appended(calls: seq<Call>): seq<Event> {
    if calls == [] then []
    else
      var before, last := calls[..|calls| - 1], calls[|calls| - 1];
      Appended(before) + if AppendResult(Run(before), last.e, last.faults).1 then [last.e] else []
  }

  /** Whatever fails and wherever a process stops, the files read back as a suffix of the events written. */
  lemma {:induction false} LogIsSuffix(calls: seq<Call>)
    ensures Suffix(Readable(Run(calls)), Appended(calls))
  {
    if calls == [] {
      assert ReadBackups(map[], BACKUPS) == [] by { NoBackups(BACKUPS); }
    } else {
      var before, last := calls[..|calls| - 1], calls[|calls| - 1];
      LogIsSuffix(before);
      CallKeepsSuffix(Run(before), last, Appended(before));
      assert Appended(before) + [] == Appended(before);
    }
  }

  lemma CallKeepsSuffix(f: Files, c: Call, log: seq<Event>)
    requires Suffix(Readable(f), log)
    ensures var (g, written) := AppendResult(f, c.e, c.faults);
      Suffix(Readable(g), log + if written then [c.e] else [])
  {
    hide Readable, Rotate, Written;
    var g := Rotate(f, c.faults).0;
    RotateDropsOldest(f, c.faults);
    if Readable(g) != Readable(f) {
      SuffixOfSuffix(f.backups[BACKUPS], Readable(g), log);
    }
    WrittenReads(g, c.e);
    SuffixSnoc(Readable(g), log, c.e);
    assert log + [] == log;
  }

  lemma SuffixOfSuffix(a: seq<Event>, b: seq<Event>, log: seq<Event>)
    requires Suffix(a + b, log)
    ensures Suffix(b, log)
  {
    assert b == (a + b)[|a|..];
  }

  lemma SuffixSnoc(a: seq<Event>, log: seq<Event>, e: Event)
    requires Suffix(a, log)
    ensures Suffix(a + [e], log + [e])
  {
  }

  lemma {:induction false} NoBackups(k: nat)
    ensures ReadBackups(map[], k) == []
  {
    if k > 0 {
      NoBackups(k - 1);
    }
  }

  // Without faults

  /** Backups fill the slots from 1 on, and each was over the limit when it was moved there. */
  ghost predicate Packed(f: Files, n: nat) {
    && n <= BACKUPS
    && (forall k: nat :: k in f.backups <==> 1 <= k <= n)
    && (forall k :: k in f.backups ==> Bytes(f.backups[k]) > MAX_BYTES)
  }

  function Look(backups: map<nat, seq<Event>>, k: nat): Option<seq<Event>> {
    if k in backups then Some(backups[k]) else None
  }

  /** What a full shift from i leaves in slot k. */
  function Shifted(f: Files, i: nat, k: nat): Option<seq<Event>> {
    if k == 0 then None
    else if k == 1 then f.current
    else if k <= i + 1 then Look(f.backups, k - 1)
    else Look(f.backups, k)
  }

  /** The shift moves every backup at or below i up by one and the log into the first slot. */
  lemma {:induction false} ShiftMoves(f: Files, i: nat)
    requires f.current.Some? && i + 1 !in f.backups && 0 !in f.backups
    ensures var (g, outcome) := Shift(f, i, map[]);
      outcome == Done && g.current.None? && forall k :: Look(g.backups, k) == Shifted(f, i, k)
    decreases i
  {
    if i > 0 {
      if i in f.backups {
        var moved := f.(backups := f.backups[i + 1 := f.backups[i]] - {i});
        ShiftMoves(moved, i - 1);
        assert forall k :: Shifted(moved, i - 1, k) == Shifted(f, i, k);
      } else {
        ShiftMoves(f, i - 1);
        assert forall k :: Shifted(f, i - 1, k) == Shifted(f, i, k);
      }
    }
  }

  lemma RotatePacks(f: Files, n: nat)
    requires Packed(f, n) && Oversized(f)
    ensures Packed(Rotate(f, map[]).0, if n < BACKUPS then n + 1 else BACKUPS)
    ensures Rotate(f, map[]).1 == Done
  {
    var less := f.(backups := f.backups - {BACKUPS});
    if BACKUPS !in f.backups {
      assert less.backups == f.backups;
      assert less == f;
    }
    ShiftMoves(less, BACKUPS - 1);
    var g := Rotate(f, map[]).0;
    assert g == Shift(less, BACKUPS - 1, map[]).0;
    forall k: nat ensures k in g.backups <==> 1 <= k <= (if n < BACKUPS then n + 1 else BACKUPS) {
      assert Look(g.backups, k) == Shifted(less, BACKUPS - 1, k);
    }
    forall k | k in g.backups ensures Bytes(g.backups[k]) > MAX_BYTES {
      assert Look(g.backups, k) == Shifted(less, BACKUPS - 1, k);
    }
  }

  ghost predicate FaultFree(calls: seq<Call>) {
    forall c :: c in calls ==> c.faults == map[]
  }

  /** Without faults, events are missing only while more than five times the limit is kept after them. */
  lemma {:induction false} DroppedOnlyWhenFull(calls: seq<Call>) returns (n: nat)
    requires FaultFree(calls)
    ensures Packed(Run(calls), n)
    ensures Readable(Run(calls)) != Appended(calls) ==>
      n == BACKUPS && Bytes(Readable(Run(calls))) > BACKUPS * MAX_BYTES
  {
    if calls == [] {
      n := 0;
      NoBackups(BACKUPS);
    } else {
      var before, last := calls[..|calls| - 1], calls[|calls| - 1];
      assert last in calls;
      var m := DroppedOnlyWhenFull(before);
      var f := Run(before);
      n := if !Oversized(f) then m else if m < BACKUPS then m + 1 else BACKUPS;
      if Oversized(f) {
        RotatePacks(f, m);
      }
      var g := Rotate(f, map[]).0;
      RotateDropsOldest(f, map[]);
      WrittenReads(g, last.e);
      if n == BACKUPS {
        PackedIsLarge(Written(g, last.e), n);
      }
    }
  }

  lemma {:induction false} BytesConcat(a: seq<Event>, b: seq<Event>)
    ensures Bytes(a + b) == Bytes(a) + Bytes(b)
  {
    if a == [] {
      assert a + b == b;
    } else {
      assert (a + b)[1..] == a[1..] + b;
      BytesConcat(a[1..], b);
    }
  }

  lemma PackedIsLarge(f: Files, n: nat)
    requires Packed(f, n)
    ensures Bytes(Readable(f)) >= n * MAX_BYTES && (n > 0 ==> Bytes(Readable(f)) > n * MAX_BYTES)
  {
    PackedBytes(f, n, BACKUPS);
    BytesConcat(ReadBackups(f.backups, BACKUPS), if f.current.Some? then f.current.value else []);
  }

  lemma {:induction false} PackedBytes(f: Files, n: nat, k: nat)
    requires Packed(f, n) && k <= BACKUPS
    ensures var kept := if k < n then k else n;
      Bytes(ReadBackups(f.backups, k)) >= kept * MAX_BYTES + kept
  {
    if k > 0 {
      PackedBytes(f, n, k - 1);
      BytesConcat(Backup(f.backups, k), ReadBackups(f.backups, k - 1));
      assert k * MAX_BYTES == (k - 1) * MAX_BYTES + MAX_BYTES;
      assert k <= n ==> Bytes(Backup(f.backups, k)) > MAX_BYTES;
      hide Bytes, ReadBackups, Backup;
    }
  }
}
