/** What the daemon remembers: sync times in memory and on file, the cache and the cycle count, over whole runs. */
module PinSyncTimes {
  import opened Sequences
  import opened PinningClient
  import opened PinSync
  import opened PinSyncCycle
  import opened PinSyncRuns

  ghost predicate CompletesInRun(w: World, events: seq<Event>, i: nat)
    requires i < |events|
  {
    CompletesAt(Run(w, events[..i]), events[i])
  }

  ghost predicate SavesInRun(w: World, events: seq<Event>, i: nat)
    requires i < |events|
  {
    CompletesInRun(w, events, i) && events[i].inp.persistOk
  }

  lemma StillSo(w: World, events: seq<Event>, i: nat)
    requires i < |events| - 1
    ensures CompletesInRun(w, events, i) <==> CompletesInRun(w, events[..|events| - 1], i)
    ensures SavesInRun(w, events, i) <==> SavesInRun(w, events[..|events| - 1], i)
  {
    assert events[..|events| - 1][..i] == events[..i];
    hide CompletesAt;
  }

  /**
   * However cycles, failures and restarts go on, the file holds the start of the last completed cycle
   * whose write succeeded, to the second.
   */
  lemma {:induction false} FileHoldsLastSave(w: World, events: seq<Event>, i: nat)
    requires i < |events| && SavesInRun(w, events, i)
    requires forall j :: i < j < |events| ==> !SavesInRun(w, events, j)
    ensures var t, file := events[i].inp.start, Run(w, events).lastSyncFile;
      file.Some? && file.value % SECOND == 0 && file.value <= t < file.value + SECOND
  {
    hide SavesInRun, CompletesAt;
    var n := |events| - 1;
    if i == n {
      SaveWrites(w, events);
    } else {
      forall j | i <= j < n ensures SavesInRun(w, events, j) <==> SavesInRun(w, events[..n], j) {
        StillSo(w, events, j);
      }
      FileHoldsLastSave(w, events[..n], i);
      NoSaveKeepsFile(w, events);
    }
  }

  lemma SaveWrites(w: World, events: seq<Event>)
    requires events != [] && SavesInRun(w, events, |events| - 1)
    ensures var t, file := events[|events| - 1].inp.start, Run(w, events).lastSyncFile;
      file.Some? && file.value % SECOND == 0 && file.value <= t < file.value + SECOND
  {
    hide PinLoop, Fetch, Latest;
    WholeSecond(events[|events| - 1].inp.start);
  }

  lemma WholeSecond(t: Instant)
    ensures var s := FormattedInstant(t); s % SECOND == 0 && s <= t < s + SECOND
  {
    assert t == SECOND * (t / SECOND) + t % SECOND;
    assert (SECOND * (t / SECOND)) % SECOND == 0;
  }

  lemma NoSaveKeepsFile(w: World, events: seq<Event>)
    requires events != [] && !SavesInRun(w, events, |events| - 1)
    ensures Run(w, events).lastSyncFile == Run(w, events[..|events| - 1]).lastSyncFile
  {
    hide PinLoop, Fetch, Latest;
  }

  /** Within a process the sync time is the start of its last completed cycle. */
  lemma {:induction false} MemoryHoldsLastStart(w: World, events: seq<Event>, i: nat)
    requires i < |events| && CompletesInRun(w, events, i)
    requires forall j :: i < j < |events| ==> !CompletesInRun(w, events, j) && !events[j].Restart?
    ensures Run(w, events).lastSyncAt == events[i].inp.start
  {
    hide CompletesInRun, CompletesAt;
    var n := |events| - 1;
    if i == n {
      CompletionNotes(w, events);
    } else {
      forall j | i <= j < n ensures CompletesInRun(w, events, j) <==> CompletesInRun(w, events[..n], j) {
        StillSo(w, events, j);
      }
      MemoryHoldsLastStart(w, events[..n], i);
      NoCompletionKeepsTime(w, events);
    }
  }

  lemma CompletionNotes(w: World, events: seq<Event>)
    requires events != [] && CompletesInRun(w, events, |events| - 1)
    ensures Run(w, events).lastSyncAt == events[|events| - 1].inp.start
  {
    hide PinLoop, Fetch, Latest;
  }

  lemma NoCompletionKeepsTime(w: World, events: seq<Event>)
    requires events != [] && !CompletesInRun(w, events, |events| - 1) && !events[|events| - 1].Restart?
    ensures Run(w, events).lastSyncAt == Run(w, events[..|events| - 1]).lastSyncAt
  {
    hide PinLoop, Fetch, Latest;
  }

  /** From which instant on an incremental cycle sees the listing, in whole seconds. */
  lemma IncrementalSees(w: World, inp: CycleInput, p: Pin)
    requires !FetchesAll(w, inp) && Whole(inp.listing)
    ensures Fetch(w, inp).Some?
    ensures var asked := (w.lastSyncAt - MINUTE) / SECOND * SECOND;
      p in Fetch(w, inp).value <==> p in inp.listing && (w.lastSyncAt == MINUTE || p.created > asked)
  {
    var t := w.lastSyncAt - MINUTE;
    assert t == t / SECOND * SECOND + t % SECOND;
    FetchIsSince(w, inp);
    FilterMembers(inp.listing, Within(None, FetchedFrom(w, inp)));
    hide Fetch, PageBreaksClean;
  }

  /**
   * A process that starts without noticing a reset sees, in an incremental first cycle, exactly what
   * is stamped later than a minute before the second in which the last saved cycle began.
   */
  lemma RestartGoesOnFromLastSave(w: World, events: seq<Event>, i: nat, pinLsAnswers: bool,
                                  inp: CycleInput, p: Pin)
    requires i < |events| && SavesInRun(w, events, i)
    requires forall j :: i < j < |events| ==> !SavesInRun(w, events, j)
    requires !(pinLsAnswers && Run(w, events).kubo == {}) && events[i].inp.start >= SECOND
    requires Whole(inp.listing) && inp.sinceAnswers
    ensures var asked := events[i].inp.start / SECOND * SECOND - MINUTE;
      var v := Restarted(Run(w, events), pinLsAnswers);
      && Fetch(v, inp).Some?
      && (p in Fetch(v, inp).value <==> p in inp.listing && (asked == 0 || p.created > asked))
  {
    SavesIsSync(w, events, i);
    hide SavesInRun, Fetch, Run, Whole;
    FileHoldsLastSave(w, events, i);
    SameSecond(events[i].inp.start, Run(w, events).lastSyncFile.value);
    IncrementalSees(Restarted(Run(w, events), pinLsAnswers), inp, p);
  }

  lemma SavesIsSync(w: World, events: seq<Event>, i: nat)
    requires i < |events| && SavesInRun(w, events, i)
    ensures events[i].Sync?
  {
  }

  lemma SameSecond(t: nat, s: nat)
    requires s % SECOND == 0 && s <= t < s + SECOND
    ensures t / SECOND * SECOND == s && (s - MINUTE) / SECOND * SECOND == s - MINUTE
  {
    assert s == SECOND * (s / SECOND);
    assert t / SECOND == s / SECOND;
    assert (s - MINUTE) % SECOND == 0;
  }

  // Which cycles complete

  /**
   * A cycle asks incrementally exactly if a sync time is known and it is not a tenth one. It completes
   * exactly if that query or, where it is not asked or fails, the full one is answered, kubo lists its
   * pins, and no cancellation comes before the end of what was fetched.
   */
  lemma CompletesIff(w: World, inp: CycleInput)
    ensures var asks := w.lastSyncAt != 0 && (w.syncCycle + 1) % 10 != 0;
      && (Fetch(w, inp).Some? <==> (asks && inp.sinceAnswers) || inp.allAnswers)
      && (FetchesAll(w, inp) <==> !(asks && inp.sinceAnswers))
      && (Completes(w, inp) <==>
            && ((asks && inp.sinceAnswers) || inp.allAnswers) && inp.pinLsAnswers
            && (inp.cancelAt.Some? ==> inp.cancelAt.value >= |Fetch(w, inp).value|))
  {
    hide PinLoop, ListPins, Latest;
  }

  // Cache and count

  /** A run in one process since a completed cycle, in which nothing else touches kubo. */
  ghost predicate OneProcess(events: seq<Event>) {
    forall e :: e in events ==> !e.Restart? && !e.KuboBecomes?
  }

  /** From a completed cycle on the cache holds exactly what kubo has. */
  lemma {:induction false} CacheIsKubo(w: World, inp: CycleInput, events: seq<Event>)
    requires Completes(w, inp) && OneProcess(events)
    ensures var v := Run(Cycle(w, inp).0, events); v.pinnedCIDs == v.kubo
  {
    if events == [] {
      CompletedMirrors(w, inp);
    } else {
      var before, e := events[..|events| - 1], events[|events| - 1];
      assert e in events;
      CacheIsKubo(w, inp, before);
      var v := Run(Cycle(w, inp).0, before);
      if e.Sync? && Completes(v, e.inp) {
        CompletedMirrors(v, e.inp);
      } else if e.Sync? {
        CutShortMirrors(v, e.inp);
      }
      hide Cycle;
    }
  }

  lemma CompletedMirrors(w: World, inp: CycleInput)
    requires Completes(w, inp)
    ensures Cycle(w, inp).0.pinnedCIDs == Cycle(w, inp).0.kubo
  {
    var fetched := Fetch(w, inp).value;
    PinnedByFirst(PinRegistryFirst(w.kubo, Latest(fetched), inp.registryAddOk), fetched, inp.addFails, |fetched|);
    hide PinFirst, Fetch, Latest;
  }

  lemma CutShortMirrors(w: World, inp: CycleInput)
    requires !Completes(w, inp) && w.pinnedCIDs == w.kubo
    ensures Cycle(w, inp).0.pinnedCIDs == Cycle(w, inp).0.kubo
  {
    if Fetch(w, inp).Some? && inp.pinLsAnswers {
      var fetched := Fetch(w, inp).value;
      var s := PinRegistryFirst(w.kubo, Latest(fetched), inp.registryAddOk);
      PinnedByFirst(s, fetched, inp.addFails, inp.cancelAt.value);
      hide PinFirst, Fetch, Latest;
    }
  }

  /** The number of cycles a process has begun. */
  function Begun(events: seq<Event>): nat {
    if events == [] || events[|events| - 1].Restart? then 0
    else Begun(events[..|events| - 1]) + if events[|events| - 1].Sync? then 1 else 0
  }

  /** Every cycle counts, completed or not, and a new process starts over with an empty cache. */
  lemma {:induction false} CyclesAreCounted(w: World, events: seq<Event>, pinLsAnswers: bool)
    ensures Run(Restarted(w, pinLsAnswers), events).syncCycle == Begun(events)
    ensures Restarted(w, pinLsAnswers).pinnedCIDs == {}
  {
    hide PinLoop, Fetch, Latest;
    if events != [] {
      CyclesAreCounted(w, events[..|events| - 1], pinLsAnswers);
    }
  }

  /** The registry file stays as it is unless a cycle completes, has seen a registry pin, and its write succeeds. */
  lemma RegistryFileStays(w: World, e: Event)
    requires CompletesAt(w, e) ==> Latest(Fetch(w, e.inp).value).None? || !e.inp.registryWriteOk
    ensures Step(w, e).registryFile == w.registryFile
  {
    hide PinLoop, Fetch, Latest;
  }

  // Counts

  /** What a completed cycle counts as pinned is what kubo has gained, but for an early registry pin. */
  lemma PinnedIsGained(w: World, inp: CycleInput)
    requires Completes(w, inp)
    ensures var registry := Latest(Fetch(w, inp).value);
      var early := registry.Some? && registry.value.cid !in w.kubo && inp.registryAddOk;
      |Cycle(w, inp).0.kubo| == |w.kubo| + Cycle(w, inp).1.tally.pinned + if early then 1 else 0
  {
    var fetched := Fetch(w, inp).value;
    var s := PinRegistryFirst(w.kubo, Latest(fetched), inp.registryAddOk);
    GainedByFirst(s, fetched, inp.addFails, |fetched|);
    hide PinFirst, Fetch, Latest;
  }

  lemma {:induction false} GainedByFirst(s: Progress, pins: seq<Pin>, addFails: set<nat>, n: nat)
    requires n <= |pins| && s.cache == s.kubo && s.tally.pinned == 0
    ensures var r := PinFirst(s, pins, addFails, n); r.cache == r.kubo && |r.kubo| == |s.kubo| + r.tally.pinned
  {
    if n > 0 {
      GainedByFirst(s, pins, addFails, n - 1);
    }
  }
}
