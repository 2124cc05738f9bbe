/** Whole runs of the daemon: cycles, priority pins, restarts and outside changes, in any order. */
module PinSyncRuns {
  import opened Sequences
  import opened PinningClient
  import opened PinSync
  import opened PinSyncCycle

  datatype Event =
    | Sync(inp: CycleInput)
    | Priority(cid: string, addOk: bool)
    | Restart(pinLsAnswers: bool)
    | KuboBecomes(pins: set<string>)

  function Step(w: World, e: Event): World {
    match e
    case Sync(inp) => Cycle(w, inp).0
    case Priority(cid, addOk) => PriorityPin(w, cid, addOk)
    case Restart(pinLsAnswers) => Restarted(w, pinLsAnswers)
    case KuboBecomes(pins) => w.(kubo := pins)
  }

  function Run(w: World, events: seq<Event>): World {
    if events == [] then w else Step(Run(w, events[..|events| - 1]), events[|events| - 1])
  }

  ghost predicate CompletesAt(w: World, e: Event) {
    e.Sync? && Completes(w, e.inp)
  }

  /** What a completed cycle has looked at. */
  datatype Snapshot = Snapshot(start: Instant, listing: seq<Pin>)

  ghost function CompletedCycles(w: World, events: seq<Event>): seq<Snapshot> {
    if events == [] then []
    else
      var before, e := events[..|events| - 1], events[|events| - 1];
      CompletedCycles(w, before) +
      if CompletesAt(Run(w, before), e) then [Snapshot(e.inp.start, e.inp.listing)] else []
  }

  /** A pin that an earlier completed cycle's fetch could not see is stamped after that cycle's overlap minute began. */
  ghost predicate Timely(done: seq<Snapshot>, listing: seq<Pin>) {
    forall c, p :: c in done && p in listing && p !in c.listing ==> p.created > c.start - MINUTE
  }

  /** Hypotheses of the refinement on one event; only completed cycles are constrained. */
  ghost predicate Faithful(w: World, done: seq<Snapshot>, e: Event) {
    match e
    case Sync(inp) =>
      Completes(w, inp) ==>
        && Whole(inp.listing) && Timely(done, inp.listing)
        && inp.registryAddOk && inp.addFails == {}
        && (done == [] ==> FetchesAll(w, inp) && NotAhead(w, inp.start))
    case KuboBecomes(pins) => w.kubo <= pins
    case _ => true
  }

  /** Sync times left over from earlier processes do not lie in the future of the first completed cycle. */
  ghost predicate NotAhead(w: World, start: Instant) {
    w.lastSyncAt <= start && (w.lastSyncFile.Some? ==> w.lastSyncFile.value <= start)
  }

  ghost predicate FaithfulRun(w: World, events: seq<Event>) {
    events == [] ||
    var before, e := events[..|events| - 1], events[|events| - 1];
    FaithfulRun(w, before) && Faithful(Run(w, before), CompletedCycles(w, before), e)
  }

  ghost predicate Covered(listing: seq<Pin>, kubo: set<string>) {
    forall p :: p in listing && p.cid != "" ==> p.cid in kubo
  }

  ghost predicate Anchored(t: Instant, done: seq<Snapshot>) {
    exists c :: c in done && t <= c.start
  }

  /** Every completed cycle's listing is in kubo, and both sync times stem from completed cycles. */
  ghost predicate Synced(w: World, done: seq<Snapshot>) {
    && (forall c :: c in done ==> Covered(c.listing, w.kubo))
    && (done != [] ==> Anchored(w.lastSyncAt, done))
    && (done != [] && w.lastSyncFile.Some? ==> Anchored(w.lastSyncFile.value, done))
  }

  /** An incremental fetch misses only pins that some completed cycle has seen. */
  lemma FetchMissesOnlySeen(w: World, done: seq<Snapshot>, inp: CycleInput) returns (c: Snapshot)
    requires done != [] && Anchored(w.lastSyncAt, done)
    requires Completes(w, inp) && Whole(inp.listing) && Timely(done, inp.listing)
    ensures c in done
    ensures forall p :: p in inp.listing && p !in Fetch(w, inp).value ==> p in c.listing
  {
    c :| c in done && w.lastSyncAt <= c.start;
    FetchIsSince(w, inp);
    FilterMembers(inp.listing, Within(None, FetchedFrom(w, inp)));
  }

  lemma CycleCovers(w: World, done: seq<Snapshot>, inp: CycleInput)
    requires Synced(w, done) && Completes(w, inp) && Faithful(w, done, Sync(inp))
    ensures Covered(inp.listing, Cycle(w, inp).0.kubo)
  {
    var kubo' := Cycle(w, inp).0.kubo;
    forall p | p in inp.listing && p.cid != ""
      ensures p.cid in kubo'
    {
      PinnedIffFetched(w, inp, p.cid);
      if p !in Fetch(w, inp).value {
        if done == [] {
          FetchIsSince(w, inp);
          assert false;
        }
        var c := FetchMissesOnlySeen(w, done, inp);
        assert Covered(c.listing, w.kubo);
      }
    }
  }

  lemma KuboGrows(w: World, done: seq<Snapshot>, e: Event)
    requires Faithful(w, done, e)
    ensures w.kubo <= Step(w, e).kubo
  {
    if e.Sync? && Fetch(w, e.inp).Some? {
      var fetched := Fetch(w, e.inp).value;
      var s := PinRegistryFirst(w.kubo, Latest(fetched), e.inp.registryAddOk);
      var n := if e.inp.cancelAt.Some? && e.inp.cancelAt.value < |fetched| then e.inp.cancelAt.value else |fetched|;
      NoFailureNoGap(s, fetched, e.inp.addFails, n);
    }
  }

  lemma AnchoredStays(t: Instant, done: seq<Snapshot>, more: seq<Snapshot>)
    requires Anchored(t, done)
    ensures Anchored(t, done + more)
  {
    var c :| c in done && t <= c.start;
    assert c in done + more;
  }

  lemma {:induction false} RunIsSynced(w: World, events: seq<Event>)
    requires FaithfulRun(w, events)
    ensures Synced(Run(w, events), CompletedCycles(w, events))
  {
    if events != [] {
      var before, e := events[..|events| - 1], events[|events| - 1];
      RunIsSynced(w, before);
      StepIsSynced(Run(w, before), CompletedCycles(w, before), e);
    }
  }

  lemma StepIsSynced(w: World, done: seq<Snapshot>, e: Event)
    requires Synced(w, done) && Faithful(w, done, e)
    ensures Synced(Step(w, e), done + if CompletesAt(w, e) then [Snapshot(e.inp.start, e.inp.listing)] else [])
  {
    KuboGrows(w, done, e);
    if CompletesAt(w, e) {
      var c := Snapshot(e.inp.start, e.inp.listing);
      CycleCovers(w, done, e.inp);
      assert c in done + [c];
      assert Anchored(e.inp.start, done + [c]);
      assert Anchored(FormattedInstant(e.inp.start), done + [c]);
      if w.lastSyncFile.Some? && done != [] {
        AnchoredStays(w.lastSyncFile.value, done, [c]);
      } else if w.lastSyncFile.Some? {
        assert Anchored(w.lastSyncFile.value, done + [c]);
      }
    } else {
      assert done + [] == done;
      if done != [] {
        assert done[0] in done;
        assert Anchored(0, done);
      }
    }
  }

  /**
   * Incremental cycles refine full ones: however cycles, aborted cycles, restarts and priority
   * pins interleave, after every completed cycle each pin its listing showed is in kubo.
   */
  lemma IncrementalRefinesFull(w: World, events: seq<Event>)
    requires events != [] && FaithfulRun(w, events)
    requires CompletesAt(Run(w, events[..|events| - 1]), events[|events| - 1])
    ensures Covered(events[|events| - 1].inp.listing, Run(w, events).kubo)
  {
    RunIsSynced(w, events);
    var e := events[|events| - 1];
    assert Snapshot(e.inp.start, e.inp.listing) in CompletedCycles(w, events);
  }

  // Priority pins

  /** Kubo loses no pin from outside. */
  ghost predicate KeepingRun(w: World, events: seq<Event>) {
    events == [] ||
    var before, e := events[..|events| - 1], events[|events| - 1];
    KeepingRun(w, before) && (e.KuboBecomes? ==> Run(w, before).kubo <= e.pins)
  }

  lemma CycleMirrors(w: World, inp: CycleInput)
    requires w.pinnedCIDs <= w.kubo
    ensures Cycle(w, inp).0.pinnedCIDs <= Cycle(w, inp).0.kubo
  {
    if Completes(w, inp) {
      var fetched := Fetch(w, inp).value;
      PinnedByFirst(PinRegistryFirst(w.kubo, Latest(fetched), inp.registryAddOk), fetched, inp.addFails, |fetched|);
    } else {
      CutShortPublishesNothing(w, inp);
    }
  }

  /** Whatever aborts, fails or restarts, the cache never claims more than kubo has. */
  lemma {:induction false} CacheIsPinned(w: World, events: seq<Event>)
    requires w.pinnedCIDs <= w.kubo && KeepingRun(w, events)
    ensures Run(w, events).pinnedCIDs <= Run(w, events).kubo
  {
    if events != [] {
      var before, e := events[..|events| - 1], events[|events| - 1];
      CacheIsPinned(w, before);
      if e.Sync? {
        CycleMirrors(Run(w, before), e.inp);
      }
    }
  }

  /** So a priority pin is skipped only for a CID kubo has, and fails only when its PinAdd fails. */
  lemma PriorityPinHolds(w: World, events: seq<Event>, cid: string, addOk: bool)
    requires w.pinnedCIDs <= w.kubo && KeepingRun(w, events)
    ensures var v := Run(w, events);
      && (cid in PriorityPin(v, cid, addOk).kubo <==> cid in v.kubo || addOk)
      && PriorityPin(v, cid, addOk).kubo - {cid} == v.kubo - {cid}
  {
    CacheIsPinned(w, events);
  }
}
