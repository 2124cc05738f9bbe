/** Detection of a replaced kubo node: when the first completed cycle after a start re-pins everything. */
module PinSyncReset {
  import opened Sequences
  import opened PinningClient
  import opened PinSync
  import opened PinSyncCycle
  import opened PinSyncRuns
  import opened PinSyncForcedFull

  /** At its start the daemon knows no sync time, or sees that kubo has no pins. */
  predicate Noticed(w: World, pinLsAnswers: bool) {
    w.lastSyncFile.None? || w.lastSyncFile == Some(0) || (pinLsAnswers && w.kubo == {})
  }

  /** The first cycle after a start is a full one exactly then, or when the incremental query fails. */
  lemma FirstFetchesAllIff(w: World, pinLsAnswers: bool, inp: CycleInput)
    ensures FetchesAll(Restarted(w, pinLsAnswers), inp) <==> Noticed(w, pinLsAnswers) || !inp.sinceAnswers
  {
  }

  /** Cycles that do not complete, priority pins and outside changes, in one process. */
  ghost predicate AbortedRun(w: World, events: seq<Event>) {
    events == [] ||
    var before, e := events[..|events| - 1], events[|events| - 1];
    AbortedRun(w, before) && !CompletesAt(Run(w, before), e) && !e.Restart?
  }

  lemma {:induction false} AbortedKeepTime(w: World, events: seq<Event>)
    requires AbortedRun(w, events)
    ensures Run(w, events).lastSyncAt == w.lastSyncAt && Run(w, events).syncCycle == w.syncCycle + Syncs(events)
  {
    if events != [] {
      var before, e := events[..|events| - 1], events[|events| - 1];
      AbortedKeepTime(w, before);
      if e.Sync? {
        CutShortPublishesNothing(Run(w, before), e.inp);
      }
    }
  }

  /** The cycle's overlap with a sync time that was left over reaches back to this stamp. */
  predicate Overlaps(t: Instant, created: int) {
    t == MINUTE || created > Formatted(t - MINUTE)
  }

  /**
   * After a start, however many cycles abort first, the first completed cycle leaves every listed pin
   * in kubo exactly when the reset was noticed, the incremental query fails, the cycle is a forced
   * one, or every pin kubo lacks is listed with a stamp after the overlap instant of the old sync time.
   */
  lemma FirstCycleRepinsIff(w: World, pinLsAnswers: bool, events: seq<Event>, inp: CycleInput)
    requires AbortedRun(Restarted(w, pinLsAnswers), events)
    requires Completes(Run(Restarted(w, pinLsAnswers), events), inp) && Whole(inp.listing)
    requires inp.registryAddOk && inp.addFails == {}
    ensures var v := Run(Restarted(w, pinLsAnswers), events);
      Covered(inp.listing, Cycle(v, inp).0.kubo) <==>
        || Noticed(w, pinLsAnswers) || !inp.sinceAnswers || (Syncs(events) + 1) % 10 == 0
        || forall p :: p in inp.listing && p.cid != "" ==> Recent(v.kubo, inp.listing, w.lastSyncFile.value, p.cid)
  {
    hide Run, Cycle, Whole, Recent;
    var v := Run(Restarted(w, pinLsAnswers), events);
    AbortedKeepTime(Restarted(w, pinLsAnswers), events);
    forall p | p in inp.listing && p.cid != ""
      ensures p.cid in Cycle(v, inp).0.kubo <==>
        FetchesAll(v, inp) || Recent(v.kubo, inp.listing, v.lastSyncAt, p.cid)
    {
      CycleReaches(v, inp, p);
    }
  }

  lemma CycleReaches(w: World, inp: CycleInput, p: Pin)
    requires Completes(w, inp) && Whole(inp.listing) && inp.registryAddOk && inp.addFails == {}
    requires p in inp.listing && p.cid != ""
    ensures p.cid in Cycle(w, inp).0.kubo <==>
      FetchesAll(w, inp) || Recent(w.kubo, inp.listing, w.lastSyncAt, p.cid)
  {
    hide Cycle, Whole, Fetch, FetchesAll, Overlaps;
    CompletedHasFetched(w, inp);
    forall q
      ensures q in Fetch(w, inp).value <==>
        q in inp.listing && (FetchesAll(w, inp) || Overlaps(w.lastSyncAt, q.created))
    {
      FetchedIffOverlaps(w, inp, q);
    }
    PinnedIffFetched(w, inp, p.cid);
  }

  lemma CompletedHasFetched(w: World, inp: CycleInput)
    requires Completes(w, inp)
    ensures Fetch(w, inp).Some?
  {
  }

  lemma FetchedIffOverlaps(w: World, inp: CycleInput, q: Pin)
    requires Completes(w, inp) && Whole(inp.listing)
    ensures q in Fetch(w, inp).value <==> q in inp.listing && (FetchesAll(w, inp) || Overlaps(w.lastSyncAt, q.created))
  {
    FetchIsSince(w, inp);
    FilterMembers(inp.listing, Within(None, FetchedFrom(w, inp)));
    hide Fetch, Cycle, Whole;
  }

  /** Kubo has the CID, or a cycle that goes back to the overlap of t fetches it. */
  ghost predicate Recent(kubo: set<string>, listing: seq<Pin>, t: Instant, cid: string) {
    cid in kubo || exists q :: q in listing && q.cid == cid && Overlaps(t, q.created)
  }

  /** A start while kubo cannot list its pins misses the reset. */
  lemma PinLsFailureHidesReset(t: Instant, p: Pin)
    requires t > MINUTE && p.cid != "" && p.created <= Formatted(t - MINUTE)
    ensures var lost := Restarted(World({}, t, 0, {}, Some(t), None), false);
      var inp := CycleInput(t, [p], true, true, true, true, {}, None, true, true);
      Completes(lost, inp) && p.cid !in Cycle(lost, inp).0.kubo
  {
    var lost := Restarted(World({}, t, 0, {}, Some(t), None), false);
    var inp := CycleInput(t, [p], true, true, true, true, {}, None, true, true);
    OnePinFetch(lost, inp, p);
  }

  /**
   * So does a start after a cancelled cycle that has pinned something: the first start notices the
   * reset, but the sync time file still stands, and the second start goes by it.
   */
  lemma PartialRepinHidesReset(t: Instant, p: Pin, q: Pin)
    requires t >= SECOND && p.cid != q.cid && p.cid != "" && q.cid != "" && !IsRegistry(p) && !IsRegistry(q)
    requires p.created > q.created
    ensures var lost := World({}, t, 0, {}, Some(t), None);
      var inp := CycleInput(t, [p, q], true, true, true, true, {}, Some(1), true, true);
      && FetchesAll(Restarted(lost, true), inp)
      && Cycle(Restarted(lost, true), inp).1 == Cancelled
      && Incremental(Restarted(Cycle(Restarted(lost, true), inp).0, true))
      && q.cid !in Cycle(Restarted(lost, true), inp).0.kubo
  {
    var w := Restarted(World({}, t, 0, {}, Some(t), None), true);
    var inp := CycleInput(t, [p, q], true, true, true, true, {}, Some(1), true, true);
    FetchIsSince(w, inp);
    assert Fetch(w, inp) == Some([p, q]);
    var s := PinRegistryFirst({}, None, true);
    assert [p, q][..1] == [p] && [p][..0] == [];
    assert Latest([p, q]) == Latest([p]) == Latest([]) == None;
    assert PinFirst(s, [p, q], {}, 0) == s;
    assert PinFirst(s, [p, q], {}, 1).kubo == {p.cid};
  }
}
