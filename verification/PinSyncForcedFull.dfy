/** The forced full cycle: what "every tenth cycle" does and does not give. */
module PinSyncForcedFull {
  import opened Sequences
  import opened PinningClient
  import opened PinSync
  import opened PinSyncCycle
  import opened PinSyncRuns

  function Syncs(events: seq<Event>): nat {
    if events == [] then 0 else Syncs(events[..|events| - 1]) + if events[|events| - 1].Sync? then 1 else 0
  }

  /** One event of a stretch without restarts or losses, in which p is listed and its PinAdd succeeds. */
  ghost predicate Steady(w: World, e: Event, p: Pin) {
    match e
    case Sync(inp) =>
      && Completes(w, inp) && Whole(inp.listing) && p in inp.listing
      && forall i :: 0 <= i < |Fetch(w, inp).value| && Fetch(w, inp).value[i].cid == p.cid ==> i !in inp.addFails
    case Restart(_) => false
    case KuboBecomes(pins) => w.kubo <= pins
    case Priority(_, _) => true
  }

  ghost predicate SteadyRun(w: World, events: seq<Event>, p: Pin) {
    events == [] ||
    var before, e := events[..|events| - 1], events[|events| - 1];
    SteadyRun(w, before, p) && Steady(Run(w, before), e, p)
  }

  lemma FullCyclePins(w: World, inp: CycleInput, p: Pin)
    requires p.cid != "" && Steady(w, Sync(inp), p)
    ensures w.kubo <= Cycle(w, inp).0.kubo
    ensures (w.syncCycle + 1) % 10 == 0 ==> p.cid in Cycle(w, inp).0.kubo
  {
    var fetched := Fetch(w, inp).value;
    var s := PinRegistryFirst(w.kubo, Latest(fetched), inp.registryAddOk);
    PinnedByFirst(s, fetched, inp.addFails, |fetched|);
    if (w.syncCycle + 1) % 10 == 0 {
      FetchIsSince(w, inp);
      var i :| 0 <= i < |fetched| && fetched[i] == p;
      assert Addable(fetched, inp.addFails, |fetched|, p.cid);
    }
  }

  lemma {:induction false} SteadyProgress(w: World, events: seq<Event>, p: Pin)
    requires p.cid != "" && SteadyRun(w, events, p)
    ensures Run(w, events).syncCycle == w.syncCycle + Syncs(events)
    ensures Run(w, events).syncCycle / 10 > w.syncCycle / 10 ==> p.cid in Run(w, events).kubo
  {
    if events != [] {
      var before, e := events[..|events| - 1], events[|events| - 1];
      SteadyProgress(w, before, p);
      if e.Sync? {
        FullCyclePins(Run(w, before), e.inp, p);
      }
    }
  }

  /**
   * Ten cycles in a row that all complete, without a restart in between, pin every pin that is
   * listed and whose PinAdd succeeds, whatever its stamp.
   */
  lemma TenCyclesPin(w: World, events: seq<Event>, p: Pin)
    requires p.cid != "" && SteadyRun(w, events, p) && Syncs(events) >= 10
    ensures p.cid in Run(w, events).kubo
  {
    SteadyProgress(w, events, p);
  }

  const OLD_PIN := Pin("r0", "bafyold", "file", 0)

  /** Cycle k, a minute after the one before: the service answers incremental queries and never a full one. */
  function OnlyIncremental(k: nat): CycleInput {
    CycleInput((11 + k) * MINUTE, [OLD_PIN], true, false, true, true, {}, None, true, true)
  }

  const STARVED := World({}, 10 * MINUTE, 0, {}, Some(10 * MINUTE), None)

  function Repeated(n: nat): seq<Event> {
    if n == 0 then [] else Repeated(n - 1) + [Sync(OnlyIncremental(n - 1))]
  }

  /**
   * The count alone is not enough: the forced cycle can be the one that aborts. For every n there is
   * a run of n cycles, one a minute, all but every tenth complete, that leaves a listed, pinnable pin
   * unpinned.
   */
  lemma {:induction false} AbortedForcedCyclesStarve(n: nat)
    ensures |CompletedCycles(STARVED, Repeated(n))| == n - n / 10
    ensures var w := Run(STARVED, Repeated(n));
      w.kubo == {} && 10 * MINUTE <= w.lastSyncAt && w.lastSyncAt < (11 + n) * MINUTE && w.syncCycle == n
  {
    hide Cycle, Completes, STARVED, Run, CompletedCycles, OnlyIncremental;
    if n == 0 {
      StarvedStart();
    } else {
      AbortedForcedCyclesStarve(n - 1);
      OneMoreSync(STARVED, Repeated(n - 1), OnlyIncremental(n - 1));
      StarvingCycle(Run(STARVED, Repeated(n - 1)), n - 1);
      Tenths(n);
    }
  }

  lemma OneMoreSync(w: World, events: seq<Event>, inp: CycleInput)
    ensures Run(w, events + [Sync(inp)]) == Cycle(Run(w, events), inp).0
    ensures |CompletedCycles(w, events + [Sync(inp)])| ==
            |CompletedCycles(w, events)| + if Completes(Run(w, events), inp) then 1 else 0
  {
    assert (events + [Sync(inp)])[..|events|] == events;
  }

  lemma Tenths(n: nat)
    requires n > 0
    ensures n / 10 == (n - 1) / 10 + if n % 10 == 0 then 1 else 0
  {
  }

  lemma StarvedStart()
    ensures Run(STARVED, []) == STARVED && CompletedCycles(STARVED, []) == []
    ensures STARVED.kubo == {} && STARVED.lastSyncAt == 10 * MINUTE && STARVED.syncCycle == 0
  {
  }

  lemma StarvingCycle(w: World, k: nat)
    requires 10 * MINUTE <= w.lastSyncAt && w.kubo == {}
    ensures var v := Cycle(w, OnlyIncremental(k)).0;
      && v.kubo == {} && v.syncCycle == w.syncCycle + 1
      && (v.lastSyncAt == w.lastSyncAt || v.lastSyncAt == (11 + k) * MINUTE)
    ensures Completes(w, OnlyIncremental(k)) <==> (w.syncCycle + 1) % 10 != 0
  {
    OnePinFetch(w, OnlyIncremental(k), OLD_PIN);
    if Incremental(w) {
      assert Fetch(w, OnlyIncremental(k)) == Some([]);
    }
  }
}
