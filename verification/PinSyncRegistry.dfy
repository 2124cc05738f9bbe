/** The published registry CID over whole runs against an append-only listing. */
module PinSyncRegistry {
  import opened Sequences
  import opened PinningClient
  import opened PinSync
  import opened PinSyncCycle
  import opened PinSyncRuns

  /** The scan settles on the greatest Created stamp, on the first pin among equals. */
  ghost predicate IsFirstGreatest(pins: seq<Pin>, i: int) {
    && 0 <= i < |pins| && IsRegistry(pins[i])
    && forall j :: 0 <= j < |pins| && IsRegistry(pins[j]) ==>
         pins[j].created < pins[i].created || (pins[j].created == pins[i].created && i <= j)
  }

  lemma {:induction false} LatestIsFirstGreatest(pins: seq<Pin>)
    ensures match Latest(pins)
      case None => forall p :: p in pins ==> !IsRegistry(p)
      case Some(best) => exists i :: IsFirstGreatest(pins, i) && pins[i] == best
  {
    if pins != [] {
      var front, p := pins[..|pins| - 1], pins[|pins| - 1];
      LatestIsFirstGreatest(front);
      assert pins == front + [p];
      if Latest(pins).Some? {
        if Latest(pins) == Latest(front) {
          var i :| IsFirstGreatest(front, i) && front[i] == Latest(front).value;
          assert IsFirstGreatest(pins, i);
        } else {
          if Latest(front).Some? {
            var i :| IsFirstGreatest(front, i) && front[i] == Latest(front).value;
          }
          assert IsFirstGreatest(pins, |pins| - 1);
        }
      }
    }
  }

  function Registry(): Pin -> bool {
    (p: Pin) => IsRegistry(p)
  }

  function MemberOf(pins: seq<Pin>): Pin -> bool {
    (p: Pin) => p in pins
  }

  /** Append-only service: the old listing is what remains of the new one without the new pins. */
  ghost predicate Extends(older: seq<Pin>, newer: seq<Pin>) {
    Filter(newer, MemberOf(older)) == older
  }

  lemma {:induction false} LatestOfRegistryPins(pins: seq<Pin>)
    ensures Latest(pins) == Latest(Filter(pins, Registry()))
  {
    if pins != [] {
      var front, p := pins[..|pins| - 1], pins[|pins| - 1];
      LatestOfRegistryPins(front);
      assert pins == front + [p];
      FilterConcat(front, [p], Registry());
      var kept := Filter(front, Registry());
      if IsRegistry(p) {
        assert Filter(pins, Registry()) == kept + [p];
        assert (kept + [p])[..|kept|] == kept;
      } else {
        assert Filter(pins, Registry()) == kept;
      }
    }
  }

  /** Without new registry pins the choice does not change. */
  lemma LatestUnchanged(older: seq<Pin>, newer: seq<Pin>)
    requires Extends(older, newer)
    requires forall p :: p in newer && IsRegistry(p) ==> p in older
    ensures Latest(newer) == Latest(older)
  {
    FilterCompose(newer, MemberOf(older), Registry(), Registry());
    LatestOfRegistryPins(newer);
    LatestOfRegistryPins(older);
  }

  lemma {:induction false} LatestIgnoresOlder(front: seq<Pin>, rest: seq<Pin>)
    requires Latest(front).Some?
    requires forall p :: p in rest ==> p.created <= Latest(front).value.created
    ensures Latest(front + rest) == Latest(front)
  {
    if rest == [] {
      assert front + rest == front;
    } else {
      var less, p := rest[..|rest| - 1], rest[|rest| - 1];
      assert p in rest;
      LatestIgnoresOlder(front, less);
      assert (front + rest)[..|front + rest| - 1] == front + less;
    }
  }

  /** What lies outside the fetched prefix is no later than the instant asked for. */
  lemma SinceLeavesOlder(listing: seq<Pin>, after: int) returns (rest: seq<Pin>)
    requires NewestFirst(listing)
    ensures listing == Since(listing, Some(after)) + rest
    ensures forall p :: p in rest ==> p.created <= after
  {
    var fetched, f := Since(listing, Some(after)), Within(None, Some(after));
    SinceIsPrefix(listing, Some(after));
    rest := listing[|fetched|..];
    FilterKeepsPrefix(listing, f, |fetched|);
    forall p | p in rest ensures p.created <= after {
      assert !f(p);
    }
  }

  /** If the fetch holds any registry pin, its choice is the full scan's choice. */
  lemma FetchFindsLatest(w: World, inp: CycleInput)
    requires Completes(w, inp) && Whole(inp.listing) && Latest(Fetch(w, inp).value).Some?
    ensures Latest(Fetch(w, inp).value) == Latest(inp.listing)
  {
    FetchIsSince(w, inp);
    var after, fetched := FetchedFrom(w, inp), Fetch(w, inp).value;
    if after.Some? {
      var rest := SinceLeavesOlder(inp.listing, after.value);
      LatestIsRegistry(fetched);
      FilterMembers(inp.listing, Within(None, after));
      LatestIgnoresOlder(fetched, rest);
    }
  }

  /** The further hypotheses about the registry, again on completed cycles only. */
  ghost predicate Appending(w: World, done: seq<Snapshot>, e: Event) {
    CompletesAt(w, e) ==>
      && e.inp.registryWriteOk
      && (done != [] ==> Extends(done[|done| - 1].listing, e.inp.listing))
  }

  ghost predicate AppendingRun(w: World, events: seq<Event>) {
    events == [] ||
    var before, e := events[..|events| - 1], events[|events| - 1];
    AppendingRun(w, before) && Appending(Run(w, before), CompletedCycles(w, before), e)
  }

  ghost predicate Published(w: World, done: seq<Snapshot>) {
    done != [] ==>
      var last := done[|done| - 1].listing;
      && (Latest(last).Some? ==> w.registryFile == Some(Latest(last).value.cid))
      && (forall c, p :: c in done && p in c.listing ==> p in last)
  }

  lemma CyclePublishes(w: World, done: seq<Snapshot>, inp: CycleInput)
    requires Synced(w, done) && Published(w, done) && Completes(w, inp)
    requires Faithful(w, done, Sync(inp)) && Appending(w, done, Sync(inp))
    ensures Published(Cycle(w, inp).0, done + [Snapshot(inp.start, inp.listing)])
  {
    var now := done + [Snapshot(inp.start, inp.listing)];
    assert now[|now| - 1].listing == inp.listing;
    if done != [] {
      FilterMembers(inp.listing, MemberOf(done[|done| - 1].listing));
    }
    if Latest(Fetch(w, inp).value).Some? {
      FetchFindsLatest(w, inp);
    } else if done == [] {
      FetchIsSince(w, inp);
    } else {
      var c := FetchMissesOnlySeen(w, done, inp);
      LatestIsRegistry(Fetch(w, inp).value);
      LatestUnchanged(done[|done| - 1].listing, inp.listing);
    }
  }

  lemma {:induction false} RunPublishes(w: World, events: seq<Event>)
    requires FaithfulRun(w, events) && AppendingRun(w, events)
    ensures Published(Run(w, events), CompletedCycles(w, events))
  {
    if events != [] {
      var before, e := events[..|events| - 1], events[|events| - 1];
      RunPublishes(w, before);
      RunIsSynced(w, before);
      if CompletesAt(Run(w, before), e) {
        CyclePublishes(Run(w, before), CompletedCycles(w, before), e.inp);
      } else {
        assert CompletedCycles(w, events) == CompletedCycles(w, before);
        assert Run(w, events).registryFile == Run(w, before).registryFile;
      }
    }
  }

  /** After every completed cycle the registry file holds the CID a full scan of the listing would choose. */
  lemma RegistryIsFullScan(w: World, events: seq<Event>)
    requires events != [] && FaithfulRun(w, events) && AppendingRun(w, events)
    requires CompletesAt(Run(w, events[..|events| - 1]), events[|events| - 1])
    ensures var listing := events[|events| - 1].inp.listing;
      Latest(listing).Some? ==> Run(w, events).registryFile == Some(Latest(listing).value.cid)
  {
    RunPublishes(w, events);
    var done := CompletedCycles(w, events);
    assert done[|done| - 1].listing == events[|events| - 1].inp.listing;
  }

  /** An append-only listing never moves the choice backwards in time. */
  lemma LatestNeverMovesBack(older: seq<Pin>, newer: seq<Pin>)
    requires Extends(older, newer) && Latest(older).Some?
    ensures Latest(newer).Some? && Latest(newer).value.created >= Latest(older).value.created
  {
    LatestIsRegistry(older);
    FilterMembers(newer, MemberOf(older));
    LatestIsFirstGreatest(newer);
    assert Latest(older).value in newer;
  }

  /** The same cycle, made to scan the whole listing to the end. */
  function FullCycle(w: World, inp: CycleInput): World {
    Cycle(w.(lastSyncAt := 0), inp.(allAnswers := true, cancelAt := None)).0
  }

  /** At every completed cycle of a run, an incremental cycle leaves kubo exactly as a full one would. */
  lemma KuboAsAfterFullCycle(w: World, events: seq<Event>, inp: CycleInput)
    requires FaithfulRun(w, events) && Completes(Run(w, events), inp)
    requires Faithful(Run(w, events), CompletedCycles(w, events), Sync(inp))
    ensures Cycle(Run(w, events), inp).0.kubo == FullCycle(Run(w, events), inp).kubo
  {
    var v := Run(w, events);
    var full := inp.(allAnswers := true, cancelAt := None);
    var v0 := v.(lastSyncAt := 0);
    RunIsSynced(w, events);
    CycleCovers(v, CompletedCycles(w, events), inp);
    FetchIsSince(v, inp);
    FetchIsSince(v0, full);
    FilterMembers(inp.listing, Within(None, FetchedFrom(v, inp)));
    forall cid ensures cid in Cycle(v, inp).0.kubo <==> cid in FullCycle(v, inp).kubo {
      PinnedIffFetched(v, inp, cid);
      PinnedIffFetched(v0, full, cid);
    }
  }

  /** And so it leaves the registry file, when the listing only grows. */
  lemma RegistryAsAfterFullCycle(w: World, events: seq<Event>, inp: CycleInput)
    requires FaithfulRun(w, events) && AppendingRun(w, events) && Completes(Run(w, events), inp)
    requires Faithful(Run(w, events), CompletedCycles(w, events), Sync(inp))
    requires Appending(Run(w, events), CompletedCycles(w, events), Sync(inp))
    ensures Cycle(Run(w, events), inp).0.registryFile == FullCycle(Run(w, events), inp).registryFile
  {
    var v, done := Run(w, events), CompletedCycles(w, events);
    RunIsSynced(w, events);
    RunPublishes(w, events);
    CyclePublishes(v, done, inp);
    var now := done + [Snapshot(inp.start, inp.listing)];
    assert now[|now| - 1].listing == inp.listing;
    FetchIsSince(v.(lastSyncAt := 0), inp.(allAnswers := true, cancelAt := None));
    if Latest(inp.listing).None? {
      LatestIsRegistry(inp.listing);
      LatestIsRegistry(Fetch(v, inp).value);
      FetchIsSince(v, inp);
      FilterMembers(inp.listing, Within(None, FetchedFrom(v, inp)));
    }
  }
}
