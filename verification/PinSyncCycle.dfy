/** What one sync cycle guarantees: its counts, what it pins, and what it publishes. */
module PinSyncCycle {
  import opened Sequences
  import opened PinningClient
  import opened PinSync

  function HasCid(): Pin -> bool {
    (p: Pin) => p.cid != ""
  }

  ghost predicate Completes(w: World, inp: CycleInput) {
    Cycle(w, inp).1.Completed?
  }

  /** A completed cycle processes every pin with a CID and puts each in exactly one bin. */
  lemma CycleTallies(w: World, inp: CycleInput)
    requires Completes(w, inp)
    ensures var t := Cycle(w, inp).1.tally;
      t.processed == t.pinned + t.skipped + t.failed == |Filter(Fetch(w, inp).value, HasCid())|
  {
    var fetched := Fetch(w, inp).value;
    TallyOfFirst(PinRegistryFirst(w.kubo, Latest(fetched), inp.registryAddOk), fetched, inp.addFails, |fetched|);
    assert fetched[..|fetched|] == fetched;
  }

  lemma {:induction false} TallyOfFirst(s: Progress, pins: seq<Pin>, addFails: set<nat>, n: nat)
    requires n <= |pins| && s.tally == Tally(0, 0, 0, 0)
    ensures var t := PinFirst(s, pins, addFails, n).tally;
      t.processed == t.pinned + t.skipped + t.failed == |Filter(pins[..n], HasCid())|
  {
    if n > 0 {
      TallyOfFirst(s, pins, addFails, n - 1);
      assert pins[..n] == pins[..n - 1] + [pins[n - 1]];
      FilterConcat(pins[..n - 1], [pins[n - 1]], HasCid());
      assert |Filter([pins[n - 1]], HasCid())| == if pins[n - 1].cid != "" then 1 else 0;
      hide Filter;
    }
  }

  /** Some fetched pin, at an index whose PinAdd would succeed, has this CID. */
  ghost predicate Addable(pins: seq<Pin>, addFails: set<nat>, n: nat, cid: string)
    requires n <= |pins|
  {
    exists i :: 0 <= i < n && pins[i].cid == cid && i !in addFails
  }

  /** Exactly which CIDs the loop leaves pinned; the cache mirrors kubo throughout. */
  lemma {:induction false} PinnedByFirst(s: Progress, pins: seq<Pin>, addFails: set<nat>, n: nat)
    requires n <= |pins| && s.cache == s.kubo
    ensures var r := PinFirst(s, pins, addFails, n);
      && r.cache == r.kubo
      && (forall cid :: cid in r.kubo <==> cid in s.kubo || (cid != "" && Addable(pins, addFails, n, cid)))
  {
    if n > 0 {
      PinnedByFirst(s, pins, addFails, n - 1);
      var before, p := PinFirst(s, pins, addFails, n - 1), pins[n - 1];
      var r := PinFirst(s, pins, addFails, n);
      forall cid
        ensures cid in r.kubo <==> cid in s.kubo || (cid != "" && Addable(pins, addFails, n, cid))
      {
        if Addable(pins, addFails, n - 1, cid) {
          var i :| 0 <= i < n - 1 && pins[i].cid == cid && i !in addFails;
          assert 0 <= i < n;
        }
        if Addable(pins, addFails, n, cid) && !Addable(pins, addFails, n - 1, cid) {
          var i :| 0 <= i < n && pins[i].cid == cid && i !in addFails;
          assert i == n - 1;
        }
      }
    }
  }

  /** Without failures every CID of the fetched pins ends up in kubo. */
  lemma {:induction false} NoFailureNoGap(s: Progress, pins: seq<Pin>, addFails: set<nat>, n: nat)
    requires n <= |pins|
    ensures var r := PinFirst(s, pins, addFails, n);
      && s.kubo <= r.kubo && s.cache <= r.cache && s.tally.failed <= r.tally.failed
      && (s.cache <= s.kubo && r.tally.failed == s.tally.failed ==>
            r.cache <= r.kubo && forall i :: 0 <= i < n && pins[i].cid != "" ==> pins[i].cid in r.kubo)
  {
    if n > 0 {
      NoFailureNoGap(s, pins, addFails, n - 1);
    }
  }

  /** Publishing comes last: a cycle that is cut short moves neither the registry file nor a sync time. */
  lemma CutShortPublishesNothing(w: World, inp: CycleInput)
    requires !Completes(w, inp)
    ensures var w' := Cycle(w, inp).0;
      && w'.registryFile == w.registryFile && w'.lastSyncAt == w.lastSyncAt && w'.lastSyncFile == w.lastSyncFile
      && w.kubo <= w'.kubo && (w.pinnedCIDs == w'.pinnedCIDs || w'.pinnedCIDs == w'.kubo)
  {
    if Fetch(w, inp).Some? && inp.pinLsAnswers {
      var fetched := Fetch(w, inp).value;
      var s := PinRegistryFirst(w.kubo, Latest(fetched), inp.registryAddOk);
      PinnedByFirst(s, fetched, inp.addFails, inp.cancelAt.value);
    }
  }

  /** When the registry file is written after a cycle without failures, everything fetched is pinned. */
  lemma FailureFreePublish(w: World, inp: CycleInput)
    requires Completes(w, inp) && Cycle(w, inp).1.tally.failed == 0
    ensures var w', fetched := Cycle(w, inp).0, Fetch(w, inp).value;
      && (forall p :: p in fetched && p.cid != "" ==> p.cid in w'.kubo)
      && (Latest(fetched).Some? ==> Latest(fetched).value.cid in w'.kubo)
  {
    var fetched := Fetch(w, inp).value;
    NoFailureNoGap(PinRegistryFirst(w.kubo, Latest(fetched), inp.registryAddOk), fetched, inp.addFails, |fetched|);
    LatestIsRegistry(fetched);
  }

  lemma {:induction false} LatestIsRegistry(pins: seq<Pin>)
    ensures Latest(pins).Some? ==> Latest(pins).value in pins && IsRegistry(Latest(pins).value)
    ensures Latest(pins).None? ==> forall p :: p in pins ==> !IsRegistry(p)
  {
    if pins != [] {
      LatestIsRegistry(pins[..|pins| - 1]);
      assert pins == pins[..|pins| - 1] + [pins[|pins| - 1]];
    }
  }

  /**
   * The registry CID is published even when pinning it failed. It is pinned at that moment exactly
   * when kubo had it, the early PinAdd succeeded, or a later PinAdd for the same CID succeeds.
   */
  lemma PublishedIsPinnedIff(w: World, inp: CycleInput)
    requires Completes(w, inp) && Latest(Fetch(w, inp).value).Some? && inp.registryWriteOk
    ensures var w', fetched := Cycle(w, inp).0, Fetch(w, inp).value;
      var cid := Latest(fetched).value.cid;
      && w'.registryFile == Some(cid)
      && (cid in w'.kubo <==>
            cid in w.kubo || inp.registryAddOk || Addable(fetched, inp.addFails, |fetched|, cid))
  {
    var fetched := Fetch(w, inp).value;
    LatestIsRegistry(fetched);
    PinnedByFirst(PinRegistryFirst(w.kubo, Latest(fetched), inp.registryAddOk), fetched, inp.addFails, |fetched|);
  }

  const REGISTRY_PIN := Pin("r1", "bafyregistry", REGISTRY_NAME, MINUTE)

  /** A cycle that completes and publishes a registry CID its node does not have. */
  lemma PublishedUnpinned() returns (w: World, inp: CycleInput)
    ensures Completes(w, inp)
    ensures Cycle(w, inp).0.registryFile == Some(REGISTRY_PIN.cid) && REGISTRY_PIN.cid !in Cycle(w, inp).0.kubo
  {
    w := World({}, 0, 0, {}, None, None);
    inp := CycleInput(MINUTE, [REGISTRY_PIN], true, true, true, false, {0}, None, true, true);
    OnePinFetch(w, inp, REGISTRY_PIN);
    var s := PinRegistryFirst(w.kubo, Latest([REGISTRY_PIN]), false);
    assert [REGISTRY_PIN][..0] == [];
    assert Latest([REGISTRY_PIN]) == Some(REGISTRY_PIN);
    assert PinFirst(s, [REGISTRY_PIN], {0}, 0) == s;
    assert PinFirst(s, [REGISTRY_PIN], {0}, 1) == s.(tally := Tally(0, 0, 1, 1));
  }

  lemma OnePinFetch(w: World, inp: CycleInput, p: Pin)
    requires inp.listing == [p]
    ensures FetchesAll(w, inp) && inp.allAnswers ==> Fetch(w, inp) == Some([p])
    ensures !FetchesAll(w, inp) ==>
      Fetch(w, inp) == Some(if InWindow(p, None, AfterParam(w.lastSyncAt - MINUTE)) then [p] else [])
  {
    FetchIsSince(w, inp);
    assert [p][1..] == [];
  }

  /** Clean page breaks: the fetch is the listing, or its part later than the overlap instant. */
  ghost predicate Whole(listing: seq<Pin>) {
    NewestFirst(listing) && PageBreaksClean(listing, PAGE_LIMIT)
  }

  function FetchedFrom(w: World, inp: CycleInput): Option<int> {
    if FetchesAll(w, inp) then None else AfterParam(w.lastSyncAt - MINUTE)
  }

  lemma FetchIsSince(w: World, inp: CycleInput)
    requires Whole(inp.listing)
    ensures Fetch(w, inp).Some? ==> Fetch(w, inp).value == Since(inp.listing, FetchedFrom(w, inp))
    ensures Since(inp.listing, None) == inp.listing
  {
    CleanListingIsFetched(inp.listing, FetchedFrom(w, inp), PAGE_LIMIT);
    FilterAll(inp.listing, Within(None, None));
  }

  /** When no PinAdd fails, what a completed cycle adds to kubo is exactly the CIDs it fetched. */
  lemma PinnedIffFetched(w: World, inp: CycleInput, cid: string)
    requires Completes(w, inp) && inp.registryAddOk && inp.addFails == {}
    ensures cid in Cycle(w, inp).0.kubo <==>
      cid in w.kubo || (cid != "" && exists q :: q in Fetch(w, inp).value && q.cid == cid)
  {
    var fetched := Fetch(w, inp).value;
    LatestIsRegistry(fetched);
    PinnedByFirst(PinRegistryFirst(w.kubo, Latest(fetched), inp.registryAddOk), fetched, inp.addFails, |fetched|);
    if q :| q in fetched && q.cid == cid {
      var i :| 0 <= i < |fetched| && fetched[i] == q;
      assert Addable(fetched, inp.addFails, |fetched|, cid);
    }
  }
}
