/** Which runs bring a CID into kubo. */
module PinSyncReached {
  import opened Sequences
  import opened PinningClient
  import opened PinSync
  import opened PinSyncCycle
  import opened PinSyncRuns

  /** The cycle asks for the whole listing, or from an instant before q's stamp on. */
  predicate AsksFor(w: World, inp: CycleInput, q: Pin) {
    FetchesAll(w, inp) || w.lastSyncAt == MINUTE || q.created > Formatted(w.lastSyncAt - MINUTE)
  }

  /** How far the loop gets. */
  function Reach(w: World, inp: CycleInput): nat
    requires Fetch(w, inp).Some?
  {
    var total := |Fetch(w, inp).value|;
    if inp.cancelAt.Some? && inp.cancelAt.value < total then inp.cancelAt.value else total
  }

  /** It comes to q, in the loop or ahead of it as the registry pin, and that PinAdd succeeds. */
  ghost predicate AddsPin(w: World, inp: CycleInput, q: Pin)
    requires Fetch(w, inp).Some?
  {
    || (Latest(Fetch(w, inp).value) == Some(q) && inp.registryAddOk)
    || exists i :: 0 <= i < Reach(w, inp) && Fetch(w, inp).value[i] == q && i !in inp.addFails
  }

  /** The cycle gets answers, asks for a listed pin with this CID, comes to it and adds it. */
  ghost predicate CyclePins(w: World, inp: CycleInput, cid: string) {
    && Fetch(w, inp).Some? && inp.pinLsAnswers
    && exists q :: q in inp.listing && q.cid == cid && AsksFor(w, inp, q) && AddsPin(w, inp, q)
  }

  /** An event that brings the CID in: such a cycle, or a priority pin whose PinAdd succeeds. */
  ghost predicate EventPins(w: World, e: Event, cid: string) {
    match e
    case Sync(inp) => CyclePins(w, inp, cid)
    case Priority(c, addOk) => c == cid && addOk
    case Restart(_) => false
    case KuboBecomes(_) => false
  }

  /** What a cycle fetches is the listing, as far as it asks for it. */
  lemma FetchedIffAsked(w: World, inp: CycleInput, q: Pin)
    requires Whole(inp.listing) && Fetch(w, inp).Some?
    ensures q in Fetch(w, inp).value <==> q in inp.listing && AsksFor(w, inp, q)
  {
    FetchIsSince(w, inp);
    FilterMembers(inp.listing, Within(None, FetchedFrom(w, inp)));
    hide Fetch, PageBreaksClean;
  }

  /** The CIDs in kubo when the loop begins. */
  lemma PinnedFirstIff(kubo: set<string>, fetched: seq<Pin>, addOk: bool, cid: string)
    ensures var s := PinRegistryFirst(kubo, Latest(fetched), addOk);
      && s.cache == s.kubo
      && (cid in s.kubo <==>
            cid in kubo || (addOk && exists q :: q in fetched && Latest(fetched) == Some(q) && q.cid == cid))
  {
    LatestIsRegistry(fetched);
    hide Latest;
  }

  lemma CyclePinsIff(w: World, inp: CycleInput, cid: string)
    requires cid != "" && (Fetch(w, inp).Some? && inp.pinLsAnswers ==> Whole(inp.listing))
    ensures cid in Cycle(w, inp).0.kubo <==> cid in w.kubo || CyclePins(w, inp, cid)
    ensures (cid in w.pinnedCIDs ==> cid in w.kubo) ==>
      (cid in Cycle(w, inp).0.pinnedCIDs ==> cid in Cycle(w, inp).0.kubo)
  {
    hide Fetch, Latest, PinFirst, PinRegistryFirst, AsksFor, Whole;
    if Fetch(w, inp).Some? && inp.pinLsAnswers {
      var fetched := Fetch(w, inp).value;
      var s := PinRegistryFirst(w.kubo, Latest(fetched), inp.registryAddOk);
      PinnedFirstIff(w.kubo, fetched, inp.registryAddOk, cid);
      PinnedByFirst(s, fetched, inp.addFails, Reach(w, inp));
      AddedIff(w, inp, cid);
      hide AddsPin, Addable;
    }
  }

  /** In terms of the listing: some asked-for pin of this CID is added. */
  lemma AddedIff(w: World, inp: CycleInput, cid: string)
    requires Whole(inp.listing) && Fetch(w, inp).Some? && inp.pinLsAnswers
    ensures var fetched := Fetch(w, inp).value;
      CyclePins(w, inp, cid) <==>
        || Addable(fetched, inp.addFails, Reach(w, inp), cid)
        || (inp.registryAddOk && exists q :: q in fetched && Latest(fetched) == Some(q) && q.cid == cid)
  {
    hide Fetch, Latest, AsksFor, Whole;
    var fetched := Fetch(w, inp).value;
    forall q ensures q in fetched <==> q in inp.listing && AsksFor(w, inp, q) {
      FetchedIffAsked(w, inp, q);
    }
    LatestIsRegistry(fetched);
    if Addable(fetched, inp.addFails, Reach(w, inp), cid) {
      var i :| 0 <= i < Reach(w, inp) && fetched[i].cid == cid && i !in inp.addFails;
      assert fetched[i] in fetched && AddsPin(w, inp, fetched[i]);
    }
    if q :| q in fetched && Latest(fetched) == Some(q) && q.cid == cid {
      assert inp.registryAddOk ==> AddsPin(w, inp, q);
    }
  }

  /** Fetches that are used see clean page breaks, and nothing outside the daemon pins or unpins this CID. */
  ghost predicate Undisturbed(w: World, e: Event, cid: string) {
    match e
    case Sync(inp) => Fetch(w, inp).Some? && inp.pinLsAnswers ==> Whole(inp.listing)
    case Priority(_, _) => true
    case Restart(_) => true
    case KuboBecomes(pins) => cid in pins <==> cid in w.kubo
  }

  ghost predicate UndisturbedRun(w: World, events: seq<Event>, cid: string) {
    events == [] ||
    var before, e := events[..|events| - 1], events[|events| - 1];
    UndisturbedRun(w, before, cid) && Undisturbed(Run(w, before), e, cid)
  }

  ghost predicate PinnedAt(w: World, events: seq<Event>, i: nat, cid: string)
    requires i < |events|
  {
    EventPins(Run(w, events[..i]), events[i], cid)
  }

  /**
   * A CID is in kubo after a run exactly when some event of it brought it in: a cycle that asked for a
   * listed pin of that CID, came to it and added it, or a priority pin. Pins may come and go from the
   * listing; cycles may be aborted, PinAdds fail and processes restart in between.
   */
  lemma {:induction false} PinnedByRunIff(w: World, events: seq<Event>, cid: string)
    requires cid != "" && cid !in w.kubo && cid !in w.pinnedCIDs && UndisturbedRun(w, events, cid)
    ensures var v := Run(w, events);
      && (cid in v.kubo <==> exists i :: 0 <= i < |events| && PinnedAt(w, events, i, cid))
      && (cid in v.pinnedCIDs ==> cid in v.kubo)
  {
    hide Run, EventPins, Undisturbed, PinnedAt;
    if events == [] {
      NoEvents(w);
    } else {
      var n := |events| - 1;
      PinnedByRunIff(w, events[..n], cid);
      forall i | 0 <= i < n ensures PinnedAt(w, events[..n], i, cid) <==> PinnedAt(w, events, i, cid) {
        PinnedEarlier(w, events, i, cid);
      }
      LastEventPinsIff(w, events, cid);
    }
  }

  lemma NoEvents(w: World)
    ensures Run(w, []) == w
  {
  }

  lemma PinnedEarlier(w: World, events: seq<Event>, i: nat, cid: string)
    requires i < |events| - 1
    ensures PinnedAt(w, events[..|events| - 1], i, cid) <==> PinnedAt(w, events, i, cid)
  {
    assert events[..|events| - 1][..i] == events[..i];
    hide Run, EventPins;
  }

  lemma LastEventPinsIff(w: World, events: seq<Event>, cid: string)
    requires events != [] && cid != ""
    requires var v := Run(w, events[..|events| - 1]);
      Undisturbed(v, events[|events| - 1], cid) && (cid in v.pinnedCIDs ==> cid in v.kubo)
    ensures cid in Run(w, events).kubo <==>
      cid in Run(w, events[..|events| - 1]).kubo || PinnedAt(w, events, |events| - 1, cid)
    ensures cid in Run(w, events).pinnedCIDs ==> cid in Run(w, events).kubo
  {
    hide CyclePins, Cycle, Whole, Fetch;
    var e := events[|events| - 1];
    if e.Sync? {
      CyclePinsIff(Run(w, events[..|events| - 1]), e.inp, cid);
    }
  }
}
