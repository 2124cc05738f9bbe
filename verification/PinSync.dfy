/**
 * The auto-pin daemon: full and incremental sync cycles over a remote listing, a local kubo
 * node, a persisted sync time and a published registry CID. The outside world (clock, service,
 * kubo, file system, cancellation) enters each step as data.
 */
module PinSync {
  import opened Sequences
  import opened PinningClient

  const SECOND := 1_000_000_000
  const MINUTE := 60 * SECOND
  const PAGE_LIMIT: nat := 1000
  const REGISTRY_NAME := "fula-bucket-registry"
  const QUEUE_CAPACITY := 100

  /** Instants are nanoseconds since Go's zero time, so 0 is the time for which IsZero holds. */
  type Instant = nat

  /** Everything a cycle learns from outside while it runs. */
  datatype CycleInput = CycleInput(
    start: Instant,            // the clock at entry
    listing: seq<Pin>,         // the service's listing when the answering fetch runs
    sinceAnswers: bool,        // the incremental fetch succeeds
    allAnswers: bool,          // the full fetch succeeds
    pinLsAnswers: bool,        // kubo lists its pins
    registryAddOk: bool,       // the early PinAdd of the registry CID succeeds
    addFails: set<nat>,        // loop indices at which PinAdd fails
    cancelAt: Option<nat>,     // loop index at which the context is found cancelled
    registryWriteOk: bool,     // the registry file is replaced
    persistOk: bool)           // the sync time file is replaced

  datatype Tally = Tally(pinned: nat, skipped: nat, failed: nat, processed: nat)

  datatype Outcome = FetchFailed | PinLsFailed | Cancelled | Completed(tally: Tally)

  /** The daemon's memory, kubo's pins and the two files. */
  datatype World = World(
    pinnedCIDs: set<string>, lastSyncAt: Instant, syncCycle: nat,
    kubo: set<string>,
    lastSyncFile: Option<Instant>, registryFile: Option<string>)

  /** RFC 3339 formatting drops the fraction of a second. */
  function Formatted(t: int): int {
    t - t % SECOND
  }

  function FormattedInstant(t: Instant): Instant {
    t - t % SECOND
  }

  /** The `after` parameter of a query: none for the zero time. */
  function AfterParam(since: int): Option<int> {
    if since == 0 then None else Some(Formatted(since))
  }

  function ListPins(listing: seq<Pin>, since: int): seq<Pin> {
    Paged(Since(listing, AfterParam(since)), PAGE_LIMIT)
  }

  /** Every tenth cycle is forced to be full; so is every cycle without a known sync time. */
  predicate Incremental(w: World) {
    w.lastSyncAt != 0 && (w.syncCycle + 1) % 10 != 0
  }

  predicate FetchesAll(w: World, inp: CycleInput) {
    !(Incremental(w) && inp.sinceAnswers)
  }

  /** The pins a cycle works on, if the service gave it any answer. */
  function Fetch(w: World, inp: CycleInput): Option<seq<Pin>> {
    if !FetchesAll(w, inp) then Some(ListPins(inp.listing, w.lastSyncAt - MINUTE))
    else if inp.allAnswers then Some(ListPins(inp.listing, 0))
    else None
  }

  predicate IsRegistry(p: Pin) {
    p.name == REGISTRY_NAME && p.cid != ""
  }

  /** The registry pin the scan over pins settles on. */
  function Latest(pins: seq<Pin>): Option<Pin> {
    if pins == [] then None
    else
      var best, p := Latest(pins[..|pins| - 1]), pins[|pins| - 1];
      if IsRegistry(p) && (best.None? || p.created > best.value.created) then Some(p) else best
  }

  /** Pins found and counts made so far by a cycle's loop. */
  datatype Progress = Progress(cache: set<string>, kubo: set<string>, tally: Tally)

  function PinOne(s: Progress, p: Pin, addOk: bool): Progress {
    var t := s.tally.(processed := s.tally.processed + 1);
    if p.cid == "" then s
    else if p.cid in s.cache then s.(tally := t.(skipped := t.skipped + 1))
    else if !addOk then s.(tally := t.(failed := t.failed + 1))
    else Progress(s.cache + {p.cid}, s.kubo + {p.cid}, t.(pinned := t.pinned + 1))
  }

  function PinFirst(s: Progress, pins: seq<Pin>, addFails: set<nat>, n: nat): Progress
    requires n <= |pins|
  {
    if n == 0 then s
    else PinOne(PinFirst(s, pins, addFails, n - 1), pins[n - 1], n - 1 !in addFails)
  }

  /** The registry CID is pinned ahead of everything else. */
  function PinRegistryFirst(kubo: set<string>, registry: Option<Pin>, addOk: bool): Progress {
    var zero := Tally(0, 0, 0, 0);
    if registry.Some? && registry.value.cid !in kubo && addOk then
      Progress(kubo + {registry.value.cid}, kubo + {registry.value.cid}, zero)
    else
      Progress(kubo, kubo, zero)
  }

  /** The loop of a cycle whose fetch and pin listing succeeded. */
  function PinLoop(kubo: set<string>, fetched: seq<Pin>, inp: CycleInput): Progress {
    var s := PinRegistryFirst(kubo, Latest(fetched), inp.registryAddOk);
    var n := if inp.cancelAt.Some? && inp.cancelAt.value < |fetched| then inp.cancelAt.value else |fetched|;
    PinFirst(s, fetched, inp.addFails, n)
  }

  function Cycle(w: World, inp: CycleInput): (World, Outcome) {
    var w1 := w.(syncCycle := w.syncCycle + 1);
    var fetch := Fetch(w, inp);
    if fetch.None? then (w1, FetchFailed)
    else if !inp.pinLsAnswers then (w1, PinLsFailed)
    else
      var fetched, registry := fetch.value, Latest(fetch.value);
      var s := PinLoop(w.kubo, fetched, inp);
      var w2 := w1.(pinnedCIDs := s.cache, kubo := s.kubo);
      if inp.cancelAt.Some? && inp.cancelAt.value < |fetched| then (w2, Cancelled)
      else
        (w2.(
           registryFile := if registry.Some? && inp.registryWriteOk then Some(registry.value.cid) else w.registryFile,
           lastSyncAt := inp.start,
           lastSyncFile := if inp.persistOk then Some(FormattedInstant(inp.start)) else w.lastSyncFile),
         Completed(s.tally))
  }

  class Daemon {
    var pinnedCIDs: set<string>
    var lastSyncAt: Instant
    var syncCycle: nat
    var priorityQueue: seq<string>
    // What the daemon acts on.
    var kubo: set<string>
    var lastSyncFile: Option<Instant>
    var registryFile: Option<string>

    ghost function State(): World
      reads this
    {
      World(pinnedCIDs, lastSyncAt, syncCycle, kubo, lastSyncFile, registryFile)
    }

    /** A new process over the files and kubo node it finds. */
    constructor (kubo: set<string>, lastSyncFile: Option<Instant>, registryFile: Option<string>)
      ensures State() == World({}, if lastSyncFile.Some? then lastSyncFile.value else 0, 0,
                               kubo, lastSyncFile, registryFile)
      ensures priorityQueue == []
    {
      this.kubo, this.lastSyncFile, this.registryFile := kubo, lastSyncFile, registryFile;
      pinnedCIDs, syncCycle, priorityQueue := {}, 0, [];
      lastSyncAt := if lastSyncFile.Some? then lastSyncFile.value else 0;
    }

    method PinAdd(cid: string, ok: bool)
      modifies this`kubo
      ensures kubo == if ok then old(kubo) + {cid} else old(kubo)
    {
      if ok {
        kubo := kubo + {cid};
      }
    }

    method SyncPins(inp: CycleInput) returns (outcome: Outcome)
      modifies this`pinnedCIDs, this`lastSyncAt, this`syncCycle, this`kubo, this`lastSyncFile, this`registryFile
      ensures (State(), outcome) == Cycle(old(State()), inp)
    {
      ghost var w := State();
      var remotePins, ok := FetchRemotePins(inp);
      syncCycle := syncCycle + 1;
      if !ok {
        return FetchFailed;
      }
      var registry := FindRegistry(remotePins);

      if !inp.pinLsAnswers {
        return PinLsFailed;
      }
      pinnedCIDs := kubo;

      if registry.Some? && registry.value.cid !in pinnedCIDs {
        PinAdd(registry.value.cid, inp.registryAddOk);
        if inp.registryAddOk {
          pinnedCIDs := pinnedCIDs + {registry.value.cid};
        }
      }
      var cancelled, tally := PinMissing(remotePins, inp);
      if cancelled {
        return Cancelled;
      }

      if registry.Some? && inp.registryWriteOk {
        registryFile := Some(registry.value.cid);
      }
      lastSyncAt := inp.start;
      if inp.persistOk {
        lastSyncFile := Some(FormattedInstant(inp.start));
      }
      return Completed(tally);
    }

    method FetchRemotePins(inp: CycleInput) returns (remotePins: seq<Pin>, ok: bool)
      ensures ok <==> Fetch(State(), inp).Some?
      ensures ok ==> remotePins == Fetch(State(), inp).value
    {
      var forceFullSync := (syncCycle + 1) % 10 == 0;
      var incremental := lastSyncAt != 0 && !forceFullSync;
      if incremental {
        var failsAt := if inp.sinceAnswers then None else Some(0);
        remotePins, ok := ListPinsPaginated(inp.listing, AfterParam(lastSyncAt - MINUTE), PAGE_LIMIT, failsAt);
        if ok {
          return;
        }
      }
      var failsAt := if inp.allAnswers then None else Some(0);
      remotePins, ok := ListPinsPaginated(inp.listing, AfterParam(0), PAGE_LIMIT, failsAt);
    }

    /** The loop over the fetched pins, up to the point where the context is found cancelled. */
    method PinMissing(remotePins: seq<Pin>, inp: CycleInput) returns (cancelled: bool, tally: Tally)
      modifies this`pinnedCIDs, this`kubo
      ensures cancelled == (inp.cancelAt.Some? && inp.cancelAt.value < |remotePins|)
      ensures Progress(pinnedCIDs, kubo, tally) ==
              PinFirst(Progress(old(pinnedCIDs), old(kubo), Tally(0, 0, 0, 0)), remotePins, inp.addFails,
                       if cancelled then inp.cancelAt.value else |remotePins|)
    {
      ghost var s := Progress(pinnedCIDs, kubo, Tally(0, 0, 0, 0));
      var pinned, skipped, failed, processed := 0, 0, 0, 0;
      for i := 0 to |remotePins|
        invariant inp.cancelAt.Some? ==> inp.cancelAt.value >= i
        invariant Progress(pinnedCIDs, kubo, Tally(pinned, skipped, failed, processed)) ==
                  PinFirst(s, remotePins, inp.addFails, i)
      {
        if inp.cancelAt == Some(i) {
          return true, Tally(pinned, skipped, failed, processed);
        }
        var cid := remotePins[i].cid;
        if cid == "" {
          continue;
        }
        processed := processed + 1;
        if cid in pinnedCIDs {
          skipped := skipped + 1;
          continue;
        }
        PinAdd(cid, i !in inp.addFails);
        if i in inp.addFails {
          failed := failed + 1;
          continue;
        }
        pinnedCIDs := pinnedCIDs + {cid};
        pinned := pinned + 1;
      }
      return false, Tally(pinned, skipped, failed, processed);
    }

    method PinImmediately(cid: string, addOk: bool)
      modifies this`pinnedCIDs, this`kubo
      ensures State() == PriorityPin(old(State()), cid, addOk)
    {
      if cid in pinnedCIDs {
        return;
      }
      PinAdd(cid, addOk);
      if addOk {
        pinnedCIDs := pinnedCIDs + {cid};
      }
    }

    /**
     * Offers CIDs to the bounded queue while the daemon's loop may take others out of it: up to
     * drained[i] of them before the i-th offer. `taken` is what the loop receives meanwhile.
     */
    method QueuePriority(cids: seq<string>, drained: seq<nat>) returns (queued: nat, taken: seq<string>)
      requires |priorityQueue| <= QUEUE_CAPACITY && |drained| == |cids|
      modifies this`priorityQueue
      ensures var served := Served(|old(priorityQueue)|, cids, drained, |cids|);
        && taken + priorityQueue == old(priorityQueue) + served.accepted
        && queued == |served.accepted| && |priorityQueue| == served.length <= QUEUE_CAPACITY
    {
      ghost var before := priorityQueue;
      queued, taken := 0, [];
      for i := 0 to |cids|
        invariant var served := Served(|before|, cids, drained, i);
          && Conserving(taken, priorityQueue, before, served.accepted)
          && queued == |served.accepted| && |priorityQueue| == served.length <= QUEUE_CAPACITY
      {
        hide Conserving;
        ghost var queue, accepted := priorityQueue, Served(|before|, cids, drained, i).accepted;
        var received := Receive(drained[i]);
        ghost var left := priorityQueue;
        var ok := Offer(cids[i]);
        Conserved(taken, queue, before, accepted, received, left, if ok then [cids[i]] else []);
        taken := taken + received;
        queued := queued + if ok then 1 else 0;
      }
    }

    /** What the daemon's loop takes out of the queue, at most n CIDs. */
    method Receive(n: nat) returns (received: seq<string>)
      modifies this`priorityQueue
      ensures received + priorityQueue == old(priorityQueue)
      ensures |received| == if n <= |old(priorityQueue)| then n else |old(priorityQueue)|
    {
      var k := if n <= |priorityQueue| then n else |priorityQueue|;
      received, priorityQueue := priorityQueue[..k], priorityQueue[k..];
    }

    /** One offer, which a full queue refuses. */
    method Offer(cid: string) returns (ok: bool)
      modifies this`priorityQueue
      ensures ok <==> |old(priorityQueue)| < QUEUE_CAPACITY
      ensures priorityQueue == old(priorityQueue) + if ok then [cid] else []
    {
      ok := |priorityQueue| < QUEUE_CAPACITY;
      if ok {
        priorityQueue := priorityQueue + [cid];
      }
    }

    /** A restarted process: memory is rebuilt from the file, and an empty kubo node forces a full sync. */
    method Restart(pinLsAnswers: bool)
      modifies this
      ensures State() == Restarted(old(State()), pinLsAnswers)
    {
      pinnedCIDs, syncCycle, priorityQueue := {}, 0, [];
      lastSyncAt := if lastSyncFile.Some? then lastSyncFile.value else 0;
      if lastSyncAt != 0 && pinLsAnswers && kubo == {} {
        lastSyncAt := 0;
      }
    }
  }

  /** The offers the queue has accepted, and its length. */
  datatype Queue = Queue(accepted: seq<string>, length: nat)

  /** The first n offers to a queue of this length. */
  function Served(length: nat, cids: seq<string>, drained: seq<nat>, n: nat): Queue
    requires n <= |cids| == |drained|
  {
    if n == 0 then Queue([], length)
    else
      var s := Served(length, cids, drained, n - 1);
      var left := if drained[n - 1] <= s.length then s.length - drained[n - 1] else 0;
      if left < QUEUE_CAPACITY then Queue(s.accepted + [cids[n - 1]], left + 1)
      else Queue(s.accepted + [], left)
  }

  /** What went in, in order, is what came out and what is still there. */
  ghost predicate Conserving(taken: seq<string>, queue: seq<string>, before: seq<string>, accepted: seq<string>) {
    taken + queue == before + accepted
  }

  lemma Conserved(taken: seq<string>, queue: seq<string>, before: seq<string>, accepted: seq<string>,
                  received: seq<string>, left: seq<string>, x: seq<string>)
    requires Conserving(taken, queue, before, accepted) && received + left == queue
    ensures Conserving(taken + received, left + x, before, accepted + x)
  {
    assert (taken + received) + (left + x) == (taken + queue) + x;
  }

  predicate Subsequence(a: seq<string>, b: seq<string>)
    decreases |b|
  {
    a == [] ||
    (b != [] &&
     (|| (a[|a| - 1] == b[|b| - 1] && Subsequence(a[..|a| - 1], b[..|b| - 1]))
      || Subsequence(a, b[..|b| - 1])))
  }

  lemma {:induction false} AcceptedKeepsOrder(length: nat, cids: seq<string>, drained: seq<nat>, n: nat)
    requires n <= |cids| == |drained|
    ensures Subsequence(Served(length, cids, drained, n).accepted, cids[..n])
  {
    hide Subsequence, Served;
    if n == 0 {
      NothingServed(length, cids, drained);
    } else {
      AcceptedKeepsOrder(length, cids, drained, n - 1);
      var x := ServedNext(length, cids, drained, n);
      SubsequenceGrows(Served(length, cids, drained, n - 1).accepted, cids[..n - 1], cids[n - 1], x);
    }
  }

  lemma NothingServed(length: nat, cids: seq<string>, drained: seq<nat>)
    requires |cids| == |drained|
    ensures Subsequence(Served(length, cids, drained, 0).accepted, cids[..0])
  {
  }

  lemma ServedNext(length: nat, cids: seq<string>, drained: seq<nat>, n: nat) returns (x: seq<string>)
    requires 0 < n <= |cids| == |drained|
    ensures Served(length, cids, drained, n).accepted == Served(length, cids, drained, n - 1).accepted + x
    ensures x == [cids[n - 1]] || x == []
    ensures cids[..n] == cids[..n - 1] + [cids[n - 1]]
  {
    var s := Served(length, cids, drained, n - 1);
    x := if drained[n - 1] <= s.length && s.length - drained[n - 1] >= QUEUE_CAPACITY then [] else [cids[n - 1]];
  }

  lemma SubsequenceGrows(a: seq<string>, b: seq<string>, c: string, x: seq<string>)
    requires Subsequence(a, b) && (x == [c] || x == [])
    ensures Subsequence(a + x, b + [c])
  {
    hide Subsequence;
    if x == [c] {
      SubsequenceTakes(a, b, c);
    } else {
      assert a + x == a;
      SubsequenceSkips(a, b, c);
    }
  }

  lemma SubsequenceSkips(a: seq<string>, b: seq<string>, c: string)
    requires Subsequence(a, b)
    ensures Subsequence(a, b + [c])
  {
    var longer := b + [c];
    assert longer[..|longer| - 1] == b;
  }

  lemma SubsequenceTakes(a: seq<string>, b: seq<string>, c: string)
    requires Subsequence(a, b)
    ensures Subsequence(a + [c], b + [c])
  {
    var taken, longer := a + [c], b + [c];
    assert taken[..|taken| - 1] == a && longer[..|longer| - 1] == b;
  }

  lemma {:induction false} AcceptedUntouched(length: nat, cids: seq<string>, drained: seq<nat>, n: nat)
    requires n <= |cids| == |drained| && length <= QUEUE_CAPACITY && forall i :: 0 <= i < n ==> drained[i] == 0
    ensures var k := if n <= QUEUE_CAPACITY - length then n else QUEUE_CAPACITY - length;
      Served(length, cids, drained, n) == Queue(cids[..k], length + k)
  {
    if n > 0 {
      AcceptedUntouched(length, cids, drained, n - 1);
    }
  }

  lemma {:induction false} AcceptedKeptPace(length: nat, cids: seq<string>, drained: seq<nat>, n: nat)
    requires n <= |cids| == |drained| && length <= QUEUE_CAPACITY && forall i :: 0 <= i < n ==> drained[i] >= 1
    ensures Served(length, cids, drained, n).accepted == cids[..n]
    ensures Served(length, cids, drained, n).length <= QUEUE_CAPACITY
  {
    if n > 0 {
      AcceptedKeptPace(length, cids, drained, n - 1);
    }
  }

  /**
   * What the queue accepts keeps its order. While nothing is taken out it is a prefix, as long as the
   * room that was left; if the loop keeps pace, it is everything.
   */
  lemma AcceptedInOrder(length: nat, cids: seq<string>, drained: seq<nat>)
    requires |drained| == |cids| && length <= QUEUE_CAPACITY
    ensures var accepted, room := Served(length, cids, drained, |cids|).accepted, QUEUE_CAPACITY - length;
      && Subsequence(accepted, cids)
      && ((forall i :: 0 <= i < |cids| ==> drained[i] == 0) ==>
            accepted == cids[..if |cids| <= room then |cids| else room])
      && ((forall i :: 0 <= i < |cids| ==> drained[i] >= 1) ==> accepted == cids)
  {
    AcceptedKeepsOrder(length, cids, drained, |cids|);
    assert cids[..|cids|] == cids;
    if forall i :: 0 <= i < |cids| ==> drained[i] == 0 {
      AcceptedUntouched(length, cids, drained, |cids|);
    }
    if forall i :: 0 <= i < |cids| ==> drained[i] >= 1 {
      AcceptedKeptPace(length, cids, drained, |cids|);
    }
  }

  /** The scan for the registry pin. */
  method FindRegistry(pins: seq<Pin>) returns (best: Option<Pin>)
    ensures best == Latest(pins)
  {
    best := None;
    for i := 0 to |pins|
      invariant best == Latest(pins[..i])
    {
      assert pins[..i + 1][..i] == pins[..i];
      if IsRegistry(pins[i]) {
        if best.None? || pins[i].created > best.value.created {
          best := Some(pins[i]);
        }
      }
    }
    assert pins[..|pins|] == pins;
  }

  function PriorityPin(w: World, cid: string, addOk: bool): World {
    if cid in w.pinnedCIDs || !addOk then w
    else w.(pinnedCIDs := w.pinnedCIDs + {cid}, kubo := w.kubo + {cid})
  }

  function Restarted(w: World, pinLsAnswers: bool): World {
    var loaded := if w.lastSyncFile.Some? then w.lastSyncFile.value else 0;
    w.(pinnedCIDs := {}, syncCycle := 0,
       lastSyncAt := if pinLsAnswers && w.kubo == {} then 0 else loaded)
  }
}
