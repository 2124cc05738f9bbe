/** Bouncing a stale WireGuard tunnel, with a failure counter that outlives the process. */
module WireGuard {
  import opened Sequences

  const HANDSHAKE_FLOOR_SEC := 180
  const NULL_KEEPALIVE_SEC := 300
  const FRESH_WINDOW_SEC := 60
  const BOUNCE_COOLDOWN_SEC := 300.0
  const BOUNCE_BACKOFF_SEC := 1800.0
  const BOUNCE_MAX_CONSEC_FAIL := 3
  const HYDRATE_MAX := 100

  /** What status.sh reports. */
  datatype Status =
    | Unreadable
    | Status(installed: bool, registered: bool, active: bool, age: Option<int>, keepalive: Option<int>)

  /** Everything one check learns from outside. */
  datatype Input = Input(
    status: Status,
    now: real,
    internetDown: bool,
    upOk: bool,             // wg-quick up returned 0
    rereadActive: Option<bool>,
    rereadAge: Option<int>, // after the bounce; None also when the second reading fails
    writeOk: bool)          // the state file is replaced

  /** Module globals of the process, and the counter in the state file. */
  datatype Watch = Watch(lastAttempt: real, failures: nat, hydrated: bool, persisted: Option<int>)

  datatype Result = Result(healthy: bool, bounced: bool)

  function FreshWindow(keepalive: Option<int>): int {
    if keepalive.Some? && keepalive.value != 0 then keepalive.value else FRESH_WINDOW_SEC
  }

  function Threshold(keepalive: Option<int>): int {
    if keepalive.None? || keepalive.value == 0 then NULL_KEEPALIVE_SEC
    else if 3 * keepalive.value > HANDSHAKE_FLOOR_SEC then 3 * keepalive.value else HANDSHAKE_FLOOR_SEC
  }

  function Cooldown(failures: nat): real {
    if failures >= BOUNCE_MAX_CONSEC_FAIL then BOUNCE_BACKOFF_SEC else BOUNCE_COOLDOWN_SEC
  }

  /** The counter the process works with from its first check on. */
  function Counter(w: Watch): nat {
    if w.hydrated then w.failures
    else if w.persisted.Some? && 0 <= w.persisted.value <= HYDRATE_MAX then w.persisted.value
    else w.failures
  }

  /** A tunnel that is up, has shaken hands, and not recently enough. */
  predicate Stale(s: Status) {
    && s.Status? && s.installed && s.registered && s.active
    && s.age.Some? && s.age.value >= 0 && s.age.value > Threshold(s.keepalive)
  }

  predicate Fresh(s: Status) {
    && s.Status? && s.installed && s.registered && s.active
    && s.age.Some? && 0 <= s.age.value <= Threshold(s.keepalive) && s.age.value <= FreshWindow(s.keepalive)
  }

  /** The verdict of a check that does not bounce: the clock went back, or nothing is stale or amiss. */
  predicate LooksHealthy(s: Status) {
    && s.Status?
    && ((s.age.Some? && s.age.value < 0) || (s.active && !Stale(s)))
  }

  predicate Bounces(w: Watch, inp: Input) {
    Stale(inp.status) && !inp.internetDown && inp.now - w.lastAttempt >= Cooldown(Counter(w))
  }

  predicate Recovered(inp: Input)
    requires Stale(inp.status)
  {
    var active := if inp.rereadActive.Some? then inp.rereadActive.value else true;
    var age := if inp.rereadAge.Some? then inp.rereadAge.value else inp.status.age.value;
    inp.upOk && active && 0 <= age <= FreshWindow(inp.status.keepalive)
  }

  /** One check: what becomes of the counter, the time stamp and the state file. */
  function Checked(w: Watch, inp: Input): Watch {
    var bounces := Bounces(w, inp);
    var failures :=
      if bounces then (if Recovered(inp) then 0 else Counter(w) + 1)
      else if Fresh(inp.status) then 0
      else Counter(w);
    Watch(if bounces then inp.now else w.lastAttempt, failures, true,
          if inp.writeOk then Some(failures) else w.persisted)
  }

  function Restarted(w: Watch): Watch {
    Watch(0.0, 0, false, w.persisted)
  }

  class Watchdog {
    var lastBounceAttempt: real
    var consecFailures: nat
    var counterHydrated: bool
    var persistedFailures: Option<int>

    ghost function State(): Watch
      reads this
    {
      Watch(lastBounceAttempt, consecFailures, counterHydrated, persistedFailures)
    }

    constructor (persistedFailures: Option<int>)
      ensures State() == Watch(0.0, 0, false, persistedFailures)
    {
      this.persistedFailures := persistedFailures;
      lastBounceAttempt, consecFailures, counterHydrated := 0.0, 0, false;
    }

    method WriteState(ok: bool)
      modifies this`persistedFailures
      ensures persistedFailures == if ok then Some(consecFailures) else old(persistedFailures)
    {
      if ok {
        persistedFailures := Some(consecFailures);
      }
    }

    /** The first check of a process takes over a plausible counter from the state file. */
    method Hydrate()
      modifies this`counterHydrated, this`consecFailures
      ensures counterHydrated && consecFailures == Counter(old(State()))
    {
      if !counterHydrated {
        counterHydrated := true;
        if persistedFailures.Some? && 0 <= persistedFailures.value <= HYDRATE_MAX {
          consecFailures := persistedFailures.value;
        }
      }
    }

    method CheckHandshakeAge(inp: Input) returns (r: Result)
      modifies this
      ensures State() == Checked(old(State()), inp)
      ensures r.bounced == Bounces(old(State()), inp)
      ensures r.healthy <==> if r.bounced then consecFailures == 0 else LooksHealthy(inp.status)
    {
      Hydrate();
      if inp.status.Unreadable? {
        WriteState(inp.writeOk);
        return Result(false, false);
      }
      var age := inp.status.age;
      if age.Some? && age.value < 0 { // the clock moved backwards
        WriteState(inp.writeOk);
        return Result(true, false);
      }
      if !(inp.status.installed && inp.status.registered && inp.status.active) {
        WriteState(inp.writeOk);
        return Result(inp.status.active, false);
      }
      if age.None? {
        WriteState(inp.writeOk);
        return Result(true, false);
      }
      var keepalive := inp.status.keepalive;
      if age.value <= Threshold(keepalive) {
        if age.value <= FreshWindow(keepalive) {
          consecFailures := 0;
        }
        WriteState(inp.writeOk);
        return Result(true, false);
      }
      if inp.internetDown {
        WriteState(inp.writeOk);
        return Result(false, false);
      }
      var cooldown := if consecFailures >= BOUNCE_MAX_CONSEC_FAIL then BOUNCE_BACKOFF_SEC else BOUNCE_COOLDOWN_SEC;
      if inp.now - lastBounceAttempt < cooldown {
        WriteState(inp.writeOk);
        return Result(false, false);
      }
      r := Bounce(inp, age.value);
    }

    /** Takes the tunnel down and up; only a fresh handshake on the second reading counts as recovery. */
    method Bounce(inp: Input, age: int) returns (r: Result)
      requires inp.status.Status?
      modifies this
      ensures var active := if inp.rereadActive.Some? then inp.rereadActive.value else inp.status.active;
        var postAge := if inp.rereadAge.Some? then inp.rereadAge.value else age;
        var recovered := inp.upOk && active && 0 <= postAge <= FreshWindow(inp.status.keepalive);
        && r == Result(recovered, true) && lastBounceAttempt == inp.now
        && consecFailures == (if recovered then 0 else old(consecFailures) + 1)
        && counterHydrated == old(counterHydrated)
        && persistedFailures == (if inp.writeOk then Some(consecFailures) else old(persistedFailures))
    {
      var keepalive := inp.status.keepalive;
      lastBounceAttempt := inp.now;
      var postActive := if inp.rereadActive.Some? then inp.rereadActive.value else inp.status.active;
      var postAge := if inp.rereadAge.Some? then inp.rereadAge.value else age;
      var recovered := inp.upOk && postActive && 0 <= postAge <= FreshWindow(keepalive);
      consecFailures := if recovered then 0 else consecFailures + 1;
      WriteState(inp.writeOk);
      return Result(recovered, true);
    }
  }

  // Whole runs

  datatype Event = Check(inp: Input) | Restart

  /**
   * A run so far: the times of the bounces since the counter was last 0, for each whether the process
   * was restarted since the one before, whether it was restarted since the last, and the clock.
   */
  datatype Track = Track(w: Watch, times: seq<real>, cuts: seq<bool>, restarted: bool, clock: real)

  function Next(t: Track, e: Event): Track {
    match e
    case Restart => t.(w := Restarted(t.w), restarted := true)
    case Check(inp) =>
      var w := Checked(t.w, inp);
      var restarted := t.restarted && !Bounces(t.w, inp);
      if w.failures == 0 then Track(w, [], [], restarted, inp.now)
      else if Bounces(t.w, inp) then Track(w, t.times + [inp.now], t.cuts + [t.restarted], false, inp.now)
      else t.(w := w, clock := inp.now)
  }

  function Run(w: Watch, clock: real, events: seq<Event>): Track {
    if events == [] then Track(w, [], [], false, clock)
    else Next(Run(w, clock, events[..|events| - 1]), events[|events| - 1])
  }

  /** The clock does not run backwards, and a process ends only with its counter saved and at most 100. */
  ghost predicate Orderly(t: Track, e: Event) {
    match e
    case Check(inp) => inp.now >= t.clock
    case Restart => t.w.hydrated ==> t.w.persisted == Some(t.w.failures) && t.w.failures <= HYDRATE_MAX
  }

  ghost predicate OrderlyRun(w: Watch, clock: real, events: seq<Event>) {
    events == [] ||
    var before := events[..|events| - 1];
    OrderlyRun(w, clock, before) && Orderly(Run(w, clock, before), events[|events| - 1])
  }

  // The persisted counter

  /** The check at i is the last one whose state file was written. */
  ghost predicate LastSaved(events: seq<Event>, i: nat) {
    && i < |events| && events[i].Check? && events[i].inp.writeOk
    && forall j :: i < j < |events| && events[j].Check? ==> !events[j].inp.writeOk
  }

  /** Whatever happens afterwards, the file holds the counter as the last saved check left it. */
  lemma {:induction false} CounterIsPersisted(w: Watch, clock: real, events: seq<Event>, i: nat)
    requires LastSaved(events, i)
    ensures Run(w, clock, events).w.persisted == Some(Run(w, clock, events[..i + 1]).w.failures)
  {
    if i == |events| - 1 {
      assert events[..i + 1] == events;
    } else {
      var before := events[..|events| - 1];
      CounterIsPersisted(w, clock, before, i);
      assert before[..i + 1] == events[..i + 1];
    }
  }

  /** A restart resumes the cooldown of the last saved check exactly when its counter is at most 100. */
  lemma RestartResumesIff(w: Watch, clock: real, events: seq<Event>, i: nat)
    requires LastSaved(events, i)
    ensures var saved, v := Run(w, clock, events[..i + 1]).w.failures, Run(w, clock, events).w;
      && Counter(Restarted(v)) == (if saved <= HYDRATE_MAX then saved else 0)
      && (Cooldown(Counter(Restarted(v))) == Cooldown(saved) <==> saved <= HYDRATE_MAX)
  {
    CounterIsPersisted(w, clock, events, i);
  }

  // The spacing of bounces

  /** The time between the k-th and the next bounce, if every gap with a restart in it takes `wait`. */
  function Gap(k: nat, cut: bool, wait: real): real {
    if cut then wait else Cooldown(k)
  }

  /** The distance of the n-th bounce from the first, then. */
  function Due(cuts: seq<bool>, n: nat, wait: real): real
    requires n <= |cuts|
  {
    if n <= 1 then 0.0 else Due(cuts, n - 1, wait) + Gap(n - 1, cuts[n - 1], wait)
  }

  /** Without restarts. */
  lemma {:induction false} DueIs(cuts: seq<bool>, n: nat, wait: real)
    requires 3 <= n <= |cuts| && forall k :: 1 <= k < n ==> !cuts[k]
    ensures Due(cuts, n, wait) == 600.0 + 1800.0 * (n - 3) as real
  {
    if n == 3 {
      assert Due(cuts, 2, wait) == 300.0;
    } else {
      DueIs(cuts, n - 1, wait);
    }
  }

  /** A process that has not checked yet has counted nothing. */
  predicate Sound(w: Watch) {
    !w.hydrated ==> w.failures == 0
  }

  /** As many bounces as the counter says, each at least its gap after the one before, nothing for a restart. */
  ghost predicate Spaced(t: Track) {
    && Sound(t.w) && |t.times| == |t.cuts| == Counter(t.w)
    && (forall k :: 1 <= k < |t.times| ==> t.times[k] - t.times[k - 1] >= Gap(k, t.cuts[k], 0.0))
    && (t.times != [] ==>
          && t.times[|t.times| - 1] <= t.clock
          && (!t.restarted ==> t.w.lastAttempt == t.times[|t.times| - 1]))
  }

  lemma NextIsSpaced(t: Track, e: Event)
    requires Spaced(t) && Orderly(t, e)
    ensures Spaced(Next(t, e))
    ensures e.Check? && Bounces(t.w, e.inp) && t.times != [] ==>
      e.inp.now - t.times[|t.times| - 1] >= Gap(|t.times|, t.restarted, 0.0)
  {
  }

  lemma {:induction false} RunIsSpaced(w: Watch, clock: real, events: seq<Event>)
    requires Sound(w) && Counter(w) == 0 && OrderlyRun(w, clock, events)
    ensures Spaced(Run(w, clock, events))
  {
    if events != [] {
      RunIsSpaced(w, clock, events[..|events| - 1]);
      NextIsSpaced(Run(w, clock, events[..|events| - 1]), events[|events| - 1]);
    }
  }

  lemma {:induction false} GapsAddUp(times: seq<real>, cuts: seq<bool>, n: nat)
    requires |times| == |cuts| && 0 < n <= |cuts|
    requires forall k :: 1 <= k < |times| ==> times[k] - times[k - 1] >= Gap(k, cuts[k], 0.0)
    ensures times[n - 1] >= times[0] + Due(cuts, n, 0.0)
  {
    if n > 1 {
      GapsAddUp(times, cuts, n - 1);
    }
  }

  /**
   * The k-th bounce since the counter was last 0 comes at least the cooldowns of all gaps without a
   * restart after the first; with no restart that is 600 + 1800 (k - 3) seconds.
   */
  lemma BounceSpacing(w: Watch, clock: real, events: seq<Event>, inp: Input)
    requires Sound(w) && Counter(w) == 0 && OrderlyRun(w, clock, events + [Check(inp)])
    requires Bounces(Run(w, clock, events).w, inp) && Run(w, clock, events).times != []
    ensures var t := Run(w, clock, events);
      var cuts, k := t.cuts + [t.restarted], |t.times| + 1;
      && |cuts| == k && inp.now >= t.times[0] + Due(cuts, k, 0.0)
      && (k >= 3 && (forall j :: 1 <= j < k ==> !cuts[j]) ==>
            inp.now >= t.times[0] + 600.0 + 1800.0 * (k - 3) as real)
  {
    var t := Run(w, clock, events);
    AddEvent(w, clock, events, Check(inp));
    RunIsSpaced(w, clock, events);
    NextIsSpaced(t, Check(inp));
    LastGapAddsUp(t, inp.now);
    var cuts := t.cuts + [t.restarted];
    if |cuts| >= 3 && forall j :: 1 <= j < |cuts| ==> !cuts[j] {
      DueIs(cuts, |cuts|, 0.0);
    }
    hide Run, Due, OrderlyRun, Bounces, Gap;
  }

  lemma LastGapAddsUp(t: Track, now: real)
    requires Spaced(t) && t.times != [] && now - t.times[|t.times| - 1] >= Gap(|t.times|, t.restarted, 0.0)
    ensures now >= t.times[0] + Due(t.cuts + [t.restarted], |t.cuts| + 1, 0.0)
  {
    GapsAddUp(t.times + [now], t.cuts + [t.restarted], |t.cuts| + 1);
  }

  lemma AddEvent(w: Watch, clock: real, events: seq<Event>, e: Event)
    ensures Run(w, clock, events + [e]) == Next(Run(w, clock, events), e)
    ensures OrderlyRun(w, clock, events + [e]) <==>
      OrderlyRun(w, clock, events) && Orderly(Run(w, clock, events), e)
  {
    assert (events + [e])[..|events|] == events;
  }

  /** After a restart the next check bounces exactly if it is stale and online, whenever the last bounce was. */
  lemma RestartForgetsLastBounce(v: Watch, inp: Input)
    requires inp.now >= BOUNCE_BACKOFF_SEC
    ensures Bounces(Restarted(v), inp) <==> Stale(inp.status) && !inp.internetDown
  {
  }

  // The spacing is not larger than that

  const BOOTED := Watch(0.0, 0, false, None)
  const START := Track(BOOTED, [], [], false, 0.0)

  /** A stale check whose bounce fails. */
  function FailingBounce(now: real): Event {
    Check(Input(Status(true, true, true, Some(301), None), now, false, false, None, None, true))
  }

  /** The n-th bounce, as early as the gaps allow. */
  function NthBounce(cuts: seq<bool>, n: nat, wait: real): Event
    requires n <= |cuts|
  {
    FailingBounce(2000.0 + Due(cuts, n, wait))
  }

  /** n bounces, with restarts where they are asked for, each of them making for a gap of `wait`. */
  function Tightest(cuts: seq<bool>, n: nat, wait: real): seq<Event>
    requires n <= |cuts|
  {
    if n == 0 then []
    else if cuts[n - 1] then Tightest(cuts, n - 1, wait) + [Restart] + [NthBounce(cuts, n, wait)]
    else Tightest(cuts, n - 1, wait) + [NthBounce(cuts, n, wait)]
  }

  lemma {:induction false} DueIsNotNegative(cuts: seq<bool>, n: nat, wait: real)
    requires n <= |cuts| && wait >= 0.0
    ensures Due(cuts, n, wait) >= 0.0
    ensures n > 0 ==> Due(cuts, n, wait) >= Due(cuts, n - 1, wait)
    ensures n > 1 && !cuts[n - 1] ==> Due(cuts, n, wait) == Due(cuts, n - 1, wait) + Cooldown(n - 1)
  {
    if n > 0 {
      DueIsNotNegative(cuts, n - 1, wait);
    }
  }

  /** The bounces are cut as asked for, and the last one comes exactly as late as it has to. */
  ghost predicate Tight(t: Track, cuts: seq<bool>, n: nat, wait: real)
    requires n <= |cuts|
  {
    && |t.cuts| == |t.times| == n && (forall k :: 0 <= k < n ==> t.cuts[k] == cuts[k]) && !t.restarted
    && (if n == 0 then t == START
        else
          && t.w == Watch(t.clock, n, true, Some(n))
          && t.times[0] == 2000.0 && t.times[n - 1] == t.clock == 2000.0 + Due(cuts, n, wait))
  }

  /**
   * For every choice of up to a hundred gaps to be cut by restarts, and every time `wait` such a gap is
   * to take, however short, there is an orderly run from the initial state with exactly these gaps.
   */
  lemma {:induction false} SpacingIsAttained(cuts: seq<bool>, n: nat, wait: real)
    requires n <= |cuts| && n <= HYDRATE_MAX && wait >= 0.0
    ensures OrderlyRun(BOOTED, 0.0, Tightest(cuts, n, wait))
    ensures Tight(Run(BOOTED, 0.0, Tightest(cuts, n, wait)), cuts, n, wait)
  {
    hide Next, Orderly, Tight, Due, Run, OrderlyRun, NthBounce, Tightest;
    if n == 0 {
      TightAtStart(cuts, wait);
    } else {
      SpacingIsAttained(cuts, n - 1, wait);
      TightStep(Run(BOOTED, 0.0, Tightest(cuts, n - 1, wait)), cuts, n, wait);
      TightestAfter(cuts, n, wait);
    }
  }

  lemma TightAtStart(cuts: seq<bool>, wait: real)
    ensures OrderlyRun(BOOTED, 0.0, Tightest(cuts, 0, wait))
    ensures Tight(Run(BOOTED, 0.0, Tightest(cuts, 0, wait)), cuts, 0, wait)
  {
  }

  lemma TightestAfter(cuts: seq<bool>, n: nat, wait: real)
    requires 0 < n <= |cuts| && OrderlyRun(BOOTED, 0.0, Tightest(cuts, n - 1, wait))
    ensures var t, e := Run(BOOTED, 0.0, Tightest(cuts, n - 1, wait)), NthBounce(cuts, n, wait);
      var u := if cuts[n - 1] then Next(t, Restart) else t;
      && Run(BOOTED, 0.0, Tightest(cuts, n, wait)) == Next(u, e)
      && ((cuts[n - 1] ==> Orderly(t, Restart)) && Orderly(u, e) ==>
            OrderlyRun(BOOTED, 0.0, Tightest(cuts, n, wait)))
  {
    var front, e := Tightest(cuts, n - 1, wait), NthBounce(cuts, n, wait);
    hide Next, Orderly, Run, OrderlyRun, NthBounce;
    if cuts[n - 1] {
      AddEvent(BOOTED, 0.0, front, Restart);
      AddEvent(BOOTED, 0.0, front + [Restart], e);
    } else {
      AddEvent(BOOTED, 0.0, front, e);
    }
  }

  lemma NextFailing(t: Track, now: real)
    requires now - t.w.lastAttempt >= Cooldown(Counter(t.w))
    ensures var k := Counter(t.w) + 1;
      Next(t, FailingBounce(now)) ==
      Track(Watch(now, k, true, Some(k)), t.times + [now], t.cuts + [t.restarted], false, now)
  {
  }

  /** The state in which the next bounce is decided, after a restart or without one. */
  lemma BeforeBounce(t: Track, cuts: seq<bool>, n: nat, wait: real)
    requires n < |cuts| && n < HYDRATE_MAX && wait >= 0.0 && Tight(t, cuts, n, wait)
    ensures var now, u := 2000.0 + Due(cuts, n + 1, wait), if cuts[n] then Next(t, Restart) else t;
      && u.times == t.times && u.cuts == t.cuts && u.restarted == cuts[n] && u.clock == t.clock
      && Counter(u.w) == n && now - u.w.lastAttempt >= Cooldown(n) && now >= t.clock
      && (cuts[n] ==> Orderly(t, Restart))
  {
    DueIsNotNegative(cuts, n + 1, wait);
  }

  lemma TightStep(t: Track, cuts: seq<bool>, n: nat, wait: real)
    requires 0 < n <= |cuts| && n <= HYDRATE_MAX && wait >= 0.0 && Tight(t, cuts, n - 1, wait)
    ensures var e, u := NthBounce(cuts, n, wait), if cuts[n - 1] then Next(t, Restart) else t;
      (cuts[n - 1] ==> Orderly(t, Restart)) && Orderly(u, e) && Tight(Next(u, e), cuts, n, wait)
  {
    var now := 2000.0 + Due(cuts, n, wait);
    var u := if cuts[n - 1] then Next(t, Restart) else t;
    hide Next, Counter, Due, Tight;
    BeforeBounce(t, cuts, n - 1, wait);
    NextFailing(u, now);
    TightAfter(t, u, cuts, n, wait);
  }

  lemma TightAfter(t: Track, u: Track, cuts: seq<bool>, n: nat, wait: real)
    requires 0 < n <= |cuts| && Tight(t, cuts, n - 1, wait)
    requires u.times == t.times && u.cuts == t.cuts && u.restarted == cuts[n - 1]
    ensures var now := 2000.0 + Due(cuts, n, wait);
      Tight(Track(Watch(now, n, true, Some(n)), u.times + [now], u.cuts + [u.restarted], false, now), cuts, n, wait)
  {
    assert n == 1 ==> Due(cuts, n, wait) == 0.0;
    hide Due;
  }

  /** A single restart in deep backoff: the fourth bounce comes 605 seconds after the first, not 2400. */
  lemma RestartSkipsCooldown()
    ensures var cuts := [false, false, false, true];
      var t := Run(BOOTED, 0.0, Tightest(cuts, 4, 5.0));
      OrderlyRun(BOOTED, 0.0, Tightest(cuts, 4, 5.0)) && |t.times| == 4 && t.times[3] - t.times[0] == 605.0
  {
    var cuts := [false, false, false, true];
    SpacingIsAttained(cuts, 4, 5.0);
    DueIs(cuts, 3, 5.0);
  }
}
