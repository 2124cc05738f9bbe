/** The rules of the tunnel watchdog in terms of what it sees: when it bounces, and what its counter counts. */
module WireGuardRules {
  import opened Sequences
  import opened WireGuard

  predicate Up(s: Status) {
    s.Status? && s.installed && s.registered && s.active
  }

  function Keepalive(s: Status): int
    requires s.Status?
  {
    if s.keepalive.Some? then s.keepalive.value else 0
  }

  /** The last handshake is at most three minutes or three keepalives old, five minutes without keepalive. */
  predicate RecentEnough(s: Status, age: int)
    requires s.Status?
  {
    if Keepalive(s) == 0 then age <= 300 else age <= 180 || age <= 3 * Keepalive(s)
  }

  /** It is at most one keepalive old, or a minute without keepalive. */
  predicate JustNow(s: Status, age: int)
    requires s.Status?
  {
    0 <= age <= if Keepalive(s) == 0 then 60 else Keepalive(s)
  }

  /** The check sees a fresh handshake on a tunnel that is up. */
  predicate SeesFresh(inp: Input) {
    Up(inp.status) && inp.status.age.Some? && RecentEnough(inp.status, inp.status.age.value) &&
    JustNow(inp.status, inp.status.age.value)
  }

  /** The bounce has helped: the command succeeded, and the second look finds the tunnel up and fresh. */
  predicate Helped(inp: Input)
    requires Up(inp.status) && inp.status.age.Some?
  {
    && inp.upOk && inp.rereadActive != Some(false)
    && JustNow(inp.status, if inp.rereadAge.Some? then inp.rereadAge.value else inp.status.age.value)
  }

  /** The number of failures that decide the cooldown: the file's for a new process, if it is plausible. */
  function Known(w: Watch): nat {
    if w.hydrated then w.failures
    else if w.persisted.Some? && 0 <= w.persisted.value <= 100 then w.persisted.value
    else w.failures
  }

  /**
   * A tunnel is bounced exactly if it is up, has shaken hands, not recently enough, the internet is not
   * known to be down, and five minutes, or after three failures half an hour, have passed since the last try.
   */
  lemma BouncesIff(w: Watch, inp: Input)
    ensures Bounces(w, inp) <==>
      && Up(inp.status) && inp.status.age.Some? && inp.status.age.value >= 0
      && !RecentEnough(inp.status, inp.status.age.value)
      && !inp.internetDown && inp.now >= w.lastAttempt + (if Known(w) >= 3 then 1800.0 else 300.0)
  {
  }

  /**
   * A check that does not bounce calls the tunnel healthy exactly if its status is known and either the
   * clock has gone back, or it is active and not both fully set up and past its last recent handshake.
   */
  lemma HealthIs(s: Status)
    ensures LooksHealthy(s) <==>
      && s.Status?
      && (|| (s.age.Some? && s.age.value < 0)
          || (s.active && (!Up(s) || s.age.None? || RecentEnough(s, s.age.value))))
  {
  }

  /** A stale tunnel is bounced at the latest by the first check half an hour after the last try. */
  lemma BouncedInTime(w: Watch, inp: Input)
    requires Up(inp.status) && inp.status.age.Some? && inp.status.age.value >= 0 && !inp.internetDown
    requires !RecentEnough(inp.status, inp.status.age.value) && inp.now >= w.lastAttempt + 1800.0
    ensures Checked(w, inp).lastAttempt == inp.now
  {
    BouncesIff(w, inp);
  }

  /** What a check does to the number of failures. */
  lemma CountAfterCheck(w: Watch, inp: Input)
    ensures Known(Checked(w, inp)) ==
      if Bounces(w, inp) then (if Up(inp.status) && inp.status.age.Some? && Helped(inp) then 0 else Known(w) + 1)
      else if SeesFresh(inp) then 0 else Known(w)
  {
    BouncesIff(w, inp);
  }

  // Whole runs

  /** The check at i bounces. */
  ghost predicate BouncesAt(w: Watch, clock: real, events: seq<Event>, i: nat)
    requires i < |events|
  {
    events[i].Check? && Bounces(Run(w, clock, events[..i]).w, events[i].inp)
  }

  /** The check at i sees the tunnel work: a fresh handshake, or a bounce that helped. */
  ghost predicate WorksAt(w: Watch, clock: real, events: seq<Event>, i: nat)
    requires i < |events|
  {
    events[i].Check? &&
    var inp := events[i].inp;
    if BouncesAt(w, clock, events, i) then Up(inp.status) && inp.status.age.Some? && Helped(inp) else SeesFresh(inp)
  }

  /** The number of bounces since the tunnel last worked. */
  ghost function InVain(w: Watch, clock: real, events: seq<Event>, n: nat): nat
    requires n <= |events|
  {
    if n == 0 || WorksAt(w, clock, events, n - 1) then 0
    else InVain(w, clock, events, n - 1) + if BouncesAt(w, clock, events, n - 1) then 1 else 0
  }

  lemma {:induction false} InVainOfPrefix(w: Watch, clock: real, events: seq<Event>, n: nat)
    requires n < |events|
    ensures InVain(w, clock, events[..|events| - 1], n) == InVain(w, clock, events, n)
  {
    if n > 0 {
      InVainOfPrefix(w, clock, events, n - 1);
      assert events[..|events| - 1][..n - 1] == events[..n - 1];
      hide Run, Bounces, SeesFresh, Helped;
    }
  }

  /**
   * In every orderly run the counter is the number of bounces since the tunnel last worked, through any
   * number of restarts.
   */
  lemma {:induction false} CounterCounts(w: Watch, clock: real, events: seq<Event>)
    requires Sound(w) && Known(w) == 0 && OrderlyRun(w, clock, events)
    ensures var v := Run(w, clock, events).w;
      Sound(v) && Known(v) == InVain(w, clock, events, |events|)
  {
    if events != [] {
      var n := |events| - 1;
      CounterCounts(w, clock, events[..n]);
      InVainOfPrefix(w, clock, events, n);
      var t, e := Run(w, clock, events[..n]), events[n];
      NextCount(t, e);
      hide Run, Orderly, Known, Bounces, Sound, SeesFresh, Helped, Next;
      LastRun(w, clock, events);
    }
  }

  lemma LastRun(w: Watch, clock: real, events: seq<Event>)
    requires events != []
    ensures Run(w, clock, events) == Next(Run(w, clock, events[..|events| - 1]), events[|events| - 1])
  {
  }

  lemma NextCount(t: Track, e: Event)
    requires Sound(t.w) && Orderly(t, e)
    ensures Sound(Next(t, e).w)
    ensures e.Restart? ==> Known(Next(t, e).w) == Known(t.w)
    ensures e.Check? ==>
      Known(Next(t, e).w) ==
      if Bounces(t.w, e.inp) then
        (if Up(e.inp.status) && e.inp.status.age.Some? && Helped(e.inp) then 0 else Known(t.w) + 1)
      else if SeesFresh(e.inp) then 0 else Known(t.w)
  {
    if e.Check? {
      CountAfterCheck(t.w, e.inp);
    }
  }
}
