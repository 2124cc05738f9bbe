/** The recovery driver's emergency reboots: at most two a day, at most one per boot. */
module RebootBudget {
  import opened Sequences

  const UPTIME_MIN_SEC := 3600.0
  const REBOOT_BUDGET := 2
  const WINDOW_SEC := 86400.0

  /** An entry of the state file: an ISO timestamp in whole seconds, or something that does not parse. */
  datatype Entry = Stamp(ts: int) | Malformed

  datatype Scheduling = Accepted | Refused | Raised

  /** Everything one invocation learns from outside. */
  datatype Input = Input(
    now: real,         // the clock when the invocation notes its time
    trimAt: real,      // the clock when old reboots are dropped from the state
    decideAt: real,    // the clock when the decision counts them again
    uptime: real,
    loadOk: bool,      // the state file is read
    scheduling: Scheduling,
    sentinelOk: bool,  // the sentinel is created
    writeOk: bool)     // the state file is replaced

  datatype Decision = UptimeBelowThreshold | IntrabootDebounce | BudgetExhausted | Scheduled | NotScheduled

  /** The persisted list of reboots, and the sentinel that vanishes with the boot. */
  datatype State = State(reboots: seq<Entry>, sentinel: bool)

  function NotOlder(cutoff: real): Entry -> bool {
    (e: Entry) => e.Stamp? && e.ts as real >= cutoff
  }

  function Trimmed(entries: seq<Entry>, clock: real): seq<Entry> {
    Filter(entries, NotOlder(clock - WINDOW_SEC))
  }

  method TrimOld(entries: seq<Entry>, clock: real) returns (kept: seq<Entry>)
    ensures kept == Trimmed(entries, clock)
  {
    var cutoff := clock - WINDOW_SEC;
    kept := [];
    for i := 0 to |entries|
      invariant kept == Trimmed(entries[..i], clock)
    {
      assert entries[..i + 1] == entries[..i] + [entries[i]];
      TrimStep(entries[..i], entries[i], clock);
      if entries[i].Malformed? {
        continue;
      }
      if entries[i].ts as real >= cutoff {
        kept := kept + [entries[i]];
      }
    }
    assert entries[..|entries|] == entries;
  }

  lemma TrimStep(entries: seq<Entry>, e: Entry, clock: real)
    ensures Trimmed(entries + [e], clock) ==
      if e.Stamp? && e.ts as real >= clock - WINDOW_SEC then Trimmed(entries, clock) + [e] else Trimmed(entries, clock)
  {
    FilterConcat(entries, [e], NotOlder(clock - WINDOW_SEC));
    assert [e][1..] == [];
  }

  function Decide(reboots: seq<Entry>, clock: real, uptime: real, sentinel: bool): Decision {
    if uptime < UPTIME_MIN_SEC then UptimeBelowThreshold
    else if sentinel then IntrabootDebounce
    else if |Trimmed(reboots, clock)| >= REBOOT_BUDGET then BudgetExhausted
    else Scheduled
  }

  /** One invocation. */
  function Driven(s: State, inp: Input): (State, Decision) {
    var loaded := if inp.loadOk then s.reboots else [];
    var reboots := Trimmed(loaded, inp.trimAt);
    var decision := Decide(reboots, inp.decideAt, inp.uptime, s.sentinel);
    var saved := if inp.writeOk then s.(reboots := reboots) else s;
    if decision != Scheduled then (saved, decision)
    else
      match inp.scheduling
      case Raised => (s, NotScheduled)
      case Refused => (saved, NotScheduled)
      case Accepted =>
        var kept := if inp.writeOk then reboots + [Stamp(inp.now.Floor)] else s.reboots;
        (State(kept, s.sentinel || inp.sentinelOk), Scheduled)
  }

  class RecoveryDriver {
    var rebootsFile: seq<Entry>
    var sentinel: bool

    constructor (reboots: seq<Entry>)
      ensures rebootsFile == reboots && !sentinel
    {
      rebootsFile, sentinel := reboots, false;
    }

    method Boot()
      modifies this`sentinel
      ensures !sentinel
    {
      sentinel := false;
    }

    method Drive(inp: Input) returns (decision: Decision)
      modifies this
      ensures (State(rebootsFile, sentinel), decision) == Driven(State(old(rebootsFile), old(sentinel)), inp)
    {
      var reboots := if inp.loadOk then rebootsFile else [];
      reboots := TrimOld(reboots, inp.trimAt);
      decision := DecideEscalation(reboots, inp);
      if decision == Scheduled {
        if inp.scheduling == Raised {
          return NotScheduled;
        }
        if inp.scheduling == Accepted {
          if inp.sentinelOk {
            sentinel := true;
          }
          reboots := reboots + [Stamp(inp.now.Floor)];
        } else {
          decision := NotScheduled;
        }
      }
      if inp.writeOk {
        rebootsFile := reboots;
      }
    }

    method DecideEscalation(reboots: seq<Entry>, inp: Input) returns (decision: Decision)
      ensures decision == Decide(reboots, inp.decideAt, inp.uptime, sentinel)
    {
      if inp.uptime < UPTIME_MIN_SEC {
        return UptimeBelowThreshold;
      }
      if sentinel {
        return IntrabootDebounce;
      }
      var recent := TrimOld(reboots, inp.decideAt);
      return if |recent| >= REBOOT_BUDGET then BudgetExhausted else Scheduled;
    }
  }

  /** A refused scheduling consumes no budget and leaves the sentinel alone; only expired entries go. */
  lemma RefusalCostsNothing(s: State, inp: Input)
    requires Driven(s, inp).1 == NotScheduled && inp.loadOk
    ensures var t := Driven(s, inp).0;
      t.sentinel == s.sentinel && (t.reboots == s.reboots || t.reboots == Trimmed(s.reboots, inp.trimAt))
    ensures forall clock :: clock >= inp.trimAt ==>
      Trimmed(Driven(s, inp).0.reboots, clock) == Trimmed(s.reboots, clock)
  {
    forall clock | clock >= inp.trimAt
      ensures Trimmed(Trimmed(s.reboots, inp.trimAt), clock) == Trimmed(s.reboots, clock)
    {
      TrimTwice(s.reboots, inp.trimAt, clock);
    }
  }

  lemma TrimTwice(entries: seq<Entry>, first: real, second: real)
    requires first <= second
    ensures Trimmed(Trimmed(entries, first), second) == Trimmed(entries, second)
  {
    FilterCompose(entries, NotOlder(first - WINDOW_SEC), NotOlder(second - WINDOW_SEC), NotOlder(second - WINDOW_SEC));
  }

  // Whole runs

  datatype Event = Drive(inp: Input) | Boot

  /**
   * A run so far: the stamps of all scheduled reboots; for each one of the present boot whether its
   * sentinel was created; whether a sentinel stood when the boot began; and the clock.
   */
  datatype Track = Track(s: State, stamps: seq<int>, thisBoot: seq<bool>, stood: bool, clock: real)

  function Next(t: Track, e: Event): Track {
    match e
    case Boot => t.(s := t.s.(sentinel := false), thisBoot := [], stood := false)
    case Drive(inp) =>
      var (s, decision) := Driven(t.s, inp);
      if decision == Scheduled then
        Track(s, t.stamps + [inp.now.Floor], t.thisBoot + [inp.sentinelOk], t.stood, inp.decideAt)
      else t.(s := s, clock := inp.decideAt)
  }

  function Run(start: State, clock: real, events: seq<Event>): Track {
    if events == [] then Track(start, [], [], start.sentinel, clock)
    else Next(Run(start, clock, events[..|events| - 1]), events[|events| - 1])
  }

  /** State is persisted and the clock does not run backwards. */
  ghost predicate Persistent(t: Track, e: Event) {
    e.Drive? ==>
      e.inp.loadOk && e.inp.writeOk && t.clock <= e.inp.now <= e.inp.trimAt <= e.inp.decideAt
  }

  ghost predicate PersistentRun(start: State, clock: real, events: seq<Event>) {
    events == [] ||
    var before := events[..|events| - 1];
    PersistentRun(start, clock, before) && Persistent(Run(start, clock, before), events[|events| - 1])
  }

  function Stamps(stamps: seq<int>): seq<Entry> {
    seq(|stamps|, i requires 0 <= i < |stamps| => Stamp(stamps[i]))
  }

  /** From the present clock on, the state file counts what was in it at the start and every reboot since. */
  ghost predicate Accounted(t: Track, start: State) {
    && (forall clock :: clock >= t.clock ==>
          Trimmed(t.s.reboots, clock) == Trimmed(start.reboots + Stamps(t.stamps), clock))
    && (forall i, j :: 0 <= i < j < |t.stamps| ==> t.stamps[i] <= t.stamps[j])
    && (forall i :: 0 <= i < |t.stamps| ==> t.stamps[i] as real <= t.clock)
  }

  /** What the state file counts at a later clock, after one invocation. */
  lemma CountedLater(t: Track, inp: Input, start: State, clock: real)
    requires Accounted(t, start) && Persistent(t, Drive(inp)) && clock >= inp.decideAt
    ensures Trimmed(Trimmed(t.s.reboots, inp.trimAt), clock) == Trimmed(start.reboots + Stamps(t.stamps), clock)
  {
    hide Trimmed;
    TrimTwice(t.s.reboots, inp.trimAt, clock);
  }

  lemma TrimConcat(a: seq<Entry>, b: seq<Entry>, clock: real)
    ensures Trimmed(a + b, clock) == Trimmed(a, clock) + Trimmed(b, clock)
  {
    FilterConcat(a, b, NotOlder(clock - WINDOW_SEC));
  }

  lemma NextIsAccounted(t: Track, e: Event, start: State)
    requires Accounted(t, start) && Persistent(t, e)
    ensures Accounted(Next(t, e), start)
  {
    hide Trimmed, Decide;
    if e.Drive? {
      var inp := e.inp;
      var all, u := start.reboots + Stamps(t.stamps), Next(t, e);
      var reboots, x := Trimmed(t.s.reboots, inp.trimAt), Stamp(inp.now.Floor);
      assert Driven(t.s, inp).1 == Scheduled ==> start.reboots + Stamps(u.stamps) == all + [x];
      forall clock | clock >= inp.decideAt
        ensures Trimmed(u.s.reboots, clock) == Trimmed(start.reboots + Stamps(u.stamps), clock)
      {
        CountedLater(t, inp, start, clock);
        TrimConcat(reboots, [x], clock);
        TrimConcat(all, [x], clock);
      }
      forall i | 0 <= i < |t.stamps| ensures t.stamps[i] <= inp.now.Floor {
        FloorAbove(t.stamps[i], inp.now);
      }
    }
  }

  lemma FloorAbove(k: int, now: real)
    requires k as real <= now
    ensures k <= now.Floor && now.Floor as real <= now
  {
  }

  lemma {:induction false} RunIsAccounted(start: State, clock: real, events: seq<Event>)
    requires PersistentRun(start, clock, events)
    ensures Accounted(Run(start, clock, events), start)
  {
    if events == [] {
      assert start.reboots + Stamps([]) == start.reboots;
    } else {
      RunIsAccounted(start, clock, events[..|events| - 1]);
      NextIsAccounted(Run(start, clock, events[..|events| - 1]), events[|events| - 1], start);
    }
  }

  lemma {:induction false} TwoKept(s: seq<Entry>, f: Entry -> bool, i: nat, j: nat)
    requires i < j < |s| && f(s[i]) && f(s[j])
    ensures |Filter(s, f)| >= 2
  {
    assert s == s[..j] + s[j..];
    FilterConcat(s[..j], s[j..], f);
    OneKept(s[..j], f, i);
    OneKept(s[j..], f, 0);
  }

  lemma OneKept(s: seq<Entry>, f: Entry -> bool, i: nat)
    requires i < |s| && f(s[i])
    ensures |Filter(s, f)| >= 1
  {
    FilterMembers(s, f);
    assert s[i] in Filter(s, f);
  }

  /** Of any three scheduled reboots, the third is decided more than a day after the first's timestamp. */
  lemma ThirdRebootWaitsADay(start: State, clock: real, events: seq<Event>, inp: Input, i: nat, j: nat)
    requires PersistentRun(start, clock, events) && Persistent(Run(start, clock, events), Drive(inp))
    requires Driven(Run(start, clock, events).s, inp).1 == Scheduled
    requires i < j < |Run(start, clock, events).stamps|
    ensures inp.decideAt > Run(start, clock, events).stamps[i] as real + 86400.0
  {
    var t := Run(start, clock, events);
    RunIsAccounted(start, clock, events);
    CountedLater(t, inp, start, inp.decideAt);
    if t.stamps[i] as real >= inp.decideAt - WINDOW_SEC {
      BothCounted(start.reboots, t.stamps, i, j, inp.decideAt);
    }
  }

  lemma BothCounted(before: seq<Entry>, stamps: seq<int>, i: nat, j: nat, clock: real)
    requires i < j < |stamps| && stamps[i] <= stamps[j] && stamps[i] as real >= clock - WINDOW_SEC
    ensures |Trimmed(before + Stamps(stamps), clock)| >= 2
  {
    var all := before + Stamps(stamps);
    assert all[|before| + i] == Stamp(stamps[i]) && all[|before| + j] == Stamp(stamps[j]);
    TwoKept(all, NotOlder(clock - WINDOW_SEC), |before| + i, |before| + j);
  }

  /** The sentinel stands exactly if it stood when the boot began or a reboot scheduled since created it. */
  lemma {:induction false} SentinelStandsIff(start: State, clock: real, events: seq<Event>)
    ensures var t := Run(start, clock, events); t.s.sentinel <==> t.stood || true in t.thisBoot
  {
    if events != [] {
      SentinelStandsIff(start, clock, events[..|events| - 1]);
    }
  }

  /**
   * After any run with a persisted state, an invocation schedules a reboot exactly when the device has
   * been up long enough, no reboot of this boot has created its sentinel, fewer than two reboots lie in
   * the last day, and the scheduling is accepted.
   */
  lemma ScheduledIff(start: State, clock: real, events: seq<Event>, inp: Input)
    requires PersistentRun(start, clock, events) && Persistent(Run(start, clock, events), Drive(inp))
    ensures var t := Run(start, clock, events);
      Driven(t.s, inp).1 == Scheduled <==>
        && inp.uptime >= UPTIME_MIN_SEC && !t.stood && !(true in t.thisBoot)
        && |Trimmed(start.reboots + Stamps(t.stamps), inp.decideAt)| < REBOOT_BUDGET
        && inp.scheduling == Accepted
  {
    hide Trimmed, Run;
    RunIsAccounted(start, clock, events);
    SentinelStandsIff(start, clock, events);
    CountedLater(Run(start, clock, events), inp, start, inp.decideAt);
  }

  /** A boot schedules a further reboot only after reboots none of which created its sentinel; else one at most. */
  lemma {:induction false} OneRebootPerBoot(start: State, clock: real, events: seq<Event>)
    ensures var t := Run(start, clock, events);
      && (t.stood ==> t.thisBoot == [])
      && (forall i :: 0 <= i < |t.thisBoot| - 1 ==> !t.thisBoot[i])
      && (!(false in t.thisBoot) ==> |t.thisBoot| <= 1)
  {
    if events != [] {
      var before := events[..|events| - 1];
      OneRebootPerBoot(start, clock, before);
      SentinelStandsIff(start, clock, before);
      var t := Run(start, clock, before);
      assert forall i :: 0 <= i < |t.thisBoot| ==> t.thisBoot[i] in t.thisBoot;
    }
    var t := Run(start, clock, events);
    assert |t.thisBoot| >= 2 ==> t.thisBoot[0] in t.thisBoot;
  }

  /** A sentinel that cannot be created lets one boot use up the whole budget. */
  lemma WithoutSentinelTwoPerBoot(start: State, first: Input, second: Input)
    requires start.reboots == [] && !start.sentinel
    requires !first.sentinelOk && first.uptime >= UPTIME_MIN_SEC && second.uptime >= UPTIME_MIN_SEC
    requires first.scheduling == Accepted && second.scheduling == Accepted
    ensures |Run(start, 0.0, [Drive(first), Drive(second)]).thisBoot| == 2
  {
    var events := [Drive(first), Drive(second)];
    assert events[..1] == [Drive(first)] && [Drive(first)][..0] == [];
    var s := Driven(start, first).0;
    assert Trimmed(Trimmed([], first.trimAt), first.decideAt) == [];
    assert Driven(start, first).1 == Scheduled && !s.sentinel && |s.reboots| <= 1;
    TrimShrinks(if second.loadOk then s.reboots else [], second.trimAt);
    TrimShrinks(Trimmed(if second.loadOk then s.reboots else [], second.trimAt), second.decideAt);
    assert Driven(s, second).1 == Scheduled;
    assert Run(start, 0.0, [Drive(first)]) == Next(Run(start, 0.0, []), Drive(first));
  }

  lemma TrimShrinks(entries: seq<Entry>, clock: real)
    ensures |Trimmed(entries, clock)| <= |entries|
  {
  }

  // The budget in terms of the entries themselves

  /** The entry at i is a time stamp of the last day. */
  predicate Recent(entries: seq<Entry>, i: nat, clock: real)
    requires i < |entries|
  {
    entries[i].Stamp? && entries[i].ts as real >= clock - 86400.0
  }

  /** Two entries, at different places, are. */
  ghost predicate TwoRecent(entries: seq<Entry>, clock: real) {
    exists i, j :: 0 <= i < j < |entries| && Recent(entries, i, clock) && Recent(entries, j, clock)
  }

  lemma {:induction false} KeptSomewhere(entries: seq<Entry>, clock: real) returns (i: nat)
    requires |Trimmed(entries, clock)| >= 1
    ensures i < |entries| && Recent(entries, i, clock)
  {
    if NotOlder(clock - WINDOW_SEC)(entries[0]) {
      i := 0;
    } else {
      i := KeptSomewhere(entries[1..], clock);
      i := i + 1;
    }
  }

  lemma {:induction false} TwoKeptSomewhere(entries: seq<Entry>, clock: real) returns (i: nat, j: nat)
    requires |Trimmed(entries, clock)| >= 2
    ensures i < j < |entries| && Recent(entries, i, clock) && Recent(entries, j, clock)
  {
    if NotOlder(clock - WINDOW_SEC)(entries[0]) {
      var k := KeptSomewhere(entries[1..], clock);
      i, j := 0, k + 1;
    } else {
      i, j := TwoKeptSomewhere(entries[1..], clock);
      i, j := i + 1, j + 1;
    }
  }

  lemma BudgetIsSpentIff(entries: seq<Entry>, clock: real)
    ensures |Trimmed(entries, clock)| >= REBOOT_BUDGET <==> TwoRecent(entries, clock)
  {
    if |Trimmed(entries, clock)| >= 2 {
      var i, j := TwoKeptSomewhere(entries, clock);
    }
    if i, j :| 0 <= i < j < |entries| && Recent(entries, i, clock) && Recent(entries, j, clock) {
      TwoKept(entries, NotOlder(clock - WINDOW_SEC), i, j);
    }
  }

  /**
   * The reason an invocation gives, after any persisted run: first the uptime, then a sentinel of this
   * boot, then two reboots of the last day, whether in the file from the start or scheduled since.
   */
  lemma ReasonIs(start: State, clock: real, events: seq<Event>, inp: Input)
    requires PersistentRun(start, clock, events) && Persistent(Run(start, clock, events), Drive(inp))
    ensures var t := Run(start, clock, events);
      var all := start.reboots + Stamps(t.stamps);
      Driven(t.s, inp).1 ==
        if inp.uptime < 3600.0 then UptimeBelowThreshold
        else if t.stood || true in t.thisBoot then IntrabootDebounce
        else if TwoRecent(all, inp.decideAt) then BudgetExhausted
        else if inp.scheduling == Accepted then Scheduled
        else NotScheduled
  {
    hide Trimmed, Run, TwoRecent;
    RunIsAccounted(start, clock, events);
    SentinelStandsIff(start, clock, events);
    CountedLater(Run(start, clock, events), inp, start, inp.decideAt);
    BudgetIsSpentIff(start.reboots + Stamps(Run(start, clock, events).stamps), inp.decideAt);
  }

  /**
   * What the state file holds afterwards: what it held, if nothing is written or the scheduling raises;
   * otherwise the entries of the last day, if it could be read, and the new reboot exactly if it is scheduled.
   */
  lemma FileAfterwards(s: State, inp: Input, e: Entry)
    ensures var (t, decision) := Driven(s, inp);
      var raised := decision == NotScheduled && inp.scheduling == Raised;
      var young := exists i :: 0 <= i < |s.reboots| && Recent(s.reboots, i, inp.trimAt) && s.reboots[i] == e;
      && (raised || !inp.writeOk ==> t.reboots == s.reboots)
      && (!raised && inp.writeOk ==>
            (e in t.reboots <==>
               (inp.loadOk && young) || (decision == Scheduled && e == Stamp(inp.now.Floor))))
  {
    hide Trimmed;
    KeptIff(s.reboots, inp.trimAt, e);
  }

  lemma KeptIff(entries: seq<Entry>, clock: real, e: Entry)
    ensures e in Trimmed(entries, clock) <==>
      exists i :: 0 <= i < |entries| && Recent(entries, i, clock) && entries[i] == e
    ensures Trimmed([], clock) == []
  {
    FilterMembers(entries, NotOlder(clock - WINDOW_SEC));
    if e in Trimmed(entries, clock) {
      var i :| 0 <= i < |entries| && entries[i] == e;
      assert Recent(entries, i, clock);
    }
  }
}
