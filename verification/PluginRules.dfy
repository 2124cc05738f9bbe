/** The commands a server ends up with, in terms of the manifests' fields. */
module PluginRules {
  import opened Sequences
  import opened KeySort
  import opened PluginRegistry

  /** What the loader comes to, one after the other: a root that is no object, or an entry of a command list. */
  datatype Entry = BadRoot | Entry(pluginId: string, command: Command)

  function EntriesOf(pluginId: string, commands: seq<Command>): (r: seq<Entry>)
    ensures |r| == |commands| && forall i :: 0 <= i < |r| ==> r[i] == Entry(pluginId, commands[i])
  {
    if commands == [] then [] else [Entry(pluginId, commands[0])] + EntriesOf(pluginId, commands[1..])
  }

  /** Unreadable and incomplete manifests are passed over. */
  function Entries(sources: seq<Source>): seq<Entry> {
    if sources == [] then []
    else
      (match sources[0].manifest
       case RootNotObject => [BadRoot]
       case Manifest(id, commands) => EntriesOf(id, commands)
       case _ => []) + Entries(sources[1..])
  }

  predicate Named(e: Entry, name: string) {
    e.Entry? && e.command.Command? && e.command.name == Some(name) && name != ""
  }

  /** A command of a known type whose URL is an http URL of this very host. */
  predicate Local(e: Entry) {
    e.Entry? && e.command.Command? && e.command.kind.Known? && e.command.url.Url? && e.command.url.local
  }

  /** The loader raises on a root that is no object, on a type that cannot be hashed, on an enormous time-out. */
  predicate Raising(e: Entry) {
    || e.BadRoot?
    || (e.command.Command? && e.command.name.Some? && e.command.name.value != "" &&
        (e.command.kind.Unhashable? || (Local(e) && e.command.timeout.TooLarge?)))
  }

  predicate Claims(e: Entry, name: string) {
    Named(e, name) && Local(e) && !e.command.timeout.TooLarge?
  }

  /** What a claim registers: its own type, URL and plugin; ten seconds where no number is given. */
  predicate Registers(e: Entry, name: string, meta: Meta) {
    && Claims(e, name) && meta.kind == e.command.kind.kind
    && meta.handler.Proxy? && meta.handler.name == name && meta.handler.url == e.command.url.text
    && meta.handler.pluginId == e.pluginId
    && (if e.command.timeout.Seconds? then meta.handler.timeout == e.command.timeout.s else meta.handler.timeout == 10)
  }

  /** The k-th entry is the first to claim the name, and none before it raises. */
  ghost predicate FirstToClaim(entries: seq<Entry>, name: string, k: nat) {
    && k < |entries| && Claims(entries[k], name)
    && forall j :: 0 <= j < k ==> !Raising(entries[j]) && !Claims(entries[j], name)
  }

  // From entries to verdicts

  function VerdictOf(e: Entry): Verdict {
    if e.BadRoot? then Raise else Judge(e.pluginId, e.command)
  }

  lemma VerdictIs(e: Entry)
    ensures VerdictOf(e).Raise? <==> Raising(e)
    ensures VerdictOf(e).Claim? ==> Registers(e, VerdictOf(e).name, VerdictOf(e).meta)
    ensures forall name :: Claims(e, name) ==> VerdictOf(e).Claim? && VerdictOf(e).name == name
  {
  }

  function VerdictsOf(entries: seq<Entry>): seq<Verdict> {
    if entries == [] then [] else [VerdictOf(entries[0])] + VerdictsOf(entries[1..])
  }

  lemma {:induction false} VerdictsConcat(a: seq<Entry>, b: seq<Entry>)
    ensures VerdictsOf(a + b) == VerdictsOf(a) + VerdictsOf(b)
  {
    if a == [] {
      assert a + b == b;
    } else {
      assert (a + b)[1..] == a[1..] + b;
      VerdictsConcat(a[1..], b);
      hide VerdictOf;
    }
  }

  lemma {:induction false} JudgedEntries(pluginId: string, commands: seq<Command>)
    ensures VerdictsOf(EntriesOf(pluginId, commands)) == Judged(pluginId, commands)
  {
    if commands != [] {
      JudgedEntries(pluginId, commands[1..]);
      assert EntriesOf(pluginId, commands)[1..] == EntriesOf(pluginId, commands[1..]);
      hide Judge;
    }
  }

  /** Registering stops at the first raise, so what follows a bad root does not matter. */
  lemma {:induction false} SameRegistration(plugins: map<string, Meta>, sources: seq<Source>)
    ensures Register(plugins, Verdicts(sources)) == Register(plugins, VerdictsOf(Entries(sources)))
    decreases |sources|
  {
    if sources != [] {
      var m, rest := sources[0].manifest, sources[1..];
      var first := match m
        case RootNotObject => [BadRoot]
        case Manifest(id, commands) => EntriesOf(id, commands)
        case _ => [];
      VerdictsConcat(first, Entries(rest));
      match m
      case Manifest(id, commands) =>
        JudgedEntries(id, commands);
        RegisterConcat(plugins, Judged(id, commands), Verdicts(rest));
        RegisterConcat(plugins, Judged(id, commands), VerdictsOf(Entries(rest)));
        SameRegistration(Register(plugins, Judged(id, commands)).0, rest);
      case RootNotObject =>
        assert VerdictsOf([BadRoot]) == [Raise];
      case _ =>
        SameRegistration(plugins, rest);
        assert VerdictsOf([]) == [] && [] + VerdictsOf(Entries(rest)) == VerdictsOf(Entries(rest));
    }
  }

  lemma VerdictsStep(entries: seq<Entry>)
    requires entries != []
    ensures VerdictsOf(entries) != [] && VerdictsOf(entries)[0] == VerdictOf(entries[0])
    ensures VerdictsOf(entries)[1..] == VerdictsOf(entries[1..])
  {
  }

  lemma {:induction false} RaisesIff(plugins: map<string, Meta>, entries: seq<Entry>)
    ensures Register(plugins, VerdictsOf(entries)).1 <==> exists k :: 0 <= k < |entries| && Raising(entries[k])
    decreases |entries|
  {
    if entries != [] {
      var e, rest := entries[0], entries[1..];
      VerdictIs(e);
      VerdictsStep(entries);
      hide Judge, VerdictOf, Raising, VerdictsOf;
      match VerdictOf(e)
      case Raise => assert Raising(entries[0]);
      case Skip =>
        RaisesIff(plugins, rest);
        LaterIff(entries);
      case Claim(name, meta) =>
        RaisesIff(if IsBuiltIn(name) || name in plugins then plugins else plugins[name := meta], rest);
        LaterIff(entries);
    }
  }

  lemma LaterIff(entries: seq<Entry>)
    requires entries != [] && !Raising(entries[0])
    ensures (exists k :: 0 <= k < |entries| && Raising(entries[k])) <==>
            (exists k :: 0 <= k < |entries[1..]| && Raising(entries[1..][k]))
  {
    hide Raising;
    if k :| 0 <= k < |entries| && Raising(entries[k]) {
      assert Raising(entries[1..][k - 1]);
    }
    if k :| 0 <= k < |entries[1..]| && Raising(entries[1..][k]) {
      assert Raising(entries[k + 1]);
    }
  }

  lemma FirstLater(entries: seq<Entry>, name: string, k: nat)
    requires entries != [] && !Raising(entries[0]) && !Claims(entries[0], name)
    ensures FirstToClaim(entries, name, k + 1) <==> FirstToClaim(entries[1..], name, k)
    ensures !FirstToClaim(entries, name, 0)
  {
    hide Raising, Claims;
    if FirstToClaim(entries, name, k + 1) {
      forall j | 0 <= j < k ensures !Raising(entries[1..][j]) && !Claims(entries[1..][j], name) {
        assert entries[1..][j] == entries[j + 1];
      }
    }
    if FirstToClaim(entries[1..], name, k) {
      forall j | 0 <= j < k + 1 ensures !Raising(entries[j]) && !Claims(entries[j], name) {
        assert j > 0 ==> entries[j] == entries[1..][j - 1];
      }
    }
  }

  /** The entry whose claim a registered name goes back to. */
  ghost predicate Origin(entries: seq<Entry>, name: string, meta: Meta, k: nat) {
    FirstToClaim(entries, name, k) && Registers(entries[k], name, meta)
  }

  /** A registered name goes back to the first claim. */
  lemma {:induction false} RegisteredFrom(plugins: map<string, Meta>, entries: seq<Entry>, name: string)
    returns (k: nat)
    requires name !in plugins && name in Register(plugins, VerdictsOf(entries)).0
    ensures !IsBuiltIn(name) && Origin(entries, name, Register(plugins, VerdictsOf(entries)).0[name], k)
    decreases |entries|
  {
    var e, rest := entries[0], entries[1..];
    VerdictIs(e);
    VerdictsStep(entries);
    hide Judge, VerdictOf, Raising, VerdictsOf, Claims, Registers, FirstToClaim;
    match VerdictOf(e)
    case Raise => assert false;
    case Skip =>
      k := RegisteredFrom(plugins, rest, name);
      NotClaimed(e, name);
      FirstLater(entries, name, k);
      k := k + 1;
    case Claim(n, meta) =>
      var next := if IsBuiltIn(n) || n in plugins then plugins else plugins[n := meta];
      if n == name {
        RegisterTakesFirst(next, VerdictsOf(rest), name);
        ClaimedFirst(entries, name, meta);
        k := 0;
      } else {
        k := RegisteredFrom(next, rest, name);
        NotClaimed(e, name);
        FirstLater(entries, name, k);
        k := k + 1;
      }
  }

  lemma NotClaimed(e: Entry, name: string)
    requires VerdictOf(e).Skip? || (VerdictOf(e).Claim? && VerdictOf(e).name != name)
    ensures !Raising(e) && !Claims(e, name)
  {
    VerdictIs(e);
  }

  lemma ClaimedFirst(entries: seq<Entry>, name: string, meta: Meta)
    requires entries != [] && Registers(entries[0], name, meta)
    ensures FirstToClaim(entries, name, 0)
  {
  }

  /** A first claim to a name that is free is registered. */
  lemma {:induction false} FirstIsRegistered(plugins: map<string, Meta>, entries: seq<Entry>, name: string, k: nat)
    requires name !in plugins && !IsBuiltIn(name) && FirstToClaim(entries, name, k)
    ensures name in Register(plugins, VerdictsOf(entries)).0
    decreases |entries|
  {
    var e, rest := entries[0], entries[1..];
    VerdictIs(e);
    VerdictsStep(entries);
    if k == 0 {
      RegisterTakesFirst(plugins[name := VerdictOf(e).meta], VerdictsOf(rest), name);
    } else {
      assert !Raising(e) && !Claims(e, name);
      FirstLater(entries, name, k - 1);
      match VerdictOf(e)
      case Skip => FirstIsRegistered(plugins, rest, name, k - 1);
      case Claim(n, meta) =>
        FirstIsRegistered(if IsBuiltIn(n) || n in plugins then plugins else plugins[n := meta], rest, name, k - 1);
    }
    hide Judge, Raising, Claims, FirstToClaim;
  }

  // The server

  /** The entries of the manifests in the order of their paths. */
  function Loaded(found: seq<Source>): seq<Entry> {
    Entries(Sort(found, PathOf()))
  }

  /**
   * A fresh server, and so any server after a reload, registers exactly the names that are no built-in's
   * and that some loadable command claims before anything raises; each for the first such command, with
   * that command's type, local URL, time-out and plugin. Loading raises exactly if some entry does.
   */
  lemma ServerIs(found: seq<Source>, name: string)
    ensures var (r, raised) := FreshServer(found);
      && (raised <==> exists k :: 0 <= k < |Loaded(found)| && Raising(Loaded(found)[k]))
      && (name in r.plugins <==> !IsBuiltIn(name) && exists k: nat :: FirstToClaim(Loaded(found), name, k))
      && (name in r.plugins ==> exists k: nat :: Origin(Loaded(found), name, r.plugins[name], k))
  {
    hide Verdicts, Register, Sort, Raising, FirstToClaim, Registers;
    var sources := Sort(found, PathOf());
    SameRegistration(map[], sources);
    RaisesIff(map[], Loaded(found));
    if name in FreshServer(found).0.plugins {
      var k := RegisteredFrom(map[], Loaded(found), name);
    }
    if k: nat :| !IsBuiltIn(name) && FirstToClaim(Loaded(found), name, k) {
      FirstIsRegistered(map[], Loaded(found), name, k);
    }
  }
}
