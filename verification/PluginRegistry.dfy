/** The BLE command server's dispatch tables, rebuilt from plugin manifests on every reload. */
module PluginRegistry {
  import opened Sequences
  import opened KeySort

  const READ_NAMES: set<string> := {"ls", "df", "fula", "docker", "docker_ps", "uniondrive"}

  const EXEC_NAMES: set<string> := {
    "partition", "node_delete", "ipfs_delete", "restart_fula", "restart_uniondrive", "hotspot", "reset",
    "wireguard/start", "wireguard/stop", "wireguard/status", "force_update"}

  const DEFAULT_TIMEOUT := 10

  datatype Handler = BuiltIn(name: string) | Proxy(name: string, url: string, timeout: int, pluginId: string)

  datatype Kind = Read | Exec

  /** What is remembered of a registered plugin command. */
  datatype Meta = Meta(kind: Kind, handler: Handler)

  // Manifests, as far as the loader looks at them

  datatype TypeField = Known(kind: Kind) | Unknown | Unhashable

  /** `local`: an http URL whose host is one of the localhost names. */
  datatype UrlField = NotString | Url(text: string, local: bool)

  datatype TimeoutField = Seconds(s: int) | NotNumeric | TooLarge

  datatype Command =
    | NotObject
    | Command(name: Option<string>, kind: TypeField, url: UrlField, timeout: TimeoutField)

  datatype Manifest = Unreadable | RootNotObject | Incomplete | Manifest(pluginId: string, commands: seq<Command>)

  datatype Source = Source(path: string, manifest: Manifest)

  function PathOf(): Source -> string {
    (s: Source) => s.path
  }

  /** The three dictionaries. */
  datatype Registry = Registry(commands: map<string, Handler>, exec: map<string, Handler>, plugins: map<string, Meta>)

  // One command entry

  datatype Verdict = Skip | Raise | Claim(name: string, meta: Meta)

  /** What an entry claims, before names are compared. */
  function Judge(pluginId: string, c: Command): Verdict {
    if c.NotObject? || c.name.None? || c.name.value == "" then Skip
    else if c.kind.Unhashable? then Raise
    else if c.kind.Unknown? || c.url.NotString? || !c.url.local then Skip
    else if c.timeout.TooLarge? then Raise
    else
      var timeout := if c.timeout.Seconds? then c.timeout.s else DEFAULT_TIMEOUT;
      Claim(c.name.value, Meta(c.kind.kind, Proxy(c.name.value, c.url.text, timeout, pluginId)))
  }

  /** All entries of the sorted manifests up to the first that raises, as verdicts in order. */
  function Verdicts(sources: seq<Source>): seq<Verdict> {
    if sources == [] then []
    else
      match sources[0].manifest
      case Unreadable => Verdicts(sources[1..])
      case Incomplete => Verdicts(sources[1..])
      case RootNotObject => [Raise]
      case Manifest(id, commands) => Judged(id, commands) + Verdicts(sources[1..])
  }

  function Judged(pluginId: string, commands: seq<Command>): (r: seq<Verdict>)
    ensures |r| == |commands|
    ensures forall i :: 0 <= i < |r| ==> r[i] == Judge(pluginId, commands[i])
  {
    if commands == [] then [] else [Judge(pluginId, commands[0])] + Judged(pluginId, commands[1..])
  }

  predicate IsBuiltIn(name: string) {
    name in READ_NAMES || name in EXEC_NAMES
  }

  /** Registering in order: a name that is taken is refused; a raise ends everything. */
  function Register(plugins: map<string, Meta>, vs: seq<Verdict>): (map<string, Meta>, bool)
    decreases |vs|
  {
    if vs == [] then (plugins, false)
    else
      match vs[0]
      case Skip => Register(plugins, vs[1..])
      case Raise => (plugins, true)
      case Claim(name, meta) =>
        Register(if IsBuiltIn(name) || name in plugins then plugins else plugins[name := meta], vs[1..])
  }

  function BuiltIns(names: set<string>): map<string, Handler> {
    map n | n in names :: BuiltIn(n)
  }

  function HandlersOf(plugins: map<string, Meta>, kind: Kind): map<string, Handler> {
    map n | n in plugins && plugins[n].kind == kind :: plugins[n].handler
  }

  /** The registry that holds exactly the built-ins and these plugin commands. */
  function RegistryOf(plugins: map<string, Meta>): Registry {
    Registry(Table(READ_NAMES, plugins, Read), Table(EXEC_NAMES, plugins, Exec), plugins)
  }

  ghost predicate Consistent(r: Registry) {
    r == RegistryOf(r.plugins) && forall n :: n in r.plugins ==> !IsBuiltIn(n)
  }

  /** What a new server builds from these manifests, and whether loading them raises. */
  function FreshServer(found: seq<Source>): (Registry, bool) {
    var (plugins, raised) := Register(map[], Verdicts(Sort(found, PathOf())));
    (RegistryOf(plugins), raised)
  }

  class LocalCommandServer {
    var commands: map<string, Handler>
    var execCommands: map<string, Handler>
    var pluginCommands: map<string, Meta>

    ghost function State(): Registry
      reads this
    {
      Registry(commands, execCommands, pluginCommands)
    }

    /** The built-in tables, before the first reload. */
    constructor ()
      ensures State() == RegistryOf(map[]) && Consistent(State())
    {
      commands, execCommands, pluginCommands := BuiltIns(READ_NAMES), BuiltIns(EXEC_NAMES), map[];
      new;
      NoPlugins();
    }

    /** `raised`: an entry made the loader fail half way. */
    method ReloadPlugins(found: seq<Source>) returns (raised: bool)
      requires Consistent(State())
      modifies this
      ensures (State(), raised) == FreshServer(found)
      ensures Consistent(State())
    {
      RemovePluginCommands();
      var sources := Sort(found, PathOf());
      assert sources[0..] == sources;
      for i := 0 to |sources|
        invariant Consistent(State())
        invariant Register(pluginCommands, Verdicts(sources[i..])) == Register(map[], Verdicts(sources))
      {
        assert sources[i..][1..] == sources[i + 1..];
        var manifest := sources[i].manifest;
        if manifest.RootNotObject? {
          return true;
        }
        if manifest.Manifest? {
          ghost var vs, rest := Judged(manifest.pluginId, manifest.commands), Verdicts(sources[i + 1..]);
          ghost var plugins := pluginCommands;
          raised := AddCommands(manifest.pluginId, manifest.commands);
          RegisterConcat(plugins, vs, rest);
          if raised {
            return true;
          }
        }
      }
      assert sources[|sources|..] == [];
      return false;
    }

    method RemovePluginCommands()
      requires Consistent(State())
      modifies this
      ensures State() == RegistryOf(map[]) && Consistent(State())
    {
      hide Consistent, RegistryOf;
      var names := pluginCommands.Keys;
      while names != {}
        invariant names == pluginCommands.Keys && Consistent(State())
        decreases |names|
      {
        var name :| name in names;
        names := names - {name};
        ghost var before := State();
        RemovedOne(before, name);
        var meta := pluginCommands[name];
        pluginCommands := pluginCommands - {name};
        if meta.kind == Read {
          if name in commands && commands[name] == meta.handler {
            commands := commands - {name};
          }
        } else {
          if name in execCommands && execCommands[name] == meta.handler {
            execCommands := execCommands - {name};
          }
        }
        assert State() == Without(before, name);
      }
      NothingLeft(State());
    }

    method AddCommands(pluginId: string, entries: seq<Command>) returns (raised: bool)
      requires Consistent(State())
      modifies this
      ensures (pluginCommands, raised) == Register(old(pluginCommands), Judged(pluginId, entries))
      ensures Consistent(State())
    {
      ghost var vs := Judged(pluginId, entries);
      assert vs[0..] == vs;
      for i := 0 to |entries|
        invariant Consistent(State())
        invariant Register(pluginCommands, vs[i..]) == Register(old(pluginCommands), vs)
      {
        assert vs[i..][1..] == vs[i + 1..] && vs[i..][0] == Judge(pluginId, entries[i]);
        var c := entries[i];
        if c.NotObject? || c.name.None? || c.name.value == "" {
          continue;
        }
        var name := c.name.value;
        if c.kind.Unhashable? {
          return true;
        }
        if c.kind.Unknown? || c.url.NotString? || !c.url.local {
          continue;
        }
        if c.timeout.TooLarge? {
          return true;
        }
        var timeout := if c.timeout.Seconds? then c.timeout.s else DEFAULT_TIMEOUT;
        if name in commands || name in execCommands {
          continue;
        }
        ghost var before := pluginCommands;
        var handler := Proxy(name, c.url.text, timeout, pluginId);
        if c.kind.kind == Read {
          commands := commands[name := handler];
        } else {
          execCommands := execCommands[name := handler];
        }
        pluginCommands := pluginCommands[name := Meta(c.kind.kind, handler)];
        WithOneMore(before, name, Meta(c.kind.kind, handler));
      }
      assert vs[|entries|..] == [];
      return false;
    }
  }

  /** The registry with one plugin command taken out of its table. */
  function Without(r: Registry, name: string): Registry
    requires name in r.plugins
  {
    Registry(if r.plugins[name].kind == Read then r.commands - {name} else r.commands,
             if r.plugins[name].kind == Exec then r.exec - {name} else r.exec,
             r.plugins - {name})
  }

  lemma RemovedOne(r: Registry, name: string)
    requires Consistent(r) && name in r.plugins
    ensures Consistent(Without(r, name))
    ensures var meta := r.plugins[name];
      && (meta.kind == Read ==> name in r.commands && r.commands[name] == meta.handler)
      && (meta.kind == Exec ==> name in r.exec && r.exec[name] == meta.handler)
  {
    WithoutOne(r.plugins, name);
    hide RegistryOf;
    assert RegistryOf(r.plugins - {name}).plugins == r.plugins - {name} by { PluginsOf(r.plugins - {name}); }
  }

  lemma PluginsOf(plugins: map<string, Meta>)
    ensures RegistryOf(plugins).plugins == plugins
  {
  }

  lemma NothingLeft(r: Registry)
    requires Consistent(r) && r.plugins.Keys == {}
    ensures r == RegistryOf(map[])
  {
    assert r.plugins == map[];
  }

  lemma NoPlugins()
    ensures RegistryOf(map[]) == Registry(BuiltIns(READ_NAMES), BuiltIns(EXEC_NAMES), map[])
  {
    assert HandlersOf(map[], Read) == map[] && HandlersOf(map[], Exec) == map[];
  }

  /** One dispatch table: the built-ins of a kind and the plugin commands of that kind. */
  function Table(names: set<string>, plugins: map<string, Meta>, kind: Kind): map<string, Handler> {
    BuiltIns(names) + HandlersOf(plugins, kind)
  }

  lemma TableWithout(names: set<string>, plugins: map<string, Meta>, kind: Kind, name: string)
    requires name in plugins && name !in names
    ensures var t := Table(names, plugins, kind);
      && Table(names, plugins - {name}, kind) == (if plugins[name].kind == kind then t - {name} else t)
      && (plugins[name].kind == kind ==> name in t && t[name] == plugins[name].handler)
  {
  }

  lemma TableWith(names: set<string>, plugins: map<string, Meta>, kind: Kind, name: string, meta: Meta)
    requires name !in plugins && name !in names
    ensures var t := Table(names, plugins, kind);
      Table(names, plugins[name := meta], kind) == if meta.kind == kind then t[name := meta.handler] else t
  {
  }

  lemma WithoutOne(plugins: map<string, Meta>, name: string)
    requires name in plugins && !IsBuiltIn(name)
    ensures var r, s, kind := RegistryOf(plugins), RegistryOf(plugins - {name}), plugins[name].kind;
      && s.commands == (if kind == Read then r.commands - {name} else r.commands)
      && s.exec == (if kind == Exec then r.exec - {name} else r.exec)
      && (kind == Read ==> name in r.commands && r.commands[name] == plugins[name].handler)
      && (kind == Exec ==> name in r.exec && r.exec[name] == plugins[name].handler)
  {
    hide BuiltIns, HandlersOf;
    TableWithout(READ_NAMES, plugins, Read, name);
    TableWithout(EXEC_NAMES, plugins, Exec, name);
  }

  lemma WithOneMore(plugins: map<string, Meta>, name: string, meta: Meta)
    requires name !in plugins && !IsBuiltIn(name)
    ensures var r, s := RegistryOf(plugins), RegistryOf(plugins[name := meta]);
      && s.commands == (if meta.kind == Read then r.commands[name := meta.handler] else r.commands)
      && s.exec == (if meta.kind == Exec then r.exec[name := meta.handler] else r.exec)
  {
    hide BuiltIns, HandlersOf;
    TableWith(READ_NAMES, plugins, Read, name, meta);
    TableWith(EXEC_NAMES, plugins, Exec, name, meta);
  }

  lemma {:induction false} RegisterConcat(plugins: map<string, Meta>, vs: seq<Verdict>, ws: seq<Verdict>)
    ensures var (p, raised) := Register(plugins, vs);
      Register(plugins, vs + ws) == if raised then (p, true) else Register(p, ws)
    decreases |vs|
  {
    if vs == [] {
      assert vs + ws == ws;
    } else {
      assert (vs + ws)[1..] == vs[1..] + ws;
      match vs[0]
      case Skip => RegisterConcat(plugins, vs[1..], ws);
      case Raise =>
      case Claim(name, meta) =>
        RegisterConcat(if IsBuiltIn(name) || name in plugins then plugins else plugins[name := meta], vs[1..], ws);
    }
  }

  // What every registry guarantees

  lemma BuiltInKindsDiffer()
    ensures READ_NAMES !! EXEC_NAMES
  {
  }

  /** Built-ins intact, no key in both tables, and the plugin commands are exactly the other keys. */
  lemma ConsistentRegistry(r: Registry)
    requires Consistent(r)
    ensures forall n :: n in READ_NAMES ==> n in r.commands && r.commands[n] == BuiltIn(n)
    ensures forall n :: n in EXEC_NAMES ==> n in r.exec && r.exec[n] == BuiltIn(n)
    ensures r.commands.Keys !! r.exec.Keys
    ensures forall n :: n in r.plugins <==> (n in r.commands || n in r.exec) && !IsBuiltIn(n)
    ensures forall n :: n in r.plugins ==>
      (if r.plugins[n].kind == Read then r.commands else r.exec)[n] == r.plugins[n].handler
  {
    TablesOf(r);
    BuiltInKindsDiffer();
    TableHolds(READ_NAMES, r.plugins, Read);
    TableHolds(EXEC_NAMES, r.plugins, Exec);
    hide Table, RegistryOf, Consistent, READ_NAMES, EXEC_NAMES;
  }

  lemma TablesOf(r: Registry)
    requires Consistent(r)
    ensures r.commands == Table(READ_NAMES, r.plugins, Read) && r.exec == Table(EXEC_NAMES, r.plugins, Exec)
    ensures forall n :: n in r.plugins ==> n !in READ_NAMES && n !in EXEC_NAMES
  {
  }

  lemma TableHolds(names: set<string>, plugins: map<string, Meta>, kind: Kind)
    requires forall n :: n in plugins ==> n !in names
    ensures var t := Table(names, plugins, kind);
      && (forall n :: n in t <==> n in names || (n in plugins && plugins[n].kind == kind))
      && (forall n :: n in names ==> t[n] == BuiltIn(n))
      && (forall n :: n in plugins && plugins[n].kind == kind ==> t[n] == plugins[n].handler)
  {
  }

  /** The first claim to a name among the verdicts before a raise. */
  function FirstClaim(vs: seq<Verdict>, name: string): Option<Meta>
    decreases |vs|
  {
    if vs == [] || vs[0].Raise? then None
    else if vs[0].Claim? && vs[0].name == name then Some(vs[0].meta)
    else FirstClaim(vs[1..], name)
  }

  lemma {:induction false} RegisterTakesFirst(plugins: map<string, Meta>, vs: seq<Verdict>, name: string)
    ensures var p := Register(plugins, vs).0;
      && (name in p <==> name in plugins || (!IsBuiltIn(name) && FirstClaim(vs, name).Some?))
      && (name in plugins ==> p[name] == plugins[name])
      && (name !in plugins && name in p ==> p[name] == FirstClaim(vs, name).value)
    decreases |vs|
  {
    if vs != [] {
      match vs[0]
      case Skip => RegisterTakesFirst(plugins, vs[1..], name);
      case Raise =>
      case Claim(n, meta) =>
        RegisterTakesFirst(if IsBuiltIn(n) || n in plugins then plugins else plugins[n := meta], vs[1..], name);
    }
  }

  /** A name goes to its first valid claim in sorted order, unless it is a built-in's. */
  lemma FirstClaimWins(found: seq<Source>, name: string)
    ensures var r, claim := FreshServer(found).0, FirstClaim(Verdicts(Sort(found, PathOf())), name);
      if !IsBuiltIn(name) && claim.Some? then name in r.plugins && r.plugins[name] == claim.value
      else name !in r.plugins
    ensures Consistent(FreshServer(found).0)
  {
    var vs := Verdicts(Sort(found, PathOf()));
    RegisterTakesFirst(map[], vs, name);
    forall n ensures n in Register(map[], vs).0 ==> !IsBuiltIn(n) {
      RegisterTakesFirst(map[], vs, n);
    }
  }

  /** The order in which the file system lists the manifests does not matter. */
  lemma ListingOrderIsIrrelevant(found: seq<Source>, listed: seq<Source>)
    requires DistinctKeys(found, PathOf()) && multiset(found) == multiset(listed)
    ensures FreshServer(found) == FreshServer(listed)
  {
    var a, b := Sort(found, PathOf()), Sort(listed, PathOf());
    assert DistinctKeys(listed, PathOf()) by {
      forall i, j | 0 <= i < j < |listed| ensures listed[i].path != listed[j].path {
        SamePathSameSource(found, listed, i, j);
      }
    }
    SortDistinct(found, PathOf());
    SortDistinct(listed, PathOf());
    forall x ensures x in a <==> x in b {
      assert x in multiset(a) <==> x in multiset(b);
    }
    OrderedByElements(a, b, PathOf());
  }

  lemma SamePathSameSource(found: seq<Source>, listed: seq<Source>, i: nat, j: nat)
    requires DistinctKeys(found, PathOf()) && multiset(found) == multiset(listed) && i < j < |listed|
    ensures listed[i].path != listed[j].path
  {
    assert listed[i] in multiset(found) && listed[j] in multiset(found);
    var a :| 0 <= a < |found| && found[a] == listed[i];
    var b :| 0 <= b < |found| && found[b] == listed[j];
    assert a != b ==> PathOf()(found[a]) != PathOf()(found[b]);
    if a == b {
      SameCountOfKey(listed, i, j);
      CountedTwice(found, listed[i]);
    }
  }
}
