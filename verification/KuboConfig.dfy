/** Merging the managed fields of the kubo template into the deployed config, and what follows the merge. */
module KuboConfig {
  import opened Sequences
  import opened JsonText
  import opened JsonTree
  import opened Doubles

  const MANAGED: seq<seq<string>> := [
    ["Bootstrap"],
    ["Peering", "Peers"],
    ["Swarm", "RelayClient", "StaticRelays"],
    ["Swarm", "RelayClient", "Enabled"],
    ["Swarm", "ConnMgr"],
    ["Experimental"],
    ["Addresses", "Swarm"],
    ["Discovery"],
    ["Routing", "AcceleratedDHTClient"],
    ["Internal", "Libp2pForceReachability"]]

  const PRESERVED: seq<seq<string>> := [
    ["Identity"],
    ["Datastore"],
    ["Addresses", "API"],
    ["Addresses", "Gateway"]]

  const STATIC_RELAYS := ["Swarm", "RelayClient", "StaticRelays"]
  const PEERS := ["Peering", "Peers"]
  const STORAGE_MAX := ["Datastore", "StorageMax"]
  const RELAY_FALLBACK := "/dns/relay.dev.fx.land/tcp/4001/p2p/12D3KooWDRrBaAfPwsGJivBoUw5fE7ZpDiyfUjqgiURq2DEcL835"

  // Dotted names

  function Dotted(p: seq<string>): string {
    if p == [] then "" else if |p| == 1 then p[0] else p[0] + "." + Dotted(p[1..])
  }

  predicate DotFree(p: seq<string>) {
    forall i, j :: 0 <= i < |p| && 0 <= j < |p[i]| ==> p[i][j] != '.'
  }

  /** is_preserved, on key paths. */
  predicate IsPreserved(field: seq<string>) {
    exists i :: 0 <= i < |PRESERVED| && PRESERVED[i] <= field
  }

  /** Every key followed by a dot. */
  function Terminated(p: seq<string>): string {
    if p == [] then "" else p[0] + "." + Terminated(p[1..])
  }

  lemma {:induction false} DottedTerminated(p: seq<string>)
    requires p != []
    ensures Terminated(p) == Dotted(p) + "."
  {
    if |p| > 1 {
      DottedTerminated(p[1..]);
    } else {
      assert p[0] + "." + "" == p[0] + ".";
    }
  }

  /** The key in front of the first dot is determined by the text. */
  lemma FirstKey(k: string, l: string, b: string)
    requires forall j :: 0 <= j < |k| ==> k[j] != '.'
    requires forall j :: 0 <= j < |l| ==> l[j] != '.'
    requires k + "." <= l + "." + b
    ensures k == l
  {
    var s, t := k + ".", l + "." + b;
    assert s[|k|] == '.' && t[|k|] == '.' && t[|l|] == '.';
    assert k == s[..|k|] && l == t[..|l|];
  }

  lemma {:induction false} PrefixAsTerminated(p: seq<string>, q: seq<string>)
    requires DotFree(p) && DotFree(q)
    ensures p <= q <==> Terminated(p) <= Terminated(q)
    decreases |p|
  {
    if p != [] && q != [] {
      var a, b := Terminated(p[1..]), Terminated(q[1..]);
      assert p == [p[0]] + p[1..] && q == [q[0]] + q[1..];
      assert Terminated(p) == (p[0] + ".") + a && Terminated(q) == (q[0] + ".") + b;
      if Terminated(p) <= Terminated(q) {
        assert p[0] + "." <= Terminated(p);
        FirstKey(p[0], q[0], b);
      }
      if p[0] == q[0] {
        DropCommonPrefix(p[0] + ".", a, b);
        PrefixAsTerminated(p[1..], q[1..]);
      }
    }
  }

  lemma DropCommonPrefix(c: string, a: string, b: string)
    ensures c + a <= c + b <==> a <= b
  {
    assert c + a <= c + b ==> a == (c + a)[|c|..] && (c + a)[|c|..] <= (c + b)[|c|..] && (c + b)[|c|..] == b;
  }

  /** The source compares names as text: equal, or continued after a dot. That is being a prefix of keys. */
  lemma PrefixAsText(p: seq<string>, q: seq<string>)
    requires p != [] && q != [] && DotFree(p) && DotFree(q)
    ensures p <= q <==> Dotted(q) == Dotted(p) || Dotted(p) + "." <= Dotted(q)
  {
    PrefixAsTerminated(p, q);
    DottedTerminated(p);
    DottedTerminated(q);
    var a, b := Dotted(p), Dotted(q);
    if a + "." <= b + "." {
      assert a == (b + ".")[..|a|];
      if |a| == |b| {
        assert a == b;
      } else {
        assert a + "." == (b + ".")[..|a| + 1] == b[..|a| + 1];
      }
    }
  }

  // The merge as a batch of writes

  datatype Action = Added | Updated | DiscoveryOverride | Dynamic

  datatype Change = Change(field: seq<string>, action: Action)

  /** A record of the relay service; the fields can hold any JSON value. */
  datatype Relay = Relay(peerId: Tree, addr: Tree, multiaddr: Tree)

  /** The fields that are merged: managed, not preserved, and defined by the template. */
  function ManagedWrites(template: Tree, n: nat): seq<Write>
    requires n <= |MANAGED|
  {
    if n == 0 then []
    else
      var field := MANAGED[n - 1];
      var v := Get(template, field);
      ManagedWrites(template, n - 1) +
      if IsPreserved(field) || v.None? then [] else [Write(field, v.value)]
  }

  function Merged(template: Tree, deployed: Tree): Tree {
    PutAll(deployed, ManagedWrites(template, |MANAGED|))
  }

  /** The changes a batch of writes makes to t: one per field that does not have its value yet. */
  function ChangesOf(t: Tree, ws: seq<Write>): seq<Change> {
    if ws == [] then []
    else
      var last := ws[|ws| - 1];
      var was := Get(t, last.path);
      ChangesOf(t, ws[..|ws| - 1]) +
      if was == Some(last.value) then []
      else [Change(last.path, if was.None? then Added else Updated)]
  }

  function StaticRelaysOf(relays: seq<Relay>): (r: seq<Tree>)
    ensures |r| == |relays|
    ensures forall i :: 0 <= i < |relays| ==> r[i] == relays[i].multiaddr
  {
    seq(|relays|, i requires 0 <= i < |relays| => relays[i].multiaddr)
  }

  function PeersOf(relays: seq<Relay>): seq<Tree> {
    seq(|relays|, i requires 0 <= i < |relays| =>
      Dict(map["Addrs" := List([relays[i].addr]), "ID" := relays[i].peerId]))
  }

  function RelayWrites(relays: seq<Relay>): seq<Write> {
    if relays == [] then []
    else [Write(STATIC_RELAYS, List(StaticRelaysOf(relays))), Write(PEERS, List(PeersOf(relays)))]
  }

  /** Four fifths of the disk in whole GiB, as the source's doubles have it, but no less than 800. */
  function StorageMaxText(diskTotal: nat): string {
    var gb := ShareInGiB(diskTotal);
    Decimal(if gb < 800 then 800 else gb) + "GB"
  }

  function StorageWrites(disk: Option<nat>): seq<Write> {
    if disk.None? then [] else [Write(STORAGE_MAX, Str(StorageMaxText(disk.value)))]
  }

  /** The lookup of the present StorageMax raises unless config and Datastore, if present, are objects. */
  predicate StorageCrashes(config: Tree, disk: Option<nat>) {
    disk.Some? &&
    (!config.Dict? || (Get(config, ["Datastore"]).Some? && !Get(config, ["Datastore"]).value.Dict?))
  }

  function PipelineWrites(template: Tree, relays: seq<Relay>, disk: Option<nat>): seq<Write> {
    ManagedWrites(template, |MANAGED|) + RelayWrites(relays) + StorageWrites(disk)
  }

  // Writing through nested dicts

  /** get_nested: walk down while there are dicts to walk into. */
  method GetNested(t: Tree, keys: seq<string>) returns (found: Option<Tree>)
    ensures found == Get(t, keys)
  {
    var cur := t;
    var i := 0;
    assert keys[0..] == keys;
    while i < |keys|
      invariant i <= |keys| && Get(cur, keys[i..]) == Get(t, keys)
    {
      if !cur.Dict? || keys[i] !in cur.entries {
        return None;
      }
      assert keys[i..][1..] == keys[i + 1..];
      cur := cur.entries[keys[i]];
      i := i + 1;
    }
    return Some(cur);
  }

  lemma {:induction false} PutThrough(t: Tree, p: seq<string>, q: seq<string>, d: Tree, v: Tree)
    requires Get(t, p) == Some(d)
    ensures Put(t, p + q, v) == Put(t, p, Put(d, q, v))
    decreases |p|
  {
    if p == [] {
      assert p + q == q;
    } else {
      assert (p + q)[1..] == p[1..] + q;
      PutThrough(t.entries[p[0]], p[1..], q, d, v);
    }
  }

  lemma {:induction false} GetThrough(t: Tree, p: seq<string>, k: string)
    ensures Get(t, p + [k]) == if Get(t, p).None? then None else Get(Get(t, p).value, [k])
    decreases |p|
  {
    if p == [] {
      assert p + [k] == [k];
    } else if t.Dict? && p[0] in t.entries {
      assert (p + [k])[1..] == p[1..] + [k];
      GetThrough(t.entries[p[0]], p[1..], k);
    }
  }

  class ConfigFile {
    var root: Tree

    constructor (root: Tree)
      ensures this.root == root
    {
      this.root := root;
    }

    /**
     * set_nested: walk down, turning what is in the way into dicts, and assign at the end. Only the root
     * cannot be turned: assigning into any other value raises.
     */
    method SetNested(keys: seq<string>, value: Tree) returns (raised: bool)
      requires keys != []
      modifies this
      ensures raised <==> !old(root).Dict?
      ensures root == if raised then old(root) else Put(old(root), keys, value)
    {
      if !root.Dict? {
        return true;
      }
      var cur := root.entries;
      var i := 0;
      while i < |keys| - 1
        invariant 0 <= i < |keys|
        invariant root.Dict? && Get(root, keys[..i]) == Some(Dict(cur))
        invariant Put(root, keys, value) == Put(old(root), keys, value)
      {
        var k := keys[i];
        ghost var before := root;
        if k !in cur || !cur[k].Dict? {
          root := Put(root, keys[..i], Dict(cur[k := Dict(map[])]));
          ClearingTheWay(before, keys, i, cur, value);
          cur := cur[k := Dict(map[])];
        }
        assert keys[..i + 1] == keys[..i] + [k];
        GetThrough(root, keys[..i], k);
        cur := cur[k].entries;
        i := i + 1;
      }
      var last := keys[|keys| - 1];
      AssignLast(root, keys, cur, value);
      root := Put(root, keys[..i], Dict(cur[last := value]));
      return false;
    }
  }

  lemma ClearingTheWay(t: Tree, keys: seq<string>, i: nat, cur: map<string, Tree>, value: Tree)
    requires i < |keys| - 1 && t.Dict? && Get(t, keys[..i]) == Some(Dict(cur))
    requires keys[i] !in cur || !cur[keys[i]].Dict?
    ensures var cleared := Put(t, keys[..i], Dict(cur[keys[i] := Dict(map[])]));
      && Put(cleared, keys, value) == Put(t, keys, value)
      && cleared.Dict? && Get(cleared, keys[..i]) == Some(Dict(cur[keys[i] := Dict(map[])]))
  {
    var k, rest := keys[i], keys[i + 1..];
    var d, e := Dict(cur), Dict(cur[k := Dict(map[])]);
    var cleared := Put(t, keys[..i], e);
    GetPut(t, keys[..i], e);
    assert keys == keys[..i] + ([k] + rest);
    PutThrough(t, keys[..i], [k] + rest, d, value);
    PutThrough(cleared, keys[..i], [k] + rest, e, value);
    PutPut(t, keys[..i], e, Put(e, [k] + rest, value));
    ThroughNoDict(cur, k, rest, value);
    hide Put, Get;
    RootStaysDict(t, keys[..i], e);
  }

  lemma RootStaysDict(t: Tree, p: seq<string>, v: Tree)
    ensures p != [] ==> Put(t, p, v).Dict?
    ensures p == [] ==> Put(t, p, v) == v
  {
  }

  /** Whether a value that is no dict stands in the way or an empty dict makes no difference to a write. */
  lemma ThroughNoDict(cur: map<string, Tree>, k: string, rest: seq<string>, value: Tree)
    requires rest != [] && (k !in cur || !cur[k].Dict?)
    ensures Put(Dict(cur), [k] + rest, value) == Put(Dict(cur[k := Dict(map[])]), [k] + rest, value)
  {
    var d, e := Dict(cur), Dict(cur[k := Dict(map[])]);
    assert ([k] + rest)[1..] == rest;
    assert EntriesOf(Child(d, k)) == EntriesOf(Child(e, k)) == map[];
    assert Put(Child(d, k), rest, value) == Put(Child(e, k), rest, value);
    var x := Put(Child(d, k), rest, value);
    assert cur[k := Dict(map[])][k := x] == cur[k := x];
  }

  lemma AssignLast(t: Tree, keys: seq<string>, cur: map<string, Tree>, value: Tree)
    requires keys != [] && Get(t, keys[..|keys| - 1]) == Some(Dict(cur))
    ensures Put(t, keys, value) == Put(t, keys[..|keys| - 1], Dict(cur[keys[|keys| - 1] := value]))
  {
    var last := keys[|keys| - 1];
    assert keys == keys[..|keys| - 1] + [last];
    PutThrough(t, keys[..|keys| - 1], [last], Dict(cur), value);
    assert [last][1..] == [];
  }
}
