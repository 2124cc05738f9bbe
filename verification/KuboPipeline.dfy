/** The config script as a whole: merge, relay override and StorageMax, and the watchdog's drift check. */
module KuboPipeline {
  import opened Sequences
  import opened JsonText
  import opened JsonTree
  import opened Doubles
  import opened KuboConfig

  lemma ManagedApart(i: nat, j: nat)
    requires i < |MANAGED| && j < |MANAGED| && i != j
    ensures Apart(MANAGED[i], MANAGED[j])
  {
  }

  lemma NothingManagedIsPreserved(i: nat)
    requires i < |MANAGED|
    ensures !IsPreserved(MANAGED[i])
  {
    forall k | 0 <= k < |PRESERVED| ensures !(PRESERVED[k] <= MANAGED[i]) {
      assert Apart(MANAGED[i], PRESERVED[k]);
      ApartIffIncomparable(MANAGED[i], PRESERVED[k]);
    }
  }

  /** A preserved field and everything under it lie apart from every managed field. */
  lemma PreservedApart(i: nat, q: seq<string>)
    requires i < |MANAGED| && IsPreserved(q)
    ensures Apart(MANAGED[i], q)
  {
    var k :| 0 <= k < |PRESERVED| && PRESERVED[k] <= q;
    assert q == PRESERVED[k] + q[|PRESERVED[k]|..];
  }

  // The managed writes

  /** Each managed write carries the template's value for a managed field, in the order of the list. */
  lemma {:induction false} ManagedWriteIs(template: Tree, n: nat, w: Write)
    requires n <= |MANAGED|
    ensures w in ManagedWrites(template, n) <==>
      exists i :: 0 <= i < n && MANAGED[i] == w.path && Get(template, MANAGED[i]) == Some(w.value)
  {
    if n > 0 {
      hide Get, IsPreserved;
      ManagedWriteIs(template, n - 1, w);
      NothingManagedIsPreserved(n - 1);
      if i :| 0 <= i < n && MANAGED[i] == w.path && Get(template, MANAGED[i]) == Some(w.value) {
        assert i == n - 1 || i < n - 1;
      }
    }
  }

  /** The paths of a batch lie apart from q. */
  ghost predicate AllApart(ws: seq<Write>, q: seq<string>) {
    forall w :: w in ws ==> Apart(w.path, q)
  }

  lemma ManagedWritesApart(template: Tree, n: nat, i: nat)
    requires n <= i < |MANAGED|
    ensures AllApart(ManagedWrites(template, n), MANAGED[i])
  {
    forall w | w in ManagedWrites(template, n) ensures Apart(w.path, MANAGED[i]) {
      ManagedWriteIs(template, n, w);
      var j :| 0 <= j < n && MANAGED[j] == w.path && Get(template, MANAGED[j]) == Some(w.value);
      ManagedApart(j, i);
    }
  }

  // The steps of the script

  method MergeConfigs(template: Tree, deployed: Tree)
    returns (result: ConfigFile, changes: seq<Change>, raised: bool)
    ensures raised <==> !deployed.Dict? && ManagedWrites(template, |MANAGED|) != []
    ensures fresh(result) && (!raised ==> result.root == Merged(template, deployed))
    ensures !raised ==> changes == ChangesOf(deployed, ManagedWrites(template, |MANAGED|))
  {
    hide ManagedWrites, PutAll, Put, Get, ChangesOf;
    NoWrites(template, deployed);
    result := new ConfigFile(deployed);
    changes := [];
    for n := 0 to |MANAGED|
      invariant fresh(result) && (deployed.Dict? <==> result.root.Dict?)
      invariant !deployed.Dict? ==> ManagedWrites(template, n) == []
      invariant result.root == PutAll(deployed, ManagedWrites(template, n))
      invariant changes == ChangesOf(deployed, ManagedWrites(template, n))
    {
      var field := MANAGED[n];
      MergeTurn(template, deployed, n);
      var wanted := GetNested(template, field);
      if wanted.None? {
        continue;
      }
      var present := GetNested(result.root, field);
      OnlyDictsHold(result.root, field);
      if present == wanted {
        continue;
      }
      var action := if present.None? then Added else Updated;
      raised := result.SetNested(field, wanted.value);
      if raised {
        ManagedWritesStay(template, n + 1, |MANAGED|);
        return;
      }
      PutIsDict(deployed, ManagedWrites(template, n), field, wanted.value);
      changes := changes + [Change(field, action)];
    }
    return result, changes, false;
  }

  lemma OnlyDictsHold(t: Tree, p: seq<string>)
    requires p != []
    ensures Get(t, p).Some? ==> t.Dict?
  {
  }

  lemma PutIsDict(t: Tree, ws: seq<Write>, p: seq<string>, v: Tree)
    requires p != []
    ensures Put(PutAll(t, ws), p, v).Dict?
  {
  }

  lemma {:induction false} ManagedWritesStay(template: Tree, m: nat, n: nat)
    requires m <= n <= |MANAGED| && ManagedWrites(template, m) != []
    ensures ManagedWrites(template, n) != []
  {
    if m < n {
      ManagedWritesStay(template, m, n - 1);
    }
  }

  lemma NoWrites(template: Tree, t: Tree)
    ensures ManagedWrites(template, 0) == []
    ensures PutAll(t, ManagedWrites(template, 0)) == t && ChangesOf(t, ManagedWrites(template, 0)) == []
  {
  }

  /** One turn of the loop, in terms of the batch written so far. */
  lemma MergeTurn(template: Tree, t: Tree, n: nat)
    requires n < |MANAGED|
    ensures var field, wanted := MANAGED[n], Get(template, MANAGED[n]);
      var ws, more := ManagedWrites(template, n), ManagedWrites(template, n + 1);
      var present := Get(PutAll(t, ws), field);
      && (wanted.None? ==> more == ws) && (wanted.Some? ==> more != [])
      && (wanted.Some? ==> PutAll(t, more) == Put(PutAll(t, ws), field, wanted.value))
      && (wanted.Some? && present == wanted ==>
            PutAll(t, more) == PutAll(t, ws) && ChangesOf(t, more) == ChangesOf(t, ws))
      && (wanted.Some? && present != wanted ==>
            ChangesOf(t, more) ==
            ChangesOf(t, ws) + [Change(field, if present.None? then Added else Updated)])
  {
    hide Get, Put, PutAll, ChangesOf;
    var field, wanted, ws := MANAGED[n], Get(template, MANAGED[n]), ManagedWrites(template, n);
    NothingManagedIsPreserved(n);
    ManagedWritesApart(template, n, n);
    PutAllElsewhere(t, ws, field);
    if wanted.Some? {
      assert ManagedWrites(template, n + 1) == ws + [Write(field, wanted.value)];
      MergeStep(t, ws, Write(field, wanted.value));
    } else {
      assert ManagedWrites(template, n + 1) == ws + [];
    }
  }

  /** One more write at the end of a batch. */
  lemma MergeStep(t: Tree, ws: seq<Write>, w: Write)
    ensures PutAll(t, ws + [w]) == Put(PutAll(t, ws), w.path, w.value)
    ensures Get(PutAll(t, ws), w.path) == Some(w.value) ==> PutAll(t, ws + [w]) == PutAll(t, ws)
    ensures ChangesOf(t, ws + [w]) == ChangesOf(t, ws) +
      if Get(t, w.path) == Some(w.value) then []
      else [Change(w.path, if Get(t, w.path).None? then Added else Updated)]
  {
    PutAllConcat(t, ws, [w]);
    assert [w][1..] == [];
    assert PutAll(PutAll(t, ws), [w]) == Put(PutAll(t, ws), w.path, w.value);
    if Get(PutAll(t, ws), w.path) == Some(w.value) {
      PutGet(PutAll(t, ws), w.path, w.value);
    }
    assert (ws + [w])[..|ws|] == ws;
  }

  method ApplyRelays(config: ConfigFile, relays: seq<Relay>) returns (changes: seq<Change>, raised: bool)
    requires relays != []
    modifies config
    ensures raised <==> !old(config.root).Dict?
    ensures !raised ==> config.root == PutAll(old(config.root), RelayWrites(relays)) && config.root.Dict?
    ensures !raised ==> changes == RelayChanges(old(config.root), relays)
  {
    changes := [];
    ghost var t := config.root;
    var newStatic := List(StaticRelaysOf(relays));
    var newPeers := List(PeersOf(relays));
    RelayBatch(t, relays);
    OnlyDictsHold(t, STATIC_RELAYS);
    var current := GetNested(config.root, STATIC_RELAYS);
    if current != Some(newStatic) {
      raised := config.SetNested(STATIC_RELAYS, newStatic);
      if raised {
        return;
      }
      changes := changes + [Change(STATIC_RELAYS, DiscoveryOverride)];
    } else {
      PutGet(t, STATIC_RELAYS, newStatic);
    }
    current := GetNested(config.root, PEERS);
    if current != Some(newPeers) {
      raised := config.SetNested(PEERS, newPeers);
      changes := changes + [Change(PEERS, DiscoveryOverride)];
    } else {
      PutGet(config.root, PEERS, newPeers);
    }
    return changes, false;
  }

  function RelayChanges(t: Tree, relays: seq<Relay>): seq<Change> {
    (if Get(t, STATIC_RELAYS) == Some(List(StaticRelaysOf(relays))) then []
     else [Change(STATIC_RELAYS, DiscoveryOverride)]) +
    (if Get(t, PEERS) == Some(List(PeersOf(relays))) then []
     else [Change(PEERS, DiscoveryOverride)])
  }

  lemma RelayBatch(t: Tree, relays: seq<Relay>)
    requires relays != []
    ensures Apart(STATIC_RELAYS, PEERS)
    ensures var s := Put(t, STATIC_RELAYS, List(StaticRelaysOf(relays)));
      && PutAll(t, RelayWrites(relays)) == Put(s, PEERS, List(PeersOf(relays)))
      && Get(s, PEERS) == Get(t, PEERS)
  {
    var ws := RelayWrites(relays);
    assert Apart(STATIC_RELAYS, PEERS);
    PutElsewhere(t, STATIC_RELAYS, ws[0].value, PEERS);
    assert ws[1..] == [ws[1]] && [ws[1]][1..] == [];
    var s := Put(t, STATIC_RELAYS, ws[0].value);
    assert PutAll(s, [ws[1]]) == Put(s, PEERS, ws[1].value);
  }

  /** Sets Datastore.StorageMax; `raised` when the config or its Datastore is no object. */
  method ComputeStorageMax(config: ConfigFile, disk: Option<nat>) returns (changed: bool, raised: bool)
    modifies config
    ensures raised == StorageCrashes(old(config.root), disk)
    ensures config.root == (if raised then old(config.root) else PutAll(old(config.root), StorageWrites(disk)))
    ensures !raised ==>
      (changed <==>
         disk.Some? && Get(old(config.root), STORAGE_MAX) != Some(Str(StorageMaxText(disk.value))))
  {
    if disk.None? {
      return false, false;
    }
    var storageMax := Str(StorageMaxText(disk.value));
    if !config.root.Dict? {
      return false, true;
    }
    var datastore := GetNested(config.root, ["Datastore"]);
    if datastore.Some? && !datastore.value.Dict? {
      return false, true;
    }
    ghost var w := Write(STORAGE_MAX, storageMax);
    assert StorageWrites(disk) == [w] && [w][1..] == [];
    assert PutAll(config.root, [w]) == Put(config.root, STORAGE_MAX, storageMax);
    var current := GetNested(config.root, STORAGE_MAX);
    if current != Some(storageMax) {
      raised := config.SetNested(STORAGE_MAX, storageMax);
      return true, raised;
    }
    PutGet(config.root, STORAGE_MAX, storageMax);
    return false, false;
  }

  /** All the fields the script is to write, written. */
  function PipelineResult(template: Tree, deployed: Tree, relays: seq<Relay>, disk: Option<nat>): Tree {
    PutAll(deployed, PipelineWrites(template, relays, disk))
  }

  /** The script dies: on a config that is no object and has to be written, or on such a Datastore. */
  predicate Raises(template: Tree, deployed: Tree, relays: seq<Relay>, disk: Option<nat>) {
    if deployed.Dict? then StorageCrashes(deployed, disk) else PipelineWrites(template, relays, disk) != []
  }

  /** The deployed config after a run, which writes it at the very end. */
  function FileAfter(template: Tree, deployed: Tree, relays: seq<Relay>, disk: Option<nat>): Tree {
    if Raises(template, deployed, relays, disk) then deployed else PipelineResult(template, deployed, relays, disk)
  }

  /** The script: `relays` is empty when discovery fails, `disk` is None when the drive cannot be read. */
  method UpdateConfig(template: Tree, deployed: Tree, relays: seq<Relay>, disk: Option<nat>)
    returns (file: Tree, changes: seq<Change>, raised: bool)
    ensures raised == Raises(template, deployed, relays, disk)
    ensures file == FileAfter(template, deployed, relays, disk)
    ensures !raised ==> (changes == [] <==> Quiet(template, deployed, relays, disk))
  {
    hide ManagedWrites, PutAll, Get, ChangesOf, StaticRelaysOf, PeersOf, StorageMaxText;
    ghost var ws := ManagedWrites(template, |MANAGED|);
    file := deployed;
    var config: ConfigFile;
    config, changes, raised := MergeConfigs(template, deployed);
    if raised {
      return;
    }
    MergedKeepsKind(template, deployed);
    if relays != [] {
      var more: seq<Change>;
      more, raised := ApplyRelays(config, relays);
      if raised {
        return;
      }
      changes := changes + more;
    }
    BeforeStorage(template, deployed, relays);
    WritesInOrder(template, deployed, relays, disk);
    var storageChanged: bool;
    storageChanged, raised := ComputeStorageMax(config, disk);
    if raised {
      return;
    }
    if storageChanged {
      changes := changes + [Change(STORAGE_MAX, Dynamic)];
    }
    NoChangesIff(deployed, ws);
    if changes == [] {
      QuietChangesNothing(template, deployed, relays, disk);
    } else {
      file := config.root;
    }
  }

  lemma MergedKeepsKind(template: Tree, deployed: Tree)
    ensures deployed.Dict? ==> Merged(template, deployed).Dict?
    ensures ManagedWrites(template, |MANAGED|) == [] ==> Merged(template, deployed) == deployed
  {
    var ws := ManagedWrites(template, |MANAGED|);
    forall w | w in ws ensures w.path != [] {
      ManagedWriteIs(template, |MANAGED|, w);
    }
    DictsStay(deployed, ws);
  }

  lemma {:induction false} DictsStay(t: Tree, ws: seq<Write>)
    requires forall w :: w in ws ==> w.path != []
    ensures t.Dict? ==> PutAll(t, ws).Dict?
    decreases |ws|
  {
    if ws != [] {
      assert ws[0] in ws;
      DictsStay(Put(t, ws[0].path, ws[0].value), ws[1..]);
    }
  }

  lemma WritesInOrder(template: Tree, t: Tree, relays: seq<Relay>, disk: Option<nat>)
    ensures PipelineResult(template, t, relays, disk) ==
      PutAll(PutAll(Merged(template, t), RelayWrites(relays)), StorageWrites(disk))
    ensures PutAll(t, []) == t && PutAll(Merged(template, t), []) == Merged(template, t)
    ensures StorageWrites(None) == [] && RelayWrites([]) == []
    ensures PipelineWrites(template, relays, disk) == [] <==>
      ManagedWrites(template, |MANAGED|) == [] && relays == [] && disk.None?
  {
    var ws := ManagedWrites(template, |MANAGED|);
    PutAllConcat(t, ws + RelayWrites(relays), StorageWrites(disk));
    PutAllConcat(t, ws, RelayWrites(relays));
  }

  /** Nothing to report: every field stands, also after the merge has put the template's relays back. */
  predicate Quiet(template: Tree, deployed: Tree, relays: seq<Relay>, disk: Option<nat>) {
    && (forall w :: w in ManagedWrites(template, |MANAGED|) ==> Get(deployed, w.path) == Some(w.value))
    && (relays != [] ==> RelayChanges(Merged(template, deployed), relays) == [])
    && (disk.Some? ==> Get(deployed, STORAGE_MAX) == Some(Str(StorageMaxText(disk.value))))
  }

  /** A silent run leaves the file as it is, although it does not write it. */
  lemma QuietChangesNothing(template: Tree, t: Tree, relays: seq<Relay>, disk: Option<nat>)
    requires Quiet(template, t, relays, disk)
    ensures PipelineResult(template, t, relays, disk) == t
  {
    hide ManagedWrites, Get, PutAll, StaticRelaysOf, PeersOf, StorageMaxText;
    SettledWrites(t, ManagedWrites(template, |MANAGED|));
    assert Merged(template, t) == t;
    forall w | w in PipelineWrites(template, relays, disk) ensures Get(t, w.path) == Some(w.value) {
      if w in RelayWrites(relays) {
        assert relays != [];
      } else if w in StorageWrites(disk) {
        assert disk.Some?;
      } else {
        assert w in ManagedWrites(template, |MANAGED|);
      }
    }
    SettledWrites(t, PipelineWrites(template, relays, disk));
  }

  lemma {:induction false} NoChangesIff(t: Tree, ws: seq<Write>)
    ensures ChangesOf(t, ws) == [] <==> forall w :: w in ws ==> Get(t, w.path) == Some(w.value)
  {
    if ws != [] {
      NoChangesIff(t, ws[..|ws| - 1]);
      assert ws == ws[..|ws| - 1] + [ws[|ws| - 1]];
    }
  }

  /** Merge and relay override leave everything under Datastore alone. */
  lemma BeforeStorage(template: Tree, deployed: Tree, relays: seq<Relay>)
    ensures var t := PutAll(PutAll(deployed, ManagedWrites(template, |MANAGED|)), RelayWrites(relays));
      Get(t, ["Datastore"]) == Get(deployed, ["Datastore"]) && Get(t, STORAGE_MAX) == Get(deployed, STORAGE_MAX)
  {
    assert IsPreserved(["Datastore"]) by { assert PRESERVED[1] <= ["Datastore"]; }
    assert IsPreserved(STORAGE_MAX) by { assert PRESERVED[1] <= STORAGE_MAX; }
    PreservedUntouched(template, deployed, relays, ["Datastore"]);
    PreservedUntouched(template, deployed, relays, STORAGE_MAX);
  }

  lemma PreservedUntouched(template: Tree, deployed: Tree, relays: seq<Relay>, q: seq<string>)
    requires IsPreserved(q)
    ensures Get(PutAll(PutAll(deployed, ManagedWrites(template, |MANAGED|)), RelayWrites(relays)), q) ==
            Get(deployed, q)
  {
    var ws := ManagedWrites(template, |MANAGED|);
    forall w | w in ws ensures Apart(w.path, q) {
      ManagedWriteIs(template, |MANAGED|, w);
      var i :| 0 <= i < |MANAGED| && MANAGED[i] == w.path && Get(template, MANAGED[i]) == Some(w.value);
      PreservedApart(i, q);
    }
    PutAllElsewhere(deployed, ws, q);
    PreservedApart(1, q);
    PreservedApart(2, q);
    assert MANAGED[1] == PEERS && MANAGED[2] == STATIC_RELAYS;
    PutAllElsewhere(PutAll(deployed, ws), RelayWrites(relays), q);
  }

  // What is reported

  lemma {:induction false} ReportedIff(t: Tree, ws: seq<Write>, c: Change)
    ensures c in ChangesOf(t, ws) <==>
      exists w :: w in ws && w.path == c.field && Get(t, w.path) != Some(w.value) &&
        c.action == if Get(t, w.path).None? then Added else Updated
  {
    hide Get;
    if ws != [] {
      var front, last := ws[..|ws| - 1], ws[|ws| - 1];
      ReportedIff(t, front, c);
      assert ws == front + [last];
    }
  }

  /**
   * The merge reports a field as added exactly if it is managed, the template has it and the deployed
   * config lacks it; as updated exactly if both have it with different values.
   */
  lemma MergeReports(template: Tree, deployed: Tree, field: seq<string>)
    ensures var changes := ChangesOf(deployed, ManagedWrites(template, |MANAGED|));
      var wanted, present := Get(template, field), Get(deployed, field);
      && (Change(field, Added) in changes <==> field in MANAGED && wanted.Some? && present.None?)
      && (Change(field, Updated) in changes <==>
            field in MANAGED && wanted.Some? && present.Some? && present != wanted)
      && (forall c :: c in changes ==> c.action == Added || c.action == Updated)
  {
    hide Get, ManagedWrites, ChangesOf;
    var ws := ManagedWrites(template, |MANAGED|);
    ReportedIff(deployed, ws, Change(field, Added));
    ReportedIff(deployed, ws, Change(field, Updated));
    forall c ensures c in ChangesOf(deployed, ws) ==> c.action == Added || c.action == Updated {
      ReportedIff(deployed, ws, c);
    }
    forall w ensures w in ws <==> w.path in MANAGED && Get(template, w.path) == Some(w.value) {
      ManagedWriteInList(template, w);
    }
    if Get(template, field).Some? {
      var w := Write(field, Get(template, field).value);
      assert w in ws <==> field in MANAGED;
    }
  }

  lemma ManagedWriteInList(template: Tree, w: Write)
    ensures w in ManagedWrites(template, |MANAGED|) <==> w.path in MANAGED && Get(template, w.path) == Some(w.value)
  {
    ManagedWriteIs(template, |MANAGED|, w);
    hide Get, ManagedWrites;
  }

  // What the merge and the whole script guarantee

  lemma {:induction false} ManagedWritesSplit(template: Tree, n: nat, i: nat)
    returns (before: seq<Write>, after: seq<Write>)
    requires i < n <= |MANAGED| && Get(template, MANAGED[i]).Some?
    ensures ManagedWrites(template, n) == before + [Write(MANAGED[i], Get(template, MANAGED[i]).value)] + after
    ensures AllApart(after, MANAGED[i])
  {
    hide ManagedWrites, Get, Apart;
    LastManagedWrite(template, n);
    var more := OneManagedWrite(template, n - 1);
    if i == n - 1 {
      before, after := ManagedWrites(template, n - 1), [];
      assert ManagedWrites(template, n - 1) + more == before + more + after;
    } else {
      var b, a := ManagedWritesSplit(template, n - 1, i);
      before, after := b, a + more;
      ManagedApart(n - 1, i);
      var w := Write(MANAGED[i], Get(template, MANAGED[i]).value);
      assert (b + [w] + a) + more == b + [w] + (a + more);
    }
  }

  /** The write for one managed field, if the template defines it. */
  function OneManagedWrite(template: Tree, i: nat): seq<Write>
    requires i < |MANAGED|
  {
    var v := Get(template, MANAGED[i]);
    if v.None? then [] else [Write(MANAGED[i], v.value)]
  }

  lemma LastManagedWrite(template: Tree, n: nat)
    requires 0 < n <= |MANAGED|
    ensures ManagedWrites(template, n) == ManagedWrites(template, n - 1) + OneManagedWrite(template, n - 1)
  {
    NothingManagedIsPreserved(n - 1);
  }

  /** Every managed field the template defines ends up with the template's value. */
  lemma MergeTakesTemplate(template: Tree, deployed: Tree, i: nat)
    requires i < |MANAGED| && Get(template, MANAGED[i]).Some?
    ensures Get(Merged(template, deployed), MANAGED[i]) == Get(template, MANAGED[i])
  {
    var before, after := ManagedWritesSplit(template, |MANAGED|, i);
    LastWriteStands(deployed, before, Write(MANAGED[i], Get(template, MANAGED[i]).value), after);
  }

  /** Every path incomparable with all managed fields resolves as before, also to nothing. */
  lemma MergeFrame(template: Tree, deployed: Tree, q: seq<string>)
    requires forall i :: 0 <= i < |MANAGED| ==> !Comparable(MANAGED[i], q)
    ensures Get(Merged(template, deployed), q) == Get(deployed, q)
  {
    var ws := ManagedWrites(template, |MANAGED|);
    forall w | w in ws ensures Apart(w.path, q) {
      ManagedWriteIs(template, |MANAGED|, w);
      var i :| 0 <= i < |MANAGED| && MANAGED[i] == w.path && Get(template, MANAGED[i]) == Some(w.value);
      ApartIffIncomparable(MANAGED[i], q);
    }
    PutAllElsewhere(deployed, ws, q);
  }

  /** Preserved fields and everything under them come through the merge untouched. */
  lemma MergePreserves(template: Tree, deployed: Tree, q: seq<string>)
    requires IsPreserved(q)
    ensures Get(Merged(template, deployed), q) == Get(deployed, q)
  {
    forall i | 0 <= i < |MANAGED| ensures !Comparable(MANAGED[i], q) {
      PreservedApart(i, q);
      ApartIffIncomparable(MANAGED[i], q);
    }
    MergeFrame(template, deployed, q);
  }

  lemma PipelinePaths(template: Tree, relays: seq<Relay>, disk: Option<nat>, w: Write)
    requires w in PipelineWrites(template, relays, disk)
    ensures w.path in MANAGED || w.path == STORAGE_MAX
  {
    if w in ManagedWrites(template, |MANAGED|) {
      ManagedWriteIs(template, |MANAGED|, w);
    }
    assert MANAGED[1] == PEERS && MANAGED[2] == STATIC_RELAYS;
  }

  lemma PipelineSeparated(template: Tree, relays: seq<Relay>, disk: Option<nat>)
    ensures Separated(PipelineWrites(template, relays, disk))
  {
    var ws := PipelineWrites(template, relays, disk);
    forall v, w | v in ws && w in ws && v.path != w.path ensures Apart(v.path, w.path) {
      PipelinePaths(template, relays, disk, v);
      PipelinePaths(template, relays, disk, w);
      PathsApart(v.path, w.path);
    }
  }

  lemma PathsApart(p: seq<string>, q: seq<string>)
    requires (p in MANAGED || p == STORAGE_MAX) && (q in MANAGED || q == STORAGE_MAX) && p != q
    ensures Apart(p, q)
  {
    assert IsPreserved(STORAGE_MAX) by { assert PRESERVED[1] <= STORAGE_MAX; }
    if p in MANAGED {
      var i :| 0 <= i < |MANAGED| && MANAGED[i] == p;
      if q in MANAGED {
        var j :| 0 <= j < |MANAGED| && MANAGED[j] == q;
        ManagedApart(i, j);
      } else {
        PreservedApart(i, q);
      }
    } else {
      var j :| 0 <= j < |MANAGED| && MANAGED[j] == q;
      PreservedApart(j, p);
      ApartIsSymmetric(q, p);
    }
  }

  /** Running the script again with the same template, relays and disk changes nothing, whether it raises or not. */
  lemma PipelineIsIdempotent(template: Tree, deployed: Tree, relays: seq<Relay>, disk: Option<nat>)
    ensures var once := FileAfter(template, deployed, relays, disk);
      FileAfter(template, once, relays, disk) == once
  {
    PipelineSeparated(template, relays, disk);
    BatchIsIdempotent(deployed, PipelineWrites(template, relays, disk));
  }

  /** Under Datastore only StorageMax can change. */
  lemma DatastoreFrame(template: Tree, deployed: Tree, relays: seq<Relay>, disk: Option<nat>, q: seq<string>)
    requires ["Datastore"] <= q && Apart(STORAGE_MAX, q)
    ensures Get(FileAfter(template, deployed, relays, disk), q) == Get(deployed, q)
  {
    assert IsPreserved(q) by { assert PRESERVED[1] <= q; }
    forall w | w in PipelineWrites(template, relays, disk) ensures Apart(w.path, q) {
      PipelinePaths(template, relays, disk, w);
      if w.path in MANAGED {
        var i :| 0 <= i < |MANAGED| && MANAGED[i] == w.path;
        PreservedApart(i, q);
      }
    }
    PutAllElsewhere(deployed, PipelineWrites(template, relays, disk), q);
  }

  /** A write of the script stands at the end if no later one comes near its path. */
  lemma WriteStands(template: Tree, deployed: Tree, relays: seq<Relay>, disk: Option<nat>,
                    before: seq<Write>, w: Write, after: seq<Write>)
    requires PipelineWrites(template, relays, disk) == before + [w] + after && AllApart(after, w.path)
    ensures Get(PipelineResult(template, deployed, relays, disk), w.path) == Some(w.value)
  {
    LastWriteStands(deployed, before, w, after);
  }

  predicate HasRelays(config: Tree, relays: seq<Relay>) {
    && Get(config, STATIC_RELAYS) == Some(List(StaticRelaysOf(relays)))
    && Get(config, PEERS) == Some(List(PeersOf(relays)))
  }

  lemma ResultHasRelays(template: Tree, deployed: Tree, relays: seq<Relay>, disk: Option<nat>)
    requires relays != []
    ensures HasRelays(PipelineResult(template, deployed, relays, disk), relays)
  {
    hide ManagedWrites, PutAll, Get, StaticRelaysOf, PeersOf, PipelineResult, StorageMaxText;
    var ws, ss := ManagedWrites(template, |MANAGED|), StorageWrites(disk);
    var a, b := Write(STATIC_RELAYS, List(StaticRelaysOf(relays))), Write(PEERS, List(PeersOf(relays)));
    assert RelayWrites(relays) == [a, b];
    RelayPathsApart();
    assert PipelineWrites(template, relays, disk) == ws + [a] + ([b] + ss);
    WriteStands(template, deployed, relays, disk, ws, a, [b] + ss);
    assert PipelineWrites(template, relays, disk) == (ws + [a]) + [b] + ss;
    WriteStands(template, deployed, relays, disk, ws + [a], b, ss);
  }

  lemma RelayPathsApart()
    ensures Apart(PEERS, STATIC_RELAYS) && Apart(STORAGE_MAX, STATIC_RELAYS) && Apart(STORAGE_MAX, PEERS)
  {
  }

  /** What an entry of Peering.Peers is: the relay's ID and its one address, and nothing else. */
  ghost predicate IsPeer(entry: Tree, relay: Relay) {
    && entry.Dict? && entry.entries.Keys == {"ID", "Addrs"}
    && Get(entry, ["ID"]) == Some(relay.peerId)
    && Get(entry, ["Addrs"]) == Some(List([relay.addr]))
  }

  lemma PeersArePeers(relays: seq<Relay>, i: nat)
    requires i < |relays|
    ensures |PeersOf(relays)| == |relays| && IsPeer(PeersOf(relays)[i], relays[i])
  {
    assert ["ID"][1..] == [] && ["Addrs"][1..] == [];
  }

  /**
   * After a run with live relays that does not raise, Peering.Peers lists exactly their IDs and
   * addresses, and StaticRelays their multiaddrs, in the order of the relay service.
   */
  lemma PeersAreTheRelays(template: Tree, deployed: Tree, relays: seq<Relay>, disk: Option<nat>)
    requires relays != [] && !Raises(template, deployed, relays, disk)
    ensures var file := FileAfter(template, deployed, relays, disk);
      var peers, addrs := Get(file, ["Peering", "Peers"]), Get(file, ["Swarm", "RelayClient", "StaticRelays"]);
      && peers.Some? && peers.value.List? && |peers.value.items| == |relays|
      && (forall i :: 0 <= i < |relays| ==> IsPeer(peers.value.items[i], relays[i]))
      && addrs.Some? && addrs.value.List? && |addrs.value.items| == |relays|
      && (forall i :: 0 <= i < |relays| ==> addrs.value.items[i] == relays[i].multiaddr)
  {
    hide Raises, PipelineResult, PeersOf, Get, IsPeer;
    ResultHasRelays(template, deployed, relays, disk);
    forall i | 0 <= i < |relays| ensures |PeersOf(relays)| == |relays| && IsPeer(PeersOf(relays)[i], relays[i]) {
      PeersArePeers(relays, i);
    }
    assert relays[0] == relays[0];
  }

  /**
   * With live relays both relay fields end up as the relay service wants them, exactly unless the script
   * dies first and they were not so before.
   */
  lemma PipelineSetsRelays(template: Tree, deployed: Tree, relays: seq<Relay>, disk: Option<nat>)
    requires relays != []
    ensures HasRelays(FileAfter(template, deployed, relays, disk), relays) <==>
      !Raises(template, deployed, relays, disk) || HasRelays(deployed, relays)
  {
    hide HasRelays;
    ResultHasRelays(template, deployed, relays, disk);
  }

  /**
   * StorageMax reads as a number of GB that is at least 800; up to a pebibyte it is 800 exactly for
   * disks of which four fifths are less than 801 GiB, and else four fifths in whole GiB.
   */
  lemma StorageMaxReads(total: nat)
    ensures var text := StorageMaxText(total);
      && |text| > 2 && text[|text| - 2..] == "GB" && AllDigits(text[..|text| - 2])
      && var gb := ReadDecimal(text[..|text| - 2]);
         && gb >= 800
         && (total <= 1_125_899_906_842_624 ==>
               if gb == 800 then total * 4 < 801 * 5368709120
               else gb * 5368709120 <= total * 4 < (gb + 1) * 5368709120)
  {
    hide ShareInGiB, Decimal;
    var share := ShareInGiB(total);
    var gb := if share < 800 then 800 else share;
    var text := StorageMaxText(total);
    DecimalReadsBack(gb);
    assert text[..|text| - 2] == Decimal(gb) && text[|text| - 2..] == "GB";
    if total <= 1_125_899_906_842_624 {
      ShareIsFourFifths(total);
      ShareBounds(total);
    }
  }

  lemma ShareBounds(total: nat)
    ensures WholeShare(total) * 5368709120 <= total * 4 < (WholeShare(total) + 1) * 5368709120
  {
    var r := Remainder(total);
  }

  // The watchdog's view

  datatype Lookup = Crash | Addresses(addrs: seq<string>)

  function StringsOf(items: seq<Tree>): seq<string> {
    if items == [] then [] else (if items[0].Str? then [items[0].s] else []) + StringsOf(items[1..])
  }

  /** `cfg.get(key, {})`, which raises on anything but a dict. */
  function SubDict(t: Tree, key: string): Tree {
    if key in EntriesOf(t) then EntriesOf(t)[key] else Dict(map[])
  }

  /** get_relay_multiaddrs on a readable config. */
  function RelayMultiaddrs(config: Tree): Lookup {
    if !config.Dict? || !SubDict(config, "Swarm").Dict? then Crash
    else
      var client := SubDict(SubDict(config, "Swarm"), "RelayClient");
      if !client.Dict? then Crash
      else
        var relays := Child(client, "StaticRelays");
        if relays.List? && relays.items != [] then Addresses(StringsOf(relays.items))
        else Addresses([RELAY_FALLBACK])
  }

  /**
   * The watchdog reads the strings of a non-empty list at the path of StaticRelays, and the fallback
   * when there is no such list; it crashes exactly if what it walks through is there and no object.
   */
  lemma LookupIs(config: Tree)
    ensures var swarm, client := Get(config, ["Swarm"]), Get(config, ["Swarm", "RelayClient"]);
      var relays := Get(config, STATIC_RELAYS);
      && (RelayMultiaddrs(config).Crash? <==>
            !config.Dict? || (swarm.Some? && !swarm.value.Dict?) || (client.Some? && !client.value.Dict?))
      && (!RelayMultiaddrs(config).Crash? ==>
            RelayMultiaddrs(config).addrs ==
            if relays.Some? && relays.value.List? && relays.value.items != [] then StringsOf(relays.value.items)
            else [RELAY_FALLBACK])
  {
    GetOne(config, "Swarm");
    GetOne(SubDict(config, "Swarm"), "RelayClient");
    GetOne(SubDict(SubDict(config, "Swarm"), "RelayClient"), "StaticRelays");
    GetThrough(config, ["Swarm"], "RelayClient");
    GetThrough(config, ["Swarm", "RelayClient"], "StaticRelays");
    assert ["Swarm"] + ["RelayClient"] == ["Swarm", "RelayClient"];
    assert ["Swarm", "RelayClient"] + ["StaticRelays"] == STATIC_RELAYS;
    hide Get;
  }

  lemma GetOne(t: Tree, key: string)
    ensures Get(t, [key]) == if key in EntriesOf(t) then Some(EntriesOf(t)[key]) else None
  {
    assert [key][1..] == [];
  }

  /** Lists and dicts cannot be members of a Python set. */
  predicate Hashable(t: Tree) {
    !t.List? && !t.Dict?
  }

  datatype DriftCheck = CheckCrashed | NoDrift | Drift

  /** The comparison of maybe_refresh_relays: configured addresses against wanted ones, as sets. */
  function CheckDrift(config: Tree, relays: seq<Relay>): DriftCheck {
    var current := RelayMultiaddrs(config);
    if current.Crash? || exists i :: 0 <= i < |relays| && !Hashable(relays[i].multiaddr) then CheckCrashed
    else if (set a | a in current.addrs :: Str(a)) == (set i | 0 <= i < |relays| :: relays[i].multiaddr) then NoDrift
    else Drift
  }

  /**
   * The check crashes exactly if reading the config does or a multiaddr cannot be hashed; otherwise it
   * finds drift exactly if some address is read that is not wanted, or wanted that is not read.
   */
  lemma DriftIs(config: Tree, relays: seq<Relay>)
    ensures var current, check := RelayMultiaddrs(config), CheckDrift(config, relays);
      && (check == CheckCrashed <==>
            current.Crash? || exists i :: 0 <= i < |relays| && (relays[i].multiaddr.List? || relays[i].multiaddr.Dict?))
      && (check != CheckCrashed ==>
            (check == Drift <==>
               || (exists a :: a in current.addrs && forall i :: 0 <= i < |relays| ==> relays[i].multiaddr != Str(a))
               || (exists i :: 0 <= i < |relays| && forall a :: a in current.addrs ==> relays[i].multiaddr != Str(a))))
  {
    hide RelayMultiaddrs;
    var current := RelayMultiaddrs(config);
    if CheckDrift(config, relays) != CheckCrashed {
      var read, wanted := set a | a in current.addrs :: Str(a), set i | 0 <= i < |relays| :: relays[i].multiaddr;
      if read == wanted {
        forall a | a in current.addrs ensures exists i :: 0 <= i < |relays| && relays[i].multiaddr == Str(a) {
          assert Str(a) in read;
        }
        forall i | 0 <= i < |relays| ensures exists a :: a in current.addrs && relays[i].multiaddr == Str(a) {
          assert relays[i].multiaddr in wanted;
        }
      } else if x :| x in read && x !in wanted {
        assert x.s in current.addrs;
      } else {
        var y :| y in wanted && y !in read;
      }
    }
  }

  lemma {:induction false} StringsOfMembers(items: seq<Tree>, s: string)
    ensures s in StringsOf(items) <==> Str(s) in items
  {
    if items != [] {
      StringsOfMembers(items[1..], s);
      assert items == [items[0]] + items[1..];
    }
  }

  lemma LookupFollowsPath(config: Tree, items: seq<Tree>)
    requires Get(config, STATIC_RELAYS) == Some(List(items)) && items != []
    ensures RelayMultiaddrs(config) == Addresses(StringsOf(items))
  {
    assert STATIC_RELAYS[1..] == ["RelayClient", "StaticRelays"];
    assert ["RelayClient", "StaticRelays"][1..] == ["StaticRelays"];
    var swarm := config.entries["Swarm"];
    assert Get(swarm, ["RelayClient", "StaticRelays"]) == Some(List(items));
    var client := swarm.entries["RelayClient"];
    assert Get(client, ["StaticRelays"]) == Some(List(items));
  }

  /** The check compares two sets of values; only the strings among the relays are ever read back. */
  lemma NoDriftOnRelays(config: Tree, relays: seq<Relay>)
    requires relays != [] && HasRelays(config, relays)
    ensures CheckDrift(config, relays) == NoDrift <==> forall i :: 0 <= i < |relays| ==> relays[i].multiaddr.Str?
  {
    var items := StaticRelaysOf(relays);
    LookupFollowsPath(config, items);
    hide Get, RelayMultiaddrs;
    var addrs := StringsOf(items);
    var current, wanted := set a | a in addrs :: Str(a), set i | 0 <= i < |relays| :: relays[i].multiaddr;
    forall s: string ensures Str(s) in current <==> Str(s) in wanted {
      StringsOfMembers(items, s);
    }
    if i :| 0 <= i < |relays| && !relays[i].multiaddr.Str? {
      assert relays[i].multiaddr in wanted && relays[i].multiaddr !in current;
    } else {
      assert current == wanted;
    }
  }

  /**
   * After a run with the same relays the watchdog finds no drift exactly when every relay's multiaddr
   * is a string, any other value being dropped on reading; a script that dies leaves the drift as it was.
   */
  lemma NoDriftIffStrings(template: Tree, deployed: Tree, relays: seq<Relay>, disk: Option<nat>)
    requires relays != []
    ensures CheckDrift(FileAfter(template, deployed, relays, disk), relays) == NoDrift <==>
      if Raises(template, deployed, relays, disk) then CheckDrift(deployed, relays) == NoDrift
      else forall i :: 0 <= i < |relays| ==> relays[i].multiaddr.Str?
  {
    ResultHasRelays(template, deployed, relays, disk);
    if !Raises(template, deployed, relays, disk) {
      NoDriftOnRelays(PipelineResult(template, deployed, relays, disk), relays);
    }
    hide Raises, PipelineResult, CheckDrift;
  }

  /**
   * The watchdog runs the script when it finds drift. The drift is gone afterwards exactly when every
   * multiaddr is a string and, where the drive can be read, Datastore is an object or missing.
   */
  lemma DriftEndsIff(template: Tree, deployed: Tree, relays: seq<Relay>, disk: Option<nat>)
    requires relays != [] && CheckDrift(deployed, relays) == Drift
    ensures CheckDrift(FileAfter(template, deployed, relays, disk), relays) == NoDrift <==>
      && (disk.Some? && Get(deployed, ["Datastore"]).Some? ==> Get(deployed, ["Datastore"]).value.Dict?)
      && forall i :: 0 <= i < |relays| ==> relays[i].multiaddr.Str?
  {
    NoDriftIffStrings(template, deployed, relays, disk);
    DriftMeansDict(deployed, relays);
    hide CheckDrift, FileAfter, Get;
  }

  /** A config whose Datastore is a string: the script dies, and the relays drift for ever. */
  lemma DriftStays(template: Tree, diskTotal: nat, peerId: Tree, addr: Tree)
    ensures var deployed := Dict(map["Datastore" := Str("x")]);
      var relays := [Relay(peerId, addr, Str("/dns/relay.example/tcp/4001"))];
      && CheckDrift(deployed, relays) == Drift
      && FileAfter(template, deployed, relays, Some(diskTotal)) == deployed
  {
    var deployed := Dict(map["Datastore" := Str("x")]);
    var relays := [Relay(peerId, addr, Str("/dns/relay.example/tcp/4001"))];
    assert Get(deployed, ["Datastore"]) == Some(Str("x"));
    var current := RelayMultiaddrs(deployed);
    assert current == Addresses([RELAY_FALLBACK]);
    var wanted := set i | 0 <= i < |relays| :: relays[i].multiaddr;
    assert relays[0].multiaddr in wanted;
    assert RELAY_FALLBACK != "/dns/relay.example/tcp/4001" by {
      assert |RELAY_FALLBACK| != |"/dns/relay.example/tcp/4001"|;
    }
    assert Str("/dns/relay.example/tcp/4001") !in (set a | a in current.addrs :: Str(a));
  }

  lemma DriftMeansDict(config: Tree, relays: seq<Relay>)
    requires CheckDrift(config, relays) == Drift
    ensures config.Dict?
  {
  }

  /** A managed field other than the relays stands as the template has it. */
  lemma PipelineTakesTemplate(template: Tree, deployed: Tree, relays: seq<Relay>, disk: Option<nat>, i: nat)
    requires i < |MANAGED| && Get(template, MANAGED[i]).Some?
    requires MANAGED[i] != STATIC_RELAYS && MANAGED[i] != PEERS
    ensures Get(PipelineResult(template, deployed, relays, disk), MANAGED[i]) == Get(template, MANAGED[i])
  {
    hide ManagedWrites, Get, Apart, PipelineResult, RelayWrites, StorageWrites;
    var before, after := ManagedWritesSplit(template, |MANAGED|, i);
    LaterWritesApart(relays, disk, i);
    var w := Write(MANAGED[i], Get(template, MANAGED[i]).value);
    MiddleWriteStands(template, deployed, relays, disk, before, w, after);
  }

  lemma MiddleWriteStands(template: Tree, deployed: Tree, relays: seq<Relay>, disk: Option<nat>,
                          before: seq<Write>, w: Write, after: seq<Write>)
    requires ManagedWrites(template, |MANAGED|) == before + [w] + after
    requires AllApart(after, w.path) && AllApart(RelayWrites(relays) + StorageWrites(disk), w.path)
    ensures Get(PipelineResult(template, deployed, relays, disk), w.path) == Some(w.value)
  {
    hide ManagedWrites, Get, Apart, PipelineResult, RelayWrites, StorageWrites, MANAGED;
    var rs, ss := RelayWrites(relays), StorageWrites(disk);
    assert (before + [w] + after) + rs + ss == before + [w] + (after + (rs + ss));
    WriteStands(template, deployed, relays, disk, before, w, after + (rs + ss));
  }

  lemma LaterWritesApart(relays: seq<Relay>, disk: Option<nat>, i: nat)
    requires i < |MANAGED| && MANAGED[i] != STATIC_RELAYS && MANAGED[i] != PEERS
    ensures AllApart(RelayWrites(relays) + StorageWrites(disk), MANAGED[i])
  {
    StorageIsUnmanaged(i);
    assert PEERS in MANAGED by { assert MANAGED[1] == PEERS; }
    assert STATIC_RELAYS in MANAGED by { assert MANAGED[2] == STATIC_RELAYS; }
    PathsApart(PEERS, MANAGED[i]);
    PathsApart(STATIC_RELAYS, MANAGED[i]);
    PathsApart(STORAGE_MAX, MANAGED[i]);
    hide MANAGED, Apart;
  }

  lemma StorageIsUnmanaged(i: nat)
    requires i < |MANAGED|
    ensures MANAGED[i] != STORAGE_MAX
  {
    NothingManagedIsPreserved(i);
    assert PRESERVED[1] <= STORAGE_MAX;
  }

  lemma PipelineSetsStorage(template: Tree, deployed: Tree, relays: seq<Relay>, disk: Option<nat>)
    requires disk.Some?
    ensures Get(PipelineResult(template, deployed, relays, disk), STORAGE_MAX) == Some(Str(StorageMaxText(disk.value)))
  {
    hide ManagedWrites, RelayWrites, PipelineResult, Get, StorageMaxText;
    var ws := ManagedWrites(template, |MANAGED|) + RelayWrites(relays);
    var w := Write(STORAGE_MAX, Str(StorageMaxText(disk.value)));
    assert PipelineWrites(template, relays, disk) == ws + [w] + [];
    WriteStands(template, deployed, relays, disk, ws, w, []);
  }

  /** The template's relay fields, where it has them, are the live ones. */
  predicate TemplateAgrees(template: Tree, relays: seq<Relay>) {
    && (Get(template, STATIC_RELAYS).Some? ==> Get(template, STATIC_RELAYS).value == List(StaticRelaysOf(relays)))
    && (Get(template, PEERS).Some? ==> Get(template, PEERS).value == List(PeersOf(relays)))
  }

  ghost predicate MergeStands(template: Tree, config: Tree) {
    forall w :: w in ManagedWrites(template, |MANAGED|) ==> Get(config, w.path) == Some(w.value)
  }

  lemma RelayFieldsAreWritten(template: Tree)
    ensures forall v :: Get(template, STATIC_RELAYS) == Some(v) ==>
      Write(STATIC_RELAYS, v) in ManagedWrites(template, |MANAGED|)
    ensures forall v :: Get(template, PEERS) == Some(v) ==>
      Write(PEERS, v) in ManagedWrites(template, |MANAGED|)
  {
    assert MANAGED[1] == PEERS && MANAGED[2] == STATIC_RELAYS;
    hide Get;
    forall v | Get(template, STATIC_RELAYS) == Some(v) { ManagedWriteIs(template, |MANAGED|, Write(STATIC_RELAYS, v)); }
    forall v | Get(template, PEERS) == Some(v) { ManagedWriteIs(template, |MANAGED|, Write(PEERS, v)); }
  }

  lemma MergeStandsIff(template: Tree, deployed: Tree, relays: seq<Relay>, disk: Option<nat>)
    requires relays != []
    ensures MergeStands(template, PipelineResult(template, deployed, relays, disk)) <==>
      TemplateAgrees(template, relays)
  {
    var config := PipelineResult(template, deployed, relays, disk);
    ResultHasRelays(template, deployed, relays, disk);
    if TemplateAgrees(template, relays) {
      forall w | w in ManagedWrites(template, |MANAGED|) ensures Get(config, w.path) == Some(w.value) {
        ManagedWriteIs(template, |MANAGED|, w);
        var i :| 0 <= i < |MANAGED| && MANAGED[i] == w.path && Get(template, MANAGED[i]) == Some(w.value);
        if w.path != STATIC_RELAYS && w.path != PEERS {
          PipelineTakesTemplate(template, deployed, relays, disk, i);
        }
        hide MANAGED, Get, ManagedWrites, PipelineResult;
      }
    } else {
      RelayFieldsAreWritten(template);
      hide Get, ManagedWrites, PipelineResult;
    }
  }

  /**
   * The script reports no changes on its own result exactly when the template's relay fields, where
   * it has them, equal the live ones; otherwise every run rewrites the same config.
   */
  lemma QuietIffTemplateAgrees(template: Tree, deployed: Tree, relays: seq<Relay>, disk: Option<nat>)
    requires relays != [] && !Raises(template, deployed, relays, disk)
    ensures Quiet(template, FileAfter(template, deployed, relays, disk), relays, disk) <==>
      TemplateAgrees(template, relays)
  {
    var config := PipelineResult(template, deployed, relays, disk);
    MergeStandsIff(template, deployed, relays, disk);
    ResultHasRelays(template, deployed, relays, disk);
    if disk.Some? {
      PipelineSetsStorage(template, deployed, relays, disk);
    }
    if MergeStands(template, config) {
      SettledWrites(config, ManagedWrites(template, |MANAGED|));
    }
    QuietIs(template, config, relays, disk);
    hide Quiet, ManagedWrites, Get, PutAll, PipelineResult, TemplateAgrees, MergeStands, Raises, StorageMaxText;
  }

  lemma QuietIs(template: Tree, config: Tree, relays: seq<Relay>, disk: Option<nat>)
    requires relays != [] && HasRelays(config, relays)
    requires disk.Some? ==> Get(config, STORAGE_MAX) == Some(Str(StorageMaxText(disk.value)))
    requires MergeStands(template, config) ==> Merged(template, config) == config
    ensures Quiet(template, config, relays, disk) <==> MergeStands(template, config)
  {
    hide ManagedWrites, Get, StorageMaxText, Merged, StaticRelaysOf, PeersOf;
  }
}
