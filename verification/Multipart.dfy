/** Multipart uploads: parts by number, and the manager that hands finished uploads out. */
module Multipart {
  import opened Sequences

  datatype Part = Part(number: nat, etag: string, size: nat, cid: string)

  /** The BTreeMap of parts is kept as its ordered entries. */
  datatype Upload = Upload(id: string, bucket: string, key: string, owner: string, createdAt: int, parts: seq<Part>)

  ghost predicate Ascending(parts: seq<Part>) {
    forall i, j :: 0 <= i < j < |parts| ==> parts[i].number < parts[j].number
  }

  function Lookup(parts: seq<Part>, n: nat): Option<Part> {
    if parts == [] then None else if parts[0].number == n then Some(parts[0]) else Lookup(parts[1..], n)
  }

  /** BTreeMap::insert: replace the entry with that number, or put it in its place. */
  function InsertPart(parts: seq<Part>, p: Part): seq<Part> {
    if parts == [] || p.number < parts[0].number then [p] + parts
    else if p.number == parts[0].number then [p] + parts[1..]
    else [parts[0]] + InsertPart(parts[1..], p)
  }

  function TotalSize(parts: seq<Part>): nat {
    if parts == [] then 0 else parts[0].size + TotalSize(parts[1..])
  }

  // Parts under insertion

  lemma {:induction false} InsertKeepsOrder(parts: seq<Part>, p: Part)
    requires Ascending(parts)
    ensures Ascending(InsertPart(parts, p))
    ensures forall q :: q in InsertPart(parts, p) ==> q == p || q in parts
  {
    if parts != [] && p.number > parts[0].number {
      InsertKeepsOrder(parts[1..], p);
      var tail := InsertPart(parts[1..], p);
      forall j | 0 <= j < |tail| ensures parts[0].number < tail[j].number {
        assert tail[j] == p || tail[j] in parts[1..];
      }
    }
  }

  lemma {:induction false} LookupAfterInsert(parts: seq<Part>, p: Part, n: nat)
    requires Ascending(parts)
    ensures Lookup(InsertPart(parts, p), n) == if n == p.number then Some(p) else Lookup(parts, n)
  {
    if parts != [] {
      LookupAfterInsert(parts[1..], p, n);
      var r := InsertPart(parts, p);
      if p.number < parts[0].number {
        assert r[1..] == parts;
      } else if p.number == parts[0].number {
        assert r[1..] == parts[1..];
      } else {
        assert r[1..] == InsertPart(parts[1..], p);
      }
    }
  }

  lemma {:induction false} LookupBelow(parts: seq<Part>, n: nat)
    requires Ascending(parts) && (parts != [] ==> n < parts[0].number)
    ensures Lookup(parts, n) == None
  {
    if parts != [] {
      LookupBelow(parts[1..], n);
    }
  }

  /** An ordered list of parts is determined by what each number looks up. */
  lemma {:induction false} DeterminedByLookup(a: seq<Part>, b: seq<Part>)
    requires Ascending(a) && Ascending(b)
    requires forall n: nat :: Lookup(a, n) == Lookup(b, n)
    ensures a == b
  {
    assert a != [] ==> Lookup(a, a[0].number) == Lookup(b, a[0].number);
    assert b != [] ==> Lookup(a, b[0].number) == Lookup(b, b[0].number);
    if a != [] && b != [] {
      var m, n := a[0].number, b[0].number;
      assert Lookup(a, m) == Lookup(b, m) && Lookup(a, n) == Lookup(b, n);
      if m < n {
        LookupBelow(b, m);
      } else if n < m {
        LookupBelow(a, n);
      }
      assert a[0] == b[0];
      forall k: nat ensures Lookup(a[1..], k) == Lookup(b[1..], k) {
        assert Lookup(a, k) == Lookup(b, k);
        if k == m {
          LookupBelow(a[1..], k);
          LookupBelow(b[1..], k);
        }
      }
      DeterminedByLookup(a[1..], b[1..]);
      assert a == [a[0]] + a[1..] && b == [b[0]] + b[1..];
    }
  }

  /** Uploads of distinct numbers commute. */
  lemma InsertsCommute(parts: seq<Part>, p: Part, q: Part)
    requires Ascending(parts) && p.number != q.number
    ensures InsertPart(InsertPart(parts, p), q) == InsertPart(InsertPart(parts, q), p)
  {
    InsertKeepsOrder(parts, p);
    InsertKeepsOrder(parts, q);
    var a, b := InsertPart(InsertPart(parts, p), q), InsertPart(InsertPart(parts, q), p);
    InsertKeepsOrder(InsertPart(parts, p), q);
    InsertKeepsOrder(InsertPart(parts, q), p);
    forall n: nat ensures Lookup(a, n) == Lookup(b, n) {
      LookupAfterInsert(parts, p, n);
      LookupAfterInsert(parts, q, n);
      LookupAfterInsert(InsertPart(parts, p), q, n);
      LookupAfterInsert(InsertPart(parts, q), p, n);
    }
    DeterminedByLookup(a, b);
  }

  /** Replacing a part exchanges its size in the total; a new number adds to it. */
  lemma {:induction false} TotalAfterInsert(parts: seq<Part>, p: Part)
    requires Ascending(parts)
    ensures TotalSize(InsertPart(parts, p)) ==
      TotalSize(parts) + p.size - (if Lookup(parts, p.number).Some? then Lookup(parts, p.number).value.size else 0)
  {
    if parts != [] {
      var r := InsertPart(parts, p);
      if p.number < parts[0].number {
        assert r[1..] == parts;
        LookupBelow(parts, p.number);
      } else if p.number == parts[0].number {
        assert r[1..] == parts[1..];
      } else {
        TotalAfterInsert(parts[1..], p);
        assert r[1..] == InsertPart(parts[1..], p);
      }
    }
  }

  // Histories of part uploads

  function AddAll(parts: seq<Part>, adds: seq<Part>): seq<Part> {
    if adds == [] then parts else InsertPart(AddAll(parts, adds[..|adds| - 1]), adds[|adds| - 1])
  }

  /** The last of the parts with number n. */
  function LastWrite(adds: seq<Part>, n: nat): Option<Part> {
    if adds == [] then None
    else if adds[|adds| - 1].number == n then Some(adds[|adds| - 1])
    else LastWrite(adds[..|adds| - 1], n)
  }

  /** Parts come out in ascending number, each number with its last write. */
  lemma {:induction false} LastWritesStand(adds: seq<Part>)
    ensures Ascending(AddAll([], adds))
    ensures forall n: nat :: Lookup(AddAll([], adds), n) == LastWrite(adds, n)
  {
    if adds != [] {
      var before, p := adds[..|adds| - 1], adds[|adds| - 1];
      LastWritesStand(before);
      InsertKeepsOrder(AddAll([], before), p);
      forall n: nat ensures Lookup(AddAll([], adds), n) == LastWrite(adds, n) {
        LookupAfterInsert(AddAll([], before), p, n);
      }
    }
  }

  /** Histories with the same last writes complete to the same list of parts. */
  lemma OnlyLastWritesMatter(adds: seq<Part>, others: seq<Part>)
    requires forall n: nat :: LastWrite(adds, n) == LastWrite(others, n)
    ensures AddAll([], adds) == AddAll([], others)
  {
    LastWritesStand(adds);
    LastWritesStand(others);
    DeterminedByLookup(AddAll([], adds), AddAll([], others));
  }

  // The manager

  datatype Response = Rejected | Accepted

  datatype Completion =
    | NoSuchUpload
    | Mismatch
    | NoParts
    | Complete(links: seq<string>, size: nat, etagInput: string, count: nat)

  function ConcatCids(parts: seq<Part>): string {
    if parts == [] then "" else parts[0].cid + ConcatCids(parts[1..])
  }

  /** The CIDs that parse, in part order. */
  function LinksOf(parts: seq<Part>, parses: set<string>): seq<string> {
    if parts == [] then []
    else (if parts[0].cid in parses then [parts[0].cid] else []) + LinksOf(parts[1..], parses)
  }

  class MultipartManager {
    var uploads: map<string, Upload>
    const expirySecs: nat

    constructor (expirySecs: nat)
      ensures uploads == map[] && this.expirySecs == expirySecs
    {
      this.expirySecs := expirySecs;
      uploads := map[];
    }

    /** `id` is the new upload's random identifier. */
    method CreateUpload(id: string, bucket: string, key: string, owner: string, now: int) returns (upload: Upload)
      modifies this`uploads
      ensures upload == Upload(id, bucket, key, owner, now, [])
      ensures uploads == Applied(old(uploads), Create(upload))
    {
      upload := Upload(id, bucket, key, owner, now, []);
      uploads := uploads[id := upload];
    }

    method AddPart(id: string, part: Part) returns (found: bool)
      modifies this`uploads
      ensures found == (id in old(uploads)) && uploads == Applied(old(uploads), Add(id, part))
    {
      if id !in uploads {
        return false;
      }
      var upload := uploads[id];
      uploads := uploads[id := upload.(parts := InsertPart(upload.parts, part))];
      return true;
    }

    /** complete_upload and abort_upload both take the upload out. */
    method TakeUpload(id: string) returns (upload: Option<Upload>)
      modifies this`uploads
      ensures upload == (if id in old(uploads) then Some(old(uploads)[id]) else None)
      ensures uploads == Applied(old(uploads), Remove(id))
    {
      upload := if id in uploads then Some(uploads[id]) else None;
      uploads := uploads - {id};
    }

    method CleanupExpired(now: int) returns (count: nat)
      modifies this`uploads
      ensures uploads == Applied(old(uploads), Cleanup(now - expirySecs))
      ensures count + |uploads| == |old(uploads)|
    {
      var threshold := now - expirySecs;
      var expired := set id | id in uploads && uploads[id].createdAt < threshold;
      ghost var before := uploads;
      count := |expired|;
      while expired != {}
        invariant expired <= uploads.Keys && |uploads| == |before| - count + |expired|
        invariant forall id :: id in uploads ==> id in before && uploads[id] == before[id]
        invariant forall id :: id in expired ==> id in before
        invariant forall id :: id in expired ==> before[id].createdAt < threshold
        invariant forall id :: id in before ==>
          (id in uploads <==> id in expired || before[id].createdAt >= threshold)
        decreases |expired|
      {
        var id :| id in expired;
        expired := expired - {id};
        uploads := uploads - {id};
      }
    }

    /** The first half of the upload handler: checks made before the part's data is stored. */
    method CheckUploadPart(id: string, bucket: string, key: string, number: nat) returns (r: Response)
      ensures r.Accepted? <==>
        1 <= number <= 10000 && id in uploads && uploads[id].bucket == bucket && uploads[id].key == key
    {
      if !(1 <= number <= 10000) {
        return Rejected;
      }
      if id !in uploads {
        return Rejected;
      }
      if uploads[id].bucket != bucket || uploads[id].key != key {
        return Rejected;
      }
      return Accepted;
    }

    method AbortMultipartUpload(id: string, bucket: string, key: string) returns (a: Abortion)
      modifies this`uploads
      ensures uploads == Applied(old(uploads), Remove(id))
      ensures a == AbortionOf(old(uploads), id, bucket, key)
    {
      var taken := TakeUpload(id);
      if taken.None? {
        return NotFound;
      }
      if taken.value.bucket != bucket || taken.value.key != key {
        return WrongKey;
      }
      return Aborted;
    }

    /** `parses`: the strings that parse as CIDs. */
    method CompleteMultipartUpload(id: string, bucket: string, key: string, parses: set<string>)
      returns (c: Completion)
      modifies this`uploads
      ensures uploads == Applied(old(uploads), Remove(id))
      ensures c == CompletionOf(old(uploads), id, bucket, key, parses)
    {
      var taken := TakeUpload(id);
      if taken.None? {
        return NoSuchUpload;
      }
      var upload := taken.value;
      if upload.bucket != bucket || upload.key != key {
        return Mismatch;
      }
      var links := LinksOf(upload.parts, parses);
      if links == [] {
        return NoParts;
      }
      var cidConcat, size := "", 0;
      for i := 0 to |upload.parts|
        invariant cidConcat + ConcatCids(upload.parts[i..]) == ConcatCids(upload.parts)
        invariant size + TotalSize(upload.parts[i..]) == TotalSize(upload.parts)
      {
        assert upload.parts[i..][1..] == upload.parts[i + 1..];
        ghost var rest := ConcatCids(upload.parts[i + 1..]);
        assert cidConcat + (upload.parts[i].cid + rest) == (cidConcat + upload.parts[i].cid) + rest;
        cidConcat := cidConcat + upload.parts[i].cid;
        size := size + upload.parts[i].size;
      }
      assert upload.parts[|upload.parts|..] == [];
      assert cidConcat + "" == cidConcat;
      return Complete(links, size, cidConcat, |upload.parts|);
    }
  }

  datatype Abortion = NotFound | WrongKey | Aborted

  function AbortionOf(uploads: map<string, Upload>, id: string, bucket: string, key: string): Abortion {
    if id !in uploads then NotFound
    else if uploads[id].bucket != bucket || uploads[id].key != key then WrongKey
    else Aborted
  }

  function CompletionOf(uploads: map<string, Upload>, id: string, bucket: string, key: string,
                        parses: set<string>): Completion {
    if id !in uploads then NoSuchUpload
    else if uploads[id].bucket != bucket || uploads[id].key != key then Mismatch
    else if LinksOf(uploads[id].parts, parses) == [] then NoParts
    else
      Complete(LinksOf(uploads[id].parts, parses), TotalSize(uploads[id].parts),
               ConcatCids(uploads[id].parts), |uploads[id].parts|)
  }

  // Whole runs

  /** The atomic steps on the shared map of uploads. */
  datatype Op =
    | Create(upload: Upload)
    | Add(id: string, part: Part)
    | Remove(id: string)
    | Cleanup(threshold: int)

  function Applied(uploads: map<string, Upload>, op: Op): map<string, Upload> {
    match op
    case Create(upload) => uploads[upload.id := upload]
    case Add(id, part) =>
      if id in uploads then uploads[id := uploads[id].(parts := InsertPart(uploads[id].parts, part))] else uploads
    case Remove(id) => uploads - {id}
    case Cleanup(threshold) => map id | id in uploads && uploads[id].createdAt >= threshold :: uploads[id]
  }

  function Run(uploads: map<string, Upload>, ops: seq<Op>): map<string, Upload> {
    if ops == [] then uploads else Applied(Run(uploads, ops[..|ops| - 1]), ops[|ops| - 1])
  }

  /** An op that takes the upload out or replaces it. */
  predicate Ends(op: Op, id: string, createdAt: int) {
    match op
    case Create(upload) => upload.id == id
    case Add(_, _) => false
    case Remove(i) => i == id
    case Cleanup(threshold) => createdAt < threshold
  }

  function AddsTo(ops: seq<Op>, id: string): seq<Part> {
    if ops == [] then []
    else
      var last := ops[|ops| - 1];
      AddsTo(ops[..|ops| - 1], id) + if last.Add? && last.id == id then [last.part] else []
  }

  /** Whatever happens to other uploads meanwhile, an open upload collects exactly its own parts. */
  lemma {:induction false} UploadCollectsItsParts(uploads: map<string, Upload>, ops: seq<Op>, id: string)
    requires id in uploads && forall op :: op in ops ==> !Ends(op, id, uploads[id].createdAt)
    ensures id in Run(uploads, ops)
    ensures Run(uploads, ops)[id] == uploads[id].(parts := AddAll(uploads[id].parts, AddsTo(ops, id)))
  {
    if ops != [] {
      var before, last := ops[..|ops| - 1], ops[|ops| - 1];
      assert last in ops;
      UploadCollectsItsParts(uploads, before, id);
      var adds := AddsTo(before, id);
      if last.Add? && last.id == id {
        assert (adds + [last.part])[..|adds|] == adds;
      } else {
        assert AddsTo(ops, id) == adds;
      }
    }
  }

  /** What completing an upload reports for its whole history since it was created. */
  lemma CompletionReportsHistory(uploads: map<string, Upload>, upload: Upload, ops: seq<Op>,
                                 parses: set<string>)
    requires upload.parts == [] && forall op :: op in ops ==> !Ends(op, upload.id, upload.createdAt)
    ensures var open := Run(Applied(uploads, Create(upload)), ops);
      var c := CompletionOf(open, upload.id, upload.bucket, upload.key, parses);
      var parts := AddAll([], AddsTo(ops, upload.id));
      && !c.NoSuchUpload? && !c.Mismatch? && (c.NoParts? <==> LinksOf(parts, parses) == [])
      && (c.Complete? ==> c == Complete(LinksOf(parts, parses), TotalSize(parts), ConcatCids(parts), |parts|))
      && Ascending(parts) && forall n: nat :: Lookup(parts, n) == LastWrite(AddsTo(ops, upload.id), n)
  {
    UploadCollectsItsParts(Applied(uploads, Create(upload)), ops, upload.id);
    LastWritesStand(AddsTo(ops, upload.id));
  }

  /** An upload that is gone stays gone, and refuses every part, until one with its id is created. */
  lemma {:induction false} GoneStaysGone(uploads: map<string, Upload>, ops: seq<Op>, id: string)
    requires id !in uploads && forall op :: op in ops && op.Create? ==> op.upload.id != id
    ensures id !in Run(uploads, ops)
  {
    if ops != [] {
      assert ops[|ops| - 1] in ops;
      GoneStaysGone(uploads, ops[..|ops| - 1], id);
    }
  }

  /**
   * The upload handler looks the upload up, stores the data, and only then adds the part. Parts are
   * acknowledged at the lookup; one is recorded exactly when no op in between has taken the upload out.
   */
  lemma AcknowledgedIsRecordedIff(uploads: map<string, Upload>, meanwhile: seq<Op>, id: string, part: Part)
    requires id in uploads && (forall n :: n in uploads ==> Ascending(uploads[n].parts))
    requires forall op :: op in meanwhile && op.Create? ==> op.upload.id != id
    ensures var after := Applied(Run(uploads, meanwhile), Add(id, part));
      (id in after && Lookup(after[id].parts, part.number) == Some(part)) <==>
      (forall op :: op in meanwhile ==> !Ends(op, id, uploads[id].createdAt))
  {
    var open := Run(uploads, meanwhile);
    if forall op :: op in meanwhile ==> !Ends(op, id, uploads[id].createdAt) {
      UploadCollectsItsParts(uploads, meanwhile, id);
      AddAllKeepsOrder(uploads[id].parts, AddsTo(meanwhile, id));
      LookupAfterInsert(open[id].parts, part, part.number);
    } else {
      EndedIsGone(uploads, meanwhile, id);
    }
  }

  lemma {:induction false} AddAllKeepsOrder(parts: seq<Part>, adds: seq<Part>)
    requires Ascending(parts)
    ensures Ascending(AddAll(parts, adds))
  {
    if adds != [] {
      AddAllKeepsOrder(parts, adds[..|adds| - 1]);
      InsertKeepsOrder(AddAll(parts, adds[..|adds| - 1]), adds[|adds| - 1]);
    }
  }

  lemma {:induction false} EndedIsGone(uploads: map<string, Upload>, ops: seq<Op>, id: string)
    requires id in uploads && forall op :: op in ops && op.Create? ==> op.upload.id != id
    requires exists op :: op in ops && Ends(op, id, uploads[id].createdAt)
    ensures id !in Run(uploads, ops)
  {
    var before, last := ops[..|ops| - 1], ops[|ops| - 1];
    if exists op :: op in before && Ends(op, id, uploads[id].createdAt) {
      EndedIsGone(uploads, before, id);
    } else {
      UploadCollectsItsParts(uploads, before, id);
    }
  }

  /** The op creates, feeds or takes out another upload, or expires only uploads older than this one. */
  predicate Elsewhere(op: Op, id: string, createdAt: int) {
    match op
    case Create(upload) => upload.id != id
    case Add(i, _) => i != id
    case Remove(i) => i != id
    case Cleanup(threshold) => threshold <= createdAt
  }

  /** Whatever is done to other uploads, expiry included, leaves an upload as it was. */
  lemma {:induction false} OthersUnchanged(uploads: map<string, Upload>, ops: seq<Op>, other: string)
    requires other in uploads && forall op :: op in ops ==> Elsewhere(op, other, uploads[other].createdAt)
    ensures other in Run(uploads, ops) && Run(uploads, ops)[other] == uploads[other]
  {
    if ops != [] {
      assert ops[|ops| - 1] in ops;
      OthersUnchanged(uploads, ops[..|ops| - 1], other);
    }
  }

  /** A part that was accepted and is gone: its upload is completed or aborted while the data is stored. */
  lemma AcknowledgedPartIsLost(upload: Upload, part: Part)
    ensures Applied(Run(map[upload.id := upload], [Remove(upload.id)]), Add(upload.id, part)) == map[]
  {
    var uploads := map[upload.id := upload];
    assert [Remove(upload.id)][..0] == [];
    assert Run(uploads, [Remove(upload.id)]) == Applied(uploads, Remove(upload.id)) == map[];
  }

  /**
   * Completing and aborting take the upload out before they look at it. A refused completion, for
   * whatever reason, and a refused abort leave the uploads as they were exactly if there was none with
   * that id; otherwise the upload can never be completed or aborted again.
   */
  lemma RefusalLosesUpload(uploads: map<string, Upload>, id: string, bucket: string, key: string,
                           parses: set<string>, ops: seq<Op>)
    requires forall op :: op in ops && op.Create? ==> op.upload.id != id
    ensures var c, a := CompletionOf(uploads, id, bucket, key, parses), AbortionOf(uploads, id, bucket, key);
      var after := Applied(uploads, Remove(id));
      && (!c.Complete? ==> (after == uploads <==> c.NoSuchUpload?))
      && (a != Aborted ==> (after == uploads <==> a == NotFound))
      && (forall b, k :: CompletionOf(Run(after, ops), id, b, k, parses).NoSuchUpload?)
      && (forall b, k :: AbortionOf(Run(after, ops), id, b, k) == NotFound)
  {
    GoneStaysGone(Applied(uploads, Remove(id)), ops, id);
    assert id in uploads ==> id !in Applied(uploads, Remove(id));
  }

  // What completing, aborting and expiring look at

  lemma {:induction false} NoLinksIff(parts: seq<Part>, parses: set<string>)
    ensures LinksOf(parts, parses) == [] <==> forall p :: p in parts ==> p.cid !in parses
  {
    if parts != [] {
      NoLinksIff(parts[1..], parses);
      assert parts == [parts[0]] + parts[1..];
    }
  }

  /**
   * A completion succeeds exactly for an upload of that bucket and that key with a part whose CID parses;
   * it is a mismatch exactly if bucket or key differ. An abort succeeds exactly for that bucket and key.
   */
  lemma CompletesIff(uploads: map<string, Upload>, id: string, bucket: string, key: string, parses: set<string>)
    ensures var c, a := CompletionOf(uploads, id, bucket, key, parses), AbortionOf(uploads, id, bucket, key);
      && (c.Complete? <==>
            id in uploads && uploads[id].bucket == bucket && uploads[id].key == key &&
            exists p :: p in uploads[id].parts && p.cid in parses)
      && (c.Mismatch? <==> id in uploads && (uploads[id].bucket != bucket || uploads[id].key != key))
      && (a == Aborted <==> id in uploads && uploads[id].bucket == bucket && uploads[id].key == key)
      && (a == WrongKey <==> c.Mismatch?)
  {
    if id in uploads {
      NoLinksIff(uploads[id].parts, parses);
    }
  }

  lemma {:induction false} LastLink(parts: seq<Part>, p: Part, parses: set<string>)
    ensures LinksOf(parts + [p], parses) == LinksOf(parts, parses) + if p.cid in parses then [p.cid] else []
  {
    if parts == [] {
      assert [] + [p] == [p] && [p][1..] == [];
    } else {
      LastLink(parts[1..], p, parses);
      assert (parts + [p])[1..] == parts[1..] + [p];
    }
  }

  lemma {:induction false} LastCid(parts: seq<Part>, p: Part)
    ensures ConcatCids(parts + [p]) == ConcatCids(parts) + p.cid
  {
    if parts == [] {
      assert [] + [p] == [p] && [p][1..] == [];
      assert p.cid + "" == p.cid;
    } else {
      LastCid(parts[1..], p);
      assert (parts + [p])[1..] == parts[1..] + [p];
      assert parts[0].cid + (ConcatCids(parts[1..]) + p.cid) == (parts[0].cid + ConcatCids(parts[1..])) + p.cid;
    }
  }

  lemma {:induction false} LastSize(parts: seq<Part>, p: Part)
    ensures TotalSize(parts + [p]) == TotalSize(parts) + p.size
  {
    if parts == [] {
      assert [] + [p] == [p] && [p][1..] == [];
    } else {
      LastSize(parts[1..], p);
      assert (parts + [p])[1..] == parts[1..] + [p];
    }
  }

  /** The part with the greatest number comes last: in the links if its CID parses, in the ETag input always. */
  lemma LastPart(parts: seq<Part>, p: Part, parses: set<string>)
    ensures LinksOf(parts + [p], parses) == LinksOf(parts, parses) + if p.cid in parses then [p.cid] else []
    ensures ConcatCids(parts + [p]) == ConcatCids(parts) + p.cid
    ensures TotalSize(parts + [p]) == TotalSize(parts) + p.size
    ensures LinksOf([], parses) == [] && ConcatCids([]) == "" && TotalSize([]) == 0
  {
    LastLink(parts, p, parses);
    LastCid(parts, p);
    LastSize(parts, p);
  }

  /** An expiry run takes out exactly the uploads older than the expiry time. */
  lemma ExpiresIff(uploads: map<string, Upload>, now: int, expirySecs: nat, id: string)
    ensures var after := Applied(uploads, Cleanup(now - expirySecs));
      && (id in after <==> id in uploads && now - uploads[id].createdAt <= expirySecs)
      && (id in after ==> after[id] == uploads[id])
  {
  }
}
