/** The canonical JSON text that heartbeats are signed over, and a parser for it. */
module CanonicalJson {
  import opened JsonText
  import opened KeySort

  /** A Python value json can print, floats aside; a dict keeps its insertion order. */
  datatype Json =
    | Null
    | Bool(b: bool)
    | Int(n: int)
    | Str(s: string)
    | List(items: seq<Json>)
    | Dict(members: seq<Member>)

  datatype Member = Member(key: string, value: Json)

  function KeyOf(): Member -> string {
    (m: Member) => m.key
  }

  function Scalar(v: Json): string
    requires !v.List? && !v.Dict?
  {
    match v
    case Null => "null"
    case Bool(b) => if b then "true" else "false"
    case Int(n) => if n < 0 then "-" + Decimal(-n) else Decimal(n)
    case Str(s) => Quote(s)
  }

  /** _canonical_json: members sorted by key, no whitespace. */
  function Canonical(v: Json): string
    decreases v
  {
    match v
    case List(items) => "[" + CanonicalItems(v, items) + "]"
    case Dict(members) =>
      var sorted := Sort(members, KeyOf());
      assert forall m :: m in sorted ==> m in members by {
        forall m | m in sorted ensures m in members { SortMembers(members, KeyOf(), m); }
      }
      "{" + CanonicalMembers(v, sorted) + "}"
    case _ => Scalar(v)
  }

  function CanonicalItems(context: Json, items: seq<Json>): string
    requires forall i :: 0 <= i < |items| ==> items[i] < context
    decreases context, |items|
  {
    if items == [] then ""
    else if |items| == 1 then Canonical(items[0])
    else Canonical(items[0]) + "," + CanonicalItems(context, items[1..])
  }

  function CanonicalMembers(context: Json, members: seq<Member>): string
    requires forall m :: m in members ==> m.value < context
    decreases context, |members|
  {
    if members == [] then ""
    else
      var first := Quote(members[0].key) + ":" + Canonical(members[0].value);
      if |members| == 1 then first else first + "," + CanonicalMembers(context, members[1..])
  }

  // Printing as it stands, and sorting throughout

  function Print(v: Json): (r: string)
    ensures r != []
  {
    match v
    case List(items) => "[" + PrintItems(items) + "]"
    case Dict(members) => "{" + PrintMembers(members) + "}"
    case _ => Scalar(v)
  }

  function PrintItems(items: seq<Json>): string {
    if items == [] then ""
    else if |items| == 1 then Print(items[0])
    else Print(items[0]) + "," + PrintItems(items[1..])
  }

  function PrintMembers(members: seq<Member>): string {
    if members == [] then ""
    else
      var first := Quote(members[0].key) + ":" + Print(members[0].value);
      if |members| == 1 then first else first + "," + PrintMembers(members[1..])
  }

  /** The value with the members of every dict in key order. */
  function Normalize(v: Json): Json {
    match v
    case List(items) => List(NormalizeItems(items))
    case Dict(members) => Dict(Sort(NormalizeMembers(members), KeyOf()))
    case _ => v
  }

  function NormalizeItems(items: seq<Json>): (r: seq<Json>)
    ensures |r| == |items|
    ensures forall i :: 0 <= i < |items| ==> r[i] == Normalize(items[i])
  {
    if items == [] then [] else [Normalize(items[0])] + NormalizeItems(items[1..])
  }

  function NormalizeMembers(members: seq<Member>): (r: seq<Member>)
    ensures |r| == |members|
    ensures forall i :: 0 <= i < |members| ==> r[i] == Member(members[i].key, Normalize(members[i].value))
  {
    if members == [] then []
    else [Member(members[0].key, Normalize(members[0].value))] + NormalizeMembers(members[1..])
  }

  // Canonical text is the plain print of the normalised value

  /** Sorting by key commutes with changing the values. */
  lemma {:induction false} InsertNormalized(m: Member, ms: seq<Member>)
    ensures NormalizeMembers(Insert(m, ms, KeyOf())) ==
            Insert(Member(m.key, Normalize(m.value)), NormalizeMembers(ms), KeyOf())
  {
    var n := Member(m.key, Normalize(m.value));
    if ms == [] || !Less(ms[0].key, m.key) {
      assert ([m] + ms)[1..] == ms;
    } else {
      InsertNormalized(m, ms[1..]);
      var tail := Insert(m, ms[1..], KeyOf());
      assert ([ms[0]] + tail)[1..] == tail;
      assert NormalizeMembers(ms)[1..] == NormalizeMembers(ms[1..]);
    }
  }

  lemma {:induction false} SortNormalized(ms: seq<Member>)
    ensures NormalizeMembers(Sort(ms, KeyOf())) == Sort(NormalizeMembers(ms), KeyOf())
  {
    if ms != [] {
      SortNormalized(ms[1..]);
      InsertNormalized(ms[0], Sort(ms[1..], KeyOf()));
      assert NormalizeMembers(ms)[1..] == NormalizeMembers(ms[1..]);
    }
  }

  lemma {:induction false} CanonicalPrintsNormalized(v: Json)
    ensures Canonical(v) == Print(Normalize(v))
    decreases v
  {
    match v
    case List(items) =>
      CanonicalItemsPrint(v, items);
    case Dict(members) =>
      var sorted := Sort(members, KeyOf());
      forall m | m in sorted ensures m in members { SortMembers(members, KeyOf(), m); }
      CanonicalMembersPrint(v, sorted);
      SortNormalized(members);
    case _ =>
  }

  lemma {:induction false} CanonicalItemsPrint(context: Json, items: seq<Json>)
    requires forall i :: 0 <= i < |items| ==> items[i] < context
    ensures CanonicalItems(context, items) == PrintItems(NormalizeItems(items))
    decreases context, |items|
  {
    if items != [] {
      CanonicalPrintsNormalized(items[0]);
      CanonicalItemsPrint(context, items[1..]);
      assert NormalizeItems(items)[1..] == NormalizeItems(items[1..]);
    }
  }

  lemma {:induction false} CanonicalMembersPrint(context: Json, members: seq<Member>)
    requires forall m :: m in members ==> m.value < context
    ensures CanonicalMembers(context, members) == PrintMembers(NormalizeMembers(members))
    decreases context, |members|
  {
    if members != [] {
      CanonicalPrintsNormalized(members[0].value);
      CanonicalMembersPrint(context, members[1..]);
      assert NormalizeMembers(members)[1..] == NormalizeMembers(members[1..]);
    }
  }

  lemma {:induction false} NormalizeTwice(v: Json)
    ensures Normalize(Normalize(v)) == Normalize(v)
    decreases v
  {
    match v
    case List(items) =>
      forall i | 0 <= i < |items| ensures Normalize(Normalize(items[i])) == Normalize(items[i]) {
        NormalizeTwice(items[i]);
      }
      assert NormalizeItems(NormalizeItems(items)) == NormalizeItems(items);
    case Dict(members) =>
      var once := NormalizeMembers(members);
      forall i | 0 <= i < |members| ensures Normalize(once[i].value) == once[i].value {
        assert members[i] in members;
        NormalizeTwice(members[i].value);
      }
      assert NormalizeMembers(once) == once;
      SortNormalized(once);
      SortOrders(once, KeyOf());
      SortKeepsOrdered(Sort(once, KeyOf()), KeyOf());
    case _ =>
  }
}
