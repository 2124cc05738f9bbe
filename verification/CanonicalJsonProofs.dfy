/** What makes the canonical text a signing input: one text per value, one value per text. */
module CanonicalJsonProofs {
  import opened Sequences
  import opened JsonText
  import opened KeySort
  import opened CanonicalJson
  import opened JsonParser

  /** A Python dict never holds a key twice. */
  ghost predicate WellFormed(v: Json) {
    match v
    case List(items) => forall x :: x in items ==> WellFormed(x)
    case Dict(members) => DistinctKeys(members, KeyOf()) && forall m :: m in members ==> WellFormed(m.value)
    case _ => true
  }

  /** Equality of values: dicts are compared by their members, whatever the order of insertion. */
  ghost predicate SameValue(v: Json, w: Json)
    decreases v
  {
    match (v, w)
    case (List(xs), List(ys)) =>
      |xs| == |ys| && forall i :: 0 <= i < |xs| ==> SameValue(xs[i], ys[i])
    case (Dict(ms), Dict(ns)) =>
      (forall m :: m in ms ==> HeldBy(m, ns)) && (forall n :: n in ns ==> HoldsFor(ms, n))
    case _ => v == w
  }

  ghost predicate HeldBy(m: Member, ns: seq<Member>)
    decreases m
  {
    exists n :: n in ns && m.key == n.key && SameValue(m.value, n.value)
  }

  ghost predicate HoldsFor(ms: seq<Member>, n: Member)
    decreases ms
  {
    exists m :: m in ms && m.key == n.key && SameValue(m.value, n.value)
  }

  /** Members and normalised members correspond. */
  lemma NormalizedMember(ms: seq<Member>, x: Member)
    ensures x in Sort(NormalizeMembers(ms), KeyOf()) <==>
      exists m :: m in ms && x == Member(m.key, Normalize(m.value))
  {
    var ns := NormalizeMembers(ms);
    SortMembers(ns, KeyOf(), x);
    if x in ns {
      var i :| 0 <= i < |ns| && ns[i] == x;
      assert ms[i] in ms;
    }
    if m :| m in ms && x == Member(m.key, Normalize(m.value)) {
      var i :| 0 <= i < |ms| && ms[i] == m;
      assert ns[i] == x;
    }
  }

  lemma NormalizedIsStrict(ms: seq<Member>)
    requires DistinctKeys(ms, KeyOf())
    ensures StrictlyOrdered(Sort(NormalizeMembers(ms), KeyOf()), KeyOf())
  {
    var ns := NormalizeMembers(ms);
    forall i, j | 0 <= i < j < |ns| ensures KeyOf()(ns[i]) != KeyOf()(ns[j]) {
      assert KeyOf()(ms[i]) != KeyOf()(ms[j]);
    }
    SortDistinct(ns, KeyOf());
  }

  lemma {:induction false} SameNormalForm(v: Json, w: Json)
    requires WellFormed(v) && WellFormed(w)
    ensures SameValue(v, w) <==> Normalize(v) == Normalize(w)
    decreases v
  {
    match (v, w)
    case (List(xs), List(ys)) =>
      if |xs| == |ys| {
        forall i | 0 <= i < |xs| ensures SameValue(xs[i], ys[i]) <==> Normalize(xs[i]) == Normalize(ys[i]) {
          assert xs[i] in xs && ys[i] in ys;
          SameNormalForm(xs[i], ys[i]);
        }
        if Normalize(v) == Normalize(w) {
          assert forall i :: 0 <= i < |xs| ==> NormalizeItems(xs)[i] == NormalizeItems(ys)[i];
        }
      }
    case (Dict(ms), Dict(ns)) =>
      forall m, n | m in ms && n in ns {
        SameNormalForm(m.value, n.value);
      }
      SameDict(ms, ns);
    case _ =>
  }

  /** Some member of ns has m's key and a value of the same normal form. */
  ghost predicate HasTwin(m: Member, ns: seq<Member>) {
    exists n :: n in ns && m.key == n.key && Normalize(m.value) == Normalize(n.value)
  }

  ghost predicate Included(ms: seq<Member>, ns: seq<Member>) {
    forall m :: m in ms ==> HasTwin(m, ns)
  }

  /** On these members, equality of values is equality of normal forms. */
  ghost predicate ValuesAgree(ms: seq<Member>, ns: seq<Member>) {
    forall m, n :: m in ms && n in ns ==>
      (SameValue(m.value, n.value) <==> Normalize(m.value) == Normalize(n.value))
  }

  lemma HeldByIffTwin(m: Member, ms: seq<Member>, ns: seq<Member>)
    requires m in ms && ValuesAgree(ms, ns)
    ensures HeldBy(m, ns) <==> HasTwin(m, ns)
  {
    if HeldBy(m, ns) {
      var n :| n in ns && m.key == n.key && SameValue(m.value, n.value);
    }
  }

  lemma HoldsForIffTwin(n: Member, ms: seq<Member>, ns: seq<Member>)
    requires n in ns && ValuesAgree(ms, ns)
    ensures HoldsFor(ms, n) <==> HasTwin(n, ms)
  {
    if HoldsFor(ms, n) {
      var m :| m in ms && m.key == n.key && SameValue(m.value, n.value);
    }
  }

  /** The dict case, given the claim for the members' values. */
  lemma SameDict(ms: seq<Member>, ns: seq<Member>)
    requires DistinctKeys(ms, KeyOf()) && DistinctKeys(ns, KeyOf()) && ValuesAgree(ms, ns)
    ensures SameValue(Dict(ms), Dict(ns)) <==> Normalize(Dict(ms)) == Normalize(Dict(ns))
  {
    hide HeldBy, HoldsFor, HasTwin, NormalizeMembers, Sort;
    forall m | m in ms { HeldByIffTwin(m, ms, ns); }
    forall n | n in ns { HoldsForIffTwin(n, ms, ns); }
    IncludedIffSorts(ms, ns);
  }

  lemma IncludedIffSorts(ms: seq<Member>, ns: seq<Member>)
    requires DistinctKeys(ms, KeyOf()) && DistinctKeys(ns, KeyOf())
    ensures Included(ms, ns) && Included(ns, ms) <==>
      Sort(NormalizeMembers(ms), KeyOf()) == Sort(NormalizeMembers(ns), KeyOf())
  {
    var a, b := Sort(NormalizeMembers(ms), KeyOf()), Sort(NormalizeMembers(ns), KeyOf());
    if Included(ms, ns) && Included(ns, ms) {
      forall x ensures x in a <==> x in b {
        if x in a {
          SortedTwin(ms, ns, x);
        }
        if x in b {
          SortedTwin(ns, ms, x);
        }
      }
      NormalizedIsStrict(ms);
      NormalizedIsStrict(ns);
      OrderedByElements(a, b, KeyOf());
    }
    if a == b {
      SortsIncluded(ms, ns);
      SortsIncluded(ns, ms);
    }
  }

  lemma SortedTwin(ms: seq<Member>, ns: seq<Member>, x: Member)
    requires Included(ms, ns) && x in Sort(NormalizeMembers(ms), KeyOf())
    ensures x in Sort(NormalizeMembers(ns), KeyOf())
  {
    NormalizedMember(ms, x);
    var m :| m in ms && x == Member(m.key, Normalize(m.value));
    assert HasTwin(m, ns);
    var n :| n in ns && m.key == n.key && Normalize(m.value) == Normalize(n.value);
    NormalizedMember(ns, x);
  }

  lemma SortsIncluded(ms: seq<Member>, ns: seq<Member>)
    requires Sort(NormalizeMembers(ms), KeyOf()) == Sort(NormalizeMembers(ns), KeyOf())
    ensures Included(ms, ns)
  {
    forall m | m in ms ensures HasTwin(m, ns) {
      var x := Member(m.key, Normalize(m.value));
      NormalizedMember(ms, x);
      NormalizedMember(ns, x);
    }
  }

  /** The parser recovers the value, members in key order, from its text followed by any delimiter. */
  lemma ParseUndoesCanonical(v: Json, rest: string)
    requires EndsNumber(rest)
    ensures ReadValue(Canonical(v) + rest) == Some(Read(Normalize(v), rest))
  {
    CanonicalPrintsNormalized(v);
    PrintReadsBack(Normalize(v), rest);
  }

  /** Signing inputs agree exactly for equal values: neither insertion order nor anything else shows. */
  lemma CanonicalIffSameValue(v: Json, w: Json)
    requires WellFormed(v) && WellFormed(w)
    ensures Canonical(v) == Canonical(w) <==> SameValue(v, w)
  {
    SameNormalForm(v, w);
    CanonicalPrintsNormalized(v);
    CanonicalPrintsNormalized(w);
    ParseUndoesCanonical(v, "");
    ParseUndoesCanonical(w, "");
  }

  /** No text is the beginning of another: value and remainder are determined by the whole. */
  lemma UniquelyDecodable(v: Json, r: string, w: Json, t: string)
    requires WellFormed(v) && WellFormed(w) && EndsNumber(r) && EndsNumber(t)
    requires Canonical(v) + r == Canonical(w) + t
    ensures SameValue(v, w) && r == t
  {
    ParseUndoesCanonical(v, r);
    ParseUndoesCanonical(w, t);
    SameNormalForm(v, w);
  }

  /** A text is canonical exactly when parsing it leaves nothing over and re-printing gives it back. */
  lemma CanonicalTexts(s: string)
    ensures (exists v :: Canonical(v) == s) <==>
      ReadValue(s).Some? && ReadValue(s).value.rest == "" && Canonical(ReadValue(s).value.value) == s
  {
    if v :| Canonical(v) == s {
      assert s + "" == s;
      ParseUndoesCanonical(v, "");
      CanonicalPrintsNormalized(v);
      CanonicalPrintsNormalized(Normalize(v));
      NormalizeTwice(v);
    }
  }

  // Key order against section 3.2.3 of RFC 8785, which compares UTF-16 code units

  function Units(c: char): seq<nat> {
    if c as int < 0x10000 then [c as int]
    else [0xD800 + (c as int - 0x10000) / 0x400, 0xDC00 + (c as int - 0x10000) % 0x400]
  }

  function Utf16(s: string): seq<nat> {
    if s == [] then [] else Units(s[0]) + Utf16(s[1..])
  }

  predicate UnitsLess(a: seq<nat>, b: seq<nat>) {
    b != [] && (a == [] || a[0] < b[0] || (a[0] == b[0] && UnitsLess(a[1..], b[1..])))
  }

  predicate AboveSurrogates(c: char) {
    0xE000 <= c as int < 0x10000
  }

  predicate Supplementary(c: char) {
    0x10000 <= c as int
  }

  /** The first differing characters straddle the surrogate range. */
  predicate Straddle(a: string, b: string) {
    a != [] && b != [] &&
    if a[0] == b[0] then Straddle(a[1..], b[1..])
    else (AboveSurrogates(a[0]) && Supplementary(b[0])) || (Supplementary(a[0]) && AboveSurrogates(b[0]))
  }

  /** Python's key order is the order of RFC 8785 exactly for keys that do not straddle. */
  lemma {:induction false} OrdersAgreeIff(a: string, b: string)
    ensures UnitsLess(Utf16(a), Utf16(b)) == Less(a, b) <==> !Straddle(a, b)
  {
    if a != [] && b != [] {
      var x, y := Utf16(a[1..]), Utf16(b[1..]);
      if a[0] == b[0] {
        OrdersAgreeIff(a[1..], b[1..]);
        UnitsLessAfter(Units(a[0]), x, y);
      } else {
        assert (Units(a[0]) + x)[0] == Units(a[0])[0];
        assert (Units(b[0]) + y)[0] == Units(b[0])[0];
        if Supplementary(a[0]) && Supplementary(b[0]) {
          SupplementaryOrder(a[0], b[0], x, y);
        }
      }
    }
  }

  /** Two keys that the orders put the other way round. */
  lemma KeysOutOfOrder()
    ensures Less("\U{FF21}", "\U{1F600}") && UnitsLess(Utf16("\U{1F600}"), Utf16("\U{FF21}"))
  {
    assert Utf16("\U{1F600}") == Units('\U{1F600}') + Utf16("") == [0xD83D, 0xDE00];
    assert Utf16("\U{FF21}") == Units('\U{FF21}') + Utf16("") == [0xFF21];
  }

  lemma {:induction false} UnitsLessAfter(u: seq<nat>, x: seq<nat>, y: seq<nat>)
    ensures UnitsLess(u + x, u + y) == UnitsLess(x, y)
  {
    if u == [] {
      assert u + x == x && u + y == y;
    } else {
      assert (u + x)[1..] == u[1..] + x && (u + y)[1..] == u[1..] + y;
      UnitsLessAfter(u[1..], x, y);
    }
  }

  lemma SupplementaryOrder(c: char, d: char, x: seq<nat>, y: seq<nat>)
    requires Supplementary(c) && Supplementary(d) && c != d
    ensures UnitsLess(Units(c) + x, Units(d) + y) == (c < d)
  {
    assert (Units(c) + x)[1..] == [Units(c)[1]] + x;
    assert (Units(d) + y)[1..] == [Units(d)[1]] + y;
  }
}
