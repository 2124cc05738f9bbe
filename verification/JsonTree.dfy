/** JSON trees addressed by key paths: reading, writing in place, and the laws that tie the two. */
module JsonTree {
  import opened Sequences

  /** A parsed JSON value; dicts compare as maps, as in Python. */
  datatype Tree =
    | Null
    | Bool(b: bool)
    | Number(n: int)
    | Str(s: string)
    | List(items: seq<Tree>)
    | Dict(entries: map<string, Tree>)

  function Get(t: Tree, p: seq<string>): Option<Tree> {
    if p == [] then Some(t)
    else if t.Dict? && p[0] in t.entries then Get(t.entries[p[0]], p[1..])
    else None
  }

  function EntriesOf(t: Tree): map<string, Tree> {
    if t.Dict? then t.entries else map[]
  }

  function Child(t: Tree, key: string): Tree {
    if key in EntriesOf(t) then EntriesOf(t)[key] else Null
  }

  /** t with v at p; nodes on the way that are missing or not dicts become dicts. */
  function Put(t: Tree, p: seq<string>, v: Tree): Tree
    decreases |p|
  {
    if p == [] then v
    else Dict(EntriesOf(t)[p[0] := Put(Child(t, p[0]), p[1..], v)])
  }

  predicate Comparable(p: seq<string>, q: seq<string>) {
    p <= q || q <= p
  }

  /** Paths that part ways at some key. */
  predicate Apart(p: seq<string>, q: seq<string>) {
    p != [] && q != [] && (p[0] != q[0] || Apart(p[1..], q[1..]))
  }

  lemma {:induction false} ApartIffIncomparable(p: seq<string>, q: seq<string>)
    ensures Apart(p, q) <==> !Comparable(p, q)
  {
    if p != [] && q != [] {
      ApartIffIncomparable(p[1..], q[1..]);
      assert p == [p[0]] + p[1..] && q == [q[0]] + q[1..];
      if p[0] == q[0] {
        assert p <= q <==> p[1..] <= q[1..];
        assert q <= p <==> q[1..] <= p[1..];
      }
    }
  }

  lemma {:induction false} GetPut(t: Tree, p: seq<string>, v: Tree)
    ensures Get(Put(t, p, v), p) == Some(v)
    decreases |p|
  {
    if p != [] {
      GetPut(Child(t, p[0]), p[1..], v);
    }
  }

  lemma {:induction false} PutGet(t: Tree, p: seq<string>, v: Tree)
    requires Get(t, p) == Some(v)
    ensures Put(t, p, v) == t
  {
    if p != [] {
      PutGet(t.entries[p[0]], p[1..], v);
      assert t.entries[p[0] := t.entries[p[0]]] == t.entries;
    }
  }

  lemma {:induction false} PutPut(t: Tree, p: seq<string>, v: Tree, w: Tree)
    ensures Put(Put(t, p, v), p, w) == Put(t, p, w)
    decreases |p|
  {
    if p != [] {
      PutPut(Child(t, p[0]), p[1..], v, w);
      var m := EntriesOf(t);
      var a, b := Put(Child(t, p[0]), p[1..], v), Put(Child(t, p[0]), p[1..], w);
      assert m[p[0] := a][p[0] := b] == m[p[0] := b];
    }
  }

  /** Writing at p leaves every path apart from p as it was, absent ones included. */
  lemma {:induction false} PutElsewhere(t: Tree, p: seq<string>, v: Tree, q: seq<string>)
    requires Apart(p, q)
    ensures Get(Put(t, p, v), q) == Get(t, q)
    decreases |p|
  {
    if p[0] == q[0] {
      PutElsewhere(Child(t, p[0]), p[1..], v, q[1..]);
    }
  }

  lemma {:induction false} PutCommutes(t: Tree, p: seq<string>, v: Tree, q: seq<string>, w: Tree)
    requires Apart(p, q)
    ensures Put(Put(t, p, v), q, w) == Put(Put(t, q, w), p, v)
    decreases |p|
  {
    if p[0] == q[0] {
      var c := Child(t, p[0]);
      PutCommutes(c, p[1..], v, q[1..], w);
      PutBelow(t, p, v, q, w);
      PutBelow(t, q, w, p, v);
    } else {
      PutBeside(t, p, v, q, w);
    }
  }

  lemma PutBelow(t: Tree, p: seq<string>, v: Tree, q: seq<string>, w: Tree)
    requires p != [] && q != [] && p[0] == q[0]
    ensures Put(Put(t, p, v), q, w) ==
            Dict(EntriesOf(t)[p[0] := Put(Put(Child(t, p[0]), p[1..], v), q[1..], w)])
  {
    var m, a := EntriesOf(t), Put(Child(t, p[0]), p[1..], v);
    var b := Put(a, q[1..], w);
    assert Put(t, p, v) == Dict(m[p[0] := a]);
    assert Child(Put(t, p, v), q[0]) == a;
    assert m[p[0] := a][p[0] := b] == m[p[0] := b];
  }

  lemma PutBeside(t: Tree, p: seq<string>, v: Tree, q: seq<string>, w: Tree)
    requires p != [] && q != [] && p[0] != q[0]
    ensures Put(Put(t, p, v), q, w) == Put(Put(t, q, w), p, v)
  {
    var m, a, b := EntriesOf(t), Put(Child(t, p[0]), p[1..], v), Put(Child(t, q[0]), q[1..], w);
    PutTwoKeys(t, p, v, q, w);
    PutTwoKeys(t, q, w, p, v);
    hide Put;
    assert m[p[0] := a][q[0] := b] == m[q[0] := b][p[0] := a];
  }

  lemma PutTwoKeys(t: Tree, p: seq<string>, v: Tree, q: seq<string>, w: Tree)
    requires p != [] && q != [] && p[0] != q[0]
    ensures Put(Put(t, p, v), q, w) == Dict(EntriesOf(t)
      [p[0] := Put(Child(t, p[0]), p[1..], v)][q[0] := Put(Child(t, q[0]), q[1..], w)])
  {
    var s := Put(t, p, v);
    assert s == Dict(EntriesOf(t)[p[0] := Put(Child(t, p[0]), p[1..], v)]);
    assert Child(s, q[0]) == Child(t, q[0]);
  }

  lemma {:induction false} ApartIsSymmetric(p: seq<string>, q: seq<string>)
    requires Apart(p, q)
    ensures Apart(q, p)
  {
    if p[0] == q[0] {
      ApartIsSymmetric(p[1..], q[1..]);
    }
  }

  // Sequences of writes

  datatype Write = Write(path: seq<string>, value: Tree)

  function PutAll(t: Tree, ws: seq<Write>): Tree
    decreases |ws|
  {
    if ws == [] then t else PutAll(Put(t, ws[0].path, ws[0].value), ws[1..])
  }

  lemma {:induction false} PutAllConcat(t: Tree, vs: seq<Write>, ws: seq<Write>)
    ensures PutAll(t, vs + ws) == PutAll(PutAll(t, vs), ws)
    decreases |vs|
  {
    if vs == [] {
      assert vs + ws == ws;
    } else {
      assert (vs + ws)[1..] == vs[1..] + ws;
      PutAllConcat(Put(t, vs[0].path, vs[0].value), vs[1..], ws);
    }
  }

  /** Any two writes go to one path or to paths that are apart. */
  ghost predicate Separated(ws: seq<Write>) {
    forall v, w :: v in ws && w in ws ==> v.path == w.path || Apart(v.path, w.path)
  }

  lemma {:induction false} PutAllElsewhere(t: Tree, ws: seq<Write>, q: seq<string>)
    requires forall w :: w in ws ==> Apart(w.path, q)
    ensures Get(PutAll(t, ws), q) == Get(t, q)
    decreases |ws|
  {
    if ws != [] {
      PutElsewhere(t, ws[0].path, ws[0].value, q);
      PutAllElsewhere(Put(t, ws[0].path, ws[0].value), ws[1..], q);
    }
  }

  /** The last write to a path is the one that stands. */
  lemma LastWriteStands(t: Tree, before: seq<Write>, w: Write, after: seq<Write>)
    requires forall x :: x in after ==> Apart(x.path, w.path)
    ensures Get(PutAll(t, before + [w] + after), w.path) == Some(w.value)
  {
    PutAllConcat(t, before + [w], after);
    PutAllConcat(t, before, [w]);
    assert PutAll(PutAll(t, before), [w]) == Put(PutAll(t, before), w.path, w.value);
    GetPut(PutAll(t, before), w.path, w.value);
    PutAllElsewhere(PutAll(t, before + [w]), after, w.path);
  }

  /** Writes that put nothing new change nothing. */
  lemma {:induction false} SettledWrites(t: Tree, ws: seq<Write>)
    requires forall w :: w in ws ==> Get(t, w.path) == Some(w.value)
    ensures PutAll(t, ws) == t
  {
    if ws != [] {
      PutGet(t, ws[0].path, ws[0].value);
      SettledWrites(t, ws[1..]);
    }
  }

  /** A write does not show through a later write to the same path. */
  lemma {:induction false} Absorbed(t: Tree, v: Write, ws: seq<Write>)
    requires forall w :: w in ws ==> w.path == v.path || Apart(w.path, v.path)
    requires exists w :: w in ws && w.path == v.path
    ensures PutAll(Put(t, v.path, v.value), ws) == PutAll(t, ws)
    decreases |ws|
  {
    var w := ws[0];
    if w.path == v.path {
      PutPut(t, v.path, v.value, w.value);
    } else {
      ApartIsSymmetric(w.path, v.path);
      PutCommutes(t, v.path, v.value, w.path, w.value);
      Absorbed(Put(t, w.path, w.value), v, ws[1..]);
    }
  }

  lemma {:induction false} AllAbsorbed(t: Tree, vs: seq<Write>, ws: seq<Write>)
    requires forall v, w :: v in vs && w in ws ==> w.path == v.path || Apart(w.path, v.path)
    requires forall v :: v in vs ==> exists w :: w in ws && w.path == v.path
    ensures PutAll(PutAll(t, vs), ws) == PutAll(t, ws)
    decreases |vs|
  {
    if vs != [] {
      AllAbsorbed(Put(t, vs[0].path, vs[0].value), vs[1..], ws);
      assert vs[0] in vs;
      Absorbed(t, vs[0], ws);
    }
  }

  /** Writing a separated batch a second time changes nothing, whatever it overwrote of its own. */
  lemma BatchIsIdempotent(t: Tree, ws: seq<Write>)
    requires Separated(ws)
    ensures PutAll(PutAll(t, ws), ws) == PutAll(t, ws)
  {
    AllAbsorbed(t, ws, ws);
  }
}
