/**
 * JSON -> rows: the `iterateObject` walk inside `_getSheetData`
 * (json2excel.js).  A translation tree becomes one row per truthy
 * non-object leaf, keyed `<file>:<dotted.path>`, in depth-first order.
 */
module Flattener {
  import opened Wrappers
  import opened Sequences
  import opened JsonTree
  import Text

  /** The language whose values fill the English column of every other sheet. */
  const BaseLanguage: string := "en"

  /** One spreadsheet row: the Key, English and Translation columns (`None` is a blank cell). */
  datatype Row = Row(key: string, english: Option<Json>, translation: Option<Json>)

  /** `previousKey ? previousKey + '.' + key : key`; an undefined previousKey behaves like "". */
  function Extend(prev: string, key: string): string {
    if prev != "" then prev + "." + key else key
  }

  /** `baseObject && baseObject[key]`: a falsy base passes through unchanged. */
  function BaseMember(base: Option<Json>, key: string): Option<Json> {
    match base
    case None => None
    case Some(b) =>
      if !Truthy(b) then base
      else if b.JObj? then Get(b.members, key)
      else None
  }

  /** `iterateObject(baseObject, object, previousKey)`: the rows for one object, in member order. */
  function Walk(base: Option<Json>, o: Obj, prev: string, file: string, isEn: bool): seq<Row>
    decreases o
  {
    if o == [] then []
    else
      var key := o[0].key;
      var obj := o[0].value;
      var baseObj := BaseMember(base, key);
      var here :=
        if !Truthy(obj) then []
        else if obj.JObj? then Walk(baseObj, obj.members, Extend(prev, key), file, isEn)
        else
          // previousKeyBridge + key is Extend(prev, key)
          var keyData := file + ":" + Extend(prev, key);
          if isEn then [Row(keyData, Some(obj), None)]
          else [Row(keyData, baseObj, Some(obj))];
      here + Walk(base, o[1..], prev, file, isEn)
  }

  /**
   * `_getSheetData(file, jsonFile, sheetName)` after the file is read and parsed:
   * `json` is the parsed file, `baseEn` the base-language tree for the same
   * logical file (the source's BASE_EN_OBJ, passed explicitly here).
   */
  function SheetRows(json: Obj, jsonFile: string, sheetName: string, baseEn: Option<Obj>): seq<Row> {
    var isEn := sheetName == BaseLanguage;
    var base := if isEn then Some(JObj(json)) else if baseEn.Some? then Some(JObj(baseEn.value)) else None;
    Walk(base, json, "", Text.JsonBasename(jsonFile), isEn)
  }

  // ---------------------------------------------------------------------------
  // Reference description: the leaves of a tree, the path text, the base lookup

  /** A truthy non-object value together with the property path leading to it. */
  datatype Leaf = Leaf(path: seq<string>, value: Json)

  /** Prefix every leaf path with `k`. */
  function Under(k: string, ls: seq<Leaf>): (r: seq<Leaf>)
    ensures |r| == |ls|
  {
    seq(|ls|, i requires 0 <= i < |ls| => Leaf([k] + ls[i].path, ls[i].value))
  }

  /** The truthy non-object leaves of a tree, depth first, members in order. */
  function Leaves(o: Obj): seq<Leaf>
    decreases o
  {
    if o == [] then []
    else
      var m := o[0];
      var here :=
        if !Truthy(m.value) then []
        else if m.value.JObj? then Under(m.key, Leaves(m.value.members))
        else [Leaf([m.key], m.value)];
      here + Leaves(o[1..])
  }

  /** The key text built for a path: segments joined by `.` as Extend joins them. */
  function DotPath(p: seq<string>): string
    decreases |p|
  {
    if p == [] then "" else Extend(DotPath(p[..|p| - 1]), p[|p| - 1])
  }

  /** The chained `baseObject && baseObject[key]` lookups along a whole path. */
  function BaseAt(base: Option<Json>, p: seq<string>): Option<Json>
    decreases |p|
  {
    if p == [] then base else BaseAt(BaseMember(base, p[0]), p[1..])
  }

  /** The row the flattener emits for one leaf found below path `prefix`. */
  function RowFor(l: Leaf, prefix: seq<string>, base: Option<Json>, file: string, isEn: bool): Row {
    var key := file + ":" + DotPath(prefix + l.path);
    if isEn then Row(key, Some(l.value), None)
    else Row(key, BaseAt(base, l.path), Some(l.value))
  }

  function RowsFor(ls: seq<Leaf>, prefix: seq<string>, base: Option<Json>, file: string, isEn: bool): (r: seq<Row>)
    ensures |r| == |ls|
  {
    seq(|ls|, i requires 0 <= i < |ls| => RowFor(ls[i], prefix, base, file, isEn))
  }

  lemma RowsForConcat(a: seq<Leaf>, b: seq<Leaf>, prefix: seq<string>, base: Option<Json>, file: string, isEn: bool)
    ensures RowsFor(a + b, prefix, base, file, isEn) == RowsFor(a, prefix, base, file, isEn) + RowsFor(b, prefix, base, file, isEn)
  {
    var l := RowsFor(a + b, prefix, base, file, isEn);
    var r := RowsFor(a, prefix, base, file, isEn) + RowsFor(b, prefix, base, file, isEn);
    assert |l| == |r|;
    forall i | 0 <= i < |l| ensures l[i] == r[i] {
      if i < |a| { assert (a + b)[i] == a[i]; } else { assert (a + b)[i] == b[i - |a|]; }
    }
  }

  /** The rows of a subtree, built with the extended prefix, are the rows of its leaves re-rooted. */
  lemma RowsForUnder(ls: seq<Leaf>, k: string, prefix: seq<string>, base: Option<Json>, file: string, isEn: bool)
    ensures RowsFor(ls, prefix + [k], BaseMember(base, k), file, isEn) == RowsFor(Under(k, ls), prefix, base, file, isEn)
  {
    var l := RowsFor(ls, prefix + [k], BaseMember(base, k), file, isEn);
    var r := RowsFor(Under(k, ls), prefix, base, file, isEn);
    forall i | 0 <= i < |ls| ensures l[i] == r[i] {
      var q := ls[i].path;
      assert (prefix + [k]) + q == prefix + ([k] + q);
      assert ([k] + q)[1..] == q;
    }
  }

  /** The leaves of an object are the leaves of its first member followed by those of the rest. */
  lemma LeavesCons(o: Obj)
    requires o != []
    ensures Leaves(o) == Leaves([o[0]]) + Leaves(o[1..])
  {
    assert [o[0]][0] == o[0] && [o[0]][1..] == [];
  }

  /** One member's rows, given the rows of its subtree when it is an object. */
  lemma WalkMember(base: Option<Json>, m: Member, prefix: seq<string>, file: string, isEn: bool)
    requires m.value.JObj? ==>
      Walk(BaseMember(base, m.key), m.value.members, DotPath(prefix + [m.key]), file, isEn)
      == RowsFor(Leaves(m.value.members), prefix + [m.key], BaseMember(base, m.key), file, isEn)
    ensures Walk(base, [m], DotPath(prefix), file, isEn) == RowsFor(Leaves([m]), prefix, base, file, isEn)
  {
    assert (prefix + [m.key])[..|prefix|] == prefix;
    assert DotPath(prefix + [m.key]) == Extend(DotPath(prefix), m.key);
    assert [m][0] == m && [m][1..] == [];
    if Truthy(m.value) && m.value.JObj? {
      RowsForUnder(Leaves(m.value.members), m.key, prefix, base, file, isEn);
    } else if Truthy(m.value) {
      assert [m.key][1..] == [];
      assert BaseAt(base, [m.key]) == BaseMember(base, m.key);
      assert RowsFor([Leaf([m.key], m.value)], prefix, base, file, isEn) == [RowFor(Leaf([m.key], m.value), prefix, base, file, isEn)];
    }
  }

  /**
   * The walk emits exactly the rows of the tree's leaves, in depth-first
   * order; each key carries the full dotted path and, on a non-base sheet,
   * the English column holds the base lookup along that same path.
   */
  lemma {:induction false} WalkRows(base: Option<Json>, o: Obj, prefix: seq<string>, file: string, isEn: bool)
    ensures Walk(base, o, DotPath(prefix), file, isEn) == RowsFor(Leaves(o), prefix, base, file, isEn)
    decreases o
  {
    if o != [] {
      var m := o[0];
      if m.value.JObj? {
        WalkRows(BaseMember(base, m.key), m.value.members, prefix + [m.key], file, isEn);
      }
      WalkMember(base, m, prefix, file, isEn);
      WalkRows(base, o[1..], prefix, file, isEn);
      WalkCons(base, o, DotPath(prefix), file, isEn);
      LeavesCons(o);
      RowsForConcat(Leaves([m]), Leaves(o[1..]), prefix, base, file, isEn);
    }
  }

  /**
   * One row per truthy leaf of the sheet's tree, in depth-first order: the key
   * is the file name without `.json`, a colon and the dotted path; the base
   * sheet carries the value as English and no Translation; any other sheet
   * carries the value as Translation and the base tree's lookup along the
   * same path as English.
   */
  lemma SheetRowsSpec(json: Obj, jsonFile: string, sheetName: string, baseEn: Option<Obj>)
    ensures var rows := SheetRows(json, jsonFile, sheetName, baseEn);
            var ls := Leaves(json);
            var file := Text.JsonBasename(jsonFile);
            var base := if baseEn.Some? then Some(JObj(baseEn.value)) else None;
            && |rows| == |ls|
            && forall i :: 0 <= i < |rows| ==>
                 && rows[i].key == file + ":" + DotPath(ls[i].path)
                 && (sheetName == BaseLanguage ==> rows[i].english == Some(ls[i].value) && rows[i].translation == None)
                 && (sheetName != BaseLanguage ==> rows[i].english == BaseAt(base, ls[i].path) && rows[i].translation == Some(ls[i].value))
  {
    var isEn := sheetName == BaseLanguage;
    var base := if isEn then Some(JObj(json)) else if baseEn.Some? then Some(JObj(baseEn.value)) else None;
    var file := Text.JsonBasename(jsonFile);
    var rows := SheetRows(json, jsonFile, sheetName, baseEn);
    var ls := Leaves(json);
    WalkRows(base, json, [], file, isEn);
    assert rows == RowsFor(ls, [], base, file, isEn);
    forall i | 0 <= i < |rows|
      ensures rows[i] == RowFor(ls[i], [], base, file, isEn) && [] + ls[i].path == ls[i].path
    {
    }
  }

  // ---------------------------------------------------------------------------
  // What the leaves are

  lemma UnderMember(k: string, ls: seq<Leaf>, p: seq<string>, v: Json)
    ensures Leaf(p, v) in Under(k, ls) ==> |p| >= 1 && p[0] == k
    ensures Leaf([k] + p, v) in Under(k, ls) <==> Leaf(p, v) in ls
  {
    var u := Under(k, ls);
    if Leaf(p, v) in u {
      var i :| 0 <= i < |u| && u[i] == Leaf(p, v);
    }
    if Leaf([k] + p, v) in u {
      var i :| 0 <= i < |u| && u[i] == Leaf([k] + p, v);
      assert ([k] + ls[i].path)[1..] == ls[i].path;
      assert ([k] + p)[1..] == p;
      assert ls[i] == Leaf(p, v);
    }
    if Leaf(p, v) in ls {
      var i :| 0 <= i < |ls| && ls[i] == Leaf(p, v);
      assert u[i] == Leaf([k] + p, v);
    }
  }

  lemma WellFormedTail(o: Obj)
    requires o != [] && WellFormed(o)
    ensures WellFormed(o[1..])
    ensures o[0].key !in Keys(o[1..])
    ensures o[0].value.JObj? ==> WellFormed(o[0].value.members)
  {
    assert Keys(o) == [o[0].key] + Keys(o[1..]);
    DistinctCons(o[0].key, Keys(o[1..]));
    forall m | m in o[1..] ensures m in o { }
    assert o[0] in o;
  }

  /** Every leaf path starts with one of the object's own keys. */
  lemma {:induction false} LeafHeads(o: Obj, l: Leaf)
    requires l in Leaves(o)
    ensures |l.path| >= 1 && l.path[0] in Keys(o)
    decreases o
  {
    var m := o[0];
    assert Keys(o) == [m.key] + Keys(o[1..]);
    var here :=
      if !Truthy(m.value) then []
      else if m.value.JObj? then Under(m.key, Leaves(m.value.members))
      else [Leaf([m.key], m.value)];
    if l in here {
      if m.value.JObj? {
        UnderMember(m.key, Leaves(m.value.members), l.path, l.value);
      }
    } else {
      assert l in Leaves(o[1..]);
      LeafHeads(o[1..], l);
    }
  }

  /**
   * A path and value form a leaf exactly when the path leads to that value in
   * the tree and the value is truthy and not an object: one row per truthy
   * leaf, none for falsy values or anything beneath them.
   */
  lemma {:induction false} LeavesExact(o: Obj, p: seq<string>, v: Json)
    requires WellFormed(o)
    ensures Leaf(p, v) in Leaves(o) <==> p != [] && Resolve(o, p) == Found(v) && Truthy(v) && !v.JObj?
    decreases o
  {
    if Leaf(p, v) in Leaves(o) {
      LeafHeads(o, Leaf(p, v));
    }
    if o != [] && p != [] {
      var m := o[0];
      var k, q := p[0], p[1..];
      assert p == [k] + q;
      WellFormedTail(o);
      var here :=
        if !Truthy(m.value) then []
        else if m.value.JObj? then Under(m.key, Leaves(m.value.members))
        else [Leaf([m.key], m.value)];
      assert Leaves(o) == here + Leaves(o[1..]);
      if m.key == k {
        if Leaf(p, v) in Leaves(o[1..]) {
          LeafHeads(o[1..], Leaf(p, v));
        }
        assert Get(o, k) == Some(m.value);
        if Truthy(m.value) && m.value.JObj? {
          var c := m.value.members;
          assert Resolve(o, p) == if q == [] then Found(m.value) else Resolve(c, q);
          UnderMember(k, Leaves(c), q, v);
          LeavesExact(c, q, v);
          if Leaf(q, v) in Leaves(c) { LeafHeads(c, Leaf(q, v)); }
          assert Leaf(p, v) in here <==> Leaf(q, v) in Leaves(c);
          assert Leaf(p, v) !in Leaves(o[1..]);
          assert Leaf(p, v) in Leaves(o) <==> Leaf(q, v) in Leaves(c);
          assert (q != [] && Resolve(c, q) == Found(v) && Truthy(v) && !v.JObj?) <==> (p != [] && Resolve(o, p) == Found(v) && Truthy(v) && !v.JObj?);
        } else {
          assert Resolve(o, p) == if q == [] then Found(m.value) else Stuck(m.value);
          assert Leaf(p, v) !in Leaves(o[1..]);
          assert Leaf(p, v) in Leaves(o) <==> Leaf(p, v) in here;
          if Truthy(m.value) {
            assert here == [Leaf([k], m.value)];
            assert (p == [k]) == (q == []);
          } else {
            assert here == [];
          }
        }
      } else {
        if Leaf(p, v) in here && m.value.JObj? {
          UnderMember(m.key, Leaves(m.value.members), p, v);
        }
        LeavesExact(o[1..], p, v);
      }
    }
  }

  /** No two leaves of the sequence share a path. */
  predicate DistinctPaths(ls: seq<Leaf>) {
    forall i, j :: 0 <= i < j < |ls| ==> ls[i].path != ls[j].path
  }

  /** Two sequences of leaves with distinct paths, none shared between them, join into one. */
  lemma DistinctPathsConcat(a: seq<Leaf>, b: seq<Leaf>)
    requires DistinctPaths(a) && DistinctPaths(b)
    requires forall i, j :: 0 <= i < |a| && 0 <= j < |b| ==> a[i].path != b[j].path
    ensures DistinctPaths(a + b)
  {
    var ls := a + b;
    forall i, j | 0 <= i < j < |ls| ensures ls[i].path != ls[j].path {
      if j < |a| {
        assert ls[i] == a[i] && ls[j] == a[j];
      } else if i < |a| {
        assert ls[i] == a[i] && ls[j] == b[j - |a|];
      } else {
        assert ls[i] == b[i - |a|] && ls[j] == b[j - |a|];
      }
    }
  }

  /** Re-rooting leaves under one key keeps their paths apart. */
  lemma DistinctPathsUnder(k: string, ls: seq<Leaf>)
    requires DistinctPaths(ls)
    ensures DistinctPaths(Under(k, ls))
  {
    var u := Under(k, ls);
    forall i, j | 0 <= i < j < |u| ensures u[i].path != u[j].path {
      assert u[i].path[1..] == ls[i].path;
      assert u[j].path[1..] == ls[j].path;
    }
  }

  /** Every leaf of a single member starts with that member's key. */
  lemma MemberLeafHeads(m: Member, l: Leaf)
    requires l in Leaves([m])
    ensures |l.path| >= 1 && l.path[0] == m.key
  {
    LeafHeads([m], l);
    assert Keys([m]) == [m.key] + Keys([m][1..]);
  }

  /** No two leaves share a path, so no two rows of a sheet share a key. */
  lemma {:induction false} LeavesDistinctPaths(o: Obj)
    requires WellFormed(o)
    ensures DistinctPaths(Leaves(o))
    decreases o
  {
    if o != [] {
      var m := o[0];
      WellFormedTail(o);
      LeavesDistinctPaths(o[1..]);
      var here := Leaves([m]);
      var rest := Leaves(o[1..]);
      LeavesCons(o);
      assert [m][0] == m && [m][1..] == [];
      if Truthy(m.value) && m.value.JObj? {
        LeavesDistinctPaths(m.value.members);
        DistinctPathsUnder(m.key, Leaves(m.value.members));
      }
      forall i, j | 0 <= i < |here| && 0 <= j < |rest| ensures here[i].path != rest[j].path {
        MemberLeafHeads(m, here[i]);
        LeafHeads(o[1..], rest[j]);
      }
      DistinctPathsConcat(here, rest);
    }
  }

  // ---------------------------------------------------------------------------
  // The English column of a non-base sheet

  lemma {:induction false} BaseAtUndefined(p: seq<string>)
    ensures BaseAt(None, p) == None
    decreases |p|
  {
    if p != [] { BaseAtUndefined(p[1..]); }
  }

  lemma {:induction false} BaseAtFalsy(x: Json, p: seq<string>)
    requires !Truthy(x)
    ensures BaseAt(Some(x), p) == Some(x)
    decreases |p|
  {
    if p != [] { BaseAtFalsy(x, p[1..]); }
  }

  /**
   * English on a non-base sheet is the base tree's value at the leaf's path
   * when the base has one, and blank when the base lacks a property on the
   * way; a falsy value met on the way is what ends up in the column.
   */
  lemma {:induction false} BaseAtResolve(b: Obj, p: seq<string>)
    requires p != []
    ensures Resolve(b, p).Found? ==> BaseAt(Some(JObj(b)), p) == Some(Resolve(b, p).value)
    ensures Resolve(b, p).Absent? ==> BaseAt(Some(JObj(b)), p) == None
    ensures Resolve(b, p).Stuck? && !Truthy(Resolve(b, p).at) ==> BaseAt(Some(JObj(b)), p) == Some(Resolve(b, p).at)
    decreases |p|
  {
    var k, q := p[0], p[1..];
    assert BaseAt(Some(JObj(b)), p) == BaseAt(Get(b, k), q);
    match Get(b, k)
    case None => BaseAtUndefined(q);
    case Some(v) =>
      if q != [] {
        if v.JObj? {
          BaseAtResolve(v.members, q);
        } else if !Truthy(v) {
          BaseAtFalsy(v, q);
        }
      }
  }

  // ---------------------------------------------------------------------------
  // Order: a subtree's rows are contiguous, at its parent's position

  lemma {:induction false} WalkConcat(base: Option<Json>, o1: Obj, o2: Obj, prev: string, file: string, isEn: bool)
    ensures Walk(base, o1 + o2, prev, file, isEn) == Walk(base, o1, prev, file, isEn) + Walk(base, o2, prev, file, isEn)
    decreases |o1|
  {
    if o1 == [] {
      assert o1 + o2 == o2;
    } else {
      assert (o1 + o2)[0] == o1[0];
      assert (o1 + o2)[1..] == o1[1..] + o2;
      WalkCons(base, o1, prev, file, isEn);
      WalkCons(base, o1 + o2, prev, file, isEn);
      WalkConcat(base, o1[1..], o2, prev, file, isEn);
      ConcatAssoc(Walk(base, [o1[0]], prev, file, isEn), Walk(base, o1[1..], prev, file, isEn), Walk(base, o2, prev, file, isEn));
    }
  }

  /** The walk of an object is the walk of its first member followed by the walk of the rest. */
  lemma {:induction false} WalkCons(base: Option<Json>, o: Obj, prev: string, file: string, isEn: bool)
    requires o != []
    ensures Walk(base, o, prev, file, isEn) == Walk(base, [o[0]], prev, file, isEn) + Walk(base, o[1..], prev, file, isEn)
  {
    assert [o[0]][0] == o[0] && [o[0]][1..] == [];
  }

  /**
   * The rows of an object member sit between the rows of the members before
   * and after it, and are the rows of its own subtree under the extended key.
   */
  lemma SubtreeContiguous(base: Option<Json>, o1: Obj, k: string, c: Obj, o2: Obj, prev: string, file: string, isEn: bool)
    ensures Walk(base, o1 + [Member(k, JObj(c))] + o2, prev, file, isEn)
         == Walk(base, o1, prev, file, isEn)
          + Walk(BaseMember(base, k), c, Extend(prev, k), file, isEn)
          + Walk(base, o2, prev, file, isEn)
  {
    var m := [Member(k, JObj(c))];
    WalkConcat(base, o1 + m, o2, prev, file, isEn);
    WalkConcat(base, o1, m, prev, file, isEn);
    assert m[1..] == [];
  }

  // ---------------------------------------------------------------------------
  // The key text

  /** With a non-empty first segment, the key path is the plain dot-join of the segments. */
  lemma {:induction false} DotPathJoin(p: seq<string>)
    requires p != [] && p[0] != ""
    ensures DotPath(p) == Text.Join(p, '.')
    ensures DotPath(p) != ""
    decreases |p|
  {
    var init := p[..|p| - 1];
    if |p| == 1 {
      assert init == [];
    } else {
      assert init[0] == p[0];
      DotPathJoin(init);
      assert init + [p[|p| - 1]] == p;
      Text.JoinSnoc(init, p[|p| - 1], '.');
    }
  }

  /** The rows of `{"b": "hello", "c": ""}` below `a` on a base sheet: the empty value yields none. */
  lemma GreetInner(base: Option<Json>)
    ensures Walk(base, [Member("b", JStr("hello")), Member("c", JStr(""))], "a", "greet", true)
         == [Row("greet:a.b", Some(JStr("hello")), None)]
  {
    var inner := [Member("b", JStr("hello")), Member("c", JStr(""))];
    assert Walk(BaseMember(base, "c"), inner[1..][1..], "a", "greet", true) == [];
    assert Walk(base, inner[1..], "a", "greet", true) == [];
    assert Extend("a", "b") == "a.b";
    assert "greet" + ":" + "a.b" == "greet:a.b";
  }

  lemma GreetTail(base: Option<Json>)
    ensures Walk(base, [Member("d", JStr("world"))], "", "greet", true) == [Row("greet:d", Some(JStr("world")), None)]
  {
    assert [Member("d", JStr("world"))][1..] == [];
    assert Extend("", "d") == "d";
    assert "greet" + ":" + "d" == "greet:d";
  }

  lemma GreetFile()
    ensures Text.JsonBasename("greet.json") == "greet"
  {
    assert "greet.json" == "greet" + ".json";
    Text.BasenameStrips("greet", ".json");
  }

  /** A base sheet with an empty value: the empty leaf yields no row. */
  lemma GreetExample()
    ensures SheetRows([Member("a", JObj([Member("b", JStr("hello")), Member("c", JStr(""))])), Member("d", JStr("world"))],
                      "greet.json", "en", None)
         == [Row("greet:a.b", Some(JStr("hello")), None), Row("greet:d", Some(JStr("world")), None)]
  {
    var inner := [Member("b", JStr("hello")), Member("c", JStr(""))];
    var json := [Member("a", JObj(inner)), Member("d", JStr("world"))];
    var base := Some(JObj(json));
    GreetFile();
    assert Extend("", "a") == "a";
    GreetInner(BaseMember(base, "a"));
    assert json[1..] == [Member("d", JStr("world"))];
    GreetTail(base);
  }
}
