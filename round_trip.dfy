/**
 * json2excel.js followed by excel2json.js: the base-language rows of a tree,
 * written back into an empty tree, rebuild the tree exactly, provided
 * nothing in it is lost on the way out (falsy values and empty objects
 * produce no row) and no property name collides with the key syntax.
 */
module RoundTrip {
  import opened Wrappers
  import opened Sequences
  import opened JsonTree
  import opened Flattener
  import opened Unflattener
  import Reconcile
  import Text

  /**
   * A tree every part of which reaches the sheet: each property name is a
   * non-empty segment without `.` or `:`, each value is truthy, and each
   * nested object has at least one property.
   */
  predicate Plain(o: Obj)
    decreases o
  {
    forall m :: m in o ==>
      && SafeSegment(m.key)
      && Truthy(m.value)
      && (m.value.JObj? ==> m.value.members != [] && Plain(m.value.members))
  }

  /** Write every leaf's value at its path, in order. */
  function ApplyLeaves(o: Obj, ls: seq<Leaf>): Obj
    decreases |ls|
  {
    if ls == [] then o else ApplyLeaves(SetPath(o, ls[0].path, ls[0].value), ls[1..])
  }

  lemma {:induction false} ApplyLeavesConcat(o: Obj, a: seq<Leaf>, b: seq<Leaf>)
    ensures ApplyLeaves(o, a + b) == ApplyLeaves(ApplyLeaves(o, a), b)
    decreases |a|
  {
    if a == [] {
      assert a + b == b;
    } else {
      assert (a + b)[0] == a[0] && (a + b)[1..] == a[1..] + b;
      ApplyLeavesConcat(SetPath(o, a[0].path, a[0].value), a[1..], b);
    }
  }

  lemma ApplyLeavesOne(o: Obj, l: Leaf)
    ensures ApplyLeaves(o, [l]) == SetPath(o, l.path, l.value)
  {
    assert [l][1..] == [];
  }

  lemma UnderCons(k: string, ls: seq<Leaf>)
    requires ls != []
    ensures Under(k, ls)[0] == Leaf([k] + ls[0].path, ls[0].value)
    ensures Under(k, ls)[1..] == Under(k, ls[1..])
  {
  }

  /** A write below `k` where `k` holds an object goes into that object. */
  lemma SetPathInto(acc: Obj, k: string, x: Obj, q: seq<string>, v: Json)
    requires q != [] && (Get(acc, k) == Some(JObj(x)) || (Get(acc, k) == None && x == []))
    ensures SetPath(acc, [k] + q, v) == Put(acc, k, JObj(SetPath(x, q, v)))
  {
    assert ([k] + q)[0] == k && ([k] + q)[1..] == q;
  }

  /**
   * Writing the leaves of a subtree below `k` builds their object at `k`:
   * into the object already there, or from `{}` when `k` is absent.
   */
  lemma {:induction false} ApplyUnder(acc: Obj, k: string, x: Obj, ls: seq<Leaf>)
    requires ls != [] && forall i :: 0 <= i < |ls| ==> ls[i].path != []
    requires Get(acc, k) == Some(JObj(x)) || (Get(acc, k) == None && x == [])
    ensures ApplyLeaves(acc, Under(k, ls)) == Put(acc, k, JObj(ApplyLeaves(x, ls)))
    decreases |ls|
  {
    var u := Under(k, ls);
    UnderCons(k, ls);
    var l0 := ls[0];
    var x' := SetPath(x, l0.path, l0.value);
    SetPathInto(acc, k, x, l0.path, l0.value);
    var acc' := Put(acc, k, JObj(x'));
    assert ApplyLeaves(acc, u) == ApplyLeaves(acc', Under(k, ls[1..]));
    if ls[1..] == [] {
      assert ApplyLeaves(x, ls) == x';
    } else {
      ApplyUnder(acc', k, x', ls[1..]);
      PutPut(acc, k, JObj(x'), JObj(ApplyLeaves(x', ls[1..])));
    }
  }

  lemma PlainTail(o: Obj)
    requires o != [] && Plain(o)
    ensures Plain(o[1..])
  {
    forall m | m in o[1..] ensures m in o { }
  }

  /** A plain object with properties has leaves. */
  lemma {:induction false} PlainHasLeaves(o: Obj)
    requires o != [] && Plain(o)
    ensures Leaves(o) != []
    decreases o
  {
    var m := o[0];
    assert m in o;
    if m.value.JObj? {
      PlainHasLeaves(m.value.members);
    }
  }

  /** Every leaf has a non-empty path. */
  lemma {:induction false} LeafPathsNonEmpty(o: Obj)
    ensures forall i :: 0 <= i < |Leaves(o)| ==> Leaves(o)[i].path != []
    decreases o
  {
    forall i | 0 <= i < |Leaves(o)| ensures Leaves(o)[i].path != [] {
      LeafHeads(o, Leaves(o)[i]);
    }
  }

  /**
   * Writing the leaves of a plain, well-formed object into an object that
   * has none of its property names appends the object's properties, in order.
   */
  lemma {:induction false} Rebuild(acc: Obj, o: Obj)
    requires WellFormed(o) && Plain(o)
    requires forall k :: k in Keys(o) ==> Get(acc, k) == None
    ensures ApplyLeaves(acc, Leaves(o)) == acc + o
    decreases o
  {
    if o == [] {
      assert acc + o == acc;
    } else {
      var m := o[0];
      var rest := o[1..];
      var k := m.key;
      assert m in o && o == [m] + rest;
      assert Keys(o) == [k] + Keys(rest);
      WellFormedTail(o);
      PlainTail(o);
      var here :=
        if m.value.JObj? then Under(k, Leaves(m.value.members))
        else [Leaf([k], m.value)];
      assert Leaves(o) == here + Leaves(rest);
      ApplyLeavesConcat(acc, here, Leaves(rest));
      GetKeys(acc, k);
      if m.value.JObj? {
        var c := m.value.members;
        PlainHasLeaves(c);
        LeafPathsNonEmpty(c);
        ApplyUnder(acc, k, [], Leaves(c));
        assert forall k' :: k' in Keys(c) ==> Get([], k') == None;
        Rebuild([], c);
        assert [] + c == c;
      } else {
        ApplyLeavesOne(acc, Leaf([k], m.value));
      }
      PutNew(acc, k, m.value);
      var acc' := Put(acc, k, m.value);
      assert acc' == acc + [m];
      forall k' | k' in Keys(rest) ensures Get(acc', k') == None {
        assert k' != k;
      }
      Rebuild(acc', rest);
      ConcatAssoc(acc, [m], rest);
    }
  }

  /** Every segment of a leaf path of a plain tree is a safe segment. */
  lemma {:induction false} LeafSegments(o: Obj, l: Leaf)
    requires Plain(o) && l in Leaves(o)
    ensures Truthy(l.value) && !l.value.JObj?
    ensures l.path != [] && forall i :: 0 <= i < |l.path| ==> SafeSegment(l.path[i])
    decreases o
  {
    var m := o[0];
    assert m in o;
    var here :=
      if !Truthy(m.value) then []
      else if m.value.JObj? then Under(m.key, Leaves(m.value.members))
      else [Leaf([m.key], m.value)];
    assert Leaves(o) == here + Leaves(o[1..]);
    if l in here {
      if m.value.JObj? {
        var c := m.value.members;
        var q := l.path[1..];
        UnderMember(m.key, Leaves(c), l.path, l.value);
        assert l.path == [m.key] + q;
        UnderMember(m.key, Leaves(c), q, l.value);
        LeafSegments(c, Leaf(q, l.value));
        forall i | 0 <= i < |l.path| ensures SafeSegment(l.path[i]) {
          if i > 0 { assert l.path[i] == q[i - 1]; }
        }
      }
    } else {
      PlainTail(o);
      LeafSegments(o[1..], l);
    }
  }

  /** A base-language row built for a leaf writes that leaf's value at its path. */
  lemma RowWritesLeaf(o: Obj, row: Row, file: string, l: Leaf)
    requires row.key == file + ":" + DotPath(l.path) && row.english == Some(l.value)
    requires Truthy(l.value)
    requires l.path != [] && forall i :: 0 <= i < |l.path| ==> SafeSegment(l.path[i])
    ensures ApplyRow(o, row, BaseLanguage) == SetPath(o, l.path, l.value)
  {
    KeyRoundTrip(file, l.path);
  }

  lemma ApplyLeavesSnocPrefix(ls: seq<Leaf>, n: nat)
    requires 0 < n <= |ls|
    ensures ApplyLeaves([], ls[..n]) == SetPath(ApplyLeaves([], ls[..n - 1]), ls[n - 1].path, ls[n - 1].value)
  {
    assert ls[..n] == ls[..n - 1] + [ls[n - 1]];
    ApplyLeavesConcat([], ls[..n - 1], [ls[n - 1]]);
    ApplyLeavesOne(ApplyLeaves([], ls[..n - 1]), ls[n - 1]);
  }

  /**
   * On the base-language sheet each row writes its leaf: the key parses back
   * to the leaf's path and the English cell holds its value.
   */
  lemma {:induction false} RowsWriteLeaves(t: Obj, jsonFile: string, baseEn: Option<Obj>, n: nat)
    requires Plain(t)
    requires n <= |Leaves(t)|
    ensures n <= |SheetRows(t, jsonFile, BaseLanguage, baseEn)|
    ensures ApplyRows([], SheetRows(t, jsonFile, BaseLanguage, baseEn)[..n], BaseLanguage) == ApplyLeaves([], Leaves(t)[..n])
    decreases n
  {
    var rows := SheetRows(t, jsonFile, BaseLanguage, baseEn);
    var ls := Leaves(t);
    SheetRowsSpec(t, jsonFile, BaseLanguage, baseEn);
    if n > 0 {
      RowsWriteLeaves(t, jsonFile, baseEn, n - 1);
      var l := ls[n - 1];
      var prev := ApplyRows([], rows[..n - 1], BaseLanguage);
      ApplyRowsPrefix([], rows, n - 1, BaseLanguage);
      ApplyLeavesSnocPrefix(ls, n);
      LeafSegments(t, l);
      RowWritesLeaf(prev, rows[n - 1], Text.JsonBasename(jsonFile), l);
    }
  }

  /**
   * Flattening a plain tree on the base-language sheet and writing the rows
   * back into `{}` gives the same tree: same properties, same order, same values.
   */
  lemma RoundTrip(t: Obj, jsonFile: string, baseEn: Option<Obj>)
    requires WellFormed(t) && Plain(t)
    ensures ApplyRows([], SheetRows(t, jsonFile, BaseLanguage, baseEn), BaseLanguage) == t
  {
    var rows := SheetRows(t, jsonFile, BaseLanguage, baseEn);
    RowsWriteLeaves(t, jsonFile, baseEn, |Leaves(t)|);
    SheetRowsSpec(t, jsonFile, BaseLanguage, baseEn);
    assert rows[..|rows|] == rows;
    assert Leaves(t)[..|Leaves(t)|] == Leaves(t);
    Rebuild([], t);
    assert [] + t == t;
  }

  /**
   * The same trip through `_updateNonmergeJsonData` when there is no locales
   * directory or no directory for the language: the output starts from `{}`
   * and so holds the original tree.
   */
  lemma RoundTripFresh(t: Obj, jsonFile: string, baseEn: Option<Obj>, excelFile: string, store: Reconcile.LocaleStore)
    requires WellFormed(t) && Plain(t)
    requires !store.configured || !store.langDir
    ensures var d := Reconcile.Decide(store, Reconcile.LocaleFile(excelFile));
      && d == Reconcile.Fresh
      && ApplyRows(Reconcile.Start(d), SheetRows(t, jsonFile, BaseLanguage, baseEn), BaseLanguage) == t
  {
    RoundTrip(t, jsonFile, baseEn);
  }
}
