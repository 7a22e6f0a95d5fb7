/**
 * Rows -> JSON: key parsing and `_createNestedObject` (excel2json.js).  A
 * row key `<group>:<dotted.path>` names the file it belongs to and the
 * property path its value is written to.
 */
module Unflattener {
  import opened Wrappers
  import opened Sequences
  import opened JsonTree
  import opened Flattener
  import Text

  // ---------------------------------------------------------------------------
  // Key parsing

  /** `Key.split(':')[0]`: the logical file a row belongs to in the merged sheet. */
  function GroupId(key: string): string {
    Text.Split(key, ':')[0]
  }

  /** `Key.split(':').pop().split('.')`: the property path the row's value is written to. */
  function TreePath(key: string): (p: seq<string>)
    ensures |p| >= 1
  {
    var parts := Text.Split(key, ':');
    Text.Split(parts[|parts| - 1], '.')
  }

  /** A segment that survives the trip through a key. */
  predicate SafeSegment(s: string) {
    s != "" && '.' !in s && ':' !in s
  }

  /** The group id is the text before the first colon. */
  lemma GroupIdOf(id: string, rest: string)
    requires ':' !in id
    ensures GroupId(id + ":" + rest) == id
  {
    assert id + ":" + rest == id + [':'] + rest;
    Text.SplitHead(id, rest, ':');
  }

  /** The text after the last colon of a key. */
  lemma LastColonPart(prefix: string, dotted: string, key: string)
    requires ':' !in dotted && key == prefix + [':'] + dotted
    ensures var parts := Text.Split(key, ':'); parts[|parts| - 1] == dotted
  {
    Text.SplitLast(prefix, dotted, ':');
  }

  /** A key whose last part has no colon is split on dots from there. */
  lemma TreePathAfterColon(prefix: string, dotted: string)
    requires ':' !in dotted
    ensures TreePath(prefix + ":" + dotted) == Text.Split(dotted, '.')
  {
    var key := prefix + ":" + dotted;
    assert key == prefix + [':'] + dotted;
    LastColonPart(prefix, dotted, key);
    TreePathLast(key, Text.Split(key, ':'));
  }

  lemma TreePathLast(key: string, parts: seq<string>)
    requires parts == Text.Split(key, ':')
    ensures TreePath(key) == Text.Split(parts[|parts| - 1], '.')
  {
  }

  /** The tree path is the text after the last colon, split on dots. */
  lemma TreePathOf(prefix: string, p: seq<string>)
    requires p != []
    requires forall i :: 0 <= i < |p| ==> '.' !in p[i] && ':' !in p[i]
    ensures TreePath(prefix + ":" + Text.Join(p, '.')) == p
  {
    Text.JoinAvoids(p, '.', ':');
    TreePathAfterColon(prefix, Text.Join(p, '.'));
    Text.SplitJoin(p, '.');
  }

  /** A key with no colon is its own group id and is split on dots as a whole. */
  lemma KeyWithoutColon(key: string)
    requires ':' !in key
    ensures GroupId(key) == key
    ensures TreePath(key) == Text.Split(key, '.')
  {
    Text.SplitNoSep(key, ':');
  }

  /** The key the flattener builds parses back to the leaf's path. */
  lemma KeyRoundTrip(file: string, p: seq<string>)
    requires p != []
    requires forall i :: 0 <= i < |p| ==> SafeSegment(p[i])
    ensures TreePath(file + ":" + DotPath(p)) == p
  {
    DotPathJoin(p);
    TreePathOf(file, p);
  }

  // ---------------------------------------------------------------------------
  // Writing one value at a path

  /** `value ? value : ''`. */
  function LeafValue(value: Option<Json>): Json {
    if TruthyCell(value) then value.value else JStr("")
  }

  /**
   * The tree after `_createNestedObject(o, keys, leaf)`.  Each intermediate
   * step is `base[k] = base[k] || {}`: an existing object is kept, a missing
   * or falsy value becomes a new empty object; an existing truthy
   * non-object value is kept and the cursor moves onto it, where the
   * remaining writes are discarded (sloppy-mode JavaScript ignores property
   * writes on a string, number or boolean), so the tree does not change.
   */
  function SetPath(o: Obj, keys: seq<string>, leaf: Json): Obj
    decreases |keys|
  {
    if keys == [] then o
    else if |keys| == 1 then Put(o, keys[0], leaf)
    else
      var existing := Get(o, keys[0]);
      if existing.Some? && existing.value.JObj? then
        Put(o, keys[0], JObj(SetPath(existing.value.members, keys[1..], leaf)))
      else if existing.Some? && Truthy(existing.value) then o
      else Put(o, keys[0], JObj(SetPath([], keys[1..], leaf)))
  }

  /** A truthy non-object value sits strictly inside the path, so a write along it is lost. */
  predicate Blocked(o: Obj, p: seq<string>)
    decreases |p|
  {
    && |p| >= 2
    && match Get(o, p[0])
       case None => false
       case Some(v) => if v.JObj? then Blocked(v.members, p[1..]) else Truthy(v)
  }

  /** Two paths part ways at some position: neither is a prefix of the other. */
  predicate Diverges(p: seq<string>, q: seq<string>) {
    exists i :: 0 <= i < |p| && i < |q| && p[i] != q[i]
  }

  /** After the write the value is stored at the full path, unless the path is blocked, when nothing changes. */
  lemma {:induction false} SetPathStores(o: Obj, p: seq<string>, v: Json)
    requires p != []
    ensures !Blocked(o, p) ==> ValueAt(SetPath(o, p, v), p) == Some(v)
    ensures Blocked(o, p) ==> SetPath(o, p, v) == o
    decreases |p|
  {
    if |p| >= 2 {
      var existing := Get(o, p[0]);
      if existing.Some? && existing.value.JObj? {
        var oc := existing.value.members;
        SetPathStores(oc, p[1..], v);
        SetPathDescend(o, p, v, oc);
        ValueAtDescend(SetPath(o, p, v), p, SetPath(oc, p[1..], v));
        if Blocked(o, p) {
          assert Blocked(oc, p[1..]);
          assert SetPath(oc, p[1..], v) == oc;
          PutSame(o, p[0]);
        }
      } else if !(existing.Some? && Truthy(existing.value)) {
        SetPathStores([], p[1..], v);
        SetPathStep(o, p, v, []);
        ValueAtDescend(SetPath(o, p, v), p, SetPath([], p[1..], v));
      }
    }
  }

  /** Below an existing object, the write rewrites that object only. */
  lemma SetPathDescend(o: Obj, p: seq<string>, v: Json, oc: Obj)
    requires |p| >= 2 && Get(o, p[0]) == Some(JObj(oc))
    ensures Get(SetPath(o, p, v), p[0]) == Some(JObj(SetPath(oc, p[1..], v)))
  {
  }

  /** A path through an object continues in that object. */
  lemma ValueAtDescend(o: Obj, q: seq<string>, child: Obj)
    requires |q| >= 2 && Get(o, q[0]) == Some(JObj(child))
    ensures ValueAt(o, q) == ValueAt(child, q[1..])
  {
  }

  /** Paths whose first property agrees in two objects lead to the same value in both. */
  lemma ValueAtSameHead(a: Obj, b: Obj, q: seq<string>)
    requires q != [] && Get(a, q[0]) == Get(b, q[0])
    ensures ValueAt(a, q) == ValueAt(b, q)
  {
  }

  /** Every path that parts ways with the written one leads to the same value as before. */
  lemma {:induction false} SetPathElsewhere(o: Obj, p: seq<string>, q: seq<string>, v: Json)
    requires Diverges(p, q)
    ensures ValueAt(SetPath(o, p, v), q) == ValueAt(o, q)
    decreases |p|
  {
    var i :| 0 <= i < |p| && i < |q| && p[i] != q[i];
    if p[0] != q[0] {
      ValueAtSameHead(SetPath(o, p, v), o, q);
    } else {
      var p', q' := p[1..], q[1..];
      assert i > 0 && p'[i - 1] != q'[i - 1];
      var existing := Get(o, p[0]);
      if existing.Some? && existing.value.JObj? {
        var oc := existing.value.members;
        SetPathElsewhere(oc, p', q', v);
        SetPathDescend(o, p, v, oc);
        ValueAtDescend(o, q, oc);
        ValueAtDescend(SetPath(o, p, v), q, SetPath(oc, p', v));
      } else if !(existing.Some? && Truthy(existing.value)) {
        SetPathElsewhere([], p', q', v);
        SetPathStep(o, p, v, []);
        ValueAtDescend(SetPath(o, p, v), q, SetPath([], p', v));
      }
    }
  }

  /** The top-level keys after a write that is not blocked: the old ones, then the first segment if it is new. */
  lemma SetPathKeys(o: Obj, p: seq<string>, v: Json)
    requires p != [] && !Blocked(o, p)
    ensures Keys(SetPath(o, p, v)) == WithKey(Keys(o), p[0])
  {
    if |p| >= 2 {
      var existing := Get(o, p[0]);
      assert existing.Some? && !existing.value.JObj? ==> !Truthy(existing.value);
    }
  }

  /**
   * An object that already exists on the way is reused: afterwards the same
   * path still leads to an object, whose keys are the old keys in the old
   * order, followed by the next segment if it was not there yet.
   */
  lemma {:induction false} SetPathReuses(o: Obj, p: seq<string>, q: seq<string>, c: Obj, v: Json)
    requires |q| < |p| && q == p[..|q|]
    requires !Blocked(o, p)
    requires ValueAt(o, q) == Some(JObj(c))
    ensures var after := ValueAt(SetPath(o, p, v), q);
      && after.Some? && after.value.JObj?
      && Keys(after.value.members) == WithKey(Keys(c), p[|q|])
    decreases |q|
  {
    if q == [] {
      assert c == o;
      SetPathKeys(o, p, v);
    } else {
      var p', q' := p[1..], q[1..];
      assert q[0] == p[0] && q' == p'[..|q'|];
      assert p'[|q'|] == p[|q|];
      var oc := Get(o, p[0]).value.members;
      SetPathDescend(o, p, v, oc);
      if q' == [] {
        assert c == oc;
        SetPathKeys(oc, p', v);
      } else {
        ValueAtDescend(o, q, oc);
        SetPathReuses(oc, p', q', c, v);
        ValueAtDescend(SetPath(o, p, v), q, SetPath(oc, p', v));
      }
    }
  }

  /** Writing the same path twice: the second value is all that remains (last write wins). */
  lemma {:induction false} LastWriteWins(o: Obj, p: seq<string>, v1: Json, v2: Json)
    ensures SetPath(SetPath(o, p, v1), p, v2) == SetPath(o, p, v2)
    decreases |p|
  {
    if |p| == 1 {
      PutPut(o, p[0], v1, v2);
    } else if |p| >= 2 {
      var k := p[0];
      var existing := Get(o, k);
      var start: Obj;
      if existing.Some? && existing.value.JObj? {
        start := existing.value.members;
      } else if existing.Some? && Truthy(existing.value) {
        return;
      } else {
        start := [];
      }
      var s1 := SetPath(start, p[1..], v1);
      SetPathStep(o, p, v1, start);
      var r1 := Put(o, k, JObj(s1));
      SetPathStep(r1, p, v2, s1);
      LastWriteWins(start, p[1..], v1, v2);
      PutPut(o, k, JObj(s1), JObj(SetPath(start, p[1..], v2)));
      SetPathStep(o, p, v2, start);
    }
  }

  /** Applying the same (path, value) twice gives the tree that applying it once gives. */
  lemma SetPathIdempotent(o: Obj, p: seq<string>, v: Json)
    ensures SetPath(SetPath(o, p, v), p, v) == SetPath(o, p, v)
  {
    LastWriteWins(o, p, v, v);
  }

  /** The write never gives an object two properties with the same name. */
  lemma {:induction false} SetPathWellFormed(o: Obj, p: seq<string>, v: Json)
    requires WellFormed(o)
    requires v.JObj? ==> WellFormed(v.members)
    ensures WellFormed(SetPath(o, p, v))
    decreases |p|
  {
    if |p| == 1 {
      PutWellFormed(o, p[0], v);
    } else if |p| >= 2 {
      var existing := Get(o, p[0]);
      if existing.Some? && existing.value.JObj? {
        GetKeys(o, p[0]);
        SetPathWellFormed(existing.value.members, p[1..], v);
        PutWellFormed(o, p[0], JObj(SetPath(existing.value.members, p[1..], v)));
      } else if !(existing.Some? && Truthy(existing.value)) {
        SetPathWellFormed([], p[1..], v);
        PutWellFormed(o, p[0], JObj(SetPath([], p[1..], v)));
      }
    }
  }

  // ---------------------------------------------------------------------------
  // _createNestedObject as the cursor walk it is

  /** An object the cursor passed through: its members and the key the cursor followed. */
  datatype Frame = Frame(members: Obj, key: string)

  /** Put a rewritten innermost object back into the objects the cursor passed through. */
  function Plug(frames: seq<Frame>, o: Obj): Obj
    decreases |frames|
  {
    if frames == [] then o
    else
      var f := frames[|frames| - 1];
      Plug(frames[..|frames| - 1], Put(f.members, f.key, JObj(o)))
  }

  lemma PlugSnoc(frames: seq<Frame>, f: Frame, o: Obj)
    ensures Plug(frames + [f], o) == Plug(frames, Put(f.members, f.key, JObj(o)))
  {
    assert (frames + [f])[..|frames|] == frames;
  }

  /** `base[k] || {}`: a truthy property, or a new empty object in place of a missing or falsy one. */
  function OrEmpty(cursor: Obj, k: string): Json {
    var e := Get(cursor, k);
    if e.Some? && Truthy(e.value) then e.value else JObj([])
  }

  /** One step of the walk: the write below an object or a missing/falsy value. */
  lemma SetPathStep(cursor: Obj, keys: seq<string>, leaf: Json, next: Obj)
    requires |keys| >= 2 && OrEmpty(cursor, keys[0]) == JObj(next)
    ensures SetPath(cursor, keys, leaf) == Put(cursor, keys[0], JObj(SetPath(next, keys[1..], leaf)))
  {
  }

  /** The cursor moves one object down past `keys[i]`: what remains to be written is unchanged. */
  lemma DescendStep(frames: seq<Frame>, cursor: Obj, keys: seq<string>, i: nat, leaf: Json, next: Obj)
    requires i + 1 < |keys| && OrEmpty(cursor, keys[i]) == JObj(next)
    ensures Plug(frames + [Frame(cursor, keys[i])], SetPath(next, keys[i + 1..], leaf)) == Plug(frames, SetPath(cursor, keys[i..], leaf))
  {
    assert keys[i..][0] == keys[i] && keys[i..][1..] == keys[i + 1..];
    SetPathStep(cursor, keys[i..], leaf, next);
    PlugSnoc(frames, Frame(cursor, keys[i]), SetPath(next, keys[i + 1..], leaf));
  }

  /** A truthy primitive met at `keys[i]`, before the last key, swallows the rest of the write. */
  lemma StuckStep(cursor: Obj, keys: seq<string>, i: nat, leaf: Json)
    requires i + 1 < |keys| && !OrEmpty(cursor, keys[i]).JObj?
    ensures SetPath(cursor, keys[i..], leaf) == cursor
  {
    assert keys[i..][0] == keys[i];
  }

  /** The last key is a plain property write. */
  lemma LastStep(cursor: Obj, keys: seq<string>, i: nat, leaf: Json)
    requires i + 1 == |keys|
    ensures SetPath(cursor, keys[i..], leaf) == Put(cursor, keys[i], leaf)
  {
    assert keys[i..] == [keys[i]];
  }

  /**
   * `_createNestedObject(base, keys, value)`.  The loop moves a cursor down
   * the path, performing `base = base[keys[i]] = base[keys[i]] || {}` on each
   * step and the final `base[keys[l - 1]] = value ? value : ''`.  Objects are
   * values here, so the objects passed on the way are remembered (the
   * frames) and the rewritten innermost object is plugged back into them.
   */
  method CreateNested(base: Obj, keys: seq<string>, value: Option<Json>) returns (r: Obj)
    ensures r == SetPath(base, keys, LeafValue(value))
  {
    if |keys| == 0 {
      return base;
    }
    var leaf := if TruthyCell(value) then value.value else JStr("");
    var frames: seq<Frame> := [];
    var cursor := base;
    var i := 0;
    while i < |keys| - 1
      invariant 0 <= i <= |keys| - 1
      invariant Plug(frames, SetPath(cursor, keys[i..], leaf)) == SetPath(base, keys, leaf)
    {
      var child := OrEmpty(cursor, keys[i]);
      if !child.JObj? {
        // the cursor lands on a string, number or boolean: the remaining writes are lost
        StuckStep(cursor, keys, i, leaf);
        return Plug(frames, cursor);
      }
      DescendStep(frames, cursor, keys, i, leaf, child.members);
      frames := frames + [Frame(cursor, keys[i])];
      cursor := child.members;
      i := i + 1;
    }
    LastStep(cursor, keys, i, leaf);
    // `base[keys[l - 1]] = value ? value : ''`, then the objects on the way are put back together
    r := Plug(frames, Put(cursor, keys[i], leaf));
  }

  // ---------------------------------------------------------------------------
  // Applying a sheet's rows

  /** The column a sheet reads: English on the base sheet, Translation on the others. */
  function Cell(row: Row, sheetName: string): Option<Json> {
    if sheetName == BaseLanguage then row.english else row.translation
  }

  /** One row of the loop: only a truthy cell is written. */
  function ApplyRow(o: Obj, row: Row, sheetName: string): Obj {
    var t := Cell(row, sheetName);
    if TruthyCell(t) then SetPath(o, TreePath(row.key), LeafValue(t)) else o
  }

  /** The tree after applying the rows in order, starting from `o`. */
  function ApplyRows(o: Obj, rows: seq<Row>, sheetName: string): Obj
    decreases |rows|
  {
    if rows == [] then o
    else ApplyRow(ApplyRows(o, rows[..|rows| - 1], sheetName), rows[|rows| - 1], sheetName)
  }

  /** The rows up to and including row `i` are those before it, then row `i`. */
  lemma ApplyRowsPrefix(o: Obj, rows: seq<Row>, i: nat, sheetName: string)
    requires i < |rows|
    ensures ApplyRows(o, rows[..i + 1], sheetName) == ApplyRow(ApplyRows(o, rows[..i], sheetName), rows[i], sheetName)
  {
    assert rows[..i + 1][..i] == rows[..i];
  }

  lemma {:induction false} ApplyRowsConcat(o: Obj, a: seq<Row>, b: seq<Row>, sheetName: string)
    ensures ApplyRows(o, a + b, sheetName) == ApplyRows(ApplyRows(o, a, sheetName), b, sheetName)
    decreases |b|
  {
    if b == [] {
      assert a + b == a;
    } else {
      assert (a + b)[..|a + b| - 1] == a + b[..|b| - 1];
      ApplyRowsConcat(o, a, b[..|b| - 1], sheetName);
    }
  }

  /** A row whose cell is blank or falsy leaves the tree as it is. */
  lemma FalsyCellIgnored(o: Obj, rows: seq<Row>, row: Row, sheetName: string)
    requires !TruthyCell(Cell(row, sheetName))
    ensures ApplyRows(o, rows + [row], sheetName) == ApplyRows(o, rows, sheetName)
  {
    assert (rows + [row])[..|rows|] == rows;
  }
}
