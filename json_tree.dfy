/**
 * The JSON trees that JSON.parse produces for translation files.  An object
 * is the sequence of its members in insertion order, which is the order in
 * which `for ... in` and JSON.stringify visit them.
 */
module JsonTree {
  import opened Wrappers
  import opened Sequences

  datatype Json =
    | JNull
    | JBool(b: bool)
    | JNum(n: int)
    | JStr(s: string)
    | JObj(members: seq<Member>)

  datatype Member = Member(key: string, value: Json)

  /** The members of one JavaScript object, in insertion order. */
  type Obj = seq<Member>

  /** JavaScript truthiness: "", 0, false and null are falsy; every object is truthy. */
  predicate Truthy(v: Json) {
    match v
    case JNull => false
    case JBool(b) => b
    case JNum(n) => n != 0
    case JStr(s) => s != ""
    case JObj(_) => true
  }

  /** Truthiness of a spreadsheet cell or property read that may be undefined. */
  predicate TruthyCell(c: Option<Json>) {
    c.Some? && Truthy(c.value)
  }

  /** `Object.keys(o)`. */
  function Keys(o: Obj): (ks: seq<string>)
    ensures |ks| == |o|
    decreases |o|
  {
    if o == [] then [] else [o[0].key] + Keys(o[1..])
  }

  /** `o[k]`, with `None` for a missing property. */
  function Get(o: Obj, k: string): Option<Json>
    decreases |o|
  {
    if o == [] then None
    else if o[0].key == k then Some(o[0].value)
    else Get(o[1..], k)
  }

  /** A property is there exactly when its name is among the keys, and it is then a member. */
  lemma {:induction false} GetKeys(o: Obj, k: string)
    ensures Get(o, k).Some? <==> k in Keys(o)
    ensures Get(o, k).Some? ==> Member(k, Get(o, k).value) in o
    decreases |o|
  {
    if o != [] {
      assert Keys(o) == [o[0].key] + Keys(o[1..]);
      GetKeys(o[1..], k);
    }
  }

  /** The key order after writing `k`: unchanged if `k` is there, else `k` goes last. */
  function WithKey(ks: seq<string>, k: string): seq<string> {
    if k in ks then ks else ks + [k]
  }

  /** `o[k] = v`: an existing property keeps its position, a new one goes last. */
  function Put(o: Obj, k: string, v: Json): (r: Obj)
    ensures Get(r, k) == Some(v)
    ensures forall k' {:trigger Get(r, k')} :: k' != k ==> Get(r, k') == Get(o, k')
    ensures Keys(r) == WithKey(Keys(o), k)
    decreases |o|
  {
    if o == [] then [Member(k, v)]
    else if o[0].key == k then [Member(k, v)] + o[1..]
    else
      var rest := Put(o[1..], k, v);
      var r := [o[0]] + rest;
      assert r[0] == o[0] && r[1..] == rest;
      assert Keys(r) == [o[0].key] + Keys(rest);
      assert Keys(o) == [o[0].key] + Keys(o[1..]);
      r
  }

  /** Writing back the value a property already has changes nothing. */
  lemma PutSame(o: Obj, k: string)
    requires Get(o, k).Some?
    ensures Put(o, k, Get(o, k).value) == o
  {
  }

  /** A second write to the same property overrides the first. */
  lemma {:induction false} PutPut(o: Obj, k: string, v: Json, w: Json)
    ensures Put(Put(o, k, v), k, w) == Put(o, k, w)
    decreases |o|
  {
    if o != [] && o[0].key != k {
      PutPut(o[1..], k, v, w);
    }
  }

  /** Appending a property that is not yet there is the same as writing it. */
  lemma {:induction false} PutNew(o: Obj, k: string, v: Json)
    requires k !in Keys(o)
    ensures Put(o, k, v) == o + [Member(k, v)]
    decreases |o|
  {
    if o != [] {
      assert Keys(o) == [o[0].key] + Keys(o[1..]);
      PutNew(o[1..], k, v);
      assert Put(o, k, v) == [o[0]] + Put(o[1..], k, v);
      ConsSnoc(o, Member(k, v));
    }
  }

  /** Every object in the tree has distinct property names, as every JavaScript object does. */
  predicate WellFormed(o: Obj)
    decreases o
  {
    && Distinct(Keys(o))
    && forall m :: m in o ==> (m.value.JObj? ==> WellFormed(m.value.members))
  }

  /** Every member of `Put(o, k, v)` is the written one or was already there. */
  lemma {:induction false} PutMembers(o: Obj, k: string, v: Json, m: Member)
    requires m in Put(o, k, v)
    ensures m == Member(k, v) || m in o
    decreases |o|
  {
    if o != [] && o[0].key != k {
      assert Put(o, k, v) == [o[0]] + Put(o[1..], k, v);
      if m != o[0] {
        PutMembers(o[1..], k, v, m);
      }
    }
  }

  /** Writing a well-formed value into a well-formed object keeps it well-formed. */
  lemma PutWellFormed(o: Obj, k: string, v: Json)
    requires WellFormed(o)
    requires v.JObj? ==> WellFormed(v.members)
    ensures WellFormed(Put(o, k, v))
  {
    if k !in Keys(o) {
      DistinctAppend(Keys(o), k);
    }
    forall m | m in Put(o, k, v) ensures m.value.JObj? ==> WellFormed(m.value.members) {
      PutMembers(o, k, v, m);
    }
  }

  /** What a property path leads to in a tree. */
  datatype Lookup =
    | Found(value: Json)   // the value at the end of the path
    | Absent               // some property on the path is missing
    | Stuck(at: Json)      // a non-object value sits strictly inside the path

  function Resolve(o: Obj, p: seq<string>): Lookup
    decreases |p|
  {
    if p == [] then Found(JObj(o))
    else
      match Get(o, p[0])
      case None => Absent
      case Some(v) =>
        if |p| == 1 then Found(v)
        else if v.JObj? then Resolve(v.members, p[1..])
        else Stuck(v)
  }

  /** The value at a path, if there is one. */
  function ValueAt(o: Obj, p: seq<string>): Option<Json> {
    match Resolve(o, p)
    case Found(v) => Some(v)
    case _ => None
  }
}
