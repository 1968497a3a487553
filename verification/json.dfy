/** Parsed JSON values with the JavaScript notions the bundler and the validator
    lean on: truthiness, `typeof`, property lookup, assignment and key iteration. */
module JsonValues {
  import opened Options
  import Decimal

  /** A parsed JSON document. Objects are ordered association lists: key order is
      observable through `JSON.stringify` and through `for..in`. Numbers are integers. */
  datatype Json =
    | JNull
    | JBool(b: bool)
    | JNum(n: int)
    | JStr(s: string)
    | JArr(elems: seq<Json>)
    | JObj(fields: seq<(string, Json)>)

  /** JavaScript's `ToBoolean`: `null`, `false`, `0` and `""` are falsy. */
  predicate Truthy(v: Json) {
    match v
    case JNull => false
    case JBool(b) => b
    case JNum(n) => n != 0
    case JStr(s) => s != ""
    case _ => true
  }

  /** `typeof v === 'object'`, which holds of `null` as well. */
  predicate IsObjectType(v: Json) {
    v.JNull? || v.JArr? || v.JObj?
  }

  /** `v && typeof v === 'object'`: an array or an object. */
  predicate IsContainer(v: Json) {
    v.JArr? || v.JObj?
  }

  lemma ContainerIffTruthyObjectType(v: Json)
    ensures IsContainer(v) <==> Truthy(v) && IsObjectType(v)
  {
  }

  function Keys(fs: seq<(string, Json)>): seq<string> {
    seq(|fs|, i requires 0 <= i < |fs| => fs[i].0)
  }

  /** No key appears twice, as in every object `JSON.parse` builds. */
  predicate DistinctKeys(fs: seq<(string, Json)>) {
    forall i, j :: 0 <= i < j < |fs| ==> fs[i].0 != fs[j].0
  }

  /** The value stored under `k`, or `None` (`undefined`). */
  function Lookup(fs: seq<(string, Json)>, k: string): (r: Option<Json>)
    ensures r.Some? <==> k in Keys(fs)
    decreases |fs|
  {
    if |fs| == 0 then None
    else
      assert Keys(fs) == [fs[0].0] + Keys(fs[1..]);
      if fs[0].0 == k then Some(fs[0].1) else Lookup(fs[1..], k)
  }

  /** The first field with a given key is the one a lookup finds. */
  lemma {:induction false} LookupFirstAt(fs: seq<(string, Json)>, i: nat)
    requires i < |fs|
    requires forall j :: 0 <= j < i ==> fs[j].0 != fs[i].0
    ensures Lookup(fs, fs[i].0) == Some(fs[i].1)
    decreases i
  {
    if i > 0 {
      LookupFirstAt(fs[1..], i - 1);
    }
  }

  /** `o[k] = x`: replaces the value in place when the key exists, otherwise adds the
      key at the end. */
  function Update(fs: seq<(string, Json)>, k: string, x: Json): seq<(string, Json)>
    decreases |fs|
  {
    if |fs| == 0 then [(k, x)]
    else if fs[0].0 == k then [(k, x)] + fs[1..]
    else [fs[0]] + Update(fs[1..], k, x)
  }

  /** After an assignment the key reads back the new value and every other key reads
      what it read before. */
  lemma {:induction false} LookupUpdate(fs: seq<(string, Json)>, k: string, x: Json, k': string)
    ensures Lookup(Update(fs, k, x), k') == if k' == k then Some(x) else Lookup(fs, k')
    decreases |fs|
  {
    if |fs| > 0 && fs[0].0 != k {
      LookupUpdate(fs[1..], k, x, k');
      assert (Update(fs, k, x))[1..] == Update(fs[1..], k, x);
    } else if |fs| > 0 {
      assert ([(k, x)] + fs[1..])[1..] == fs[1..];
    }
  }

  /** An assignment keeps every existing key in its place and appends a new key last. */
  lemma {:induction false} KeysUpdate(fs: seq<(string, Json)>, k: string, x: Json)
    ensures Keys(Update(fs, k, x)) == if k in Keys(fs) then Keys(fs) else Keys(fs) + [k]
    decreases |fs|
  {
    if |fs| > 0 {
      assert Keys(fs) == [fs[0].0] + Keys(fs[1..]);
      if fs[0].0 == k {
        assert Keys([(k, x)] + fs[1..]) == [k] + Keys(fs[1..]);
      } else {
        KeysUpdate(fs[1..], k, x);
        assert Keys([fs[0]] + Update(fs[1..], k, x)) == [fs[0].0] + Keys(Update(fs[1..], k, x));
      }
    }
  }

  /** Assignment never introduces a repeated key. */
  lemma UpdateDistinct(fs: seq<(string, Json)>, k: string, x: Json)
    requires DistinctKeys(fs)
    ensures DistinctKeys(Update(fs, k, x))
  {
    var u := Update(fs, k, x);
    KeysUpdate(fs, k, x);
    forall i, j | 0 <= i < j < |u|
      ensures u[i].0 != u[j].0
    {
      assert u[i].0 == Keys(u)[i] && u[j].0 == Keys(u)[j];
      if j < |fs| {
        assert Keys(u)[i] == Keys(fs)[i] && Keys(u)[j] == Keys(fs)[j];
      } else {
        assert Keys(u)[i] == Keys(fs)[i];
      }
    }
  }

  /** `v[k]` for an own property: objects look the key up, and every other value
      gives `undefined`. The names the validator and the bundler read (`type`,
      `items`, `tags`, `name`, ...) are not inherited by any JSON value, so for them
      this is the whole of `v[k]`. The merge also reads arbitrary names, which can be
      inherited from `Object.prototype`; `Merge.Read` adds those. */
  function Prop(v: Json, k: string): Option<Json> {
    if v.JObj? then Lookup(v.fields, k) else None
  }

  /** `v[k] !== undefined` */
  predicate Has(v: Json, k: string) {
    Prop(v, k).Some?
  }

  /** `v[k]` is truthy. */
  predicate PropTruthy(v: Json, k: string) {
    Prop(v, k).Some? && Truthy(Prop(v, k).value)
  }

  /** `v[k] = x` on an object. */
  function SetProp(v: Json, k: string, x: Json): (r: Json)
    requires v.JObj?
    ensures r.JObj?
  {
    JObj(Update(v.fields, k, x))
  }

  /** The property name `for..in` and `Object.entries` give to position `i`. */
  function IndexKey(i: nat): string {
    Decimal.NatToString(i)
  }

  /** The own enumerable properties in iteration order, as `for..in` and
      `Object.entries` list them: object fields, array positions, string characters. */
  function Entries(v: Json): seq<(string, Json)> {
    match v
    case JObj(fs) => fs
    case JArr(es) => seq(|es|, i requires 0 <= i < |es| => (IndexKey(i), es[i]))
    case JStr(s) => seq(|s|, i requires 0 <= i < |s| => (IndexKey(i), JStr([s[i]])))
    case _ => []
  }

  /** `Object.keys(v).length` */
  function KeyCount(v: Json): nat {
    |Entries(v)|
  }

  /** A child reached through `Entries` that may be recursed into is structurally
      smaller than its parent; this is what makes the recursive walks terminate. */
  lemma EntrySmaller(v: Json, k: nat)
    requires k < |Entries(v)|
    ensures IsObjectType(Entries(v)[k].1) ==> Entries(v)[k].1 < v
  {
    match v
    case JObj(fs) =>
      assert fs[k] in fs;
    case JArr(es) =>
      assert Entries(v)[k].1 == es[k];
      assert es[k] in es;
    case _ =>
  }

  /** Only arrays and objects have children that are arrays or objects. */
  lemma EntriesOfScalar(v: Json, k: nat)
    requires k < |Entries(v)|
    requires IsContainer(Entries(v)[k].1)
    ensures IsContainer(v)
  {
  }

  /** Array positions have distinct property names. */
  lemma ArrayEntriesDistinct(es: seq<Json>)
    ensures DistinctKeys(Entries(JArr(es)))
  {
    forall i, j | 0 <= i < j < |es|
      ensures Entries(JArr(es))[i].0 != Entries(JArr(es))[j].0
    {
      if IndexKey(i) == IndexKey(j) {
        Decimal.NatToStringInjective(i, j);
      }
    }
  }

  /** Every object, at any depth, has distinct keys, as every value `JSON.parse`
      builds does. */
  predicate Parsed(v: Json)
    decreases v
  {
    match v
    case JArr(es) => forall i :: 0 <= i < |es| ==> Parsed(es[i])
    case JObj(fs) => DistinctKeys(fs) && forall i :: 0 <= i < |fs| ==> Parsed(fs[i].1)
    case _ => true
  }

  /** The children `for..in` lists have distinct property names. */
  lemma ParsedEntries(v: Json)
    requires Parsed(v)
    ensures DistinctKeys(Entries(v))
    ensures forall i :: 0 <= i < |Entries(v)| && IsContainer(Entries(v)[i].1) ==> Parsed(Entries(v)[i].1)
  {
    match v
    case JArr(es) =>
      ArrayEntriesDistinct(es);
      assert forall i :: 0 <= i < |es| ==> Entries(v)[i].1 == es[i];
    case JStr(s) =>
      forall i, j | 0 <= i < j < |s|
        ensures Entries(v)[i].0 != Entries(v)[j].0
      {
        if IndexKey(i) == IndexKey(j) {
          Decimal.NatToStringInjective(i, j);
        }
      }
    case _ =>
  }

  // ---- Serialisation ----

  /** A property name JavaScript treats as an array index: the shortest decimal
      spelling of a number below 2^32 - 1. Objects list such names first, in
      ascending numeric order, and then their other names in insertion order. */
  predicate IsIndexName(k: string) {
    var n := Decimal.ParseNat(k);
    n.Some? && n.value < 0xFFFF_FFFF && Decimal.NatToString(n.value) == k
  }

  /** The number an index name spells. */
  function IndexValue(k: string): nat {
    match Decimal.ParseNat(k)
    case Some(n) => n
    case None => 0
  }

  /** Inserts a field before the first field with a larger or equal index. */
  function InsertByIndex(f: (string, Json), fs: seq<(string, Json)>): seq<(string, Json)>
    decreases |fs|
  {
    if |fs| == 0 || IndexValue(f.0) <= IndexValue(fs[0].0) then [f] + fs
    else [fs[0]] + InsertByIndex(f, fs[1..])
  }

  /** The index-named fields in ascending numeric order. */
  function IndexFields(fs: seq<(string, Json)>): seq<(string, Json)>
    decreases |fs|
  {
    if |fs| == 0 then []
    else if IsIndexName(fs[0].0) then InsertByIndex(fs[0], IndexFields(fs[1..]))
    else IndexFields(fs[1..])
  }

  /** The other fields in insertion order. */
  function NamedFields(fs: seq<(string, Json)>): seq<(string, Json)>
    decreases |fs|
  {
    if |fs| == 0 then []
    else (if IsIndexName(fs[0].0) then [] else [fs[0]]) + NamedFields(fs[1..])
  }

  /** The order JavaScript reports an object's own properties in. */
  function PropertyOrder(fs: seq<(string, Json)>): seq<(string, Json)> {
    IndexFields(fs) + NamedFields(fs)
  }

  /** The value as `JSON.stringify` writes it: every object's properties in
      `PropertyOrder`, at every depth. With integer numbers and objects without
      repeated keys, nothing else is lost in the text, so two such values give the
      same text exactly when their written forms are equal. */
  function Written(v: Json): Json
    decreases v
  {
    match v
    case JArr(es) => JArr(seq(|es|, i requires 0 <= i < |es| => Written(es[i])))
    case JObj(fs) => JObj(PropertyOrder(seq(|fs|, i requires 0 <= i < |fs| => (fs[i].0, Written(fs[i].1)))))
    case _ => v
  }

  /** No object, at any depth, has an index-named key. */
  predicate NoIndexNames(v: Json)
    decreases v
  {
    match v
    case JArr(es) => forall i :: 0 <= i < |es| ==> NoIndexNames(es[i])
    case JObj(fs) => forall i :: 0 <= i < |fs| ==> !IsIndexName(fs[i].0) && NoIndexNames(fs[i].1)
    case _ => true
  }

  /** Without index-named keys the written form is the value itself, so equal
      serialisations mean equal values. */
  lemma {:induction false} WrittenPlain(v: Json)
    requires NoIndexNames(v)
    ensures Written(v) == v
    decreases v
  {
    match v
    case JArr(es) =>
      forall i | 0 <= i < |es|
        ensures Written(es[i]) == es[i]
      {
        WrittenPlain(es[i]);
      }
    case JObj(fs) =>
      var ws := seq(|fs|, i requires 0 <= i < |fs| => (fs[i].0, Written(fs[i].1)));
      forall i | 0 <= i < |fs|
        ensures ws[i] == fs[i]
      {
        WrittenPlain(fs[i].1);
      }
      assert ws == fs;
      PlainOrder(fs);
    case _ =>
  }

  /** Fields without index names keep their insertion order. */
  lemma {:induction false} PlainOrder(fs: seq<(string, Json)>)
    requires forall i :: 0 <= i < |fs| ==> !IsIndexName(fs[i].0)
    ensures IndexFields(fs) == [] && NamedFields(fs) == fs
    ensures PropertyOrder(fs) == fs
    decreases |fs|
  {
    if |fs| > 0 {
      var rest := fs[1..];
      assert forall i :: 0 <= i < |rest| ==> rest[i] == fs[i + 1];
      PlainOrder(rest);
      assert !IsIndexName(fs[0].0);
      assert IndexFields(fs) == IndexFields(fs[1..]);
      assert NamedFields(fs) == [fs[0]] + NamedFields(fs[1..]);
      assert [fs[0]] + fs[1..] == fs;
    }
  }

  /** A key found by lookup sits at some position of the list. */
  lemma {:induction false} LookupPosition(fs: seq<(string, Json)>, k: string)
    requires Lookup(fs, k).Some?
    ensures exists i :: 0 <= i < |fs| && fs[i] == (k, Lookup(fs, k).value)
    decreases |fs|
  {
    if fs[0].0 != k {
      LookupPosition(fs[1..], k);
      var i :| 0 <= i < |fs[1..]| && fs[1..][i] == (k, Lookup(fs[1..], k).value);
      assert fs[i + 1] == fs[1..][i];
    }
  }
}
