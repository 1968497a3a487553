/** `mergeObjects(target, source, allowDuplicates)`: the bundler's recursive merge of
    one JSON tree into another, as a pure function returning the merged target. */
module Merge {
  import opened Options
  import opened JsonValues
  import FirstOccurrence
  import Decimal

  // ---- Arrays ----

  /** The serialisations `findIndex` compares, one per element. */
  function Serialisations(xs: seq<Json>): (r: seq<Json>)
    ensures |r| == |xs| && forall i :: 0 <= i < |xs| ==> r[i] == Written(xs[i])
  {
    seq(|xs|, i requires 0 <= i < |xs| => Written(xs[i]))
  }

  /** Keeping the first element of every serialisation: the kept elements come from
      the input, and each is the first with its serialisation. */
  lemma DedupKept(xs: seq<Json>)
    ensures var ks := Serialisations(xs);
      var r := FirstOccurrence.KeepFirstBy(xs, ks);
      && (forall x :: x in r ==> x in xs)
      && (forall j :: 0 <= j < |r| ==> Written(r[j]) in ks && xs[FirstOccurrence.FirstHolderOf(ks, Written(r[j]))] == r[j])
  {
    var ks := Serialisations(xs);
    var ix := FirstOccurrence.FirstIndices(ks);
    var r := FirstOccurrence.KeepFirstBy(xs, ks);
    FirstOccurrence.KeepFirstByProperties(xs, ks);
    forall a | 0 <= a < |r|
      ensures Written(r[a]) in ks && xs[FirstOccurrence.FirstHolderOf(ks, Written(r[a]))] == r[a]
    {
      assert r[a] == xs[ix[a]] && Written(r[a]) == ks[ix[a]];
    }
    forall x | x in r
      ensures x in xs
    {
      var a :| 0 <= a < |r| && r[a] == x;
      assert r[a] == xs[ix[a]];
    }
  }

  /** Every serialisation of the input is kept. */
  lemma DedupCovers(xs: seq<Json>)
    ensures var ks := Serialisations(xs);
      var r := FirstOccurrence.KeepFirstBy(xs, ks);
      forall i :: 0 <= i < |xs| ==> exists j :: 0 <= j < |r| && Written(r[j]) == Written(xs[i])
  {
    var ks := Serialisations(xs);
    var ix := FirstOccurrence.FirstIndices(ks);
    var r := FirstOccurrence.KeepFirstBy(xs, ks);
    FirstOccurrence.KeepFirstByProperties(xs, ks);
    forall i | 0 <= i < |xs|
      ensures exists j :: 0 <= j < |r| && Written(r[j]) == Written(xs[i])
    {
      var a :| 0 <= a < |ix| && ks[ix[a]] == ks[i];
      assert r[a] == xs[ix[a]];
      assert Written(r[a]) == Written(xs[i]);
    }
  }

  /** The kept serialisations are pairwise distinct and in order of first appearance. */
  lemma DedupOrder(xs: seq<Json>)
    ensures var ks := Serialisations(xs);
      var r := FirstOccurrence.KeepFirstBy(xs, ks);
      && (forall j :: 0 <= j < |r| ==> Written(r[j]) in ks)
      && (forall i, j :: 0 <= i < j < |r| ==> Written(r[i]) != Written(r[j]))
      && (forall i, j :: 0 <= i < j < |r| ==>
            FirstOccurrence.FirstHolderOf(ks, Written(r[i])) < FirstOccurrence.FirstHolderOf(ks, Written(r[j])))
  {
    var ks := Serialisations(xs);
    var ix := FirstOccurrence.FirstIndices(ks);
    var r := FirstOccurrence.KeepFirstBy(xs, ks);
    FirstOccurrence.KeepFirstByProperties(xs, ks);
    forall a | 0 <= a < |r|
      ensures Written(r[a]) == ks[ix[a]] && Written(r[a]) in ks
    {
      assert r[a] == xs[ix[a]];
    }
  }

  /** Array into array: `target.concat(source)`, then, unless duplicates are allowed,
      only the first of every group of elements with the same `JSON.stringify` text
      is kept. Equal text means equal written forms (`Written`), which put
      index-named keys first. */
  function ConcatArrays(a: seq<Json>, b: seq<Json>, allowDuplicates: bool): (r: seq<Json>)
    ensures allowDuplicates ==> r == a + b
    ensures !allowDuplicates ==> forall x :: x in r ==> x in a + b
    ensures !allowDuplicates ==> forall i :: 0 <= i < |a + b| ==>
      exists j :: 0 <= j < |r| && Written(r[j]) == Written((a + b)[i])
    ensures !allowDuplicates ==> forall i, j :: 0 <= i < j < |r| ==> Written(r[i]) != Written(r[j])
    ensures !allowDuplicates ==> forall j :: 0 <= j < |r| ==>
      && Written(r[j]) in Serialisations(a + b)
      && (a + b)[FirstOccurrence.FirstHolderOf(Serialisations(a + b), Written(r[j]))] == r[j]
    ensures !allowDuplicates ==> forall i, j :: 0 <= i < j < |r| ==>
      FirstOccurrence.FirstHolderOf(Serialisations(a + b), Written(r[i]))
        < FirstOccurrence.FirstHolderOf(Serialisations(a + b), Written(r[j]))
  {
    if allowDuplicates then a + b
    else
      DedupKept(a + b);
      DedupCovers(a + b);
      DedupOrder(a + b);
      FirstOccurrence.KeepFirstBy(a + b, Serialisations(a + b))
  }

  /** `JSON.stringify` writes index-named keys first, so two objects that differ only
      in where such a key was written serialise alike, and the array merge keeps
      only the first of them. */
  lemma IndexKeysSerialiseFirst()
    ensures var x := JObj([("b", JNum(1)), ("1", JNum(2))]);
      var y := JObj([("1", JNum(2)), ("b", JNum(1))]);
      && x != y
      && Written(x) == Written(y)
      && ConcatArrays([x], [y], false) == [x]
  {
    var one := ("1", JNum(2));
    var bee := ("b", JNum(1));
    OneAndBee();
    WrittenPair(bee, one);
    WrittenPair(one, bee);
    assert JObj([bee, one]) != JObj([one, bee]) by {
      assert [bee, one][0] != [one, bee][0];
    }
    TwinsDedup(JObj([bee, one]), JObj([one, bee]));
  }

  /** `"1"` is an index name and `"b"` is not. */
  lemma OneAndBee()
    ensures IsIndexName("1") && !IsIndexName("b")
  {
    assert Decimal.ParseNat("b") == None;
    assert Decimal.ParseNat("1") == Some(1);
  }

  /** Of two values written alike, the deduplication keeps the first alone. */
  lemma TwinsDedup(x: Json, y: Json)
    requires Written(x) == Written(y)
    ensures ConcatArrays([x], [y], false) == [x]
  {
    var xs := [x] + [y];
    var ks := Serialisations(xs);
    FirstOfTwins(ks);
    var kept := FirstOccurrence.KeepFirstBy(xs, ks);
    assert kept == [xs[0]];
    assert ConcatArrays([x], [y], false) == kept;
  }

  /** In a pair of equal keys only the first position is a first occurrence. */
  lemma FirstOfTwins<K>(ks: seq<K>)
    requires |ks| == 2 && ks[0] == ks[1]
    ensures FirstOccurrence.FirstIndices(ks) == [0]
  {
    assert ks[..1] == [ks[0]];
    assert FirstOccurrence.FirstIndices(ks[..1]) == [0];
    assert ks[..2][..1] == ks[..1];
    assert ks[..2] == ks;
  }

  /** The written form of a two-field object of numbers. */
  lemma WrittenPair(f: (string, Json), g: (string, Json))
    requires f.1.JNum? && g.1.JNum?
    requires IsIndexName(f.0) != IsIndexName(g.0)
    ensures Written(JObj([f, g])) ==
      if IsIndexName(f.0) then JObj([f, g]) else JObj([g, f])
  {
    var fs := [f, g];
    var ws := seq(|fs|, i requires 0 <= i < |fs| => (fs[i].0, Written(fs[i].1)));
    assert ws == fs;
    assert fs[1..] == [g] && fs[1..][1..] == [];
    assert IndexFields([]) == [] && NamedFields([]) == [];
    if IsIndexName(f.0) {
      assert IndexFields([g]) == [];
      assert NamedFields([g]) == [g];
      assert IndexFields(fs) == InsertByIndex(f, []) == [f];
      assert NamedFields(fs) == [g];
    } else {
      assert IndexFields([g]) == InsertByIndex(g, []) == [g];
      assert NamedFields([g]) == [];
      assert IndexFields(fs) == [g];
      assert NamedFields(fs) == [f];
    }
  }

  /** Without index-named keys, the deduplication compares plain values: the
      result has no repeated value and holds exactly the values of both arrays. */
  lemma PlainArraysDedupByValue(a: seq<Json>, b: seq<Json>)
    requires forall x :: x in a + b ==> NoIndexNames(x)
    ensures var r := ConcatArrays(a, b, false);
      && (forall x :: x in r <==> x in a + b)
      && (forall i, j :: 0 <= i < j < |r| ==> r[i] != r[j])
  {
    var r := ConcatArrays(a, b, false);
    forall x | x in a + b
      ensures x in r
    {
      var i :| 0 <= i < |a + b| && (a + b)[i] == x;
      var j :| 0 <= j < |r| && Written(r[j]) == Written((a + b)[i]);
      WrittenPlain(x);
      WrittenPlain(r[j]);
    }
    forall i, j | 0 <= i < j < |r|
      ensures r[i] != r[j]
    {
      WrittenPlain(r[i]);
      WrittenPlain(r[j]);
    }
  }

  // ---- The per-key rule ----

  /** The methods every object inherits from `Object.prototype`. On an object
      without an own property of such a name, `target[name]` is a function. */
  const InheritedMethods: set<string> := {
    "constructor", "hasOwnProperty", "isPrototypeOf", "propertyIsEnumerable",
    "toLocaleString", "toString", "valueOf",
    "__defineGetter__", "__defineSetter__", "__lookupGetter__", "__lookupSetter__"
  }

  /** What `target[key]` evaluates to: `undefined`, an inherited method, or an own
      value. */
  datatype Slot = Absent | Method | Own(value: Json)

  /** `target[key]` for the object targets of the merge. The key `__proto__`,
      which reads the target's prototype, is treated like any other name. */
  function Read(target: Json, key: string): Slot {
    match Prop(target, key)
    case Some(v) => Own(v)
    case None => if key in InheritedMethods then Method else Absent
  }

  /** A source key the loop can write to a target that lacks it: any key when
      duplicates are allowed, otherwise one that does not name an inherited method. */
  predicate Assignable(key: string, allowDuplicates: bool) {
    allowDuplicates || key !in InheritedMethods
  }

  /** Both sides are merged rather than assigned: the target value is truthy with
      `typeof 'object'` and the source value has `typeof 'object'` (possibly `null`).
      An inherited method has `typeof 'function'`. */
  predicate Mergeable(tv: Slot, sv: Json) {
    tv.Own? && IsContainer(tv.value) && IsObjectType(sv)
  }

  /** The assignment rule for everything else: write the source value when the target
      has no truthy value there, or when duplicates are allowed; otherwise leave it.
      An inherited method is truthy. */
  function Overwrite(tv: Slot, sv: Json, allowDuplicates: bool): Option<Json> {
    if tv.Absent? || (tv.Own? && !Truthy(tv.value)) || allowDuplicates then Some(sv) else None
  }

  /** What happens to one key: `Some(v)` when `target[key]` becomes `v`, `None` when the
      target keeps what it has. */
  function Combine(tv: Slot, sv: Json, allowDuplicates: bool): Option<Json>
    decreases sv, 2
  {
    if Mergeable(tv, sv) then
      if tv.value.JArr? && sv.JArr? then
        Some(JArr(ConcatArrays(tv.value.elems, sv.elems, allowDuplicates)))
      else
        Some(MergeObjects(tv.value, sv, allowDuplicates))
    else
      Overwrite(tv, sv, allowDuplicates)
  }

  /** Merges every enumerable property of `source` into `target`, in iteration order.
      A target that is not an object is returned as it is. */
  function MergeObjects(target: Json, source: Json, allowDuplicates: bool): Json
    decreases source, 1
  {
    if target.JObj? then MergeFrom(target, source, 0, allowDuplicates) else target
  }

  /** The `for..in` loop from the `k`-th property of `source` on. */
  function MergeFrom(target: Json, source: Json, k: nat, allowDuplicates: bool): (r: Json)
    requires target.JObj? && k <= |Entries(source)|
    ensures r.JObj?
    decreases source, 0, |Entries(source)| - k
  {
    if k == |Entries(source)| then target
    else
      var key := Entries(source)[k].0;
      var sv := Entries(source)[k].1;
      var tv := Read(target, key);
      var w :=
        if IsObjectType(sv) then
          EntrySmaller(source, k);
          Combine(tv, sv, allowDuplicates)
        else
          Overwrite(tv, sv, allowDuplicates);
      var next := if w.Some? then SetProp(target, key, w.value) else target;
      MergeFrom(next, source, k + 1, allowDuplicates)
  }

  /** The value a key ends up with, given what the target held and what was decided. */
  function Resolve(tv: Option<Json>, w: Option<Json>): Option<Json> {
    if w.Some? then w else tv
  }

  /** Every key, whatever it holds, ends with the per-key rule applied once to its
      original target value and its source value; keys the source lacks keep their
      value. Needs the source's property names to be distinct, as they are in every
      object and array. */
  lemma {:induction false} MergeFromAt(target: Json, source: Json, k: nat, allowDuplicates: bool, key: string)
    requires target.JObj? && k <= |Entries(source)|
    requires DistinctKeys(Entries(source))
    ensures Prop(MergeFrom(target, source, k, allowDuplicates), key) ==
      match Lookup(Entries(source)[k..], key)
      case None => Prop(target, key)
      case Some(sv) => Resolve(Prop(target, key), Combine(Read(target, key), sv, allowDuplicates))
    decreases |Entries(source)| - k
  {
    var es := Entries(source);
    if k < |es| {
      var k0 := es[k].0;
      var sv := es[k].1;
      var tv := Read(target, k0);
      var w := Combine(tv, sv, allowDuplicates);
      assert w == if IsObjectType(sv) then Combine(tv, sv, allowDuplicates) else Overwrite(tv, sv, allowDuplicates);
      var next := if w.Some? then SetProp(target, k0, w.value) else target;
      assert MergeFrom(target, source, k, allowDuplicates) == MergeFrom(next, source, k + 1, allowDuplicates);
      MergeFromAt(next, source, k + 1, allowDuplicates, key);
      assert es[k..][1..] == es[k + 1..];
      if w.Some? {
        LookupUpdate(target.fields, k0, w.value, key);
      }
      if key == k0 {
        LaterKeysDiffer(es, k);
      }
    }
  }

  /** With distinct keys, the key at position `k` does not occur after it. */
  lemma LaterKeysDiffer(es: seq<(string, Json)>, k: nat)
    requires k < |es| && DistinctKeys(es)
    ensures Lookup(es[k + 1..], es[k].0).None?
  {
    var rest := es[k + 1..];
    forall i | 0 <= i < |rest|
      ensures Keys(rest)[i] != es[k].0
    {
      assert rest[i] == es[k + 1 + i];
    }
  }

  /** The per-key statement for the whole merge. */
  lemma MergeObjectsAt(target: Json, source: Json, allowDuplicates: bool, key: string)
    requires target.JObj? && DistinctKeys(Entries(source))
    ensures Prop(MergeObjects(target, source, allowDuplicates), key) ==
      match Lookup(Entries(source), key)
      case None => Prop(target, key)
      case Some(sv) => Resolve(Prop(target, key), Combine(Read(target, key), sv, allowDuplicates))
  {
    MergeFromAt(target, source, 0, allowDuplicates, key);
    assert Entries(source)[0..] == Entries(source);
  }

  /** When the rule leaves a key alone, the target already had that key, or the key
      names an inherited method and duplicates are not allowed. */
  lemma KeepOnlyExisting(tv: Slot, sv: Json, allowDuplicates: bool)
    ensures Combine(tv, sv, allowDuplicates).None? ==> tv.Own? || (tv.Method? && !allowDuplicates)
    ensures Overwrite(tv, sv, allowDuplicates).None? ==> tv.Own? || (tv.Method? && !allowDuplicates)
  {
  }

  /** No key is removed or moved: the target's keys stay a prefix, in their order.
      Afterwards a key is present exactly when the target had it or the source has
      it and it is assignable. */
  lemma {:induction false} MergeFromKeys(target: Json, source: Json, k: nat, allowDuplicates: bool)
    requires target.JObj? && k <= |Entries(source)|
    ensures var r := MergeFrom(target, source, k, allowDuplicates);
      && Keys(target.fields) <= Keys(r.fields)
      && forall key :: key in Keys(r.fields) <==>
           key in Keys(target.fields) || (key in Keys(Entries(source)[k..]) && Assignable(key, allowDuplicates))
    decreases |Entries(source)| - k
  {
    var es := Entries(source);
    if k < |es| {
      var k0 := es[k].0;
      var sv := es[k].1;
      var tv := Read(target, k0);
      var w := if IsObjectType(sv) then Combine(tv, sv, allowDuplicates) else Overwrite(tv, sv, allowDuplicates);
      KeepOnlyExisting(tv, sv, allowDuplicates);
      var next := if w.Some? then SetProp(target, k0, w.value) else target;
      assert MergeFrom(target, source, k, allowDuplicates) == MergeFrom(next, source, k + 1, allowDuplicates);
      assert w.Some? && k0 !in Keys(target.fields) ==> Assignable(k0, allowDuplicates);
      assert w.None? ==> k0 in Keys(target.fields) || !Assignable(k0, allowDuplicates);
      StepKeys(target, k0, w);
      MergeFromKeys(next, source, k + 1, allowDuplicates);
      assert Keys(es[k..]) == [k0] + Keys(es[k + 1..]);
    }
  }

  /** One assignment of the loop, or none: the old keys stay a prefix and only the
      assigned key can be new. */
  lemma StepKeys(target: Json, k0: string, w: Option<Json>)
    requires target.JObj?
    ensures var next := if w.Some? then SetProp(target, k0, w.value) else target;
      && next.JObj?
      && Keys(target.fields) <= Keys(next.fields)
      && forall key :: key in Keys(next.fields) <==> key in Keys(target.fields) || (key == k0 && w.Some?)
  {
    if w.Some? {
      KeysUpdate(target.fields, k0, w.value);
    }
  }

  lemma MergeObjectsKeys(target: Json, source: Json, allowDuplicates: bool)
    requires target.JObj?
    ensures var r := MergeObjects(target, source, allowDuplicates);
      && r.JObj?
      && Keys(target.fields) <= Keys(r.fields)
      && forall key :: key in Keys(r.fields) <==>
           key in Keys(target.fields) || (key in Keys(Entries(source)) && Assignable(key, allowDuplicates))
  {
    MergeFromKeys(target, source, 0, allowDuplicates);
    assert Entries(source)[0..] == Entries(source);
  }

  /** A source key that names an inherited method is never added without duplicates
      allowed: `target[key]` is a truthy function there. */
  lemma InheritedNamesSkipped(target: Json, source: Json, key: string)
    requires target.JObj? && Prop(target, key).None? && key in InheritedMethods
    ensures Prop(MergeObjects(target, source, false), key).None?
  {
    MergeObjectsKeys(target, source, false);
  }

  /** Keys the source does not mention keep their value. */
  lemma {:induction false} MergeFromUntouched(target: Json, source: Json, k: nat, allowDuplicates: bool, key: string)
    requires target.JObj? && k <= |Entries(source)|
    requires key !in Keys(Entries(source)[k..])
    ensures Prop(MergeFrom(target, source, k, allowDuplicates), key) == Prop(target, key)
    decreases |Entries(source)| - k
  {
    var es := Entries(source);
    if k < |es| {
      var k0 := es[k].0;
      var sv := es[k].1;
      var tv := Read(target, k0);
      var w := if IsObjectType(sv) then Combine(tv, sv, allowDuplicates) else Overwrite(tv, sv, allowDuplicates);
      var next := if w.Some? then SetProp(target, k0, w.value) else target;
      assert MergeFrom(target, source, k, allowDuplicates) == MergeFrom(next, source, k + 1, allowDuplicates);
      assert Keys(es[k..]) == [k0] + Keys(es[k + 1..]);
      MergeFromUntouched(next, source, k + 1, allowDuplicates, key);
      if w.Some? {
        LookupUpdate(target.fields, k0, w.value, key);
      }
    }
  }

  lemma MergeObjectsUntouched(target: Json, source: Json, allowDuplicates: bool, key: string)
    requires target.JObj? && key !in Keys(Entries(source))
    ensures Prop(MergeObjects(target, source, allowDuplicates), key) == Prop(target, key)
  {
    assert Entries(source)[0..] == Entries(source);
    MergeFromUntouched(target, source, 0, allowDuplicates, key);
  }

  /** A merge never gives an object a repeated key. */
  lemma {:induction false} MergeFromDistinct(target: Json, source: Json, k: nat, allowDuplicates: bool)
    requires target.JObj? && k <= |Entries(source)| && DistinctKeys(target.fields)
    ensures DistinctKeys(MergeFrom(target, source, k, allowDuplicates).fields)
    decreases |Entries(source)| - k
  {
    var es := Entries(source);
    if k < |es| {
      var k0 := es[k].0;
      var sv := es[k].1;
      var tv := Read(target, k0);
      var w := if IsObjectType(sv) then Combine(tv, sv, allowDuplicates) else Overwrite(tv, sv, allowDuplicates);
      var next := if w.Some? then SetProp(target, k0, w.value) else target;
      assert MergeFrom(target, source, k, allowDuplicates) == MergeFrom(next, source, k + 1, allowDuplicates);
      if w.Some? {
        UpdateDistinct(target.fields, k0, w.value);
      }
      MergeFromDistinct(next, source, k + 1, allowDuplicates);
    }
  }

  /** First writer wins: a truthy target value that is not merged with the source
      value (they are not both containers) survives, unless duplicates are allowed. */
  lemma FirstWriterWins(target: Json, source: Json, key: string, tv: Json, sv: Json)
    requires target.JObj? && DistinctKeys(Entries(source))
    requires Prop(target, key) == Some(tv) && Truthy(tv)
    requires Lookup(Entries(source), key) == Some(sv)
    requires !(IsContainer(tv) && IsObjectType(sv))
    ensures Prop(MergeObjects(target, source, false), key) == Some(tv)
  {
    MergeObjectsAt(target, source, false, key);
  }

  /** A key the target lacks, or holds a falsy value for, takes the source value,
      unless the target lacks it and it names an inherited method while duplicates
      are not allowed. */
  lemma SourceFillsGap(target: Json, source: Json, key: string, sv: Json, allowDuplicates: bool)
    requires target.JObj? && DistinctKeys(Entries(source))
    requires Prop(target, key).None? || !Truthy(Prop(target, key).value)
    requires Lookup(Entries(source), key) == Some(sv)
    ensures Prop(MergeObjects(target, source, allowDuplicates), key) ==
      if Prop(target, key).None? && !Assignable(key, allowDuplicates) then None else Some(sv)
  {
    MergeObjectsAt(target, source, allowDuplicates, key);
  }

  /** Two arrays under the same key are concatenated, then deduplicated unless
      duplicates are allowed. */
  lemma ArraysAtKey(target: Json, source: Json, key: string, a: seq<Json>, b: seq<Json>, allowDuplicates: bool)
    requires target.JObj? && DistinctKeys(Entries(source))
    requires Prop(target, key) == Some(JArr(a))
    requires Lookup(Entries(source), key) == Some(JArr(b))
    ensures Prop(MergeObjects(target, source, allowDuplicates), key) == Some(JArr(ConcatArrays(a, b, allowDuplicates)))
    ensures allowDuplicates ==> Prop(MergeObjects(target, source, allowDuplicates), key) == Some(JArr(a + b))
  {
    MergeObjectsAt(target, source, allowDuplicates, key);
  }

  /** Two objects under the same key are merged recursively. */
  lemma ObjectsAtKey(target: Json, source: Json, key: string, t: Json, s: Json, allowDuplicates: bool)
    requires target.JObj? && DistinctKeys(Entries(source))
    requires Prop(target, key) == Some(t) && t.JObj?
    requires Lookup(Entries(source), key) == Some(s) && IsObjectType(s)
    ensures Prop(MergeObjects(target, source, allowDuplicates), key) == Some(MergeObjects(t, s, allowDuplicates))
  {
    MergeObjectsAt(target, source, allowDuplicates, key);
  }

  /** Merging is order-sensitive: merging `first` and then `second` into a target that
      lacks the key keeps the value from `first` when the two are not merged. A key
      that names an inherited method gets neither value. */
  lemma EarlierSourceWins(target: Json, first: Json, second: Json, key: string, a: Json, b: Json)
    requires target.JObj? && Prop(target, key).None?
    requires DistinctKeys(Entries(first)) && DistinctKeys(Entries(second))
    requires Lookup(Entries(first), key) == Some(a) && Truthy(a)
    requires Lookup(Entries(second), key) == Some(b)
    requires !(IsContainer(a) && IsObjectType(b))
    ensures Prop(MergeObjects(MergeObjects(target, first, false), second, false), key) ==
      if key in InheritedMethods then None else Some(a)
  {
    SourceFillsGap(target, first, key, a, false);
    var mid := MergeObjects(target, first, false);
    MergeObjectsKeys(target, first, false);
    if key in InheritedMethods {
      SourceFillsGap(mid, second, key, b, false);
    } else {
      FirstWriterWins(mid, second, key, a, b);
    }
  }
}
