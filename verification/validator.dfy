/** `OpenAPIValidator`: a depth-first structural lint over a parsed OpenAPI document
    that collects blocking problems and advisory warnings. The validator object's
    `reset` followed by `checkObject` from the root is modelled as one pure function
    that starts from empty lists. */
module Validator {
  import opened Options
  import opened JsonValues
  import opened Strings
  import Decimal

  /** The values check 6 accepts for `type`. */
  const ValidTypes: seq<string> := ["string", "number", "integer", "boolean", "array", "object", "null"]

  /** Siblings whose presence marks a `type` as a schema keyword rather than data. */
  const SchemaSiblings: seq<string> :=
    ["properties", "items", "format", "enum", "$ref", "allOf", "oneOf", "anyOf", "description", "nullable"]

  datatype ProblemKind =
    | ArrayWithoutItems
    | LooseArrayItems
    | EmptyComposition(key: string)
    | RefNotString
    | InvalidType(name: string)
    | EmptyEnum
    | RequiredNotArray
    | RequiredEntryNotString(index: nat)

  /** A blocking finding of the check `kind` on the node at path `node`. */
  datatype Problem = Problem(node: string, kind: ProblemKind)

  /** What the message appends to the node's path to name the offending place. */
  function Suffix(kind: ProblemKind): string {
    match kind
    case ArrayWithoutItems => ""
    case LooseArrayItems => ".items"
    case EmptyComposition(key) => "." + key
    case RefNotString => ".$ref"
    case InvalidType(_) => ".type"
    case EmptyEnum => ".enum"
    case RequiredNotArray => ".required"
    case RequiredEntryNotString(i) => ".required[" + Decimal.NatToString(i) + "]"
  }

  /** The location a problem's message names. */
  function Location(p: Problem): string {
    p.node + Suffix(p.kind)
  }

  /** The one advisory finding: an empty `properties` map. */
  datatype Warning = EmptyProperties(at: string)

  datatype Findings = Findings(problems: seq<Problem>, warnings: seq<Warning>)

  function NoFindings(): Findings {
    Findings([], [])
  }

  /** Findings pushed by `a` and then by `b`. */
  function Then(a: Findings, b: Findings): Findings {
    Findings(a.problems + b.problems, a.warnings + b.warnings)
  }

  /** Every finding of `a` is also a finding of `b`. */
  predicate Within(a: Findings, b: Findings) {
    (forall p :: p in a.problems ==> p in b.problems) && (forall w :: w in a.warnings ==> w in b.warnings)
  }

  // ---- The eight checks, each as the condition under which it fires ----

  /** Check 1: `type` is `"array"` and `items` is falsy. */
  predicate ArrayLacksItems(obj: Json) {
    Prop(obj, "type") == Some(JStr("array")) && !PropTruthy(obj, "items")
  }

  predicate HasNonEmptyProperties(node: Json) {
    PropTruthy(node, "properties") && KeyCount(Prop(node, "properties").value) > 0
  }

  predicate HasReference(node: Json) {
    PropTruthy(node, "$ref") || PropTruthy(node, "allOf") || PropTruthy(node, "oneOf") || PropTruthy(node, "anyOf")
  }

  /** An `items` schema of type object described only by `additionalProperties: true`. */
  predicate OnlyAdditionalProperties(items: Json) {
    && Prop(items, "type") == Some(JStr("object"))
    && !HasNonEmptyProperties(items)
    && !HasReference(items)
    && Prop(items, "additionalProperties") == Some(JBool(true))
  }

  /** Check 2 */
  predicate LooseItems(obj: Json) {
    PropTruthy(obj, "items") && OnlyAdditionalProperties(Prop(obj, "items").value)
  }

  /** Check 3 (advisory): `properties` is truthy and has no keys. */
  predicate PropertiesEmpty(obj: Json) {
    PropTruthy(obj, "properties") && KeyCount(Prop(obj, "properties").value) == 0
  }

  predicate IsNonEmptyArray(v: Json) {
    v.JArr? && |v.elems| > 0
  }

  /** Checks 4 and 7: the property is truthy but not a non-empty array. */
  predicate BadList(obj: Json, key: string) {
    PropTruthy(obj, key) && !IsNonEmptyArray(Prop(obj, key).value)
  }

  /** Check 5: `$ref` is truthy and not a string. */
  predicate RefBad(obj: Json) {
    PropTruthy(obj, "$ref") && !Prop(obj, "$ref").value.JStr?
  }

  predicate HasAny(obj: Json, keys: seq<string>) {
    exists i :: 0 <= i < |keys| && Has(obj, keys[i])
  }

  /** The heuristic that tells a schema `type` from a business field called `type`. */
  predicate InSchemaPosition(obj: Json, path: string) {
    HasAny(obj, SchemaSiblings) || EndsWith(path, ".schema") || Contains(path, ".schemas.")
  }

  /** Check 6 is evaluated: `type` is a non-empty string, the path is not inside an
      example, and the node is in schema position. */
  predicate TypeCheckApplies(obj: Json, path: string) {
    && PropTruthy(obj, "type")
    && Prop(obj, "type").value.JStr?
    && !Contains(path, ".example")
    && InSchemaPosition(obj, path)
  }

  /** Check 6 */
  predicate TypeBad(obj: Json, path: string) {
    TypeCheckApplies(obj, path) && Prop(obj, "type").value.s !in ValidTypes
  }

  /** The node looks like a schema object. */
  predicate SchemaContext(obj: Json) {
    || PropTruthy(obj, "properties")
    || Prop(obj, "type") == Some(JStr("object"))
    || (PropTruthy(obj, "type") && Prop(obj, "type") != Some(JStr("array")))
  }

  /** Paths where `required` is the boolean flag of a request body or parameter. */
  predicate BooleanRequiredContext(path: string) {
    Contains(path, ".requestBody") || (Contains(path, ".parameters.") && !Contains(path, ".schema"))
  }

  /** Check 8 is evaluated. */
  predicate RequiredApplies(obj: Json, path: string) {
    Has(obj, "required") && SchemaContext(obj) && !BooleanRequiredContext(path)
  }

  /** The `forEach` over an array `required`: one problem per non-string entry, in
      index order. */
  function NonStringEntries(es: seq<Json>, path: string): (r: seq<Problem>)
    ensures forall j :: 0 <= j < |r| ==>
      && r[j].kind.RequiredEntryNotString?
      && r[j].kind.index < |es|
      && !es[r[j].kind.index].JStr?
      && r[j].node == path
    ensures forall i :: 0 <= i < |es| && !es[i].JStr? ==> Problem(path, RequiredEntryNotString(i)) in r
    ensures forall a, b :: 0 <= a < b < |r| ==> r[a].kind.index < r[b].kind.index
    decreases |es|
  {
    if |es| == 0 then []
    else
      var n := |es| - 1;
      var front := NonStringEntries(es[..n], path);
      front + (if es[n].JStr? then [] else [Problem(path, RequiredEntryNotString(n))])
  }

  /** Check 8 */
  function RequiredProblems(obj: Json, path: string): (r: seq<Problem>)
    ensures !RequiredApplies(obj, path) ==> r == []
    ensures RequiredApplies(obj, path) && !Prop(obj, "required").value.JArr? ==>
      r == [Problem(path, RequiredNotArray)]
    ensures RequiredApplies(obj, path) && Prop(obj, "required").value.JArr? ==>
      r == NonStringEntries(Prop(obj, "required").value.elems, path)
    ensures forall p :: p in r ==> p.kind.RequiredNotArray? || p.kind.RequiredEntryNotString?
  {
    if !RequiredApplies(obj, path) then []
    else
      match Prop(obj, "required").value
      case JArr(es) => NonStringEntries(es, path)
      case _ => [Problem(path, RequiredNotArray)]
  }

  function When(c: bool, p: Problem): seq<Problem> {
    if c then [p] else []
  }

  /** The blocking findings of one node, in the order the checks push them. */
  function NodeProblems(obj: Json, path: string): (r: seq<Problem>)
    ensures !obj.JObj? ==> r == []
  {
    Checks1To5(obj, path) + TypeProblems(obj, path) + When(BadList(obj, "enum"), Problem(path, EmptyEnum))
    + RequiredProblems(obj, path)
  }

  /** Checks 1, 2, 4 and 5. */
  function Checks1To5(obj: Json, path: string): seq<Problem> {
    When(ArrayLacksItems(obj), Problem(path, ArrayWithoutItems))
    + When(LooseItems(obj), Problem(path, LooseArrayItems))
    + When(BadList(obj, "allOf"), Problem(path, EmptyComposition("allOf")))
    + When(BadList(obj, "oneOf"), Problem(path, EmptyComposition("oneOf")))
    + When(BadList(obj, "anyOf"), Problem(path, EmptyComposition("anyOf")))
    + When(RefBad(obj), Problem(path, RefNotString))
  }

  /** Check 6 */
  function TypeProblems(obj: Json, path: string): seq<Problem> {
    if TypeBad(obj, path) then [Problem(path, InvalidType(Prop(obj, "type").value.s))] else []
  }

  lemma WhenIn(c: bool, q: Problem, p: Problem)
    ensures p in When(c, q) <==> c && p == q
  {
  }

  /** A problem of a kind that checks 6 and 8 never report is among the node's
      problems exactly when one of checks 1, 2, 4, 5 or 7 fires with that problem. */
  lemma OtherKinds(obj: Json, path: string, p: Problem)
    requires !p.kind.InvalidType? && !p.kind.RequiredNotArray? && !p.kind.RequiredEntryNotString?
    ensures p in NodeProblems(obj, path) <==>
      || (ArrayLacksItems(obj) && p == Problem(path, ArrayWithoutItems))
      || (LooseItems(obj) && p == Problem(path, LooseArrayItems))
      || (BadList(obj, "allOf") && p == Problem(path, EmptyComposition("allOf")))
      || (BadList(obj, "oneOf") && p == Problem(path, EmptyComposition("oneOf")))
      || (BadList(obj, "anyOf") && p == Problem(path, EmptyComposition("anyOf")))
      || (RefBad(obj) && p == Problem(path, RefNotString))
      || (BadList(obj, "enum") && p == Problem(path, EmptyEnum))
  {
    assert p !in TypeProblems(obj, path);
    assert p !in RequiredProblems(obj, path);
    EarlyChecksIn(obj, path, p);
    WhenIn(BadList(obj, "enum"), Problem(path, EmptyEnum), p);
  }

  /** Membership in the problems of checks 1, 2, 4 and 5, check by check. */
  lemma EarlyChecksIn(obj: Json, path: string, p: Problem)
    ensures p in Checks1To5(obj, path) <==>
      || (ArrayLacksItems(obj) && p == Problem(path, ArrayWithoutItems))
      || (LooseItems(obj) && p == Problem(path, LooseArrayItems))
      || (BadList(obj, "allOf") && p == Problem(path, EmptyComposition("allOf")))
      || (BadList(obj, "oneOf") && p == Problem(path, EmptyComposition("oneOf")))
      || (BadList(obj, "anyOf") && p == Problem(path, EmptyComposition("anyOf")))
      || (RefBad(obj) && p == Problem(path, RefNotString))
  {
    WhenIn(ArrayLacksItems(obj), Problem(path, ArrayWithoutItems), p);
    WhenIn(LooseItems(obj), Problem(path, LooseArrayItems), p);
    WhenIn(BadList(obj, "allOf"), Problem(path, EmptyComposition("allOf")), p);
    WhenIn(BadList(obj, "oneOf"), Problem(path, EmptyComposition("oneOf")), p);
    WhenIn(BadList(obj, "anyOf"), Problem(path, EmptyComposition("anyOf")), p);
    WhenIn(RefBad(obj), Problem(path, RefNotString), p);
  }

  /** Each of checks 1, 2, 4, 5 and 7 reports its problem exactly when its condition
      holds. */
  lemma NodeProblemsFire(obj: Json, path: string)
    ensures var r := NodeProblems(obj, path);
      && (Problem(path, ArrayWithoutItems) in r <==> ArrayLacksItems(obj))
      && (Problem(path, LooseArrayItems) in r <==> LooseItems(obj))
      && (Problem(path, EmptyComposition("allOf")) in r <==> BadList(obj, "allOf"))
      && (Problem(path, EmptyComposition("oneOf")) in r <==> BadList(obj, "oneOf"))
      && (Problem(path, EmptyComposition("anyOf")) in r <==> BadList(obj, "anyOf"))
      && (Problem(path, RefNotString) in r <==> RefBad(obj))
      && (Problem(path, EmptyEnum) in r <==> BadList(obj, "enum"))
  {
    OtherKinds(obj, path, Problem(path, ArrayWithoutItems));
    OtherKinds(obj, path, Problem(path, LooseArrayItems));
    OtherKinds(obj, path, Problem(path, EmptyComposition("allOf")));
    OtherKinds(obj, path, Problem(path, EmptyComposition("oneOf")));
    OtherKinds(obj, path, Problem(path, EmptyComposition("anyOf")));
    OtherKinds(obj, path, Problem(path, RefNotString));
    OtherKinds(obj, path, Problem(path, EmptyEnum));
  }

  /** Check 6 reports an invalid type only where the heuristic applies, with the
      node's own `type`, and always does so when that `type` is not a valid one. */
  lemma NodeTypeProblems(obj: Json, path: string)
    ensures forall p :: p in NodeProblems(obj, path) && p.kind.InvalidType? ==>
      && p.node == path
      && TypeCheckApplies(obj, path)
      && Prop(obj, "type") == Some(JStr(p.kind.name))
      && p.kind.name !in ValidTypes
    ensures TypeBad(obj, path) ==>
      Problem(path, InvalidType(Prop(obj, "type").value.s)) in NodeProblems(obj, path)
  {
    var c := Checks1To5(obj, path);
    var q := RequiredProblems(obj, path);
    assert forall p :: p in c ==> !p.kind.InvalidType?;
    assert forall p :: p in q ==> !p.kind.InvalidType?;
  }

  /** Check 8 reports only where it applies. */
  lemma NodeRequiredProblems(obj: Json, path: string)
    ensures forall p :: p in NodeProblems(obj, path) && (p.kind.RequiredNotArray? || p.kind.RequiredEntryNotString?) ==>
      RequiredApplies(obj, path)
  {
    EarlyKinds(obj, path);
    var r := RequiredProblems(obj, path);
    forall p | p in NodeProblems(obj, path) && (p.kind.RequiredNotArray? || p.kind.RequiredEntryNotString?)
      ensures RequiredApplies(obj, path)
    {
      assert p in r;
    }
  }

  /** Check 8 at one node, in both directions: a problem about `required` is
      reported exactly when the check applies there and `required` is not an
      array, or is an array whose entry at the problem's index is not a string. It
      is reported at the node itself. */
  lemma RequiredProblemsExactly(obj: Json, path: string, p: Problem)
    ensures p.kind.RequiredNotArray? || p.kind.RequiredEntryNotString? ==>
      (p in NodeProblems(obj, path) <==>
        && p.node == path
        && RequiredApplies(obj, path)
        && (p.kind.RequiredNotArray? ==> !Prop(obj, "required").value.JArr?)
        && (p.kind.RequiredEntryNotString? ==>
              && Prop(obj, "required").value.JArr?
              && p.kind.index < |Prop(obj, "required").value.elems|
              && !Prop(obj, "required").value.elems[p.kind.index].JStr?))
  {
    if p.kind.RequiredNotArray? || p.kind.RequiredEntryNotString? {
      EarlyKinds(obj, path);
      var early := Checks1To5(obj, path) + TypeProblems(obj, path) + When(BadList(obj, "enum"), Problem(path, EmptyEnum));
      var r := RequiredProblems(obj, path);
      assert NodeProblems(obj, path) == early + r;
      assert p !in early;
      assert p in NodeProblems(obj, path) <==> p in r;
    }
  }

  /** Checks 1, 2, 4, 5 and 7 report only problems of their own kinds, at the node. */
  lemma EarlyKinds(obj: Json, path: string)
    ensures forall p :: p in Checks1To5(obj, path) + TypeProblems(obj, path) + When(BadList(obj, "enum"), Problem(path, EmptyEnum)) ==>
      p.node == path && !p.kind.RequiredNotArray? && !p.kind.RequiredEntryNotString?
  {
    forall p | p in Checks1To5(obj, path) + TypeProblems(obj, path) + When(BadList(obj, "enum"), Problem(path, EmptyEnum))
      ensures p.node == path && !p.kind.RequiredNotArray? && !p.kind.RequiredEntryNotString?
    {
      EarlyChecksIn(obj, path, p);
      WhenIn(BadList(obj, "enum"), Problem(path, EmptyEnum), p);
    }
  }

  /** A node that holds none of the keys checks 1, 2, 4, 5 and 7 read, whose `type`
      is not "array", and where checks 6 and 8 stay silent, reports nothing. */
  lemma QuietNode(obj: Json, path: string)
    requires !Has(obj, "items") && !Has(obj, "allOf") && !Has(obj, "oneOf") && !Has(obj, "anyOf")
    requires !Has(obj, "$ref") && !Has(obj, "enum")
    requires Prop(obj, "type") != Some(JStr("array"))
    requires !TypeBad(obj, path) && !RequiredApplies(obj, path)
    ensures NodeProblems(obj, path) == []
  {
    assert Checks1To5(obj, path) == [];
  }

  /** A `type` naming one of the valid types is never an invalid-type problem. */
  lemma ValidTypeNotBad(obj: Json, path: string, i: nat)
    requires i < |ValidTypes| && Prop(obj, "type") == Some(JStr(ValidTypes[i]))
    ensures !TypeBad(obj, path)
  {
  }

  /** The advisory findings of one node: at most one, for an empty `properties`. */
  function NodeWarnings(obj: Json, path: string): (r: seq<Warning>)
    ensures |r| <= 1
    ensures r != [] <==> PropertiesEmpty(obj)
    ensures forall w :: w in r ==> w == EmptyProperties(path)
  {
    if PropertiesEmpty(obj) then [EmptyProperties(path)] else []
  }

  function NodeFindings(obj: Json, path: string): Findings {
    Findings(NodeProblems(obj, path), NodeWarnings(obj, path))
  }

  /** The nodes `checkObject(v, path)` runs its checks on, each with the path it
      carries, in the order it reaches them: nothing for a value that is not a truthy
      object, otherwise the node itself, then the nodes below every truthy object or
      array child, in iteration order, under `path.key`. */
  function Visits(v: Json, path: string): (r: seq<(Json, string)>)
    ensures !IsContainer(v) ==> r == []
    ensures IsContainer(v) ==> |r| > 0 && r[0] == (v, path)
    decreases v, 1
  {
    if !IsContainer(v) then []
    else [(v, path)] + VisitsFrom(v, path, 0)
  }

  /** The recursion loop over `Object.entries(v)` from the `k`-th entry on. */
  function VisitsFrom(v: Json, path: string, k: nat): seq<(Json, string)>
    requires k <= |Entries(v)|
    decreases v, 0, |Entries(v)| - k
  {
    if k == |Entries(v)| then []
    else
      var key := Entries(v)[k].0;
      var c := Entries(v)[k].1;
      var here :=
        if IsContainer(c) then
          EntrySmaller(v, k);
          Visits(c, path + "." + key)
        else
          [];
      here + VisitsFrom(v, path, k + 1)
  }
  /** One step of the loop over the entries: a container entry contributes its own
      visits, any other entry nothing. */
  lemma VisitsStep(v: Json, path: string, k: nat)
    requires k < |Entries(v)|
    ensures IsContainer(Entries(v)[k].1) ==>
      VisitsFrom(v, path, k) == Visits(Entries(v)[k].1, path + "." + Entries(v)[k].0) + VisitsFrom(v, path, k + 1)
    ensures !IsContainer(Entries(v)[k].1) ==> VisitsFrom(v, path, k) == VisitsFrom(v, path, k + 1)
  {
    if !IsContainer(Entries(v)[k].1) {
      assert [] + VisitsFrom(v, path, k + 1) == VisitsFrom(v, path, k + 1);
    }
  }


  /** The findings of one visited node. */
  function FindingsAt(x: (Json, string)): Findings {
    NodeFindings(x.0, x.1)
  }

  /** The findings `check` gives for each of a sequence of nodes, node after node. */
  function CollectBy(check: ((Json, string)) -> Findings, vs: seq<(Json, string)>): Findings
    decreases |vs|
  {
    if |vs| == 0 then NoFindings()
    else Then(check(vs[0]), CollectBy(check, vs[1..]))
  }

  /** The findings of a sequence of visited nodes, node after node. */
  function Collect(vs: seq<(Json, string)>): Findings {
    CollectBy(FindingsAt, vs)
  }

  /** `checkObject(v, path)`: the findings of every node it visits, in visit order. */
  function Walk(v: Json, path: string): (r: Findings)
    ensures !IsContainer(v) ==> r == NoFindings()
  {
    Collect(Visits(v, path))
  }

  // ---- Messages ----

  function ProblemText(kind: ProblemKind): string {
    match kind
    case ArrayWithoutItems => "Array sin 'items' definido"
    case LooseArrayItems =>
      "Array items con type: \"object\" y solo additionalProperties: true. "
      + "Esto causa el error \"Cannot convert undefined or null to object\". "
      + "Solución: Define properties o usa un $ref a un schema"
    case EmptyComposition(_) => "Debe ser un array no vacío"
    case RefNotString => "Debe ser un string"
    case InvalidType(name) => "Tipo inválido \"" + name + "\". Debe ser uno de: " + Join(ValidTypes, ", ")
    case EmptyEnum => "Debe ser un array no vacío"
    case RequiredNotArray => "Debe ser un array"
    case RequiredEntryNotString(_) => "Debe ser un string"
  }

  function ProblemMessage(moduleName: string, p: Problem): string {
    "[" + moduleName + "] " + Location(p) + ": " + ProblemText(p.kind)
  }

  function WarningMessage(moduleName: string, w: Warning): string {
    "[" + moduleName + "] " + w.at + ": properties está vacío {}"
  }

  /** The `{isValid, problems, warnings}` object `validate` returns. */
  datatype Report = Report(isValid: bool, problems: seq<string>, warnings: seq<string>)

  /** `validate(document, moduleName)`: walks from `root` with fresh lists; the module name only
      prefixes the messages. */
  function Validate(doc: Json, moduleName: string): (r: Report)
    ensures r.isValid <==> r.problems == []
    ensures r.isValid <==> Walk(doc, "root").problems == []
    ensures |r.problems| == |Walk(doc, "root").problems|
    ensures |r.warnings| == |Walk(doc, "root").warnings|
    ensures forall i :: 0 <= i < |r.problems| ==>
      StartsWith(r.problems[i], "[" + moduleName + "] " + Location(Walk(doc, "root").problems[i]) + ": ")
  {
    var f := Walk(doc, "root");
    Report(
      |f.problems| == 0,
      seq(|f.problems|, i requires 0 <= i < |f.problems| => ProblemMessage(moduleName, f.problems[i])),
      seq(|f.warnings|, i requires 0 <= i < |f.warnings| => WarningMessage(moduleName, f.warnings[i])))
  }

  // ---- Properties of the walk ----

  /** The node reached from `v` by following `keys`, each step going to a truthy
      object or array child, as the walk does. */
  function Descend(v: Json, keys: seq<string>): Option<Json>
    decreases |keys|
  {
    if |keys| == 0 then Some(v)
    else
      match Lookup(Entries(v), keys[0])
      case Some(c) => if IsContainer(c) then Descend(c, keys[1..]) else None
      case None => None
  }

  /** The path string the walk carries after following `keys` from `path`. */
  function Extend(path: string, keys: seq<string>): string
    decreases |keys|
  {
    if |keys| == 0 then path else Extend(path + "." + keys[0], keys[1..])
  }

  /** A problem is reported for a sequence of nodes exactly when one of them reports it. */
  lemma CollectProblems(vs: seq<(Json, string)>, p: Problem)
    ensures p in Collect(vs).problems <==> exists i :: 0 <= i < |vs| && p in NodeProblems(vs[i].0, vs[i].1)
  {
    var reported := (q: Problem) => exists i :: 0 <= i < |vs| && q in NodeProblems(vs[i].0, vs[i].1);
    CollectKeeps(vs, reported);
    forall i | 0 <= i < |vs| && p in NodeProblems(vs[i].0, vs[i].1)
      ensures p in Collect(vs).problems
    {
      CollectWithin(vs, i);
    }
  }

  /** A property every visited node's problems have is a property of every collected
      problem. */
  lemma CollectKeeps(vs: seq<(Json, string)>, P: Problem -> bool)
    requires forall i, p :: 0 <= i < |vs| && p in NodeProblems(vs[i].0, vs[i].1) ==> P(p)
    ensures forall p :: p in Collect(vs).problems ==> P(p)
  {
    forall i, p | 0 <= i < |vs| && p in FindingsAt(vs[i]).problems
      ensures P(p)
    {
    }
    CollectByKeeps(FindingsAt, vs, P);
  }

  lemma {:induction false} CollectByKeeps(check: ((Json, string)) -> Findings, vs: seq<(Json, string)>, P: Problem -> bool)
    requires forall i, p :: 0 <= i < |vs| && p in check(vs[i]).problems ==> P(p)
    ensures forall p :: p in CollectBy(check, vs).problems ==> P(p)
    decreases |vs|
  {
    if |vs| > 0 {
      var head := check(vs[0]);
      var rest := CollectBy(check, vs[1..]);
      forall i, p | 0 <= i < |vs[1..]| && p in check(vs[1..][i]).problems
        ensures P(p)
      {
        assert vs[1..][i] == vs[i + 1];
      }
      CollectByKeeps(check, vs[1..], P);
      forall p | p in CollectBy(check, vs).problems
        ensures P(p)
      {
        ThenSplit(head, rest, p);
      }
    }
  }

  /** A problem of `Then(a, b)` is a problem of `a` or of `b`. */
  lemma ThenSplit(a: Findings, b: Findings, p: Problem)
    requires p in Then(a, b).problems
    ensures p in a.problems || p in b.problems
  {
  }

  /** Every finding of a visited node is among the collected findings. */
  lemma CollectWithin(vs: seq<(Json, string)>, i: nat)
    requires i < |vs|
    ensures Within(NodeFindings(vs[i].0, vs[i].1), Collect(vs))
  {
    CollectAround(vs, i);
    WithinMiddle(Collect(vs[..i]), NodeFindings(vs[i].0, vs[i].1), Collect(vs[i + 1..]));
  }

  /** The findings of a sequence of visits: those before the `i`-th, its own, then
      those after it. */
  lemma CollectAround(vs: seq<(Json, string)>, i: nat)
    requires i < |vs|
    ensures Collect(vs) == Then(Collect(vs[..i]), Then(NodeFindings(vs[i].0, vs[i].1), Collect(vs[i + 1..])))
  {
    CollectByAround(FindingsAt, vs, i);
  }

  lemma CollectByAround(check: ((Json, string)) -> Findings, vs: seq<(Json, string)>, i: nat)
    requires i < |vs|
    ensures CollectBy(check, vs) == Then(CollectBy(check, vs[..i]), Then(check(vs[i]), CollectBy(check, vs[i + 1..])))
  {
    var before, from := vs[..i], vs[i..];
    assert before + from == vs;
    CollectByConcat(check, before, from);
    assert from[0] == vs[i];
    assert from[1..] == vs[i + 1..];
  }

  lemma WithinMiddle(a: Findings, x: Findings, b: Findings)
    ensures Within(x, Then(a, Then(x, b)))
  {
  }

  lemma ThenContains(a: Findings, b: Findings)
    ensures Within(a, Then(a, b)) && Within(b, Then(a, b))
  {
  }

  lemma WithinTrans(a: Findings, b: Findings, c: Findings)
    requires Within(a, b) && Within(b, c)
    ensures Within(a, c)
  {
  }

  /** The visits below a container child are part of the loop over the entries. */
  lemma {:induction false} ChildVisited(v: Json, path: string, k: nat, i: nat, key: string, c: Json)
    requires k <= i < |Entries(v)| && Entries(v)[i] == (key, c) && IsContainer(c)
    ensures forall x :: x in Visits(c, path + "." + key) ==> x in VisitsFrom(v, path, k)
    decreases i - k
  {
    var c0 := Entries(v)[k].1;
    var here := if IsContainer(c0) then Visits(c0, path + "." + Entries(v)[k].0) else [];
    assert VisitsFrom(v, path, k) == here + VisitsFrom(v, path, k + 1);
    if k < i {
      ChildVisited(v, path, k + 1, i, key, c);
    } else {
      assert here == Visits(c, path + "." + key);
    }
  }

  /** Every node reachable through truthy objects and arrays is visited, with the
      dot-joined path of its keys. */
  lemma {:induction false} DescendVisited(v: Json, path: string, keys: seq<string>, c: Json)
    requires Descend(v, keys) == Some(c) && IsContainer(c)
    ensures (c, Extend(path, keys)) in Visits(v, path)
    decreases |keys|
  {
    if |keys| > 0 {
      var c1 := Lookup(Entries(v), keys[0]).value;
      LookupPosition(Entries(v), keys[0]);
      var i :| 0 <= i < |Entries(v)| && Entries(v)[i] == (keys[0], c1);
      EntriesOfScalar(v, i);
      DescendVisited(c1, path + "." + keys[0], keys[1..], c);
      ChildVisited(v, path, 0, i, keys[0], c1);
    }
  }

  /** `x` is a container reached from `v` by some key path and carries the dot-joined
      path of those keys after `path`. */
  ghost predicate Reached(v: Json, path: string, x: (Json, string)) {
    IsContainer(x.0) && exists keys :: Descend(v, keys) == Some(x.0) && x.1 == Extend(path, keys)
  }

  /** Following `key` then `keys` from `v` is following `keys` from the child under `key`. */
  lemma DescendOneStep(v: Json, path: string, key: string, c: Json, keys: seq<string>)
    requires Lookup(Entries(v), key) == Some(c) && IsContainer(c)
    ensures Descend(v, [key] + keys) == Descend(c, keys)
    ensures Extend(path, [key] + keys) == Extend(path + "." + key, keys)
  {
    assert ([key] + keys)[0] == key && ([key] + keys)[1..] == keys;
  }

  /** Every visited node is a container reached from `v` by some key path, and it
      carries the dot-joined path of those keys. */
  lemma {:induction false} VisitedReachable(v: Json, path: string)
    requires Parsed(v)
    ensures forall x :: x in Visits(v, path) ==> Reached(v, path, x)
    decreases v, 1
  {
    if IsContainer(v) {
      assert Descend(v, []) == Some(v) && Extend(path, []) == path;
      assert Reached(v, path, (v, path));
      VisitedReachableFrom(v, path, 0);
    }
  }

  lemma {:induction false} VisitedReachableFrom(v: Json, path: string, k: nat)
    requires Parsed(v) && k <= |Entries(v)|
    ensures forall x :: x in VisitsFrom(v, path, k) ==> Reached(v, path, x)
    decreases v, 0, |Entries(v)| - k
  {
    if k < |Entries(v)| {
      VisitsStep(v, path, k);
      VisitedReachableFrom(v, path, k + 1);
      var key := Entries(v)[k].0;
      var c := Entries(v)[k].1;
      if IsContainer(c) {
        EntrySmaller(v, k);
        ParsedEntries(v);
        VisitedReachable(c, path + "." + key);
        ReachedThroughChild(v, path, k);
      }
    }
  }

  /** What is reached from the `k`-th child, under `path.key`, is reached from `v`. */
  lemma ReachedThroughChild(v: Json, path: string, k: nat)
    requires Parsed(v) && k < |Entries(v)|
    requires var c := Entries(v)[k].1;
      IsContainer(c) && forall x :: x in Visits(c, path + "." + Entries(v)[k].0) ==> Reached(c, path + "." + Entries(v)[k].0, x)
    ensures var c := Entries(v)[k].1;
      forall x :: x in Visits(c, path + "." + Entries(v)[k].0) ==> Reached(v, path, x)
  {
    var key := Entries(v)[k].0;
    var c := Entries(v)[k].1;
    var below := path + "." + key;
    ParsedEntries(v);
    LookupFirstAt(Entries(v), k);
    forall x | x in Visits(c, below)
      ensures Reached(v, path, x)
    {
      var ks :| Descend(c, ks) == Some(x.0) && x.1 == Extend(below, ks);
      DescendOneStep(v, path, key, c, ks);
    }
  }

  /** The walk visits exactly the containers reachable through truthy objects and
      arrays, each with the dot-joined path of its keys. */
  lemma VisitsExactly(v: Json, path: string, c: Json, p: string)
    requires Parsed(v)
    ensures (c, p) in Visits(v, path) <==>
      IsContainer(c) && exists keys :: Descend(v, keys) == Some(c) && p == Extend(path, keys)
  {
    VisitedReachable(v, path);
    if IsContainer(c) && exists keys :: Descend(v, keys) == Some(c) && p == Extend(path, keys) {
      var keys :| Descend(v, keys) == Some(c) && p == Extend(path, keys);
      DescendVisited(v, path, keys, c);
    }
  }

  /** Every visited path extends the path the walk started from. */
  lemma {:induction false} VisitedPathsExtend(v: Json, path: string)
    ensures forall x :: x in Visits(v, path) ==> StartsWith(x.1, path)
    decreases v, 1
  {
    if IsContainer(v) {
      assert Visits(v, path) == [(v, path)] + VisitsFrom(v, path, 0);
      assert path[..|path|] == path;
      VisitedPathsExtendFrom(v, path, 0);
    }
  }

  lemma {:induction false} VisitedPathsExtendFrom(v: Json, path: string, k: nat)
    requires k <= |Entries(v)|
    ensures forall x :: x in VisitsFrom(v, path, k) ==> StartsWith(x.1, path)
    decreases v, 0, |Entries(v)| - k
  {
    if k < |Entries(v)| {
      var key := Entries(v)[k].0;
      var c := Entries(v)[k].1;
      var below := path + "." + key;
      var here := if IsContainer(c) then Visits(c, below) else [];
      assert VisitsFrom(v, path, k) == here + VisitsFrom(v, path, k + 1);
      if IsContainer(c) {
        EntrySmaller(v, k);
        VisitedPathsExtend(c, below);
        forall x | x in here
          ensures StartsWith(x.1, path)
        {
          StartsWithTrans(x.1, below, path);
        }
      }
      VisitedPathsExtendFrom(v, path, k + 1);
    }
  }

  /** Every node reachable through truthy objects and arrays is checked, at the
      dot-joined path of its keys, and all its findings appear in the result,
      whatever its ancestors reported. */
  lemma WalkCovers(v: Json, path: string, keys: seq<string>, c: Json)
    requires Descend(v, keys) == Some(c)
    ensures Within(NodeFindings(c, Extend(path, keys)), Walk(v, path))
  {
    if IsContainer(c) {
      DescendVisited(v, path, keys, c);
      var vs := Visits(v, path);
      var i :| 0 <= i < |vs| && vs[i] == (c, Extend(path, keys));
      CollectWithin(vs, i);
    }
  }

  /** A property every node's warnings have is a property of every collected warning. */
  lemma {:induction false} CollectByKeepsWarnings(check: ((Json, string)) -> Findings, vs: seq<(Json, string)>, P: Warning -> bool)
    requires forall i, w :: 0 <= i < |vs| && w in check(vs[i]).warnings ==> P(w)
    ensures forall w :: w in CollectBy(check, vs).warnings ==> P(w)
    decreases |vs|
  {
    if |vs| > 0 {
      forall i, w | 0 <= i < |vs[1..]| && w in check(vs[1..][i]).warnings
        ensures P(w)
      {
        assert vs[1..][i] == vs[i + 1];
      }
      CollectByKeepsWarnings(check, vs[1..], P);
      assert CollectBy(check, vs).warnings == check(vs[0]).warnings + CollectBy(check, vs[1..]).warnings;
    }
  }

  /** Check 3 over the walk: an empty-`properties` warning for `at` is reported
      exactly when a node visited at `at` has a truthy `properties` without keys. */
  lemma WalkWarnings(v: Json, path: string, at: string)
    ensures EmptyProperties(at) in Walk(v, path).warnings ==>
      exists i :: 0 <= i < |Visits(v, path)| && Visits(v, path)[i].1 == at && PropertiesEmpty(Visits(v, path)[i].0)
    ensures (exists i :: 0 <= i < |Visits(v, path)| && Visits(v, path)[i].1 == at && PropertiesEmpty(Visits(v, path)[i].0)) ==>
      EmptyProperties(at) in Walk(v, path).warnings
  {
    var vs := Visits(v, path);
    var P := (w: Warning) => exists i :: 0 <= i < |vs| && vs[i].1 == w.at && PropertiesEmpty(vs[i].0);
    forall i, w | 0 <= i < |vs| && w in FindingsAt(vs[i]).warnings
      ensures P(w)
    {
      assert vs[i].1 == w.at && PropertiesEmpty(vs[i].0);
    }
    CollectByKeepsWarnings(FindingsAt, vs, P);
    assert Walk(v, path) == CollectBy(FindingsAt, vs);
    if EmptyProperties(at) in Walk(v, path).warnings {
      assert P(EmptyProperties(at));
    }
    forall i | 0 <= i < |vs| && vs[i].1 == at && PropertiesEmpty(vs[i].0)
      ensures EmptyProperties(at) in Walk(v, path).warnings
    {
      CollectWithin(vs, i);
      assert EmptyProperties(at) in NodeFindings(vs[i].0, vs[i].1).warnings;
    }
  }

  /** Check 3 over a parsed document: the warning for `at` is reported exactly when
      some container reachable by a key path whose dot-join is `at` has a truthy
      `properties` without keys. */
  lemma ReachableWarnings(v: Json, path: string, at: string)
    requires Parsed(v)
    ensures EmptyProperties(at) in Walk(v, path).warnings <==>
      exists keys :: Descend(v, keys).Some? && IsContainer(Descend(v, keys).value)
        && PropertiesEmpty(Descend(v, keys).value) && at == Extend(path, keys)
  {
    if EmptyProperties(at) in Walk(v, path).warnings {
      WarnedReachable(v, path, at);
    }
    if exists keys :: Descend(v, keys).Some? && IsContainer(Descend(v, keys).value)
        && PropertiesEmpty(Descend(v, keys).value) && at == Extend(path, keys) {
      var keys :| Descend(v, keys).Some? && IsContainer(Descend(v, keys).value)
        && PropertiesEmpty(Descend(v, keys).value) && at == Extend(path, keys);
      ReachableWarned(v, path, keys);
    }
  }

  lemma WarnedReachable(v: Json, path: string, at: string)
    requires Parsed(v) && EmptyProperties(at) in Walk(v, path).warnings
    ensures exists keys :: Descend(v, keys).Some? && IsContainer(Descend(v, keys).value)
                          && PropertiesEmpty(Descend(v, keys).value) && at == Extend(path, keys)
  {
    var vs := Visits(v, path);
    WalkWarnings(v, path, at);
    var i :| 0 <= i < |vs| && vs[i].1 == at && PropertiesEmpty(vs[i].0);
    VisitsExactly(v, path, vs[i].0, at);
  }

  lemma ReachableWarned(v: Json, path: string, keys: seq<string>)
    requires Descend(v, keys).Some? && IsContainer(Descend(v, keys).value) && PropertiesEmpty(Descend(v, keys).value)
    ensures EmptyProperties(Extend(path, keys)) in Walk(v, path).warnings
  {
    var vs := Visits(v, path);
    var c := Descend(v, keys).value;
    var at := Extend(path, keys);
    WalkWarnings(v, path, at);
    DescendVisited(v, path, keys, c);
    var i :| 0 <= i < |vs| && vs[i] == (c, at);
  }

  /** Nothing below a path that contains `.example` is ever reported as an invalid
      type, however schema-like it looks. */
  lemma NoTypeProblemsUnderExample(v: Json, path: string)
    requires Contains(path, ".example")
    ensures forall p :: p in Walk(v, path).problems ==> !p.kind.InvalidType?
  {
    var vs := Visits(v, path);
    VisitedPathsExtend(v, path);
    forall i, p | 0 <= i < |vs| && p in NodeProblems(vs[i].0, vs[i].1)
      ensures !p.kind.InvalidType?
    {
      assert vs[i] in vs;
      ContainsUnder(vs[i].1, path, ".example");
      NodeTypeProblems(vs[i].0, vs[i].1);
    }
    CollectKeeps(vs, (p: Problem) => !p.kind.InvalidType?);
  }

  /** A reachable node with a blocking finding makes the whole document invalid. */
  lemma ProblemAnywhereInvalidates(doc: Json, keys: seq<string>, node: Json, p: Problem, moduleName: string)
    requires Descend(doc, keys) == Some(node)
    requires p in NodeProblems(node, Extend("root", keys))
    ensures p in Walk(doc, "root").problems
    ensures !Validate(doc, moduleName).isValid
  {
    WalkCovers(doc, "root", keys, node);
  }

  /** An array schema without truthy `items`, at any depth, is always blocking. */
  lemma ArrayWithoutItemsInvalidates(doc: Json, keys: seq<string>, node: Json, moduleName: string)
    requires Descend(doc, keys) == Some(node) && ArrayLacksItems(node)
    ensures Problem(Extend("root", keys), ArrayWithoutItems) in Walk(doc, "root").problems
    ensures !Validate(doc, moduleName).isValid
  {
    NodeProblemsFire(node, Extend("root", keys));
    ProblemAnywhereInvalidates(doc, keys, node, Problem(Extend("root", keys), ArrayWithoutItems), moduleName);
  }

  /** The module name only labels messages: validity and the number of findings do
      not depend on it. */
  lemma ValidityIgnoresModuleName(doc: Json, a: string, b: string)
    ensures Validate(doc, a).isValid == Validate(doc, b).isValid
    ensures |Validate(doc, a).problems| == |Validate(doc, b).problems|
    ensures |Validate(doc, a).warnings| == |Validate(doc, b).warnings|
  {
  }

  /** Collecting a concatenation of visits is collecting each part in turn: the
      findings of a subtree are contiguous in the result. */
  lemma CollectConcat(a: seq<(Json, string)>, b: seq<(Json, string)>)
    ensures Collect(a + b) == Then(Collect(a), Collect(b))
  {
    CollectByConcat(FindingsAt, a, b);
  }

  lemma {:induction false} CollectByConcat(check: ((Json, string)) -> Findings, a: seq<(Json, string)>, b: seq<(Json, string)>)
    ensures CollectBy(check, a + b) == Then(CollectBy(check, a), CollectBy(check, b))
    decreases |a|
  {
    if |a| == 0 {
      assert a + b == b;
      ThenNothing(CollectBy(check, b));
    } else {
      assert (a + b)[1..] == a[1..] + b;
      assert (a + b)[0] == a[0];
      CollectByConcat(check, a[1..], b);
      ThenAssoc(check(a[0]), CollectBy(check, a[1..]), CollectBy(check, b));
    }
  }

  lemma ThenNothing(x: Findings)
    ensures Then(NoFindings(), x) == x
  {
    assert [] + x.problems == x.problems;
    assert [] + x.warnings == x.warnings;
  }

  lemma ThenAssoc(x: Findings, y: Findings, z: Findings)
    ensures Then(x, Then(y, z)) == Then(Then(x, y), z)
  {
  }

  /** `{ type: "array" }` on its own is blocking. */
  lemma BareArrayIsInvalid(moduleName: string)
    ensures !Validate(JObj([("type", JStr("array"))]), moduleName).isValid
  {
    var doc := JObj([("type", JStr("array"))]);
    ArrayWithoutItemsInvalidates(doc, [], doc, moduleName);
  }

  /** A lone `{ type: "premium" }`: business data outside schema position, an invalid
      schema type inside it. */
  function PremiumType(): Json {
    JObj([("type", JStr("premium"))])
  }

  /** The schema-position heuristic of check 6 on a node whose only key is `type`:
      away from `.schema` / `.schemas.` paths the node's `type` is never judged; under
      `.schemas.` (outside examples) an unknown `type` is reported. */
  lemma TypePositionHeuristic(path: string)
    ensures !EndsWith(path, ".schema") && !Contains(path, ".schemas.") ==>
      forall p :: p in NodeProblems(PremiumType(), path) ==> !p.kind.InvalidType?
    ensures Contains(path, ".schemas.") && !Contains(path, ".example") ==>
      Problem(path, InvalidType("premium")) in NodeProblems(PremiumType(), path)
  {
    PremiumFacts();
    NodeTypeProblems(PremiumType(), path);
  }

  /** `{ type: "premium" }` has a truthy string `type` outside the valid names and no
      schema keyword beside it. */
  lemma PremiumFacts()
    ensures Prop(PremiumType(), "type") == Some(JStr("premium")) && PropTruthy(PremiumType(), "type")
    ensures "premium" !in ValidTypes
    ensures !HasAny(PremiumType(), SchemaSiblings)
  {
    OneKeyProps("type", JStr("premium"));
    assert "type" !in SchemaSiblings;
  }

  /** Validating `{ type: "premium" }` as a whole document finds nothing blocking. */
  lemma BusinessTypeIsValid(moduleName: string)
    ensures Validate(PremiumType(), moduleName).isValid
  {
    var doc := PremiumType();
    assert Entries(doc) == [("type", JStr("premium"))];
    assert VisitsFrom(doc, "root", 0) == [];
    assert Visits(doc, "root") == [(doc, "root")];
    PremiumFacts();
    OneKeyProps("type", JStr("premium"));
    ShortNotContains("root", ".schemas.");
    assert !EndsWith("root", ".schema");
    QuietNode(doc, "root");
    assert Walk(doc, "root").problems == Collect([(doc, "root")]).problems == [];
  }

  /** The path `root.components.schemas.Foo` is a schema path outside any example. */
  lemma SchemaPathFacts(path: string)
    requires path == "root.components.schemas.Foo"
    ensures Contains(path, ".schemas.") && !Contains(path, ".example")
  {
    assert path[15..24] == ".schemas.";
    OccursContains(path, ".schemas.", 15);
    // no `x` anywhere in the path, so `.example` cannot occur in it
    assert forall i :: 0 <= i < |path| ==> path[i] != 'x';
    forall i ensures !OccursAt(path, ".example", i) {
      if 0 <= i && i + 8 <= |path| {
        assert path[i..i + 8][2] == path[i + 2];
      }
    }
    ContainsIffOccurs(path, ".example");
  }

  /** The dot-joined paths the walk builds for the documents below. */
  lemma LiteralPaths()
    ensures "root" + "." + "components" == "root.components"
    ensures "root.components" + "." + "schemas" == "root.components.schemas"
    ensures "root.components.schemas" + "." + "Foo" == "root.components.schemas.Foo"
    ensures "root" + "." + "requestBody" == "root.requestBody"
    ensures "root" + "." + "properties" == "root.properties"
    ensures "root.properties" + "." + "a" == "root.properties.a"
  {
  }

  /** `{ components: { schemas: { Foo: { type: "premium" } } } }` */
  function SchemasDoc(): Json {
    JObj([("components", JObj([("schemas", JObj([("Foo", PremiumType())]))]))])
  }

  lemma SchemasDocReaches()
    ensures Descend(SchemasDoc(), ["components", "schemas", "Foo"]) == Some(PremiumType())
    ensures Extend("root", ["components", "schemas", "Foo"]) == "root.components.schemas.Foo"
  {
    SchemasDocDescends();
    SchemasDocPath();
  }

  lemma SchemasDocDescends()
    ensures Descend(SchemasDoc(), ["components", "schemas", "Foo"]) == Some(PremiumType())
  {
    var foo := PremiumType();
    var schemas := JObj([("Foo", foo)]);
    var components := JObj([("schemas", schemas)]);
    assert Lookup(Entries(schemas), "Foo") == Some(foo);
    assert ["Foo"][1..] == [];
    assert Descend(schemas, ["Foo"]) == Some(foo);
    assert Lookup(Entries(components), "schemas") == Some(schemas);
    assert ["schemas", "Foo"][1..] == ["Foo"];
    assert Descend(components, ["schemas", "Foo"]) == Some(foo);
    assert Lookup(Entries(SchemasDoc()), "components") == Some(components);
    assert ["components", "schemas", "Foo"][1..] == ["schemas", "Foo"];
  }

  lemma SchemasDocPath()
    ensures Extend("root", ["components", "schemas", "Foo"]) == "root.components.schemas.Foo"
  {
    assert ["Foo"][1..] == [];
    assert ["schemas", "Foo"][1..] == ["Foo"];
    assert ["components", "schemas", "Foo"][1..] == ["schemas", "Foo"];
    LiteralPaths();
  }

  /** The same node under `components.schemas` is blocking. */
  lemma SchemaTypeIsInvalid(moduleName: string)
    ensures !Validate(SchemasDoc(), moduleName).isValid
  {
    var path := "root.components.schemas.Foo";
    SchemasDocReaches();
    SchemaPathFacts(path);
    TypePositionHeuristic(path);
    ProblemAnywhereInvalidates(SchemasDoc(), ["components", "schemas", "Foo"], PremiumType(),
      Problem(path, InvalidType("premium")), moduleName);
  }

  /** `{ requestBody: { required: true } }` */
  function RequestBodyDoc(): Json {
    JObj([("requestBody", JObj([("required", JBool(true))]))])
  }

  lemma RequestBodyVisits()
    ensures Visits(RequestBodyDoc(), "root") ==
      [(RequestBodyDoc(), "root"), (JObj([("required", JBool(true))]), "root.requestBody")]
  {
    var body := JObj([("required", JBool(true))]);
    var doc := RequestBodyDoc();
    assert Entries(body) == [("required", JBool(true))];
    VisitsStep(body, "root.requestBody", 0);
    assert VisitsFrom(body, "root.requestBody", 1) == [];
    assert Visits(body, "root.requestBody") == [(body, "root.requestBody")];
    assert Entries(doc) == [("requestBody", body)];
    VisitsStep(doc, "root", 0);
    assert VisitsFrom(doc, "root", 1) == [];
    LiteralPaths();
  }

  /** The document node has no checked key. */
  lemma RequestBodyRoot()
    ensures NodeProblems(RequestBodyDoc(), "root") == []
  {
  }

  /** The body has no `type` and no `properties`, so its `required` is not taken for
      a schema's list. */
  lemma RequestBodyInner()
    ensures NodeProblems(JObj([("required", JBool(true))]), "root.requestBody") == []
  {
    var body := JObj([("required", JBool(true))]);
    assert Prop(body, "type").None? && Prop(body, "properties").None?;
    assert !RequiredApplies(body, "root.requestBody") && !TypeBad(body, "root.requestBody");
  }

  /** A boolean `required` outside a schema is not reported: the document is valid. */
  lemma BooleanRequiredIsValid(moduleName: string)
    ensures Validate(RequestBodyDoc(), moduleName).isValid
  {
    var body := JObj([("required", JBool(true))]);
    RequestBodyVisits();
    RequestBodyRoot();
    RequestBodyInner();
    CollectTwo((RequestBodyDoc(), "root"), (body, "root.requestBody"));
    assert Walk(RequestBodyDoc(), "root").problems == [] + [];
  }

  /** `{ type: "object", properties: { a: { type: "string" } }, required: "a" }` */
  function StringRequiredDoc(): Json {
    JObj([("type", JStr("object")), ("properties", JObj([("a", JObj([("type", JStr("string"))]))])), ("required", JStr("a"))])
  }

  /** Below the document node the walk visits `properties` and then `a`. */
  lemma StringRequiredVisits()
    ensures VisitsFrom(StringRequiredDoc(), "root", 0) ==
      [ (JObj([("a", JObj([("type", JStr("string"))]))]), "root.properties"),
        (JObj([("type", JStr("string"))]), "root.properties.a") ]
  {
    var a := JObj([("type", JStr("string"))]);
    var props := JObj([("a", a)]);
    var doc := StringRequiredDoc();
    StringRequiredBelow();
    assert Entries(doc) == doc.fields;
    VisitsStep(doc, "root", 0);
    VisitsStep(doc, "root", 1);
    VisitsStep(doc, "root", 2);
    assert VisitsFrom(doc, "root", 3) == [];
    LiteralPaths();
    assert VisitsFrom(doc, "root", 0) == [(props, "root.properties"), (a, "root.properties.a")];
  }

  /** The walk of `properties` visits it and then `a`. */
  lemma StringRequiredBelow()
    ensures Visits(JObj([("a", JObj([("type", JStr("string"))]))]), "root.properties") ==
      [ (JObj([("a", JObj([("type", JStr("string"))]))]), "root.properties"),
        (JObj([("type", JStr("string"))]), "root.properties.a") ]
  {
    var a := JObj([("type", JStr("string"))]);
    var props := JObj([("a", a)]);
    assert Entries(a) == [("type", JStr("string"))];
    VisitsStep(a, "root.properties.a", 0);
    assert VisitsFrom(a, "root.properties.a", 1) == [];
    assert Entries(props) == [("a", a)];
    VisitsStep(props, "root.properties", 0);
    assert VisitsFrom(props, "root.properties", 1) == [];
    LiteralPaths();
    assert Visits(a, "root.properties.a") == [(a, "root.properties.a")];
  }

  /** Below the document node nothing is reported: `properties` holds no checked key
      and `a` has a valid `type`. */
  lemma StringRequiredInner()
    ensures NodeProblems(JObj([("a", JObj([("type", JStr("string"))]))]), "root.properties") == []
    ensures NodeProblems(JObj([("type", JStr("string"))]), "root.properties.a") == []
  {
    StringRequiredProperties();
    StringRequiredLeaf();
  }

  lemma StringRequiredProperties()
    ensures NodeProblems(JObj([("a", JObj([("type", JStr("string"))]))]), "root.properties") == []
  {
    var props := JObj([("a", JObj([("type", JStr("string"))]))]);
    OneKeyProps("a", JObj([("type", JStr("string"))]));
    QuietNode(props, "root.properties");
  }

  lemma StringRequiredLeaf()
    ensures NodeProblems(JObj([("type", JStr("string"))]), "root.properties.a") == []
  {
    var a := JObj([("type", JStr("string"))]);
    OneKeyProps("type", JStr("string"));
    ValidTypeNotBad(a, "root.properties.a", 0);
    QuietNode(a, "root.properties.a");
  }

  /** Of the keys the checks read, a one-entry object holds only its own key. */
  lemma OneKeyProps(k: string, x: Json)
    ensures var obj := JObj([(k, x)]);
      forall key :: Prop(obj, key) == if key == k then Some(x) else None
  {
    var obj := JObj([(k, x)]);
    forall key
      ensures Prop(obj, key) == if key == k then Some(x) else None
    {
      assert obj.fields[1..] == [];
    }
  }

  /** The document node reports one problem: its `required` is a string in a schema. */
  lemma StringRequiredRoot()
    ensures NodeProblems(StringRequiredDoc(), "root") == [Problem("root", RequiredNotArray)]
  {
    var doc := StringRequiredDoc();
    assert Prop(doc, "type") == Some(JStr("object"));
    assert Prop(doc, "required") == Some(JStr("a"));
    ShortNotContains("root", ".requestBody");
    ShortNotContains("root", ".parameters.");
    assert RequiredApplies(doc, "root");
    assert RequiredProblems(doc, "root") == [Problem("root", RequiredNotArray)];
    assert !TypeBad(doc, "root");
    assert Checks1To5(doc, "root") == [];
  }

  /** A string where a schema's `required` list belongs is exactly one problem. */
  lemma StringRequiredIsOneProblem(moduleName: string)
    ensures |Validate(StringRequiredDoc(), moduleName).problems| == 1
    ensures Walk(StringRequiredDoc(), "root").problems == [Problem("root", RequiredNotArray)]
  {
    StringRequiredVisits();
    StringRequiredRoot();
    StringRequiredInner();
    var a := JObj([("type", JStr("string"))]);
    var props := JObj([("a", a)]);
    var doc := StringRequiredDoc();
    var below := [(props, "root.properties"), (a, "root.properties.a")];
    WalkNodeFirst(doc, "root");
    CollectTwo(below[0], below[1]);
    assert Collect(below).problems == [] + [];
    assert Walk(doc, "root").problems == [Problem("root", RequiredNotArray)] + [];
  }

  /** The walk is `checkObject`'s recursion: a container's own findings come first... */
  lemma WalkNodeFirst(v: Json, path: string)
    requires IsContainer(v)
    ensures Walk(v, path) == Then(NodeFindings(v, path), Collect(VisitsFrom(v, path, 0)))
  {
    var rest := VisitsFrom(v, path, 0);
    assert Visits(v, path) == [(v, path)] + rest;
    CollectConcat([(v, path)], rest);
    CollectOne(v, path);
  }

  lemma CollectOne(v: Json, path: string)
    ensures Collect([(v, path)]) == NodeFindings(v, path)
  {
    CollectByOne(FindingsAt, (v, path));
  }

  lemma CollectTwo(x: (Json, string), y: (Json, string))
    ensures Collect([x, y]).problems == NodeProblems(x.0, x.1) + NodeProblems(y.0, y.1)
  {
    CollectByTwo(FindingsAt, x, y);
  }

  lemma CollectByTwo(check: ((Json, string)) -> Findings, x: (Json, string), y: (Json, string))
    ensures CollectBy(check, [x, y]) == Then(check(x), check(y))
  {
    assert [x, y][1..] == [y];
    CollectByOne(check, y);
  }

  lemma CollectByOne(check: ((Json, string)) -> Findings, x: (Json, string))
    ensures CollectBy(check, [x]) == check(x)
  {
    var own := check(x);
    assert [x][1..] == [];
    assert own.problems + [] == own.problems;
    assert own.warnings + [] == own.warnings;
  }

  /** ...then, entry by entry, the whole walk of each truthy object or array child
      under `path.key`, and nothing for the other entries. */
  lemma WalkEntryStep(v: Json, path: string, k: nat)
    requires k < |Entries(v)|
    ensures Collect(VisitsFrom(v, path, k)) ==
      Then(if IsContainer(Entries(v)[k].1) then Walk(Entries(v)[k].1, path + "." + Entries(v)[k].0) else NoFindings(),
           Collect(VisitsFrom(v, path, k + 1)))
  {
    var c := Entries(v)[k].1;
    var here := if IsContainer(c) then Visits(c, path + "." + Entries(v)[k].0) else [];
    assert VisitsFrom(v, path, k) == here + VisitsFrom(v, path, k + 1);
    CollectConcat(here, VisitsFrom(v, path, k + 1));
  }
}
