/** `OpenAPIBundler.bundle()`: validates each module fragment in discovery order,
    folds the valid ones into the fixed base specification, and finally keeps only
    the first tag of every name. Discovering and reading the files is replaced by a
    sequence of already-parsed fragments. */
module Bundler {
  import opened Options
  import opened JsonValues
  import opened Merge
  import FirstOccurrence
  import Validator

  // ---- Data ----

  /** One module file: its name (the file name without `.json`) and its parsed content. */
  datatype Fragment = Fragment(name: string, content: Json)

  /** An entry of `skippedModules`. */
  datatype Skip = Skip(name: string, reason: string)

  /** The `TypeError`s the fold can raise, which abort the whole bundle: reading
      `.tags` of a `null` fragment, and reading `.name` of a `null` tag. */
  datatype Fault = NullFragment(name: string) | NullTag

  /** The combined specification with the bundler's bookkeeping. */
  datatype Bundled = Bundled(spec: Json, validModules: seq<string>, skippedModules: seq<Skip>)

  /** The four places of the specification the fragments write to. */
  datatype Parts = Parts(tags: seq<Json>, paths: Json, schemas: Json, responses: Json)

  /** The fold's accumulator: what has been combined so far and the bookkeeping. */
  datatype State = State(parts: Parts, validModules: seq<string>, skippedModules: seq<Skip>)

  const ValidationReason: string := "Errores de validación OpenAPI"

  // ---- The base specification ----

  function Info(): Json {
    JObj([
      ("title", JStr("Auth Management API")),
      ("description", JStr("API para gestión de autenticación y accesos de usuarios internos y externos")),
      ("version", JStr("1.0.0")),
      ("contact", JObj([("name", JStr("Auth Management Team")), ("email", JStr("admin@authmanagement.com"))]))
    ])
  }

  function Servers(): Json {
    JArr([JObj([("url", JStr("http://127.0.0.1:3053")), ("description", JStr("Servidor de desarrollo"))])])
  }

  function BearerAuth(): Json {
    JObj([
      ("type", JStr("http")),
      ("scheme", JStr("bearer")),
      ("bearerFormat", JStr("JWT")),
      ("description", JStr("JWT Bearer token para autenticación"))
    ])
  }

  function SecuritySchemes(): Json {
    JObj([("bearerAuth", BearerAuth())])
  }

  /** The specification document with the given parts in place and everything else
      as `createBaseSpec` writes it, in the same key order. */
  function Assemble(p: Parts): Json {
    JObj([
      ("openapi", JStr("3.0.3")),
      ("info", Info()),
      ("servers", Servers()),
      ("tags", JArr(p.tags)),
      ("paths", p.paths),
      ("components", JObj([("schemas", p.schemas), ("responses", p.responses), ("securitySchemes", SecuritySchemes())]))
    ])
  }

  function EmptyParts(): Parts {
    Parts([], JObj([]), JObj([]), JObj([]))
  }

  /** `createBaseSpec()` */
  function CreateBaseSpec(): Json {
    Assemble(EmptyParts())
  }

  /** `v?.[a]?.[b]` */
  function Sub(v: Json, a: string, b: string): Option<Json> {
    match Prop(v, a)
    case Some(c) => Prop(c, b)
    case None => None
  }

  /** The fixed part of the document: the OpenAPI version, `info`, `servers` and the
      bearer security scheme. */
  predicate Envelope(spec: Json) {
    && Prop(spec, "openapi") == Some(JStr("3.0.3"))
    && Prop(spec, "info") == Some(Info())
    && Prop(spec, "servers") == Some(Servers())
    && Sub(spec, "components", "securitySchemes") == Some(SecuritySchemes())
  }

  /** Reads the four written places back from a document. */
  function ReadParts(spec: Json): Option<Parts> {
    match (Prop(spec, "tags"), Prop(spec, "paths"), Sub(spec, "components", "schemas"), Sub(spec, "components", "responses"))
    case (Some(JArr(t)), Some(pa), Some(s), Some(r)) => Some(Parts(t, pa, s, r))
    case _ => None
  }

  /** Assembling keeps the envelope and the parts can be read back unchanged: the
      document differs between two sets of parts only in those four places. */
  lemma AssembleRead(p: Parts)
    ensures Envelope(Assemble(p))
    ensures ReadParts(Assemble(p)) == Some(p)
  {
    AssembleTop(p);
    AssembleComponents(p);
  }

  lemma AssembleTop(p: Parts)
    ensures Prop(Assemble(p), "openapi") == Some(JStr("3.0.3"))
    ensures Prop(Assemble(p), "info") == Some(Info())
    ensures Prop(Assemble(p), "servers") == Some(Servers())
    ensures Prop(Assemble(p), "tags") == Some(JArr(p.tags))
    ensures Prop(Assemble(p), "paths") == Some(p.paths)
  {
    AssembleHead(p);
    AssembleLists(p);
  }

  lemma AssembleHead(p: Parts)
    ensures Prop(Assemble(p), "openapi") == Some(JStr("3.0.3"))
    ensures Prop(Assemble(p), "info") == Some(Info())
    ensures Prop(Assemble(p), "servers") == Some(Servers())
  {
    var top := Assemble(p).fields;
    LookupFirstAt(top, 0);
    LookupFirstAt(top, 1);
    LookupFirstAt(top, 2);
  }

  lemma AssembleLists(p: Parts)
    ensures Prop(Assemble(p), "tags") == Some(JArr(p.tags))
    ensures Prop(Assemble(p), "paths") == Some(p.paths)
  {
    var top := Assemble(p).fields;
    LookupFirstAt(top, 3);
    LookupFirstAt(top, 4);
  }

  lemma AssembleComponents(p: Parts)
    ensures Sub(Assemble(p), "components", "schemas") == Some(p.schemas)
    ensures Sub(Assemble(p), "components", "responses") == Some(p.responses)
    ensures Sub(Assemble(p), "components", "securitySchemes") == Some(SecuritySchemes())
  {
    var top := Assemble(p).fields;
    var comps := JObj([("schemas", p.schemas), ("responses", p.responses), ("securitySchemes", SecuritySchemes())]);
    LookupFirstAt(top, 5);
    assert Prop(Assemble(p), "components") == Some(comps);
    LookupFirstAt(comps.fields, 0);
    LookupFirstAt(comps.fields, 1);
    LookupFirstAt(comps.fields, 2);
  }

  /** The base specification: version `3.0.3`, bearer authentication over HTTP, and
      no tags, paths, schemas or responses yet. */
  lemma BaseSpecShape()
    ensures Envelope(CreateBaseSpec())
    ensures Sub(CreateBaseSpec(), "components", "securitySchemes") == Some(JObj([("bearerAuth", BearerAuth())]))
    ensures Prop(BearerAuth(), "type") == Some(JStr("http"))
    ensures ReadParts(CreateBaseSpec()) == Some(Parts([], JObj([]), JObj([]), JObj([])))
  {
    AssembleRead(EmptyParts());
  }

  // ---- One fragment ----

  /** `combinedSpec.tags.concat(moduleSpec.tags)` appends the elements of an array
      and any other value as a single element. */
  function TagContribution(tags: Json): seq<Json> {
    if tags.JArr? then tags.elems else [tags]
  }

  /** The paths, schemas and responses are objects, as the base specification makes
      them; merging into an object keeps it one. */
  predicate WellFormed(p: Parts) {
    p.paths.JObj? && p.schemas.JObj? && p.responses.JObj?
  }

  /** The three places merged with `mergeObjects`. */
  datatype Place = PathsPlace | SchemasPlace | ResponsesPlace

  /** The object at a place. */
  function At(p: Parts, place: Place): (r: Json)
    ensures WellFormed(p) ==> r.JObj?
  {
    match place
    case PathsPlace => p.paths
    case SchemasPlace => p.schemas
    case ResponsesPlace => p.responses
  }

  /** What a fragment merges into a place: `moduleSpec.paths`,
      `moduleSpec.components?.schemas` or `moduleSpec.components?.responses`, when
      it is truthy. */
  function Given(frag: Json, place: Place): Option<Json> {
    var v := match place
      case PathsPlace => Prop(frag, "paths")
      case SchemasPlace => Sub(frag, "components", "schemas")
      case ResponsesPlace => Sub(frag, "components", "responses");
    if v.Some? && Truthy(v.value) then v else None
  }

  /** The keys a fragment adds to a place when the place lacks them: the property
      names of what it gives, except those naming an inherited method. */
  function GivenKeys(frag: Json, place: Place): set<string> {
    match Given(frag, place)
    case None => {}
    case Some(v) => set k | k in Keys(Entries(v)) && Assignable(k, false)
  }

  /** `if (given) this.mergeObjects(target, given)` */
  function MergeInto(target: Json, given: Option<Json>): (r: Json)
    requires target.JObj?
    ensures r.JObj?
    ensures given.None? ==> r == target
    ensures Keys(target.fields) <= Keys(r.fields)
    ensures forall key :: key in Keys(r.fields) <==>
      key in Keys(target.fields) || (given.Some? && key in Keys(Entries(given.value)) && Assignable(key, false))
  {
    if given.Some? then
      MergeObjectsKeys(target, given.value, false);
      MergeObjects(target, given.value, false)
    else target
  }

  /** The writes of one accepted, non-null fragment: tags appended when truthy, and
      `paths`, `components.schemas` and `components.responses` merged without
      duplicates when truthy. */
  function MergeFragment(p: Parts, frag: Json): (r: Parts)
    requires WellFormed(p)
    ensures WellFormed(r)
    ensures |p.tags| <= |r.tags| && r.tags[..|p.tags|] == p.tags
    ensures !PropTruthy(frag, "tags") ==> r.tags == p.tags
    ensures PropTruthy(frag, "tags") ==> r.tags[|p.tags|..] == TagContribution(Prop(frag, "tags").value)
    ensures forall place :: Given(frag, place).None? ==> At(r, place) == At(p, place)
    ensures forall place :: Keys(At(p, place).fields) <= Keys(At(r, place).fields)
    ensures forall place, key :: key in Keys(At(r, place).fields) <==>
      key in Keys(At(p, place).fields) || key in GivenKeys(frag, place)
  {
    Parts(
      if PropTruthy(frag, "tags") then p.tags + TagContribution(Prop(frag, "tags").value) else p.tags,
      MergeInto(p.paths, Given(frag, PathsPlace)),
      MergeInto(p.schemas, Given(frag, SchemasPlace)),
      MergeInto(p.responses, Given(frag, ResponsesPlace)))
  }

  /** The fragment passes `validateModule`. */
  predicate Passes(f: Fragment) {
    Validator.Validate(f.content, f.name).isValid
  }

  /** The verdict of `validateModule` on every fragment. Validation is pure, so
      for fragments without a `__proto__` key, computing every verdict up front
      does not change what the loop does. */
  function Verdicts(frags: seq<Fragment>): (r: seq<bool>)
    ensures |r| == |frags|
  {
    seq(|frags|, i requires 0 <= i < |frags| => Passes(frags[i]))
  }

  /** One iteration of the loop over the modules, given the module's verdict. */
  function Step(st: State, f: Fragment, passes: bool): (r: Result<State, Fault>)
    requires WellFormed(st.parts)
    ensures r.Ok? ==> WellFormed(r.value.parts)
  {
    if !passes then
      Ok(State(st.parts, st.validModules, st.skippedModules + [Skip(f.name, ValidationReason)]))
    else if f.content.JNull? then
      Err(NullFragment(f.name))
    else
      Ok(State(MergeFragment(st.parts, f.content), st.validModules + [f.name], st.skippedModules))
  }

  /** The loop over the modules from `st` on; the first fault ends it. */
  function Process(st: State, frags: seq<Fragment>, ok: seq<bool>): (r: Result<State, Fault>)
    requires WellFormed(st.parts) && |ok| == |frags|
    ensures r.Ok? ==> WellFormed(r.value.parts)
    decreases |frags|
  {
    if |frags| == 0 then Ok(st)
    else
      match Step(st, frags[0], ok[0])
      case Err(e) => Err(e)
      case Ok(next) => Process(next, frags[1..], ok[1..])
  }

  // ---- Tag deduplication ----

  /** What `tag.name` evaluates to, for comparison with `===`: `undefined`, a
      primitive compared by value, or an object or array compared by identity (every
      parsed value is a distinct object, so the position in the tag list identifies it). */
  datatype NameKey = Missing | Primitive(value: Json) | Reference(position: nat)

  function NameKeyOf(tag: Json, position: nat): NameKey {
    match Prop(tag, "name")
    case None => Missing
    case Some(n) => if n.JArr? || n.JObj? then Reference(position) else Primitive(n)
  }

  function NameKeys(tags: seq<Json>): (r: seq<NameKey>)
    ensures |r| == |tags|
  {
    seq(|tags|, i requires 0 <= i < |tags| => NameKeyOf(tags[i], i))
  }

  /** `x.name === y.name` for two tags at different positions. */
  predicate SameName(x: Json, y: Json) {
    match (Prop(x, "name"), Prop(y, "name"))
    case (None, None) => true
    case (Some(a), Some(b)) => !a.JArr? && !a.JObj? && a == b
    case _ => false
  }

  lemma NameKeysMatch(tags: seq<Json>, i: nat, j: nat)
    requires i < |tags| && j < |tags| && i != j
    ensures NameKeys(tags)[i] == NameKeys(tags)[j] <==> SameName(tags[i], tags[j])
  {
  }

  /** `tags.filter((tag, index, self) => index === self.findIndex(t => t.name === tag.name))`:
      a `null` tag makes the name lookup throw. */
  function DedupTags(tags: seq<Json>): Result<seq<Json>, Fault> {
    if exists i :: 0 <= i < |tags| && tags[i].JNull? then Err(NullTag)
    else Ok(FirstOccurrence.KeepFirstBy(tags, NameKeys(tags)))
  }

  /** The positions of the tags the deduplication keeps. */
  function KeptPositions(tags: seq<Json>): seq<nat> {
    FirstOccurrence.FirstIndices(NameKeys(tags))
  }

  /** The kept tags are whole tags of the input, taken at increasing positions. */
  lemma DedupTagsKept(tags: seq<Json>)
    requires forall i :: 0 <= i < |tags| ==> !tags[i].JNull?
    ensures
      && DedupTags(tags) == Ok(FirstOccurrence.KeepFirstBy(tags, NameKeys(tags)))
      && |DedupTags(tags).value| == |KeptPositions(tags)|
      && (forall a :: 0 <= a < |KeptPositions(tags)| ==>
            KeptPositions(tags)[a] < |tags| && DedupTags(tags).value[a] == tags[KeptPositions(tags)[a]])
      && (forall a, b :: 0 <= a < b < |KeptPositions(tags)| ==> KeptPositions(tags)[a] < KeptPositions(tags)[b])
  {
  }

  /** No two kept tags share a name. */
  lemma DedupTagsDistinct(tags: seq<Json>)
    requires forall i :: 0 <= i < |tags| ==> !tags[i].JNull?
    ensures var kept := FirstOccurrence.KeepFirstBy(tags, NameKeys(tags));
      forall a, b :: 0 <= a < b < |kept| ==> !SameName(kept[a], kept[b])
  {
    var ks := NameKeys(tags);
    var ix := KeptPositions(tags);
    var kept := FirstOccurrence.KeepFirstBy(tags, ks);
    forall a, b | 0 <= a < b < |kept|
      ensures !SameName(kept[a], kept[b])
    {
      assert ix[b] in ix;
      assert FirstOccurrence.IsFirst(ks, ix[b]);
      NameKeysMatch(tags, ix[a], ix[b]);
    }
  }

  /** Each kept tag is the first tag with its name. */
  lemma DedupTagsFirst(tags: seq<Json>)
    requires forall i :: 0 <= i < |tags| ==> !tags[i].JNull?
    ensures forall a, j :: 0 <= a < |KeptPositions(tags)| && 0 <= j < KeptPositions(tags)[a] ==>
      !SameName(tags[j], tags[KeptPositions(tags)[a]])
  {
    var ks := NameKeys(tags);
    var ix := KeptPositions(tags);
    forall a, j | 0 <= a < |ix| && 0 <= j < ix[a]
      ensures !SameName(tags[j], tags[ix[a]])
    {
      assert ix[a] in ix;
      NameKeysMatch(tags, j, ix[a]);
    }
  }

  /** The tag at position `i` is represented among the kept positions `ix`: it is kept
      itself, or an earlier kept tag has the same name. */
  predicate Represented(tags: seq<Json>, ix: seq<nat>, i: nat)
    requires i < |tags| && forall a :: 0 <= a < |ix| ==> ix[a] < |tags|
  {
    exists a :: 0 <= a < |ix| && ix[a] <= i && (ix[a] == i || SameName(tags[ix[a]], tags[i]))
  }

  /** Every tag's name is represented among the kept tags. */
  lemma DedupTagsCover(tags: seq<Json>)
    requires forall i :: 0 <= i < |tags| ==> !tags[i].JNull?
    ensures forall i :: 0 <= i < |tags| ==> Represented(tags, KeptPositions(tags), i)
  {
    var ks := NameKeys(tags);
    var ix := KeptPositions(tags);
    FirstOccurrence.EveryKeyKept(ks);
    forall i | 0 <= i < |tags|
      ensures Represented(tags, ix, i)
    {
      var h := FirstOccurrence.FirstHolder(ks, i);
      var a :| 0 <= a < |ix| && ix[a] == h;
      if h != i {
        NameKeysMatch(tags, h, i);
      }
      assert 0 <= a < |ix| && ix[a] <= i && (ix[a] == i || SameName(tags[ix[a]], tags[i]));
    }
  }

  /** A `null` tag anywhere aborts the bundle. */
  lemma DedupTagsNull(tags: seq<Json>)
    ensures DedupTags(tags) == Err(NullTag) <==> exists i :: 0 <= i < |tags| && tags[i].JNull?
  {
  }

  // ---- The whole bundle ----

  function InitialState(): State {
    State(EmptyParts(), [], [])
  }

  /** `bundle()`, given the verdicts of validation. */
  function BundleWith(frags: seq<Fragment>, ok: seq<bool>): Result<Bundled, Fault>
    requires |ok| == |frags|
  {
    match Process(InitialState(), frags, ok)
    case Err(e) => Err(e)
    case Ok(st) =>
      match DedupTags(st.parts.tags)
      case Err(e) => Err(e)
      case Ok(tags) =>
        Ok(Bundled(Assemble(Parts(tags, st.parts.paths, st.parts.schemas, st.parts.responses)),
                   st.validModules, st.skippedModules))
  }

  /** `bundle()` */
  function Bundle(frags: seq<Fragment>): Result<Bundled, Fault> {
    BundleWith(frags, Verdicts(frags))
  }

  // ---- Reference definitions for the fold ----

  /** The fragments whose verdict is positive, in order. */
  function Accepted(frags: seq<Fragment>, ok: seq<bool>): seq<Fragment>
    requires |ok| == |frags|
    decreases |frags|
  {
    if |frags| == 0 then []
    else (if ok[0] then [frags[0]] else []) + Accepted(frags[1..], ok[1..])
  }

  function Names(frags: seq<Fragment>): seq<string>
    decreases |frags|
  {
    if |frags| == 0 then [] else [frags[0].name] + Names(frags[1..])
  }

  /** The fragments whose verdict is negative, as `skippedModules` entries. */
  function Rejected(frags: seq<Fragment>, ok: seq<bool>): seq<Skip>
    requires |ok| == |frags|
    decreases |frags|
  {
    if |frags| == 0 then []
    else (if ok[0] then [] else [Skip(frags[0].name, ValidationReason)]) + Rejected(frags[1..], ok[1..])
  }

  predicate HasNullFragment(frags: seq<Fragment>) {
    exists i :: 0 <= i < |frags| && frags[i].content.JNull?
  }

  /** The tags the given fragments contribute, in order. */
  function CollectedTags(frags: seq<Fragment>): seq<Json>
    decreases |frags|
  {
    if |frags| == 0 then []
    else
      (if PropTruthy(frags[0].content, "tags") then TagContribution(Prop(frags[0].content, "tags").value) else [])
      + CollectedTags(frags[1..])
  }

  /** The keys the given fragments add to a place. */
  function Contributed(frags: seq<Fragment>, place: Place): set<string>
    decreases |frags|
  {
    if |frags| == 0 then {} else GivenKeys(frags[0].content, place) + Contributed(frags[1..], place)
  }

  // ---- Properties of the fold ----

  /** After the loop a place holds exactly the keys it held before and those the
      accepted fragments give it; names of inherited methods are never added. */
  lemma {:induction false} ProcessKeys(st: State, frags: seq<Fragment>, ok: seq<bool>, place: Place)
    requires WellFormed(st.parts) && |ok| == |frags|
    requires Process(st, frags, ok).Ok?
    ensures var q := Process(st, frags, ok).value.parts;
      forall key :: key in Keys(At(q, place).fields) <==>
        key in Keys(At(st.parts, place).fields) || key in Contributed(Accepted(frags, ok), place)
    decreases |frags|
  {
    if |frags| > 0 {
      var f := frags[0];
      var next := Step(st, f, ok[0]).value;
      var rest := Accepted(frags[1..], ok[1..]);
      ProcessKeys(next, frags[1..], ok[1..], place);
      if ok[0] {
        var acc := [f] + rest;
        assert Accepted(frags, ok) == acc;
        assert acc[0] == f && acc[1..] == rest;
        assert Contributed(acc, place) == GivenKeys(f.content, place) + Contributed(rest, place);
      } else {
        assert Accepted(frags, ok) == rest;
      }
    }
  }

  lemma {:induction false} HasNullFragmentTail(frags: seq<Fragment>)
    requires |frags| > 0 && !frags[0].content.JNull?
    ensures HasNullFragment(frags) <==> HasNullFragment(frags[1..])
  {
    if HasNullFragment(frags) {
      var i :| 0 <= i < |frags| && frags[i].content.JNull?;
      assert frags[1..][i - 1] == frags[i];
    }
    if HasNullFragment(frags[1..]) {
      var i :| 0 <= i < |frags[1..]| && frags[1..][i].content.JNull?;
      assert frags[i + 1] == frags[1..][i];
    }
  }

  /** A `null` fragment passes validation: the walk ignores everything that is not
      a truthy object. */
  lemma NullPasses(f: Fragment)
    requires f.content.JNull?
    ensures Passes(f)
  {
    assert Validator.Walk(f.content, "root") == Validator.NoFindings();
  }

  /** The fold fails exactly when some fragment is `null`, since every `null`
      fragment passes validation and then `.tags` throws. */
  lemma {:induction false} ProcessFails(st: State, frags: seq<Fragment>, ok: seq<bool>)
    requires WellFormed(st.parts) && |ok| == |frags|
    requires forall i :: 0 <= i < |frags| && frags[i].content.JNull? ==> ok[i]
    ensures Process(st, frags, ok).Err? <==> HasNullFragment(frags)
    ensures Process(st, frags, ok).Err? ==> Process(st, frags, ok).error.NullFragment?
    decreases |frags|
  {
    if |frags| > 0 && !frags[0].content.JNull? {
      HasNullFragmentTail(frags);
      assert forall i :: 0 <= i < |frags[1..]| ==> frags[1..][i] == frags[i + 1] && ok[1..][i] == ok[i + 1];
      ProcessFails(Step(st, frags[0], ok[0]).value, frags[1..], ok[1..]);
    }
  }

  /** Every processed module lands in exactly one of the two lists, in discovery
      order: the valid ones by name, the others with the validation reason. */
  lemma {:induction false} ProcessBookkeeping(st: State, frags: seq<Fragment>, ok: seq<bool>)
    requires WellFormed(st.parts) && |ok| == |frags|
    requires Process(st, frags, ok).Ok?
    ensures Process(st, frags, ok).value.validModules == st.validModules + Names(Accepted(frags, ok))
    ensures Process(st, frags, ok).value.skippedModules == st.skippedModules + Rejected(frags, ok)
    decreases |frags|
  {
    if |frags| > 0 {
      var f := frags[0];
      StepBookkeeping(st, f, ok[0]);
      var next := Step(st, f, ok[0]).value;
      assert Process(st, frags, ok) == Process(next, frags[1..], ok[1..]);
      var restOk := Accepted(frags[1..], ok[1..]);
      var restSkip := Rejected(frags[1..], ok[1..]);
      ProcessBookkeeping(next, frags[1..], ok[1..]);
      if ok[0] {
        assert Accepted(frags, ok) == [f] + restOk;
        assert Names([f] + restOk) == [f.name] + Names(restOk);
        assert Rejected(frags, ok) == restSkip;
        assert st.validModules + [f.name] + Names(restOk) == st.validModules + ([f.name] + Names(restOk));
      } else {
        assert Accepted(frags, ok) == restOk;
        assert Rejected(frags, ok) == [Skip(f.name, ValidationReason)] + restSkip;
        assert st.skippedModules + [Skip(f.name, ValidationReason)] + restSkip
          == st.skippedModules + ([Skip(f.name, ValidationReason)] + restSkip);
      }
    }
  }

  /** One iteration records its module in exactly one list. */
  lemma StepBookkeeping(st: State, f: Fragment, passes: bool)
    requires WellFormed(st.parts)
    ensures var r := Step(st, f, passes);
      r.Ok? ==>
        && r.value.validModules == st.validModules + (if passes then [f.name] else [])
        && r.value.skippedModules == st.skippedModules + (if passes then [] else [Skip(f.name, ValidationReason)])
  {
  }

  lemma {:induction false} PartitionSizes(frags: seq<Fragment>, ok: seq<bool>)
    requires |ok| == |frags|
    ensures |Names(Accepted(frags, ok))| + |Rejected(frags, ok)| == |frags|
    decreases |frags|
  {
    if |frags| > 0 {
      var head := if ok[0] then [frags[0]] else [];
      PartitionSizes(frags[1..], ok[1..]);
      NamesConcat(head, Accepted(frags[1..], ok[1..]));
    }
  }

  lemma {:induction false} NamesConcat(a: seq<Fragment>, b: seq<Fragment>)
    ensures Names(a + b) == Names(a) + Names(b)
    decreases |a|
  {
    if |a| > 0 {
      assert (a + b)[1..] == a[1..] + b;
      NamesConcat(a[1..], b);
    } else {
      assert a + b == b;
    }
  }

  /** A module that fails validation leaves the combined parts as they were: the
      fold gives the same parts, or the same fault, with it or without it. */
  lemma {:induction false} SkippedChangeNothing(st: State, st': State, frags: seq<Fragment>, ok: seq<bool>)
    requires WellFormed(st.parts) && st'.parts == st.parts && |ok| == |frags|
    ensures var acc := Accepted(frags, ok);
      var all := Process(st, frags, ok);
      var only := Process(st', acc, seq(|acc|, _ => true));
      && (all.Ok? <==> only.Ok?)
      && (all.Ok? ==> all.value.parts == only.value.parts)
      && (all.Err? ==> all.error == only.error)
    decreases |frags|
  {
    if |frags| > 0 {
      var f := frags[0];
      var rest := Accepted(frags[1..], ok[1..]);
      if !ok[0] {
        assert Accepted(frags, ok) == rest;
        SkippedChangeNothing(Step(st, f, false).value, st', frags[1..], ok[1..]);
      } else {
        var acc := [f] + rest;
        assert Accepted(frags, ok) == acc;
        assert acc[0] == f && acc[1..] == rest;
        assert seq(|acc|, _ => true)[1..] == seq(|rest|, _ => true);
        if !f.content.JNull? {
          SkippedChangeNothing(Step(st, f, true).value, Step(st', f, true).value, frags[1..], ok[1..]);
        }
      }
    }
  }

  /** The tags the fold accumulates are those of the accepted fragments, in order. */
  lemma {:induction false} ProcessTags(st: State, frags: seq<Fragment>, ok: seq<bool>)
    requires WellFormed(st.parts) && |ok| == |frags|
    requires Process(st, frags, ok).Ok?
    ensures Process(st, frags, ok).value.parts.tags == st.parts.tags + CollectedTags(Accepted(frags, ok))
    decreases |frags|
  {
    if |frags| > 0 {
      var f := frags[0];
      var next := Step(st, f, ok[0]).value;
      var rest := Accepted(frags[1..], ok[1..]);
      ProcessTags(next, frags[1..], ok[1..]);
      if ok[0] {
        var own := if PropTruthy(f.content, "tags") then TagContribution(Prop(f.content, "tags").value) else [];
        var acc := [f] + rest;
        assert Accepted(frags, ok) == acc;
        assert acc[0] == f && acc[1..] == rest;
        assert CollectedTags(acc) == own + CollectedTags(rest);
        assert next.parts.tags == st.parts.tags + own;
      } else {
        assert Accepted(frags, ok) == rest;
      }
    }
  }

  /** A finished bundle keeps the envelope, differs from the base specification only
      in tags, paths, schemas and responses, records every module in exactly one list
      in discovery order, and its tags are the accepted fragments' tags with only the
      first of every name kept. */
  lemma BundleResult(frags: seq<Fragment>, ok: seq<bool>)
    requires |ok| == |frags| && BundleWith(frags, ok).Ok?
    ensures var b := BundleWith(frags, ok).value;
      && Envelope(b.spec)
      && ReadParts(b.spec).Some?
      && b.spec == Assemble(ReadParts(b.spec).value)
      && b.validModules == Names(Accepted(frags, ok))
      && b.skippedModules == Rejected(frags, ok)
      && |b.validModules| + |b.skippedModules| == |frags|
      && var all := CollectedTags(Accepted(frags, ok));
         ReadParts(b.spec).value.tags == FirstOccurrence.KeepFirstBy(all, NameKeys(all))
  {
    var st := Process(InitialState(), frags, ok).value;
    ProcessBookkeeping(InitialState(), frags, ok);
    ProcessTags(InitialState(), frags, ok);
    PartitionSizes(frags, ok);
    var p := Parts(DedupTags(st.parts.tags).value, st.parts.paths, st.parts.schemas, st.parts.responses);
    AssembleRead(p);
    assert [] + CollectedTags(Accepted(frags, ok)) == CollectedTags(Accepted(frags, ok));
  }

  /** In a finished bundle the paths, schemas and responses hold exactly the keys
      the accepted fragments give them, except names of inherited methods. */
  lemma BundleKeys(frags: seq<Fragment>, ok: seq<bool>, place: Place)
    requires |ok| == |frags| && BundleWith(frags, ok).Ok?
    ensures var b := BundleWith(frags, ok).value;
      && ReadParts(b.spec).Some?
      && At(ReadParts(b.spec).value, place).JObj?
      && forall key :: key in Keys(At(ReadParts(b.spec).value, place).fields) <==>
           key in Contributed(Accepted(frags, ok), place)
  {
    var st := Process(InitialState(), frags, ok).value;
    ProcessKeys(InitialState(), frags, ok, place);
    var p := Parts(DedupTags(st.parts.tags).value, st.parts.paths, st.parts.schemas, st.parts.responses);
    AssembleRead(p);
    assert At(p, place) == At(st.parts, place);
    assert Keys(At(InitialState().parts, place).fields) == [];
  }

  /** The combined specification does not depend on the modules that fail
      validation: bundling only the accepted ones gives the same document, or the
      same fault. */
  lemma BundleIgnoresSkipped(frags: seq<Fragment>, ok: seq<bool>)
    requires |ok| == |frags|
    ensures var acc := Accepted(frags, ok);
      var all := BundleWith(frags, ok);
      var only := BundleWith(acc, seq(|acc|, _ => true));
      && (all.Ok? <==> only.Ok?)
      && (all.Ok? ==> all.value.spec == only.value.spec)
      && (all.Err? ==> all.error == only.error)
  {
    SkippedChangeNothing(InitialState(), InitialState(), frags, ok);
  }

  /** A bundle fails exactly when a fragment is `null` or an accepted fragment
      contributes a `null` tag. */
  lemma BundleFails(frags: seq<Fragment>)
    ensures var ok := Verdicts(frags);
      var tags := CollectedTags(Accepted(frags, ok));
      Bundle(frags).Err? <==> HasNullFragment(frags) || exists i :: 0 <= i < |tags| && tags[i].JNull?
  {
    var ok := Verdicts(frags);
    forall i | 0 <= i < |frags| && frags[i].content.JNull?
      ensures ok[i]
    {
      NullPasses(frags[i]);
    }
    ProcessFails(InitialState(), frags, ok);
    if !HasNullFragment(frags) {
      ProcessTags(InitialState(), frags, ok);
      assert [] + CollectedTags(Accepted(frags, ok)) == CollectedTags(Accepted(frags, ok));
    }
  }
}
