/** `customParse` and `buildErrorMessage`: turning the issues of a failed schema
    parse into friendly per-field errors and one summary sentence about missing or
    null fields. The schema library's own parsing is an input: its outcome is given
    as a success value or a list of issues. */
module ZodMessages {
  import opened Options
  import opened JsonValues
  import opened Strings
  import Decimal

  // ---- Data ----

  /** One step of an issue path: a property name or an array position. */
  datatype PathKey = Name(name: string) | Position(index: nat)

  /** The fields of a schema issue this code reads; `expected` and `received` are
      absent on issue kinds that do not carry them. */
  datatype Issue = Issue(code: string, path: seq<PathKey>, message: string, expected: Option<Json>, received: Option<Json>)

  datatype FriendlyError = FriendlyError(field: string, code: string, message: string, expected: Option<Json>, received: Option<Json>)

  /** What the schema library's parse reports. */
  datatype Parsed<T> = Success(data: T) | Failure(issues: seq<Issue>)

  /** `{ success: true, data }` or `{ success: false, errors, message }`. */
  datatype Outcome<T> = Accepted(data: T) | Rejected(errors: seq<FriendlyError>, message: string)

  const InvalidTypeCode: string := "invalid_type"
  const Prefix: string := "Field"
  const Suffix: string := "are missing or null"

  // ---- customParse ----

  /** How `join` renders one path step. */
  function KeyText(k: PathKey): string {
    match k
    case Name(s) => s
    case Position(n) => Decimal.NatToString(n)
  }

  function KeyTexts(path: seq<PathKey>): (r: seq<string>)
    ensures |r| == |path|
  {
    seq(|path|, i requires 0 <= i < |path| => KeyText(path[i]))
  }

  /** `issue.path.length > 0 ? issue.path.join('.') : 'root'` */
  function FieldOf(path: seq<PathKey>): string {
    if |path| > 0 then Join(KeyTexts(path), ".") else "root"
  }

  /** `value || undefined` */
  function KeepTruthy(v: Option<Json>): (r: Option<Json>)
    ensures r.Some? <==> v.Some? && Truthy(v.value)
    ensures r.Some? ==> r == v
  {
    if v.Some? && Truthy(v.value) then v else None
  }

  /** The `FriendlyError` of one issue. */
  function Friendly(issue: Issue): FriendlyError {
    FriendlyError(FieldOf(issue.path), issue.code, ToLower(issue.message),
                  KeepTruthy(issue.expected), KeepTruthy(issue.received))
  }

  /** `customParse(schema, data)` given the outcome of `schema.safeParse(data)`. */
  function CustomParse<T>(parsed: Parsed<T>): (r: Outcome<T>)
    ensures parsed.Success? <==> r.Accepted?
    ensures parsed.Success? ==> r.data == parsed.data
    ensures parsed.Failure? ==> |r.errors| == |parsed.issues|
    ensures parsed.Failure? ==> forall i :: 0 <= i < |parsed.issues| ==> r.errors[i] == Friendly(parsed.issues[i])
    ensures parsed.Failure? ==> r.message == BuildErrorMessage(r.errors)
  {
    match parsed
    case Success(data) => Accepted(data)
    case Failure(issues) =>
      var errors := Friendlies(issues);
      Rejected(errors, BuildErrorMessage(errors))
  }

  /** `issues.map(...)`: the friendly error of every issue, in order. */
  function Friendlies(issues: seq<Issue>): (r: seq<FriendlyError>)
    ensures |r| == |issues|
  {
    seq(|issues|, i requires 0 <= i < |issues| => Friendly(issues[i]))
  }

  // ---- buildErrorMessage ----

  /** The error says a required value is missing or null. */
  predicate MissingOrNull(e: FriendlyError) {
    && e.code == InvalidTypeCode
    && e.expected.Some? && Truthy(e.expected.value)
    && (e.received == Some(JStr("undefined")) || e.received == Some(JStr("null")))
  }

  /** The errors the `forEach` pushes, in order. */
  function MissingOrNullErrors(errors: seq<FriendlyError>): (r: seq<FriendlyError>)
    ensures |r| <= |errors|
    decreases |errors|
  {
    if |errors| == 0 then []
    else (if MissingOrNull(errors[0]) then [errors[0]] else []) + MissingOrNullErrors(errors[1..])
  }

  function Fields(errors: seq<FriendlyError>): (r: seq<string>)
    ensures |r| == |errors|
  {
    seq(|errors|, i requires 0 <= i < |errors| => errors[i].field)
  }

  /** Each field with a leading space. */
  function Spaced(fields: seq<string>): (r: seq<string>)
    ensures |r| == |fields|
  {
    seq(|fields|, i requires 0 <= i < |fields| => " " + fields[i])
  }

  /** `buildErrorMessage(errors)` */
  function BuildErrorMessage(errors: seq<FriendlyError>): string {
    var found := MissingOrNullErrors(errors);
    if |found| == 0 then ""
    else
      var plural := if |found| > 1 then "s" else "";
      Prefix + plural + Join(Spaced(Fields(found)), ",") + " " + Suffix
  }

  /** Reads a summary sentence back into its list of fields. */
  function ParseMessage(m: string): Option<seq<string>> {
    if m == "" then Some([])
    else
      var tail := " " + Suffix;
      if |m| < |Prefix| + |tail| || !StartsWith(m, Prefix) || !EndsWith(m, tail) then None
      else
        var start := if m[|Prefix|] == 's' then |Prefix| + 1 else |Prefix|;
        if start > |m| - |tail| then None
        else
          var pieces := Split(m[start..|m| - |tail|], ',');
          Some(seq(|pieces|, i requires 0 <= i < |pieces| => if |pieces[i]| > 0 then pieces[i][1..] else pieces[i]))
  }

  // ---- Properties ----

  /** An issue about a required value that is missing or null, judged on the issue
      itself: an `invalid_type` issue with a truthy `expected` and a `received` of
      `"undefined"` or `"null"`. */
  predicate ReportsMissing(issue: Issue) {
    && issue.code == InvalidTypeCode
    && issue.expected.Some? && Truthy(issue.expected.value)
    && (issue.received == Some(JStr("undefined")) || issue.received == Some(JStr("null")))
  }

  /** The fields of the issues that report a missing or null value, in order. */
  function MissingFields(issues: seq<Issue>): seq<string>
    decreases |issues|
  {
    if |issues| == 0 then []
    else (if ReportsMissing(issues[0]) then [FieldOf(issues[0].path)] else []) + MissingFields(issues[1..])
  }

  /** An error is a missing-or-null one exactly when its issue reports a missing value. */
  lemma FriendlyMissing(issue: Issue)
    ensures MissingOrNull(Friendly(issue)) <==> ReportsMissing(issue)
    ensures Friendly(issue).field == FieldOf(issue.path)
  {
  }

  /** The summary lists the fields of exactly the issues that report a missing value. */
  lemma {:induction false} MissingFieldsAgree(issues: seq<Issue>)
    ensures Fields(MissingOrNullErrors(Friendlies(issues))) == MissingFields(issues)
    decreases |issues|
  {
    if |issues| > 0 {
      var errors := Friendlies(issues);
      assert errors[1..] == Friendlies(issues[1..]);
      MissingFieldsAgree(issues[1..]);
      FriendlyMissing(issues[0]);
      var head := if MissingOrNull(errors[0]) then [errors[0]] else [];
      var rest := MissingOrNullErrors(errors[1..]);
      assert MissingOrNullErrors(errors) == head + rest;
      assert Fields(head + rest) == Fields(head) + Fields(rest);
    }
  }

  /** The errors `customParse` returns for a failed parse, stated on the issues: one
      error per issue, in order, keeping its code, its message lower-cased, and
      `expected` and `received` only when truthy; the field is `root` for an empty
      path and otherwise splits back into the path's steps when no property name
      contains a dot. */
  lemma FailureErrors<T>(issues: seq<Issue>)
    ensures var r := CustomParse<T>(Failure(issues));
      && r.Rejected?
      && |r.errors| == |issues|
      && (forall i :: 0 <= i < |issues| ==>
            && r.errors[i].code == issues[i].code
            && |r.errors[i].message| == |issues[i].message|
            && (forall k :: 0 <= k < |issues[i].message| && IsUpper(issues[i].message[k]) ==>
                  r.errors[i].message[k] as int == issues[i].message[k] as int + 32)
            && (forall k :: 0 <= k < |issues[i].message| && !IsUpper(issues[i].message[k]) ==>
                  r.errors[i].message[k] == issues[i].message[k])
            && (r.errors[i].expected.Some? <==> issues[i].expected.Some? && Truthy(issues[i].expected.value))
            && (r.errors[i].expected.Some? ==> r.errors[i].expected == issues[i].expected)
            && (r.errors[i].received.Some? <==> issues[i].received.Some? && Truthy(issues[i].received.value))
            && (r.errors[i].received.Some? ==> r.errors[i].received == issues[i].received)
            && (|issues[i].path| == 0 ==> r.errors[i].field == "root")
            && ((|issues[i].path| > 0 && forall j :: 0 <= j < |issues[i].path| && issues[i].path[j].Name? ==> '.' !in issues[i].path[j].name)
                  ==> Split(r.errors[i].field, '.') == KeyTexts(issues[i].path)))
  {
    var errors := Friendlies(issues);
    assert CustomParse<T>(Failure(issues)) == Rejected(errors, BuildErrorMessage(errors));
    forall i | 0 <= i < |issues|
      ensures |errors[i].message| == |issues[i].message|
      ensures forall k :: 0 <= k < |issues[i].message| && IsUpper(issues[i].message[k]) ==>
        errors[i].message[k] as int == issues[i].message[k] as int + 32
      ensures forall k :: 0 <= k < |issues[i].message| && !IsUpper(issues[i].message[k]) ==>
        errors[i].message[k] == issues[i].message[k]
      ensures (|issues[i].path| > 0 && forall j :: 0 <= j < |issues[i].path| && issues[i].path[j].Name? ==> '.' !in issues[i].path[j].name)
                ==> Split(errors[i].field, '.') == KeyTexts(issues[i].path)
    {
      FriendlyMessage(issues[i]);
      if forall j :: 0 <= j < |issues[i].path| && issues[i].path[j].Name? ==> '.' !in issues[i].path[j].name {
        FieldRoundTrip(issues[i].path);
      }
    }
  }

  /** No field is listed exactly when no issue reports a missing value. */
  lemma {:induction false} MissingFieldsEmpty(issues: seq<Issue>)
    ensures MissingFields(issues) == [] <==> forall i :: 0 <= i < |issues| ==> !ReportsMissing(issues[i])
    decreases |issues|
  {
    if |issues| > 0 {
      MissingFieldsEmpty(issues[1..]);
      forall i | 1 <= i < |issues|
        ensures issues[1..][i - 1] == issues[i]
      {
      }
    }
  }

  /** The summary of the friendly errors is empty exactly when no issue reports a
      missing value. */
  lemma SummaryEmpty(issues: seq<Issue>)
    ensures BuildErrorMessage(Friendlies(issues)) == "" <==> forall i :: 0 <= i < |issues| ==> !ReportsMissing(issues[i])
  {
    var errors := Friendlies(issues);
    MessageShape(errors);
    MissingFieldsAgree(issues);
    MissingFieldsEmpty(issues);
    assert |Fields(MissingOrNullErrors(errors))| == |MissingOrNullErrors(errors)|;
  }

  /** The summary of the friendly errors reads back as the fields of the issues that
      report a missing value, when none of those fields has a comma. */
  lemma SummaryReadsBack(issues: seq<Issue>)
    requires forall i :: 0 <= i < |issues| && ReportsMissing(issues[i]) ==> ',' !in FieldOf(issues[i].path)
    ensures ParseMessage(BuildErrorMessage(Friendlies(issues))) == Some(MissingFields(issues))
  {
    var errors := Friendlies(issues);
    forall e | e in errors && MissingOrNull(e)
      ensures ',' !in e.field
    {
      var i :| 0 <= i < |errors| && errors[i] == e;
      FriendlyMissing(issues[i]);
    }
    MessageRoundTrip(errors);
    MissingFieldsAgree(issues);
  }

  /** The summary `customParse` returns for a failed parse, stated on the issues: it
      is empty exactly when no issue reports a missing value, and reads back as the
      fields of the issues that do, when none of those fields has a comma. */
  lemma FailureMessage<T>(issues: seq<Issue>)
    ensures var r := CustomParse<T>(Failure(issues));
      && r.Rejected?
      && (r.message == "" <==> forall i :: 0 <= i < |issues| ==> !ReportsMissing(issues[i]))
      && ((forall i :: 0 <= i < |issues| && ReportsMissing(issues[i]) ==> ',' !in FieldOf(issues[i].path))
            ==> ParseMessage(r.message) == Some(MissingFields(issues)))
  {
    var errors := Friendlies(issues);
    assert CustomParse<T>(Failure(issues)) == Rejected(errors, BuildErrorMessage(errors));
    SummaryEmpty(issues);
    if forall i :: 0 <= i < |issues| && ReportsMissing(issues[i]) ==> ',' !in FieldOf(issues[i].path) {
      SummaryReadsBack(issues);
    }
  }

  /** Exactly the missing-or-null errors are selected, in order. */
  lemma {:induction false} MissingOrNullSelected(errors: seq<FriendlyError>)
    ensures forall e :: e in MissingOrNullErrors(errors) <==> e in errors && MissingOrNull(e)
    decreases |errors|
  {
    if |errors| > 0 {
      MissingOrNullSelected(errors[1..]);
      assert errors == [errors[0]] + errors[1..];
    }
  }

  /** The field of a non-empty path splits back into the path's steps when no
      property name contains a dot; an empty path gives `root`. */
  lemma FieldRoundTrip(path: seq<PathKey>)
    requires forall i :: 0 <= i < |path| && path[i].Name? ==> '.' !in path[i].name
    ensures |path| == 0 ==> FieldOf(path) == "root"
    ensures |path| > 0 ==> Split(FieldOf(path), '.') == KeyTexts(path)
  {
    if |path| > 0 {
      var texts := KeyTexts(path);
      forall i | 0 <= i < |texts|
        ensures '.' !in texts[i]
      {
        if path[i].Position? {
          Decimal.NatToStringDigits(path[i].index);
        }
      }
      SplitJoin(texts, '.');
    }
  }

  /** The friendly message is the issue message lower-cased: same length, every
      upper-case letter replaced by its lower-case partner, every other character
      kept. */
  lemma FriendlyMessage(issue: Issue)
    ensures |Friendly(issue).message| == |issue.message|
    ensures forall i :: 0 <= i < |issue.message| ==> !IsUpper(Friendly(issue).message[i])
    ensures forall i :: 0 <= i < |issue.message| && IsUpper(issue.message[i]) ==>
      Friendly(issue).message[i] as int == issue.message[i] as int + 32
    ensures forall i :: 0 <= i < |issue.message| && !IsUpper(issue.message[i]) ==>
      Friendly(issue).message[i] == issue.message[i]
  {
    ToLowerSpec(issue.message);
  }

  /** The summary is empty exactly when no error is a missing-or-null one; otherwise
      it starts with `Field`, pluralised exactly when there is more than one, and
      ends with the fixed suffix. */
  lemma MessageShape(errors: seq<FriendlyError>)
    ensures var n := |MissingOrNullErrors(errors)|;
      var m := BuildErrorMessage(errors);
      && (m == "" <==> n == 0)
      && (n > 0 ==> StartsWith(m, Prefix) && EndsWith(m, " " + Suffix))
      && (n > 0 ==> (StartsWith(m, Prefix + "s") <==> n > 1))
  {
    var found := MissingOrNullErrors(errors);
    if |found| > 0 {
      JoinSpacedStartsWithSpace(Fields(found));
      SentenceParts(if |found| > 1 then "s" else "", Join(Spaced(Fields(found)), ","));
    }
  }

  /** A sentence with a field list that starts with a space: the prefix, the plural
      mark and the suffix can be told apart. */
  lemma SentenceParts(plural: string, list: string)
    requires plural == "" || plural == "s"
    requires |list| > 0 && list[0] == ' '
    ensures var m := Prefix + plural + list + " " + Suffix;
      && m != ""
      && StartsWith(m, Prefix) && EndsWith(m, " " + Suffix)
      && (StartsWith(m, Prefix + "s") <==> plural == "s")
      && m[|Prefix|] == (if plural == "s" then 's' else ' ')
      && m[|Prefix| + |plural|..|m| - |" " + Suffix|] == list
  {
    var tail := " " + Suffix;
    var m := Prefix + plural + list + " " + Suffix;
    assert m == Prefix + (plural + list + tail);
    assert m == (Prefix + plural + list) + tail;
    assert m[|Prefix|] == (plural + list)[0];
    assert m[..|Prefix|] == Prefix;
    assert m[|m| - |tail|..] == tail;
    if plural == "" {
      assert m[..|Prefix| + 1][|Prefix|] == ' ';
    }
  }

  lemma {:induction false} JoinSpacedStartsWithSpace(fields: seq<string>)
    requires |fields| > 0
    ensures |Join(Spaced(fields), ",")| > 0 && Join(Spaced(fields), ",")[0] == ' '
  {
    if |fields| > 1 {
      assert Join(Spaced(fields), ",") == Spaced(fields)[0] + "," + Join(Spaced(fields)[1..], ",");
    }
  }

  /** Reading the summary back gives the fields of the missing-or-null errors, in
      order, provided no such field contains a comma. */
  lemma MessageRoundTrip(errors: seq<FriendlyError>)
    requires forall e :: e in errors && MissingOrNull(e) ==> ',' !in e.field
    ensures ParseMessage(BuildErrorMessage(errors)) == Some(Fields(MissingOrNullErrors(errors)))
  {
    var found := MissingOrNullErrors(errors);
    MissingOrNullSelected(errors);
    if |found| > 0 {
      var fields := Fields(found);
      forall i | 0 <= i < |fields|
        ensures ',' !in fields[i]
      {
        assert found[i] in found;
      }
      ParseSentence(if |found| > 1 then "s" else "", fields);
    }
  }

  /** A sentence built from comma-free fields reads back as those fields. */
  lemma ParseSentence(plural: string, fields: seq<string>)
    requires plural == "" || plural == "s"
    requires |fields| > 0 && forall i :: 0 <= i < |fields| ==> ',' !in fields[i]
    ensures ParseMessage(Prefix + plural + Join(Spaced(fields), ",") + " " + Suffix) == Some(fields)
  {
    var spaced := Spaced(fields);
    var list := Join(spaced, ",");
    JoinSpacedStartsWithSpace(fields);
    SentenceParts(plural, list);
    forall i | 0 <= i < |spaced|
      ensures ',' !in spaced[i]
    {
      assert spaced[i] == " " + fields[i];
    }
    SplitJoin(spaced, ',');
    var decoded := seq(|spaced|, i requires 0 <= i < |spaced| => if |spaced[i]| > 0 then spaced[i][1..] else spaced[i]);
    forall i | 0 <= i < |spaced|
      ensures decoded[i] == fields[i]
    {
      assert spaced[i] == " " + fields[i];
    }
    assert decoded == fields;
  }

  /** Only the missing-or-null errors matter: the summary of those alone is the
      same sentence. */
  lemma {:induction false} MessageOnlyFromMissing(errors: seq<FriendlyError>)
    ensures MissingOrNullErrors(MissingOrNullErrors(errors)) == MissingOrNullErrors(errors)
    ensures BuildErrorMessage(MissingOrNullErrors(errors)) == BuildErrorMessage(errors)
    decreases |errors|
  {
    if |errors| > 0 {
      var head := if MissingOrNull(errors[0]) then [errors[0]] else [];
      var rest := MissingOrNullErrors(errors[1..]);
      MessageOnlyFromMissing(errors[1..]);
      MissingOrNullConcat(head, rest);
      assert MissingOrNullErrors(head) == head by {
        if |head| > 0 {
          assert head[1..] == [];
        }
      }
    }
  }

  lemma {:induction false} MissingOrNullConcat(a: seq<FriendlyError>, b: seq<FriendlyError>)
    ensures MissingOrNullErrors(a + b) == MissingOrNullErrors(a) + MissingOrNullErrors(b)
    decreases |a|
  {
    if |a| == 0 {
      assert a + b == b;
    } else {
      var h := if MissingOrNull(a[0]) then [a[0]] else [];
      assert (a + b)[0] == a[0];
      assert (a + b)[1..] == a[1..] + b;
      MissingOrNullConcat(a[1..], b);
      var x := MissingOrNullErrors(a[1..]);
      var y := MissingOrNullErrors(b);
      assert MissingOrNullErrors(a + b) == h + (x + y);
      assert MissingOrNullErrors(a) == h + x;
      assert h + (x + y) == (h + x) + y;
    }
  }
}
