/** The request-body schemas of lib/validation.ts. A parsed body is either
    a JSON object, of which the model sees the members holding strings, or
    some other JSON value. Keys a schema does not declare are stripped and
    never reach the validated value. */
module Validation {
  import opened WorkOrderTypes

  /** A parsed request body. */
  datatype Payload = NonObject | Object(fields: map<string, string>)

  /** The message of a validation issue: either a literal of validation.ts,
      or one of zod's built-in messages, named but not spelled out. */
  datatype Message =
    | Text(text: string)
    | Required
    | ExpectedObject
    | InvalidEnumValue(options: seq<string>, received: string)

  /** A zod issue: the path of keys leading to the offending value. */
  datatype Issue = Issue(path: seq<string>, message: Message)

  /** A schema's verdict: the typed value, or every issue found. */
  datatype Validated<T> = Valid(value: T) | Invalid(issues: seq<Issue>)

  function IssuesOf<T>(v: Validated<T>): seq<Issue>
  {
    if v.Invalid? then v.issues else []
  }

  const TitleMinLength: nat := 2
  const TitleMaxLength: nat := 80
  const DescriptionMaxLength: nat := 2000

  const TitleTooShort := "Title must be at least 2 characters"
  const TitleTooLong := "Title must be at most 80 characters"
  const DescriptionTooLong := "Description must be at most 2000 characters"
  const PriorityInvalid := "Priority must be Low, Medium, or High"

  /** The keys each schema declares, in declaration order. */
  const CreateKeys: seq<string> := ["title", "description", "priority"]
  const UpdateKeys: seq<string> := ["title", "description", "priority", "status"]

  /** The priority enum of both schemas. */
  function ParsePriority(s: string): (p: Option<Priority>)
    ensures p.Some? <==> s in PriorityNames
    ensures p.Some? ==> PriorityName(p.value) == s
  {
    if s == "Low" then Some(Low)
    else if s == "Medium" then Some(Medium)
    else if s == "High" then Some(High)
    else None
  }

  /** The status enum of the update schema. */
  function ParseStatus(s: string): (t: Option<Status>)
    ensures t.Some? <==> s in StatusNames
    ensures t.Some? ==> StatusName(t.value) == s
  {
    if s == "Open" then Some(Open)
    else if s == "In Progress" then Some(InProgress)
    else if s == "Done" then Some(Done)
    else None
  }

  /** The enumerations the schemas accept are exactly the domain types:
      every priority and status parses back from its literal. */
  lemma EnumsMatchTypes(p: Priority, s: Status)
    ensures ParsePriority(PriorityName(p)) == Some(p)
    ensures ParseStatus(StatusName(s)) == Some(s)
  {
    PriorityNamesDistinct(p, ParsePriority(PriorityName(p)).value);
    StatusNamesDistinct(s, ParseStatus(StatusName(s)).value);
  }

  /** The length bounds of the two text fields. Lengths count the string's
      elements, which stand for UTF-16 code units. */
  predicate TitleLengthOk(title: string)
  {
    TitleMinLength <= |title| <= TitleMaxLength
  }

  predicate DescriptionLengthOk(description: string)
  {
    |description| <= DescriptionMaxLength
  }

  /** The title's minimum and maximum length rules, on a present title. */
  function TitleIssues(title: string): (issues: seq<Issue>)
    ensures issues == [] <==> TitleLengthOk(title)
    ensures |title| < TitleMinLength ==> issues == [Issue(["title"], Text(TitleTooShort))]
    ensures |title| > TitleMaxLength ==> issues == [Issue(["title"], Text(TitleTooLong))]
  {
    (if |title| < TitleMinLength then [Issue(["title"], Text(TitleTooShort))] else [])
    + (if |title| > TitleMaxLength then [Issue(["title"], Text(TitleTooLong))] else [])
  }

  /** The description's maximum length rule, on a present description. */
  function DescriptionIssues(description: string): (issues: seq<Issue>)
    ensures issues == [] <==> DescriptionLengthOk(description)
    ensures !DescriptionLengthOk(description) ==> issues == [Issue(["description"], Text(DescriptionTooLong))]
  {
    if |description| > DescriptionMaxLength then [Issue(["description"], Text(DescriptionTooLong))] else []
  }

  /** At most one issue, and it is about `key`. */
  predicate OneFieldIssues(part: seq<Issue>, key: string)
  {
    |part| <= 1 && forall i :: 0 <= i < |part| ==> part[i].path == [key]
  }

  /** No two issues name the same field. */
  predicate PathsDistinct(issues: seq<Issue>)
  {
    forall i, j :: 0 <= i < j < |issues| ==> issues[i].path != issues[j].path
  }

  /** Issue lists of at most one issue per field, for four distinct fields,
      concatenate to a list that names each field at most once. */
  lemma FieldIssuesDistinct(
    a: seq<Issue>, b: seq<Issue>, c: seq<Issue>, e: seq<Issue>,
    ka: string, kb: string, kc: string, ke: string)
    requires OneFieldIssues(a, ka) && OneFieldIssues(b, kb)
    requires OneFieldIssues(c, kc) && OneFieldIssues(e, ke)
    requires ka != kb && ka != kc && ka != ke && kb != kc && kb != ke && kc != ke
    ensures PathsDistinct(a + b + c + e)
  {
    var all := a + b + c + e;
    forall i, j | 0 <= i < j < |all| ensures all[i].path != all[j].path {
      FieldOfPosition(a, b, c, e, ka, kb, kc, ke, i);
      FieldOfPosition(a, b, c, e, ka, kb, kc, ke, j);
    }
  }

  /** The field an issue of such a concatenation is about follows from the
      part its position falls in. */
  lemma FieldOfPosition(
    a: seq<Issue>, b: seq<Issue>, c: seq<Issue>, e: seq<Issue>,
    ka: string, kb: string, kc: string, ke: string, i: nat)
    requires OneFieldIssues(a, ka) && OneFieldIssues(b, kb)
    requires OneFieldIssues(c, kc) && OneFieldIssues(e, ke)
    requires i < |a + b + c + e|
    ensures (a + b + c + e)[i].path
         == if i < |a| then [ka] else if i < |a| + |b| then [kb] else if i < |a| + |b| + |c| then [kc] else [ke]
  {
    var all := a + b + c + e;
    if i < |a| {
      assert all[i] == a[i];
    } else if i < |a| + |b| {
      assert all[i] == b[i - |a|];
    } else if i < |a| + |b| + |c| {
      assert all[i] == c[i - |a| - |b|];
    } else {
      assert all[i] == e[i - |a| - |b| - |c|];
    }
  }

  // ---------------------------------------------------------------------
  // createWorkOrderSchema
  // ---------------------------------------------------------------------

  /** What the create schema accepts, rule by rule. */
  predicate CreateAcceptable(f: map<string, string>)
  {
    && "title" in f && TitleLengthOk(f["title"])
    && "description" in f && DescriptionLengthOk(f["description"])
    && "priority" in f && f["priority"] in PriorityNames
  }

  /** The create schema's rule for the key the path names fails. */
  predicate CreateKeyFails(f: map<string, string>, path: seq<string>)
  {
    || (path == ["title"] && !("title" in f && TitleLengthOk(f["title"])))
    || (path == ["description"] && !("description" in f && DescriptionLengthOk(f["description"])))
    || (path == ["priority"] && !("priority" in f && f["priority"] in PriorityNames))
  }

  function CreateIssues(f: map<string, string>): seq<Issue>
  {
    (if "title" in f then TitleIssues(f["title"]) else [Issue(["title"], Required)])
    + (if "description" in f then DescriptionIssues(f["description"]) else [Issue(["description"], Required)])
    + (if "priority" in f && f["priority"] in PriorityNames then [] else [Issue(["priority"], Text(PriorityInvalid))])
  }

  /** The create schema reports each field at most once. */
  lemma CreateIssuesDistinct(f: map<string, string>)
    ensures PathsDistinct(CreateIssues(f))
  {
    var a := if "title" in f then TitleIssues(f["title"]) else [Issue(["title"], Required)];
    var b := if "description" in f then DescriptionIssues(f["description"]) else [Issue(["description"], Required)];
    var c := if "priority" in f && f["priority"] in PriorityNames then [] else [Issue(["priority"], Text(PriorityInvalid))];
    FieldIssuesDistinct(a, b, c, [], "title", "description", "priority", "status");
    assert CreateIssues(f) == a + b + c + [];
  }

  /** `createWorkOrderSchema.parse(body)`. A missing title or description
      is zod's "Required"; the priority's error map replaces every priority
      message, a missing priority included. */
  function ValidateCreate(body: Payload): (r: Validated<CreateWorkOrderInput>)
    ensures r.Valid? <==> body.Object? && CreateAcceptable(body.fields)
    ensures r.Valid? ==>
      && r.value.title == body.fields["title"]
      && r.value.description == body.fields["description"]
      && PriorityName(r.value.priority) == body.fields["priority"]
    ensures r.Invalid? ==> 0 < |r.issues| <= |CreateKeys|
    ensures body.NonObject? ==> r == Invalid([Issue([], ExpectedObject)])
    ensures body.Object? ==> forall iss :: iss in IssuesOf(r) ==> CreateKeyFails(body.fields, iss.path)
    ensures PathsDistinct(IssuesOf(r))
    ensures body.Object? ==> var f := body.fields;
      && ("title" !in f ==> Issue(["title"], Required) in IssuesOf(r))
      && ("title" in f && |f["title"]| < TitleMinLength ==> Issue(["title"], Text(TitleTooShort)) in IssuesOf(r))
      && ("title" in f && |f["title"]| > TitleMaxLength ==> Issue(["title"], Text(TitleTooLong)) in IssuesOf(r))
      && ("description" !in f ==> Issue(["description"], Required) in IssuesOf(r))
      && ("description" in f && !DescriptionLengthOk(f["description"]) ==> Issue(["description"], Text(DescriptionTooLong)) in IssuesOf(r))
      && (!("priority" in f && f["priority"] in PriorityNames) ==> Issue(["priority"], Text(PriorityInvalid)) in IssuesOf(r))
  {
    match body
    case NonObject => Invalid([Issue([], ExpectedObject)])
    case Object(f) =>
      var issues := CreateIssues(f);
      CreateIssuesDistinct(f);
      if issues == [] then
        Valid(CreateWorkOrderInput(f["title"], f["description"], ParsePriority(f["priority"]).value))
      else
        Invalid(issues)
  }

  /** Keys the create schema does not declare (a client-chosen status, id
      or updatedAt among them) are stripped: they change nothing. */
  lemma CreateIgnoresUndeclaredKeys(f: map<string, string>, key: string, value: string)
    requires key !in CreateKeys
    ensures ValidateCreate(Object(f[key := value])) == ValidateCreate(Object(f))
  {
    assert CreateIssues(f[key := value]) == CreateIssues(f);
  }

  // ---------------------------------------------------------------------
  // updateWorkOrderSchema
  // ---------------------------------------------------------------------

  /** What the update schema accepts: each present field obeys its rule. */
  predicate UpdateAcceptable(f: map<string, string>)
  {
    && ("title" in f ==> TitleLengthOk(f["title"]))
    && ("description" in f ==> DescriptionLengthOk(f["description"]))
    && ("priority" in f ==> f["priority"] in PriorityNames)
    && ("status" in f ==> f["status"] in StatusNames)
  }

  /** The update schema's rule for the key the path names fails. */
  predicate UpdateKeyFails(f: map<string, string>, path: seq<string>)
  {
    || (path == ["title"] && "title" in f && !TitleLengthOk(f["title"]))
    || (path == ["description"] && "description" in f && !DescriptionLengthOk(f["description"]))
    || (path == ["priority"] && "priority" in f && f["priority"] !in PriorityNames)
    || (path == ["status"] && "status" in f && f["status"] !in StatusNames)
  }

  function UpdateIssues(f: map<string, string>): seq<Issue>
  {
    (if "title" in f then TitleIssues(f["title"]) else [])
    + (if "description" in f then DescriptionIssues(f["description"]) else [])
    + (if "priority" in f && f["priority"] !in PriorityNames
       then [Issue(["priority"], InvalidEnumValue(PriorityNames, f["priority"]))] else [])
    + (if "status" in f && f["status"] !in StatusNames
       then [Issue(["status"], InvalidEnumValue(StatusNames, f["status"]))] else [])
  }

  /** The update schema reports each field at most once. */
  lemma UpdateIssuesDistinct(f: map<string, string>)
    ensures PathsDistinct(UpdateIssues(f))
  {
    var a := if "title" in f then TitleIssues(f["title"]) else [];
    var b := if "description" in f then DescriptionIssues(f["description"]) else [];
    var c := if "priority" in f && f["priority"] !in PriorityNames
             then [Issue(["priority"], InvalidEnumValue(PriorityNames, f["priority"]))] else [];
    var e := if "status" in f && f["status"] !in StatusNames
             then [Issue(["status"], InvalidEnumValue(StatusNames, f["status"]))] else [];
    FieldIssuesDistinct(a, b, c, e, "title", "description", "priority", "status");
  }

  /** The member under `key`, if the body has one. */
  function Member(f: map<string, string>, key: string): Option<string>
  {
    if key in f then Some(f[key]) else None
  }

  /** `updateWorkOrderSchema.parse(body)`: every key optional; an absent
      key stays absent in the validated value. */
  function ValidateUpdate(body: Payload): (r: Validated<UpdateWorkOrderInput>)
    ensures r.Valid? <==> body.Object? && UpdateAcceptable(body.fields)
    ensures r.Valid? ==>
      && r.value.title == Member(body.fields, "title")
      && r.value.description == Member(body.fields, "description")
      && (r.value.priority.Some? <==> "priority" in body.fields)
      && (r.value.priority.Some? ==> PriorityName(r.value.priority.value) == body.fields["priority"])
      && (r.value.status.Some? <==> "status" in body.fields)
      && (r.value.status.Some? ==> StatusName(r.value.status.value) == body.fields["status"])
    ensures r.Invalid? ==> 0 < |r.issues| <= |UpdateKeys|
    ensures body.NonObject? ==> r == Invalid([Issue([], ExpectedObject)])
    ensures body.Object? ==> forall iss :: iss in IssuesOf(r) ==> UpdateKeyFails(body.fields, iss.path)
    ensures PathsDistinct(IssuesOf(r))
    ensures body.Object? ==> var f := body.fields;
      && ("title" in f && |f["title"]| < TitleMinLength ==> Issue(["title"], Text(TitleTooShort)) in IssuesOf(r))
      && ("title" in f && |f["title"]| > TitleMaxLength ==> Issue(["title"], Text(TitleTooLong)) in IssuesOf(r))
      && ("description" in f && !DescriptionLengthOk(f["description"]) ==> Issue(["description"], Text(DescriptionTooLong)) in IssuesOf(r))
      && ("priority" in f && f["priority"] !in PriorityNames ==> Issue(["priority"], InvalidEnumValue(PriorityNames, f["priority"])) in IssuesOf(r))
      && ("status" in f && f["status"] !in StatusNames ==> Issue(["status"], InvalidEnumValue(StatusNames, f["status"])) in IssuesOf(r))
  {
    match body
    case NonObject => Invalid([Issue([], ExpectedObject)])
    case Object(f) =>
      var issues := UpdateIssues(f);
      UpdateIssuesDistinct(f);
      if issues == [] then
        Valid(UpdateWorkOrderInput(
          Member(f, "title"),
          Member(f, "description"),
          if "priority" in f then ParsePriority(f["priority"]) else None,
          if "status" in f then ParseStatus(f["status"]) else None))
      else
        Invalid(issues)
  }

  /** The empty update is valid and changes nothing. */
  lemma EmptyUpdateIsValid()
    ensures ValidateUpdate(Object(map[])) == Valid(UpdateWorkOrderInput(None, None, None, None))
  {
  }

  /** Keys the update schema does not declare (an id or an updatedAt among
      them) are stripped: they change nothing. */
  lemma UpdateIgnoresUndeclaredKeys(f: map<string, string>, key: string, value: string)
    requires key !in UpdateKeys
    ensures ValidateUpdate(Object(f[key := value])) == ValidateUpdate(Object(f))
  {
    assert UpdateIssues(f[key := value]) == UpdateIssues(f);
    assert forall k :: k in UpdateKeys ==> Member(f[key := value], k) == Member(f, k);
  }

  /** The update schema applies the create schema's bounds to every field
      present: a create body is valid exactly when it carries all three
      create keys and, its status aside, passes the update schema. */
  lemma CreateIsUpdateWithAllKeys(f: map<string, string>)
    ensures ValidateCreate(Object(f)).Valid?
        <==> && "title" in f && "description" in f && "priority" in f
             && ValidateUpdate(Object(f - {"status"})).Valid?
  {
    var g := f - {"status"};
    assert forall k :: k in CreateKeys ==> (k in g <==> k in f) && (k in g ==> g[k] == f[k]);
    assert "status" !in g;
  }
}
