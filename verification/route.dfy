/** The collection route app/api/work-orders/route.ts: GET lists the work
    orders, POST creates one. The request and the response become values;
    the store's file is passed in and the file afterwards returned. */
module CollectionRoute {
  import opened WorkOrderTypes
  import opened Listing
  import opened Validation
  import opened Store

  /** A `{ field, message }` entry of a 400 response. */
  datatype Detail = Detail(field: string, message: Message)

  /** A JSON response body. */
  datatype Body =
    | OrderList(orders: seq<WorkOrder>)
    | OrderBody(order: WorkOrder)
    | ErrorBody(error: string)
    | ValidationErrorBody(error: string, details: seq<Detail>)

  datatype Response = Response(status: nat, body: Body)

  const StatusOk: nat := 200
  const StatusCreated: nat := 201
  const StatusBadRequest: nat := 400
  const StatusServerError: nat := 500

  const ValidationFailed := "Validation failed"
  const FetchFailed := "Failed to fetch work orders"
  const CreateFailed := "Failed to create work order"

  /** An issue path joined with dots into a field name. */
  function JoinPath(path: seq<string>): (field: string)
    ensures |path| == 0 ==> field == ""
    ensures |path| == 1 ==> field == path[0]
  {
    if |path| == 0 then ""
    else if |path| == 1 then path[0]
    else path[0] + "." + JoinPath(path[1..])
  }

  /** The `map` over zod's issues that builds the details of a 400 answer. */
  function DetailsOf(issues: seq<Issue>): (details: seq<Detail>)
    ensures |details| == |issues|
    ensures forall i :: 0 <= i < |issues| ==>
      details[i] == Detail(JoinPath(issues[i].path), issues[i].message)
  {
    seq(|issues|, i requires 0 <= i < |issues| => Detail(JoinPath(issues[i].path), issues[i].message))
  }

  // ---------------------------------------------------------------------
  // GET
  // ---------------------------------------------------------------------

  /** The `status` query parameter as a filter: a missing parameter and an
      empty one (which is falsy) both mean no filter. */
  function StatusFilterOf(query: Option<string>): (statusFilter: Option<string>)
    ensures statusFilter.None? <==> query.None? || query.value == ""
    ensures statusFilter.Some? ==> statusFilter == query
  {
    if query.Some? && query.value != "" then query else None
  }

  /** The GET handler's answer to the outcome of getAllWorkOrders: the
      array as it came, or a 500 when the call threw. */
  function ListResponse(listed: Option<seq<WorkOrder>>): (r: Response)
    ensures r.status == StatusOk <==> listed.Some?
    ensures listed.Some? ==> r.body == OrderList(listed.value)
    ensures listed.None? ==> r == Response(StatusServerError, ErrorBody(FetchFailed))
  {
    match listed
    case Some(orders) => Response(StatusOk, OrderList(orders))
    case None => Response(StatusServerError, ErrorBody(FetchFailed))
  }

  /** GET /api/work-orders. getAllWorkOrders catches every storage error
      itself, so a missing or unreadable file answers 200 with an empty
      array and the handler's 500 branch is never reached from the store. */
  function HandleGet(d: Disk, query: Option<string>): (r: Response)
    ensures r.status == StatusOk && r.body.OrderList?
    ensures r.body.orders == ListOrders(d, StatusFilterOf(query))
    ensures (query.None? || query.value == "") ==> r.body.orders == ListOrders(d, None)
    ensures query.Some? && query.value != "" ==>
      forall o :: o in r.body.orders <==> o in Stored(d) && StatusName(o.status) == query.value
    ensures d.Unreadable? ==> r.body.orders == []
  {
    ListResponse(Some(ListOrders(d, StatusFilterOf(query))))
  }

  // ---------------------------------------------------------------------
  // POST
  // ---------------------------------------------------------------------

  /** The request body as `request.json()` sees it: not JSON at all (it
      throws a SyntaxError, not a ZodError), or a parsed JSON value. */
  datatype RequestBody = Unparsable | Parsed(payload: Payload)

  /** How the POST handler's try block ended. */
  datatype CreateOutcome =
    | CreatedOrder(order: WorkOrder)
    | ValidationError(issues: seq<Issue>)
    | UnexpectedError

  /** The POST handler's answer to each outcome: 201 with the record, 400
      with one detail per zod issue, 500 with a fixed message otherwise. */
  function CreateResponse(outcome: CreateOutcome): (r: Response)
    ensures r.status == StatusCreated <==> outcome.CreatedOrder?
    ensures r.status == StatusBadRequest <==> outcome.ValidationError?
    ensures r.status == StatusServerError <==> outcome.UnexpectedError?
    ensures outcome.CreatedOrder? ==> r.body == OrderBody(outcome.order)
    ensures outcome.ValidationError? ==>
      && r.body.ValidationErrorBody?
      && r.body.error == ValidationFailed
      && |r.body.details| == |outcome.issues|
      && forall i :: 0 <= i < |outcome.issues| ==>
           r.body.details[i].field == JoinPath(outcome.issues[i].path)
           && r.body.details[i].message == outcome.issues[i].message
    ensures outcome.UnexpectedError? ==> r.body == ErrorBody(CreateFailed)
  {
    match outcome
    case CreatedOrder(order) => Response(StatusCreated, OrderBody(order))
    case ValidationError(issues) =>
      Response(StatusBadRequest, ValidationErrorBody(ValidationFailed, DetailsOf(issues)))
    case UnexpectedError => Response(StatusServerError, ErrorBody(CreateFailed))
  }

  /** The response and the file after a POST. */
  datatype PostResult = PostResult(response: Response, disk: Disk)

  /** POST /api/work-orders. `id` is the fresh `uuidv4()` value, `now` the
      clock, and `stored` whether the file system let createWorkOrder make
      the data directory and write the file. */
  function HandlePost(d: Disk, request: RequestBody, id: string, now: nat, stored: bool): (r: PostResult)
    requires !HasId(Stored(d), id)
    ensures r.response.status in {StatusCreated, StatusBadRequest, StatusServerError}
    ensures r.response.status == StatusCreated
        <==> request.Parsed? && ValidateCreate(request.payload).Valid? && stored
    ensures r.response.status == StatusCreated ==>
      var c := CreateWorkOrder(d, ValidateCreate(request.payload).value, id, now);
      r.disk == c.disk && r.response.body == OrderBody(c.order)
    ensures r.response.status != StatusCreated ==> r.disk == d
    ensures r.response.status == StatusBadRequest
        <==> request.Parsed? && ValidateCreate(request.payload).Invalid?
    ensures r.response.status == StatusBadRequest ==>
      r.response.body == ValidationErrorBody(ValidationFailed, DetailsOf(ValidateCreate(request.payload).issues))
    ensures r.response.status == StatusServerError ==> r.response.body == ErrorBody(CreateFailed)
  {
    match request
    case Unparsable => PostResult(CreateResponse(UnexpectedError), d)
    case Parsed(payload) =>
      match ValidateCreate(payload)
      case Invalid(issues) => PostResult(CreateResponse(ValidationError(issues)), d)
      case Valid(input) =>
        if stored then
          var c := CreateWorkOrder(d, input, id, now);
          PostResult(CreateResponse(CreatedOrder(c.order)), c.disk)
        else
          PostResult(CreateResponse(UnexpectedError), d)
  }

  /** A status the client puts in a POST body is stripped before the store
      sees it: the answer and the file are the same as without it, and a
      created record is Open. */
  lemma PostIgnoresClientStatus(
    d: Disk, f: map<string, string>, status: string, id: string, now: nat, stored: bool)
    requires !HasId(Stored(d), id)
    ensures HandlePost(d, Parsed(Object(f["status" := status])), id, now, stored)
         == HandlePost(d, Parsed(Object(f)), id, now, stored)
    ensures var r := HandlePost(d, Parsed(Object(f["status" := status])), id, now, stored);
            r.response.status == StatusCreated ==> r.response.body.order.status == Open
  {
    CreateIgnoresUndeclaredKeys(f, "status", status);
  }

  /** A one-character title is refused with 400, a detail for the field
      "title" carrying the schema's message, and no change to the file. */
  lemma ShortTitleIsRefused(d: Disk, id: string, now: nat, stored: bool)
    requires !HasId(Stored(d), id)
    ensures var body := map["title" := "A", "description" := "", "priority" := "High"];
            var r := HandlePost(d, Parsed(Object(body)), id, now, stored);
            && r.response.status == StatusBadRequest
            && r.disk == d
            && Detail("title", Text(TitleTooShort)) in r.response.body.details
  {
    var body := map["title" := "A", "description" := "", "priority" := "High"];
    var v := ValidateCreate(Object(body));
    assert Issue(["title"], Text(TitleTooShort)) in v.issues;
    var k :| 0 <= k < |v.issues| && v.issues[k] == Issue(["title"], Text(TitleTooShort));
    assert DetailsOf(v.issues)[k] == Detail("title", Text(TitleTooShort));
  }

  /** A body that is not a JSON object is refused with a single detail
      whose field is the empty joined path. */
  lemma NonObjectBodyIsRefused(d: Disk, id: string, now: nat, stored: bool)
    requires !HasId(Stored(d), id)
    ensures HandlePost(d, Parsed(NonObject), id, now, stored)
         == PostResult(Response(StatusBadRequest, ValidationErrorBody(ValidationFailed, [Detail("", ExpectedObject)])), d)
  {
    assert DetailsOf([Issue([], ExpectedObject)]) == [Detail("", ExpectedObject)];
  }
}
