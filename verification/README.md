# Work-order store: a Dafny model

This project models the core of a small work-order tracker:

- the JSON-file record store `lib/data.ts`;
- the request schemas `lib/validation.ts`;
- the domain types `lib/types.ts`;
- the collection route `app/api/work-orders/route.ts` (`GET` lists the records, `POST` creates one).

It proves properties about that model.

The file on disk is a value of type `Store.Disk`. It is either a readable array of records or `Unreadable`, which covers both a missing file and one that fails to parse. Every store operation is a pure function. It takes the file as it was before the call and returns the file afterwards together with the call's result. The clock (`now`) and the `uuidv4()` value (`id`) are parameters.

Behaviours of the code that the proofs make explicit:

- **Every write starts from the sorted listing.** Each mutation starts from `getAllWorkOrders()`: the records sorted most recently updated first, whatever order the file had. The records read keep listing order in the file written. A create appends the new record after them, and an update leaves the merged record at its old position with its new timestamp. So only a successful delete leaves the file in listing order (`StoreProperties.DeleteWritesListingOrder`).
- **An unreadable file acts as empty.** `getAllWorkOrders` catches every read and parse error. A create on an unparsable file therefore writes a file holding only the new record, and whatever the old file held is lost (`StoreProperties.UnreadableStoreActsAsEmpty`).
- **A miss writes nothing.** An update or delete that does not find its id leaves the file exactly as it was.
- **The sort is stable.** It models JavaScript's stable `Array.prototype.sort` with the recency comparator. Records sharing a timestamp keep their stored order (`Listing.SortIsStable`).
- **The route never answers 500 on a GET.** The handler has a 500 branch, but the store never throws: a storage failure gives 200 with an empty array. `CollectionRoute.HandleGet` always answers 200.
- **A POST answers 500 in two cases.** Both leave the file unchanged:
  - the body is not JSON, because `request.json()` throws something that is not a `ZodError`;
  - the store cannot write.

  The `stored` parameter of `CollectionRoute.HandlePost` says whether the write succeeded.

Modules, one per file:

| file | module | models |
|---|---|---|
| `types.dfy` | `WorkOrderTypes` | `lib/types.ts` |
| `listing.dfy` | `Listing` | the array operations `lib/data.ts` uses: `filter`, the recency `sort`, `find` / `findIndex` |
| `store.dfy` | `Store` | the five exported functions of `lib/data.ts` |
| `store_properties.dfy` | `StoreProperties` | round trips and invariants across store operations |
| `validation.dfy` | `Validation` | the two zod schemas of `lib/validation.ts` |
| `route.dfy` | `CollectionRoute` | `app/api/work-orders/route.ts` |

## Model

| member | source | states |
|---|---|---|
| WorkOrderTypes.PriorityName | lib/types.ts:1 | a priority is stored as one of the three literals of the union |
| WorkOrderTypes.StatusName | lib/types.ts:2 | a status is stored as one of the three literals of the union |
| WorkOrderTypes.PriorityNamesDistinct | lib/types.ts:1 | distinct priorities are stored as distinct literals |
| WorkOrderTypes.PriorityNamesCovered | lib/types.ts:1 | each of the three priority literals names some priority |
| WorkOrderTypes.StatusNamesDistinct | lib/types.ts:2 | distinct statuses are stored as distinct literals |
| WorkOrderTypes.StatusNamesCovered | lib/types.ts:2 | each of the three status literals names some status |
| Listing.Filter | lib/data.ts:28-30 | `Array.prototype.filter` never lengthens the array |
| Listing.FilterKeepsLengthIff | lib/data.ts:92-94 | the filter keeps the length exactly when every record passes, and then returns the array unchanged |
| Listing.FilterCounts | lib/data.ts:28-30 | the filter keeps each selected record exactly as often as it occurs and drops every other one |
| Listing.FilterMembers | lib/data.ts:28-30 | a record is in the filter's result exactly when it is in the input and passes the test |
| Listing.FilterAppend | lib/data.ts:92 | filtering a concatenation is the concatenation of the filtered parts |
| Listing.SortByRecency | lib/data.ts:32-34 | the sort returns a permutation of its input, ordered by `updatedAt`, newest first |
| Listing.Insert | lib/data.ts:32-34 | one insertion step of the stable sort adds exactly the inserted record |
| Listing.InsertKeepsSorted | lib/data.ts:32-34 | inserting into a newest-first array keeps it newest first |
| Listing.SortOfSortedIsIdentity | lib/data.ts:32-34 | the stable sort leaves an array that is already newest first unchanged |
| Listing.SortIsIdempotent | lib/data.ts:32-34 | sorting twice gives the same array as sorting once |
| Listing.SortIsStable | lib/data.ts:32-34 | records sharing a timestamp keep their relative input order |
| Listing.FilterPreservesSorted | lib/data.ts:92 | filtering a newest-first array keeps it newest first |
| Listing.FilterInsert | lib/data.ts:28-34 | filtering after an insertion equals inserting into the filtered array, or just filtering if the record fails the test |
| Listing.FilterSortCommute | lib/data.ts:28-34 | filtering then sorting equals sorting then filtering, so the filtered listing is the full listing's sub-list |
| Listing.SortAppendNewest | lib/data.ts:32-34 | a record newer than every record of a sorted array moves to the front when appended and sorted |
| Listing.RemoveAppendedAfterSort | lib/data.ts:92 | sorting an array with a record of a new id appended, then filtering that id out, gives back the array |
| Listing.IndexOfId | lib/data.ts:74-76 | `findIndex` gives the first position holding the id, or none exactly when no record carries it |
| Listing.FirstWithIdIsNewest | lib/data.ts:43-44 | in a newest-first array, the first record with an id is the most recently updated one with that id |
| Listing.AllKeptIffIdAbsent | lib/data.ts:92-94 | every record passes `order.id !== id` exactly when none carries the id |
| Listing.SortKeepsUniqueIds | lib/data.ts:32-34 | sorting keeps ids unique |
| Listing.InsertKeepsUniqueIds | lib/data.ts:32-34 | inserting a record whose id is absent keeps ids unique |
| Listing.AppendKeepsUniqueIds | lib/data.ts:61 | pushing a record whose id no record carries keeps ids unique |
| Listing.ReplaceKeepsUniqueIds | lib/data.ts:78-82 | replacing a record by one with the same id keeps ids unique |
| Listing.FilterKeepsUniqueIds | lib/data.ts:92 | filtering keeps ids unique |
| Store.ListOrders | lib/data.ts:22-39 | the listing is newest first; it holds exactly the stored records whose status literal equals a non-empty filter, or all of them; an unreadable file lists as empty |
| Store.ListOrdersCounts | lib/data.ts:28-34 | the listing holds each listed record exactly as often as the file does |
| Store.FindById | lib/data.ts:42-45 | the lookup finds a stored record with the id exactly when one exists, and it is the most recently updated one with that id |
| Store.CreateWorkOrder | lib/data.ts:48-65 | the new record carries the input's fields, the fresh id, status Open and the clock's time; the file becomes the previous listing followed by the record, which adds exactly that record; no earlier position of the file carries the new id |
| Store.Merge | lib/data.ts:78-82 | each field the input supplies replaces the stored one; every other field and the id are kept; `updatedAt` becomes the clock's time |
| Store.UpdateWorkOrder | lib/data.ts:68-86 | the update finds a record exactly when the id is stored; on a miss the file is unchanged; on a hit the result is the looked-up record merged with the input, written at the position `findIndex` gives in the listing; every other position of the listing and the length stay unchanged |
| Store.ReplaceCounts | lib/data.ts:78 | replacing one position of an array swaps exactly one record for another |
| Store.DeleteWorkOrder | lib/data.ts:89-98 | the delete reports `true` exactly when the id is stored; on `false` the file is unchanged; afterwards no record carries the id; on `true` the file is the listing without the id's records, in listing order: shorter, newest first, and holding every other record as often as before |
| Store.KeptRecords | lib/data.ts:92 | what the delete keeps is newest first, free of the id, and holds every other stored record as often as the file does |
| Store.KeptAllIffIdAbsent | lib/data.ts:92-94 | the delete's length comparison detects exactly whether the id is stored |
| Store.ListingKeepsIds | lib/data.ts:22-39 | the full listing carries the same ids as the file |
| StoreProperties.UnreadableStoreActsAsEmpty | lib/data.ts:35-38 | a missing or unparsable file behaves like an empty array for every operation; a create on it writes a file with only the new record |
| StoreProperties.CreateThenFind | lib/data.ts:42-65 | fetching the id a create returned yields the created record |
| StoreProperties.CreateKeepsUniqueIds | lib/data.ts:52-62 | with a fresh id, a create keeps ids unique |
| StoreProperties.UpdateKeepsUniqueIds | lib/data.ts:74-84 | an update keeps ids unique |
| StoreProperties.DeleteKeepsUniqueIds | lib/data.ts:92-96 | a delete keeps ids unique |
| StoreProperties.UpdateThenFind | lib/data.ts:68-86 | when ids are unique, fetching an updated id yields the updated record, and a miss still finds nothing |
| StoreProperties.OnlyRecordWithId | lib/data.ts:44 | when ids are unique, two records with the same id are the same record |
| StoreProperties.DeleteThenFind | lib/data.ts:89-98 | after a delete, the id is not found |
| StoreProperties.CreateThenDeleteRestoresListing | tests/data.test.ts:124-136 | deleting the record a create has just added reports success and leaves the listing the create started from |
| StoreProperties.ListingLacksId | lib/data.ts:53 | a fresh id is at no position of the listing |
| StoreProperties.ListingOlderThan | lib/data.ts:58 | a bound above every stored timestamp is above every listed one |
| StoreProperties.FilteredListingIsSubListOfFullListing | tests/data.test.ts:85-103 | listing with a status filter gives exactly the full listing's records of that status, in the same order |
| StoreProperties.NewestCreateListsFirst | tests/data.test.ts:52-83 | when the clock is past every stored timestamp, the created record lists first, followed by the previous listing |
| StoreProperties.DeleteWritesListingOrder | lib/data.ts:91-96 | the file a successful delete writes is already in listing order |
| Validation.ParsePriority | lib/validation.ts:9 | the priority enum accepts exactly the three literals, and parses each to the priority it names |
| Validation.ParseStatus | lib/validation.ts:23 | the status enum accepts exactly the three literals, and parses each to the status it names |
| Validation.EnumsMatchTypes | lib/validation.ts:22-23 | every priority and status parses back from its own literal |
| Validation.TitleIssues | lib/validation.ts:4-6 | a present title passes exactly when it has 2 to 80 characters; otherwise the issue carries the matching message |
| Validation.DescriptionIssues | lib/validation.ts:7-8 | a present description passes exactly when it has at most 2000 characters; otherwise the issue carries its message |
| Validation.ValidateCreate | lib/validation.ts:3-12 | the create schema accepts exactly an object with a valid title, description and priority, and returns those values; every issue names a failing field; every failing field gets its issue, and no field gets two; a missing field is "Required", except that the priority's error map replaces every priority message |
| Validation.CreateIssuesDistinct | lib/validation.ts:3-12 | the create schema reports each field at most once |
| Validation.CreateIgnoresUndeclaredKeys | lib/validation.ts:3-12 | keys the create schema does not declare, a client-chosen status among them, change nothing |
| Validation.ValidateUpdate | lib/validation.ts:14-24 | the update schema accepts exactly an object whose present fields obey their rules; absent fields stay absent; every issue names a failing present field, every failing field gets its issue, and no field gets two |
| Validation.UpdateIssuesDistinct | lib/validation.ts:14-24 | the update schema reports each field at most once |
| Validation.EmptyUpdateIsValid | lib/validation.ts:14-24 | the empty object is a valid update that supplies no field |
| Validation.UpdateIgnoresUndeclaredKeys | lib/validation.ts:14-24 | keys the update schema does not declare, such as an id or an updatedAt, change nothing |
| Validation.CreateIsUpdateWithAllKeys | lib/validation.ts:3-24 | a create body is valid exactly when it carries all three create keys and, ignoring any status, passes the update schema |
| CollectionRoute.JoinPath | app/api/work-orders/route.ts:37 | an empty issue path joins to the empty field name, and a one-key path to that key |
| CollectionRoute.DetailsOf | app/api/work-orders/route.ts:36-39 | the response gives one detail per zod issue, in order, carrying the issue's joined path and message |
| CollectionRoute.StatusFilterOf | app/api/work-orders/route.ts:9 | a missing or empty `status` query parameter means no filter; any other value is the filter |
| CollectionRoute.ListResponse | app/api/work-orders/route.ts:11-19 | the GET answers 200 with the array when the listing succeeds, and 500 with the fixed message otherwise |
| CollectionRoute.HandleGet | app/api/work-orders/route.ts:6-20 | GET always answers 200 with the listing for the query's filter: exactly the stored records of that status, or all of them; an unreadable file answers with an empty array |
| CollectionRoute.CreateResponse | app/api/work-orders/route.ts:30-49 | a created record answers 201 with the record; a zod error answers 400 with "Validation failed" and one detail per issue; anything else answers 500 with the fixed message |
| CollectionRoute.HandlePost | app/api/work-orders/route.ts:22-51 | POST answers 201 exactly when the body parses, validates and is stored, and then the file is the create's file; it answers 400 exactly when the body parses but fails the schema; every answer other than 201 leaves the file unchanged |
| CollectionRoute.PostIgnoresClientStatus | app/api/work-orders/route.ts:26-28 | a status in the POST body changes neither the answer nor the file, and a created record is Open |
| CollectionRoute.ShortTitleIsRefused | app/api/work-orders/route.ts:32-42 | a one-character title answers 400 with a "title" detail carrying the schema's message, and leaves the file unchanged |
| CollectionRoute.NonObjectBodyIsRefused | app/api/work-orders/route.ts:32-42 | a JSON body that is not an object answers 400 with one detail whose field is empty, and leaves the file unchanged |

## Left out

- File I/O is not modelled. Reading and writing the JSON file, `ensureDataDir`, and choosing `DATA_FILE` from `NODE_ENV` (lib/data.ts:7-19) are left out. The file is a value, and a failed read is the one case `Unreadable`.
- A write that fails part-way is not modelled. A failing `mkdir` or `writeFile` in createWorkOrder is the `stored = false` case of the POST handler, which leaves the file unchanged. Partial writes are not modelled.
- Concurrency is not modelled. Two requests that interleave their read and write can lose an update. Each operation here is atomic.
- Timestamps are not strings. `updatedAt` is the millisecond value of the stored ISO timestamp, as a `nat`. ISO-8601 formatting and parsing are left out, and so are invalid dates, which would make the comparator return `NaN`.
- Store.CreateWorkOrder: requires the id to be absent from the file. This stands in for `uuidv4()` producing a fresh id; random generation is not modelled.
- CollectionRoute.HandlePost: requires a fresh id for the same reason.
- Validation.ValidateCreate: a body is modelled as a JSON object whose members hold strings, or as a non-object. A declared member holding a number, boolean, array or null is not modelled; zod would report an invalid type for it. Undeclared members of any JSON type are stripped silently, which the model covers by leaving them out of the map.
- Validation.ValidateUpdate: the same restriction on member values applies.
- CollectionRoute.JoinPath: the contract covers paths of at most one key. These are the only paths the two flat schemas produce; longer paths are joined by the body but not specified.
- zod's own message texts are kept symbolic. These are "Required", the invalid-type message for a non-object body, and the update schema's enum message. The schema's own literal messages are spelled out.
- String lengths count the elements of the Dafny string. These stand for the UTF-16 code units JavaScript's `length` counts; surrogate pairs are not modelled.
- The single-record route `app/api/work-orders/[id]/route.ts` and the pages and components under `app/` are not part of this model. The same goes for the seed script under `scripts/`. Through `Store.FindById`, `Store.UpdateWorkOrder`, `Store.DeleteWorkOrder` and `Validation.ValidateUpdate`, the model covers what that route calls.
- The GET handler's 500 answer is modelled by `CollectionRoute.ListResponse`, but `HandleGet` never reaches it, because the store catches its own errors.
- The `console.error` logging in both handlers is left out.
