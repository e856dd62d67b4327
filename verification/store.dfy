/** The record store of lib/data.ts. The JSON file is a value: each
    operation takes the file as it is before the call and returns the file
    as it is afterwards together with the operation's result. The clock and
    the id generator are parameters. */
module Store {
  import opened WorkOrderTypes
  import opened Listing

  /** The backing file as a read sees it: parsed into an array of records,
      or missing or unparsable. getAllWorkOrders catches every read and parse
      error, so the two failure kinds behave alike and are one case here. */
  datatype Disk = Unreadable | Readable(orders: seq<WorkOrder>)

  /** The records a read yields: an unreadable file reads as no records. */
  function Stored(d: Disk): seq<WorkOrder>
  {
    match d
    case Unreadable => []
    case Readable(orders) => orders
  }

  /** Whether the filter applies: an absent or empty filter is falsy and
      filters nothing. */
  predicate FilterApplies(statusFilter: Option<string>)
  {
    statusFilter.Some? && statusFilter.value != ""
  }

  /** A record is listed under the filter: its status literal equals the
      filter, when the filter applies. */
  predicate Listed(statusFilter: Option<string>, o: WorkOrder)
  {
    FilterApplies(statusFilter) ==> StatusName(o.status) == statusFilter.value
  }

  /** getAllWorkOrders: the records matching the filter, most recently
      updated first, each as often as it is stored. */
  function ListOrders(d: Disk, statusFilter: Option<string>): (r: seq<WorkOrder>)
    ensures SortedByRecency(r)
    ensures forall o :: o in r <==> o in Stored(d) && Listed(statusFilter, o)
    ensures d.Unreadable? ==> r == []
  {
    if FilterApplies(statusFilter) then
      var selected := Filter(Stored(d), StatusIs(statusFilter.value));
      FilterMembers(Stored(d), StatusIs(statusFilter.value));
      var sorted := SortByRecency(selected);
      assert forall o :: o in sorted <==> o in selected by {
        forall o ensures o in sorted <==> o in selected {
          assert o in sorted <==> o in multiset(sorted);
          assert o in selected <==> o in multiset(selected);
        }
      }
      sorted
    else
      var sorted := SortByRecency(Stored(d));
      assert forall o :: o in sorted <==> o in Stored(d) by {
        forall o ensures o in sorted <==> o in Stored(d) {
          assert o in sorted <==> o in multiset(sorted);
        }
      }
      sorted
  }

  /** The listing holds each listed record exactly as often as the file
      does, and no other record. */
  lemma ListOrdersCounts(d: Disk, statusFilter: Option<string>, o: WorkOrder)
    ensures multiset(ListOrders(d, statusFilter))[o] == if Listed(statusFilter, o) then multiset(Stored(d))[o] else 0
  {
    if FilterApplies(statusFilter) {
      FilterCounts(Stored(d), StatusIs(statusFilter.value), o);
    }
  }

  /** getWorkOrderById: the first record with that id in the listing, hence
      the most recently updated one should ids ever repeat. */
  function FindById(d: Disk, id: string): (r: Option<WorkOrder>)
    ensures r.Some? ==> r.value.id == id && r.value in Stored(d)
    ensures r.None? <==> !HasId(Stored(d), id)
    ensures r.Some? ==> forall o :: o in Stored(d) && o.id == id ==> o.updatedAt <= r.value.updatedAt
  {
    var listed := ListOrders(d, None);
    match IndexOfId(listed, id)
    case None => None
    case Some(k) =>
      FirstWithIdIsNewest(listed, id);
      Some(listed[k])
  }

  /** The result of createWorkOrder: the file written and the new record. */
  datatype Created = Created(disk: Disk, order: WorkOrder)

  /** createWorkOrder. `id` stands for the `uuidv4()` value, which is fresh;
      `now` for the clock. The file written is the listing (sorted, not the
      file as stored) with the new record pushed at its end. */
  function CreateWorkOrder(d: Disk, input: CreateWorkOrderInput, id: string, now: nat): (r: Created)
    requires !HasId(Stored(d), id)
    ensures r.order.id == id
    ensures r.order.title == input.title
    ensures r.order.description == input.description
    ensures r.order.priority == input.priority
    ensures r.order.status == Open
    ensures r.order.updatedAt == now
    ensures r.disk.Readable? && |r.disk.orders| == |Stored(d)| + 1
    ensures r.disk.orders[|Stored(d)|] == r.order
    ensures r.disk.orders[..|Stored(d)|] == ListOrders(d, None)
    ensures multiset(r.disk.orders) == multiset(Stored(d)) + multiset{r.order}
    ensures forall i :: 0 <= i < |Stored(d)| ==> r.disk.orders[i].id != id
  {
    var listed := ListOrders(d, None);
    assert forall i :: 0 <= i < |listed| ==> listed[i].id != id by {
      forall i | 0 <= i < |listed| ensures listed[i].id != id {
        assert listed[i] in Stored(d);
      }
    }
    var order := WorkOrder(id, input.title, input.description, input.priority, Open, now);
    assert (listed + [order])[..|listed|] == listed;
    Created(Readable(listed + [order]), order)
  }

  /** The object spread of the update: the fields the input
      supplies replace the stored ones, the others and the id are kept. */
  function Merge(o: WorkOrder, input: UpdateWorkOrderInput, now: nat): (m: WorkOrder)
    ensures m.id == o.id && m.updatedAt == now
    ensures input.title.Some? ==> m.title == input.title.value
    ensures input.title.None? ==> m.title == o.title
    ensures input.description.Some? ==> m.description == input.description.value
    ensures input.description.None? ==> m.description == o.description
    ensures input.priority.Some? ==> m.priority == input.priority.value
    ensures input.priority.None? ==> m.priority == o.priority
    ensures input.status.Some? ==> m.status == input.status.value
    ensures input.status.None? ==> m.status == o.status
  {
    o.(title := input.title.GetOr(o.title),
       description := input.description.GetOr(o.description),
       priority := input.priority.GetOr(o.priority),
       status := input.status.GetOr(o.status),
       updatedAt := now)
  }

  /** The result of updateWorkOrder: the file afterwards and the updated
      record, `None` for null. */
  datatype Updated = Updated(disk: Disk, order: Option<WorkOrder>)

  /** updateWorkOrder. On a miss nothing is written. On a hit the listing
      is written back with the merged record in place of the one
      getWorkOrderById would return. */
  function UpdateWorkOrder(d: Disk, id: string, input: UpdateWorkOrderInput, now: nat): (r: Updated)
    ensures r.order.None? <==> !HasId(Stored(d), id)
    ensures r.order.None? ==> r.disk == d
    ensures r.order.Some? ==> FindById(d, id).Some? && r.order.value == Merge(FindById(d, id).value, input, now)
    ensures r.order.Some? ==> r.disk.Readable? && |r.disk.orders| == |Stored(d)|
    ensures r.order.Some? ==>
      multiset(r.disk.orders) == multiset(Stored(d)) - multiset{FindById(d, id).value} + multiset{r.order.value}
    ensures r.order.Some? ==>
      var listed := ListOrders(d, None);
      forall i :: 0 <= i < |listed| && listed[i].id != id ==> r.disk.orders[i] == listed[i]
    ensures r.order.Some? ==>
      var listed := ListOrders(d, None);
      var k := IndexOfId(listed, id).value;
      && r.disk.orders[k] == r.order.value
      && forall i :: 0 <= i < |listed| && i != k ==> r.disk.orders[i] == listed[i]
  {
    var listed := ListOrders(d, None);
    match IndexOfId(listed, id)
    case None => Updated(d, None)
    case Some(k) =>
      var merged := Merge(listed[k], input, now);
      var written := listed[k := merged];
      assert multiset(written) == multiset(listed) - multiset{listed[k]} + multiset{merged} by {
        ReplaceCounts(listed, k, merged);
      }
      Updated(Readable(written), Some(merged))
  }

  lemma ReplaceCounts(s: seq<WorkOrder>, k: nat, v: WorkOrder)
    requires k < |s|
    ensures multiset(s[k := v]) == multiset(s) - multiset{s[k]} + multiset{v}
  {
    assert s == s[..k] + [s[k]] + s[k + 1..];
    assert s[k := v] == s[..k] + [v] + s[k + 1..];
  }

  /** The result of deleteWorkOrder: the file afterwards and whether a
      record was removed. */
  datatype Deleted = Deleted(disk: Disk, removed: bool)

  /** deleteWorkOrder. Whether a record was removed is decided by comparing
      lengths; on `false` nothing is written, otherwise the listing without
      the id is written. */
  function DeleteWorkOrder(d: Disk, id: string): (r: Deleted)
    ensures r.removed <==> HasId(Stored(d), id)
    ensures !r.removed ==> r.disk == d
    ensures !HasId(Stored(r.disk), id)
    ensures r.removed ==> r.disk.Readable? && |r.disk.orders| < |Stored(d)|
    ensures r.removed ==> r.disk.orders == Filter(ListOrders(d, None), IdIsNot(id))
    ensures r.removed ==> SortedByRecency(r.disk.orders)
    ensures r.removed ==> forall o :: multiset(r.disk.orders)[o] == if o.id == id then 0 else multiset(Stored(d))[o]
  {
    var listed := ListOrders(d, None);
    var kept := Filter(listed, IdIsNot(id));
    KeptAllIffIdAbsent(d, id);
    if |kept| == |listed| then
      Deleted(d, false)
    else
      KeptRecords(d, id);
      Deleted(Readable(kept), true)
  }

  /** What deleteWorkOrder keeps: the listing without the id, still sorted,
      every other record as often as it is stored. */
  lemma KeptRecords(d: Disk, id: string)
    ensures var kept := Filter(ListOrders(d, None), IdIsNot(id));
            && SortedByRecency(kept)
            && (forall o :: o in kept ==> o.id != id)
            && forall o :: multiset(kept)[o] == if o.id == id then 0 else multiset(Stored(d))[o]
  {
    var listed := ListOrders(d, None);
    FilterPreservesSorted(listed, IdIsNot(id));
    FilterMembers(listed, IdIsNot(id));
    forall o ensures multiset(Filter(listed, IdIsNot(id)))[o] == if o.id == id then 0 else multiset(Stored(d))[o] {
      FilterCounts(listed, IdIsNot(id), o);
    }
  }

  /** deleteWorkOrder's length comparison detects exactly the stored id. */
  lemma KeptAllIffIdAbsent(d: Disk, id: string)
    ensures |Filter(ListOrders(d, None), IdIsNot(id))| == |ListOrders(d, None)| <==> !HasId(Stored(d), id)
  {
    var listed := ListOrders(d, None);
    FilterKeepsLengthIff(listed, IdIsNot(id));
    AllKeptIffIdAbsent(listed, id);
    ListingKeepsIds(d, id);
  }

  /** The full listing carries the same ids as the file. */
  lemma ListingKeepsIds(d: Disk, id: string)
    ensures HasId(ListOrders(d, None), id) <==> HasId(Stored(d), id)
  {
    if HasId(Stored(d), id) {
      var o :| o in Stored(d) && o.id == id;
      assert o in ListOrders(d, None);
    }
  }
}
