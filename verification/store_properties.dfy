/** Properties relating the operations of the record store to one another:
    round trips through the listing and lookup, the unique-id invariant,
    and the treatment of an unreadable file. */
module StoreProperties {
  import opened WorkOrderTypes
  import opened Listing
  import opened Store

  /** A missing or unparsable file behaves as an empty array for every
      operation; in particular a create on it writes a file holding only the
      new record, dropping whatever the unreadable file contained. */
  lemma UnreadableStoreActsAsEmpty(
    statusFilter: Option<string>, id: string, input: CreateWorkOrderInput,
    changes: UpdateWorkOrderInput, now: nat)
    ensures ListOrders(Unreadable, statusFilter) == ListOrders(Readable([]), statusFilter) == []
    ensures FindById(Unreadable, id) == FindById(Readable([]), id) == None
    ensures CreateWorkOrder(Unreadable, input, id, now) == CreateWorkOrder(Readable([]), input, id, now)
    ensures CreateWorkOrder(Unreadable, input, id, now).disk
         == Readable([CreateWorkOrder(Unreadable, input, id, now).order])
    ensures UpdateWorkOrder(Unreadable, id, changes, now) == Updated(Unreadable, None)
    ensures DeleteWorkOrder(Unreadable, id) == Deleted(Unreadable, false)
  {
    assert ListOrders(Unreadable, None) == [];
  }

  /** Fetching the id a create returned yields the created record. */
  lemma CreateThenFind(d: Disk, input: CreateWorkOrderInput, id: string, now: nat)
    requires !HasId(Stored(d), id)
    ensures var c := CreateWorkOrder(d, input, id, now);
            FindById(c.disk, id) == Some(c.order)
  {
    var c := CreateWorkOrder(d, input, id, now);
    var found := FindById(c.disk, id);
    var listed := ListOrders(d, None);
    assert c.disk.orders == listed + [c.order];
    assert found.Some? by {
      assert c.order in c.disk.orders;
    }
  }

  /** With a fresh id, a create keeps ids unique. */
  lemma CreateKeepsUniqueIds(d: Disk, input: CreateWorkOrderInput, id: string, now: nat)
    requires UniqueIds(Stored(d)) && !HasId(Stored(d), id)
    ensures UniqueIds(Stored(CreateWorkOrder(d, input, id, now).disk))
  {
    var c := CreateWorkOrder(d, input, id, now);
    var listed := ListOrders(d, None);
    assert c.disk.orders == listed + [c.order];
    SortKeepsUniqueIds(Stored(d));
    ListingLacksId(d, id);
    AppendKeepsUniqueIds(listed, c.order);
  }

  /** An update keeps ids unique: the merged record keeps its id. */
  lemma UpdateKeepsUniqueIds(d: Disk, id: string, changes: UpdateWorkOrderInput, now: nat)
    requires UniqueIds(Stored(d))
    ensures UniqueIds(Stored(UpdateWorkOrder(d, id, changes, now).disk))
  {
    var u := UpdateWorkOrder(d, id, changes, now);
    if u.order.Some? {
      var listed := ListOrders(d, None);
      SortKeepsUniqueIds(Stored(d));
      var k := IndexOfId(listed, id).value;
      assert u.disk.orders == listed[k := u.order.value];
      ReplaceKeepsUniqueIds(listed, k, u.order.value);
    }
  }

  /** A delete keeps ids unique. */
  lemma DeleteKeepsUniqueIds(d: Disk, id: string)
    requires UniqueIds(Stored(d))
    ensures UniqueIds(Stored(DeleteWorkOrder(d, id).disk))
  {
    if DeleteWorkOrder(d, id).removed {
      SortKeepsUniqueIds(Stored(d));
      FilterKeepsUniqueIds(ListOrders(d, None), IdIsNot(id));
    }
  }

  /** With unique ids, fetching an updated id yields the updated record. */
  lemma UpdateThenFind(d: Disk, id: string, changes: UpdateWorkOrderInput, now: nat)
    requires UniqueIds(Stored(d))
    ensures var u := UpdateWorkOrder(d, id, changes, now);
            FindById(u.disk, id) == u.order
  {
    var u := UpdateWorkOrder(d, id, changes, now);
    if u.order.Some? {
      UpdateKeepsUniqueIds(d, id, changes, now);
      var written := u.disk.orders;
      var found := FindById(u.disk, id);
      assert u.order.value in multiset(written);
      OnlyRecordWithId(written, u.order.value, found.value);
    }
  }

  lemma OnlyRecordWithId(s: seq<WorkOrder>, a: WorkOrder, b: WorkOrder)
    requires UniqueIds(s) && a in s && b in s && a.id == b.id
    ensures a == b
  {
    var i :| 0 <= i < |s| && s[i] == a;
    var j :| 0 <= j < |s| && s[j] == b;
    assert !(i < j) && !(j < i);
  }

  /** After a delete the id is no longer found. */
  lemma DeleteThenFind(d: Disk, id: string)
    ensures FindById(DeleteWorkOrder(d, id).disk, id) == None
  {
  }

  /** Deleting the record a create has just added restores the listing the
      create started from, and the delete reports success. */
  lemma CreateThenDeleteRestoresListing(
    d: Disk, input: CreateWorkOrderInput, id: string, now: nat)
    requires !HasId(Stored(d), id)
    ensures var c := CreateWorkOrder(d, input, id, now);
            DeleteWorkOrder(c.disk, id) == Deleted(Readable(ListOrders(d, None)), true)
  {
    var c := CreateWorkOrder(d, input, id, now);
    var listed := ListOrders(d, None);
    ListingAfterCreate(d, input, id, now);
    ListingLacksId(d, id);
    RemoveAppendedAfterSort(listed, c.order);
  }

  /** A create lists its record among the earlier ones: the file it writes
      lists as the previous listing with the record added, re-sorted. */
  lemma ListingAfterCreate(d: Disk, input: CreateWorkOrderInput, id: string, now: nat)
    requires !HasId(Stored(d), id)
    ensures var c := CreateWorkOrder(d, input, id, now);
            ListOrders(c.disk, None) == SortByRecency(ListOrders(d, None) + [c.order])
  {
  }

  /** A fresh id appears at no position of the listing. */
  lemma ListingLacksId(d: Disk, id: string)
    requires !HasId(Stored(d), id)
    ensures var listed := ListOrders(d, None);
            forall i :: 0 <= i < |listed| ==> listed[i].id != id
  {
    var listed := ListOrders(d, None);
    forall i | 0 <= i < |listed| ensures listed[i].id != id {
      assert listed[i] in Stored(d);
    }
  }

  /** Every listed record is older than a bound every stored one is below. */
  lemma ListingOlderThan(d: Disk, now: nat)
    requires forall o :: o in Stored(d) ==> o.updatedAt < now
    ensures var listed := ListOrders(d, None);
            forall i :: 0 <= i < |listed| ==> listed[i].updatedAt < now
  {
    var listed := ListOrders(d, None);
    forall i | 0 <= i < |listed| ensures listed[i].updatedAt < now {
      assert listed[i] in Stored(d);
    }
  }

  /** Listing with a status filter gives exactly the full listing's records
      of that status, in the full listing's order. */
  lemma FilteredListingIsSubListOfFullListing(d: Disk, name: string)
    requires name != ""
    ensures ListOrders(d, Some(name)) == Filter(ListOrders(d, None), StatusIs(name))
  {
    FilterSortCommute(Stored(d), StatusIs(name));
  }

  /** When the clock is past every stored timestamp, the created record is
      listed first, followed by the previous listing. */
  lemma NewestCreateListsFirst(d: Disk, input: CreateWorkOrderInput, id: string, now: nat)
    requires !HasId(Stored(d), id)
    requires forall o :: o in Stored(d) ==> o.updatedAt < now
    ensures var c := CreateWorkOrder(d, input, id, now);
            ListOrders(c.disk, None) == [c.order] + ListOrders(d, None)
  {
    var c := CreateWorkOrder(d, input, id, now);
    ListingAfterCreate(d, input, id, now);
    ListingOlderThan(d, now);
    SortAppendNewest(ListOrders(d, None), c.order);
  }

  /** The file a delete writes is already in listing order, so listing it
      returns it as written. */
  lemma DeleteWritesListingOrder(d: Disk, id: string)
    requires HasId(Stored(d), id)
    ensures var r := DeleteWorkOrder(d, id);
            ListOrders(r.disk, None) == r.disk.orders
  {
    SortOfSortedIsIdentity(DeleteWorkOrder(d, id).disk.orders);
  }
}
