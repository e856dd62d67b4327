/** The in-memory list operations lib/data.ts performs on the loaded array:
    `Array.prototype.filter`, the recency sort of getAllWorkOrders and the
    id lookups `find` / `findIndex`. */
module Listing {
  import opened WorkOrderTypes

  /** The record tests the store filters by. `StampIs` selects the records
      sharing one timestamp and serves to state that the sort is stable. */
  datatype Selector = StatusIs(name: string) | IdIsNot(id: string) | StampIs(stamp: nat)

  predicate Selects(sel: Selector, o: WorkOrder)
  {
    match sel
    case StatusIs(name) => StatusName(o.status) == name
    case IdIsNot(id) => o.id != id
    case StampIs(t) => o.updatedAt == t
  }

  /** The array filter: the selected records, in their original order. */
  function Filter(s: seq<WorkOrder>, sel: Selector): (r: seq<WorkOrder>)
    ensures |r| <= |s|
  {
    if |s| == 0 then []
    else
      assert s == [s[0]] + s[1..];
      (if Selects(sel, s[0]) then [s[0]] else []) + Filter(s[1..], sel)
  }

  /** The filter drops nothing exactly when every record is selected; this is
      what deleteWorkOrder's length comparison relies on. */
  lemma {:induction false} FilterKeepsLengthIff(s: seq<WorkOrder>, sel: Selector)
    ensures |Filter(s, sel)| == |s| <==> forall i :: 0 <= i < |s| ==> Selects(sel, s[i])
    ensures (forall i :: 0 <= i < |s| ==> Selects(sel, s[i])) ==> Filter(s, sel) == s
  {
    if |s| > 0 {
      var h, t := s[0], s[1..];
      assert s == [h] + t;
      FilterKeepsLengthIff(t, sel);
      FilterCons(h, t, sel);
      if forall i :: 0 <= i < |s| ==> Selects(sel, s[i]) {
        forall i | 0 <= i < |t| ensures Selects(sel, t[i]) {
          assert t[i] == s[i + 1];
        }
      } else {
        var j :| 0 <= j < |s| && !Selects(sel, s[j]);
        if j > 0 {
          assert t[j - 1] == s[j];
        }
      }
    }
  }

  /** The filter keeps every selected record as often as it occurs and no
      other record: the result is a permutation of the selected records. */
  lemma {:induction false} FilterCounts(s: seq<WorkOrder>, sel: Selector, o: WorkOrder)
    ensures multiset(Filter(s, sel))[o] == if Selects(sel, o) then multiset(s)[o] else 0
  {
    if |s| > 0 {
      var rest := s[1..];
      FilterCounts(rest, sel, o);
      assert s == [s[0]] + rest;
      assert multiset(s)[o] == multiset([s[0]])[o] + multiset(rest)[o];
      if Selects(sel, s[0]) {
        assert Filter(s, sel) == [s[0]] + Filter(rest, sel);
        assert multiset(Filter(s, sel))[o] == multiset([s[0]])[o] + multiset(Filter(rest, sel))[o];
      } else {
        assert Filter(s, sel) == Filter(rest, sel);
      }
    }
  }

  /** The filter's records are exactly the selected stored records. */
  lemma FilterMembers(s: seq<WorkOrder>, sel: Selector)
    ensures forall o :: o in Filter(s, sel) <==> o in s && Selects(sel, o)
  {
    forall o ensures o in Filter(s, sel) <==> o in s && Selects(sel, o) {
      FilterCounts(s, sel, o);
      assert o in Filter(s, sel) <==> o in multiset(Filter(s, sel));
      assert o in s <==> o in multiset(s);
    }
  }

  /** Filtering a concatenation filters each part. */
  lemma {:induction false} FilterAppend(a: seq<WorkOrder>, b: seq<WorkOrder>, sel: Selector)
    ensures Filter(a + b, sel) == Filter(a, sel) + Filter(b, sel)
  {
    if |a| > 0 {
      var h, t := a[0], a[1..];
      assert a == [h] + t;
      assert a + b == [h] + (t + b);
      FilterAppend(t, b, sel);
      FilterCons(h, t + b, sel);
      FilterCons(h, t, sel);
    } else {
      assert a + b == b;
    }
  }

  /** Ordered by `updatedAt`, most recent first (non-increasing). */
  ghost predicate SortedByRecency(s: seq<WorkOrder>)
  {
    forall i, j :: 0 <= i < j < |s| ==> s[i].updatedAt >= s[j].updatedAt
  }

  /** Dropping the head of a sorted list leaves a sorted list. */
  lemma SortedTail(s: seq<WorkOrder>)
    requires SortedByRecency(s) && |s| > 0
    ensures SortedByRecency(s[1..])
  {
    var rest := s[1..];
    forall i, j | 0 <= i < j < |rest| ensures rest[i].updatedAt >= rest[j].updatedAt {
      assert rest[i] == s[i + 1] && rest[j] == s[j + 1];
    }
  }

  /** Places `x` before the first record that is not more recent than it, so
      among equal timestamps `x` comes first. */
  function Insert(x: WorkOrder, s: seq<WorkOrder>): (r: seq<WorkOrder>)
    ensures multiset(r) == multiset(s) + multiset{x}
    ensures |r| == |s| + 1
  {
    if |s| == 0 || s[0].updatedAt <= x.updatedAt then [x] + s
    else
      assert s == [s[0]] + s[1..];
      [s[0]] + Insert(x, s[1..])
  }

  /** Inserting into a sorted list keeps it sorted. */
  lemma {:induction false} InsertKeepsSorted(x: WorkOrder, s: seq<WorkOrder>)
    requires SortedByRecency(s)
    ensures SortedByRecency(Insert(x, s))
    ensures Insert(x, s)[0] == x || Insert(x, s)[0] == s[0]
  {
    if |s| == 0 || s[0].updatedAt <= x.updatedAt {
      PrependKeepsSorted(x, s);
    } else {
      var rest := s[1..];
      SortedTail(s);
      InsertKeepsSorted(x, rest);
      var tail := Insert(x, rest);
      assert tail[0] == x || tail[0] == s[1];
      PrependKeepsSorted(s[0], tail);
    }
  }

  /** A record no older than the head of a sorted list may go in front. */
  lemma PrependKeepsSorted(a: WorkOrder, t: seq<WorkOrder>)
    requires SortedByRecency(t)
    requires |t| == 0 || t[0].updatedAt <= a.updatedAt
    ensures SortedByRecency([a] + t)
  {
    var r := [a] + t;
    forall i, j | 0 <= i < j < |r| ensures r[i].updatedAt >= r[j].updatedAt {
      if i == 0 {
        assert r[j] == t[j - 1];
      } else {
        assert r[i] == t[i - 1] && r[j] == t[j - 1];
      }
    }
  }

  /** The listing's sort by descending timestamp. JavaScript's sort is
      stable, so records with equal timestamps keep their stored order. */
  function SortByRecency(s: seq<WorkOrder>): (r: seq<WorkOrder>)
    ensures SortedByRecency(r)
    ensures multiset(r) == multiset(s)
    ensures |r| == |s|
  {
    if |s| == 0 then []
    else
      assert s == [s[0]] + s[1..];
      InsertKeepsSorted(s[0], SortByRecency(s[1..]));
      Insert(s[0], SortByRecency(s[1..]))
  }

  lemma SortCons(a: WorkOrder, t: seq<WorkOrder>)
    ensures SortByRecency([a] + t) == Insert(a, SortByRecency(t))
  {
    assert ([a] + t)[0] == a && ([a] + t)[1..] == t;
  }

  lemma InsertAtFront(x: WorkOrder, s: seq<WorkOrder>)
    requires |s| == 0 || s[0].updatedAt <= x.updatedAt
    ensures Insert(x, s) == [x] + s
  {
  }

  /** Sorting a sorted list followed by a strictly newer record moves that
      record to the front. */
  lemma {:induction false} SortAppendNewest(s: seq<WorkOrder>, x: WorkOrder)
    requires SortedByRecency(s)
    requires forall i :: 0 <= i < |s| ==> s[i].updatedAt < x.updatedAt
    ensures SortByRecency(s + [x]) == [x] + s
  {
    if |s| > 0 {
      var rest := s[1..];
      assert s == [s[0]] + rest;
      SortedTail(s);
      SortAppendNewest(rest, x);
      assert s + [x] == [s[0]] + (rest + [x]);
      SortCons(s[0], rest + [x]);
      InsertBehind(s[0], x, rest);
      InsertAtFront(s[0], rest);
    } else {
      assert s + [x] == [x] + s;
      SortCons(x, s);
      InsertAtFront(x, s);
    }
  }

  /** Sorting a sorted list with one more record of a new id appended, and
      then filtering that id out again, gives back the list. */
  lemma RemoveAppendedAfterSort(s: seq<WorkOrder>, x: WorkOrder)
    requires SortedByRecency(s)
    requires forall i :: 0 <= i < |s| ==> s[i].id != x.id
    ensures Filter(SortByRecency(s + [x]), IdIsNot(x.id)) == s
  {
    var sel := IdIsNot(x.id);
    FilterSortCommute(s + [x], sel);
    FilterAppend(s, [x], sel);
    FilterSingleton(x, sel);
    FilterKeepsLengthIff(s, sel);
    assert s + [] == s;
    SortOfSortedIsIdentity(s);
  }

  lemma SortedElementsBelowHead(s: seq<WorkOrder>, o: WorkOrder)
    requires SortedByRecency(s) && o in s
    ensures o.updatedAt <= s[0].updatedAt
  {
  }

  /** Filtering commutes with insertion into a sorted list. */
  lemma {:induction false} FilterInsert(x: WorkOrder, s: seq<WorkOrder>, sel: Selector)
    requires SortedByRecency(s)
    ensures Filter(Insert(x, s), sel)
         == if Selects(sel, x) then Insert(x, Filter(s, sel)) else Filter(s, sel)
  {
    if |s| == 0 || s[0].updatedAt <= x.updatedAt {
      FilterPreservesSorted(s, sel);
      FilterInsertAtHead(x, s, sel);
    } else {
      var a, rest := s[0], s[1..];
      assert s == [a] + rest;
      SortedTail(s);
      FilterInsert(x, rest, sel);
      FilterInsertBehindHead(x, a, rest, sel);
    }
  }

  lemma FilterSingleton(x: WorkOrder, sel: Selector)
    ensures Filter([x], sel) == if Selects(sel, x) then [x] else []
  {
    assert [x][1..] == [];
  }

  /** The case where `x` goes in front of a sorted list. */
  lemma FilterInsertAtHead(x: WorkOrder, s: seq<WorkOrder>, sel: Selector)
    requires SortedByRecency(s) && SortedByRecency(Filter(s, sel))
    requires |s| == 0 || s[0].updatedAt <= x.updatedAt
    ensures Filter(Insert(x, s), sel)
         == if Selects(sel, x) then Insert(x, Filter(s, sel)) else Filter(s, sel)
  {
    var fs := Filter(s, sel);
    assert Insert(x, s) == [x] + s;
    FilterAppend([x], s, sel);
    FilterSingleton(x, sel);
    if Selects(sel, x) && |fs| > 0 {
      FilterMembers(s, sel);
      assert fs[0] in fs;
      assert fs[0] in s;
      SortedElementsBelowHead(s, fs[0]);
      assert Insert(x, fs) == [x] + fs;
    }
  }

  /** The case where `x` goes behind the head `a` of a sorted list. */
  lemma FilterInsertBehindHead(x: WorkOrder, a: WorkOrder, rest: seq<WorkOrder>, sel: Selector)
    requires a.updatedAt > x.updatedAt
    requires Filter(Insert(x, rest), sel)
          == if Selects(sel, x) then Insert(x, Filter(rest, sel)) else Filter(rest, sel)
    ensures Filter(Insert(x, [a] + rest), sel)
         == if Selects(sel, x) then Insert(x, Filter([a] + rest, sel)) else Filter([a] + rest, sel)
  {
    var fr := Filter(rest, sel);
    var ins := Insert(x, rest);
    InsertBehind(x, a, rest);
    FilterCons(a, ins, sel);
    FilterCons(a, rest, sel);
    if Selects(sel, x) && Selects(sel, a) {
      InsertBehind(x, a, fr);
    }
  }

  lemma FilterCons(a: WorkOrder, t: seq<WorkOrder>, sel: Selector)
    ensures Filter([a] + t, sel) == if Selects(sel, a) then [a] + Filter(t, sel) else Filter(t, sel)
  {
    assert ([a] + t)[0] == a && ([a] + t)[1..] == t;
  }

  lemma InsertBehind(x: WorkOrder, a: WorkOrder, t: seq<WorkOrder>)
    requires a.updatedAt > x.updatedAt
    ensures Insert(x, [a] + t) == [a] + Insert(x, t)
  {
    assert ([a] + t)[0] == a && ([a] + t)[1..] == t;
  }

  /** A filtered sorted list is still sorted. */
  lemma {:induction false} FilterPreservesSorted(s: seq<WorkOrder>, sel: Selector)
    requires SortedByRecency(s)
    ensures SortedByRecency(Filter(s, sel))
  {
    if |s| > 0 {
      var rest := s[1..];
      SortedTail(s);
      FilterPreservesSorted(rest, sel);
      var fr := Filter(rest, sel);
      if Selects(sel, s[0]) {
        forall i, j | 0 <= i < j < |[s[0]] + fr|
          ensures ([s[0]] + fr)[i].updatedAt >= ([s[0]] + fr)[j].updatedAt
        {
          if i == 0 {
            assert ([s[0]] + fr)[j] == fr[j - 1];
            FilterMembers(rest, sel);
            assert fr[j - 1] in fr;
            assert fr[j - 1] in rest;
            assert ([s[0]] + fr)[j] in s;
            SortedElementsBelowHead(s, ([s[0]] + fr)[j]);
          }
        }
      }
    }
  }

  /** Filtering and sorting commute: selecting from the sorted list gives the
      sorted selection. This is what stability buys. */
  lemma {:induction false} FilterSortCommute(s: seq<WorkOrder>, sel: Selector)
    ensures Filter(SortByRecency(s), sel) == SortByRecency(Filter(s, sel))
  {
    if |s| > 0 {
      var rest := s[1..];
      var sortedRest := SortByRecency(rest);
      var fr := Filter(rest, sel);
      FilterSortCommute(rest, sel);
      assert SortByRecency(s) == Insert(s[0], sortedRest);
      FilterInsert(s[0], sortedRest, sel);
      assert Filter(s, sel) == (if Selects(sel, s[0]) then [s[0]] else []) + fr;
      if Selects(sel, s[0]) {
        var fs := [s[0]] + fr;
        assert fs[0] == s[0] && fs[1..] == fr;
        assert SortByRecency(fs) == Insert(s[0], SortByRecency(fr));
      } else {
        assert Filter(s, sel) == fr;
      }
    }
  }

  /** Sorting an already sorted list changes nothing. */
  lemma {:induction false} SortOfSortedIsIdentity(s: seq<WorkOrder>)
    requires SortedByRecency(s)
    ensures SortByRecency(s) == s
  {
    if |s| > 0 {
      var rest := s[1..];
      SortedTail(s);
      SortOfSortedIsIdentity(rest);
      assert s == [s[0]] + rest;
    }
  }

  /** The sort is idempotent. */
  lemma SortIsIdempotent(s: seq<WorkOrder>)
    ensures SortByRecency(SortByRecency(s)) == SortByRecency(s)
  {
    SortOfSortedIsIdentity(SortByRecency(s));
  }

  /** Stability: the records sharing any one timestamp appear in the sorted
      list in exactly their stored order. */
  lemma SortIsStable(s: seq<WorkOrder>, t: nat)
    ensures Filter(SortByRecency(s), StampIs(t)) == Filter(s, StampIs(t))
  {
    FilterSortCommute(s, StampIs(t));
    var same := Filter(s, StampIs(t));
    assert SortedByRecency(same) by {
      FilterMembers(s, StampIs(t));
      forall i, j | 0 <= i < j < |same| ensures same[i].updatedAt >= same[j].updatedAt {
        assert same[i] in same && same[j] in same;
      }
    }
    SortOfSortedIsIdentity(same);
  }

  /** Some record carries `id`. */
  predicate HasId(s: seq<WorkOrder>, id: string)
  {
    exists o :: o in s && o.id == id
  }

  /** Every record passes the `order.id !== id` test exactly when none
      carries `id`. */
  lemma AllKeptIffIdAbsent(s: seq<WorkOrder>, id: string)
    ensures (forall i :: 0 <= i < |s| ==> Selects(IdIsNot(id), s[i])) <==> !HasId(s, id)
  {
    if HasId(s, id) {
      var o :| o in s && o.id == id;
      var i :| 0 <= i < |s| && s[i] == o;
      assert !Selects(IdIsNot(id), s[i]);
    }
  }

  /** No two records share an id. */
  ghost predicate UniqueIds(s: seq<WorkOrder>)
  {
    forall i, j :: 0 <= i < j < |s| ==> s[i].id != s[j].id
  }

  /** The `findIndex` lookup by id, with `None` where it gives -1. */
  function IndexOfId(s: seq<WorkOrder>, id: string): (k: Option<nat>)
    ensures k.Some? ==> k.value < |s| && s[k.value].id == id
    ensures k.Some? ==> forall j :: 0 <= j < k.value ==> s[j].id != id
    ensures k.None? <==> !HasId(s, id)
  {
    if |s| == 0 then None
    else if s[0].id == id then Some(0)
    else
      match IndexOfId(s[1..], id)
      case None =>
        assert forall o :: o in s ==> o == s[0] || o in s[1..];
        None
      case Some(k) =>
        assert s[1..][k] == s[k + 1];
        Some(k + 1)
  }

  /** In a sorted list the first record with an id is the most recently
      updated one with that id. */
  lemma FirstWithIdIsNewest(s: seq<WorkOrder>, id: string)
    requires SortedByRecency(s) && IndexOfId(s, id).Some?
    ensures forall o :: o in s && o.id == id ==> o.updatedAt <= s[IndexOfId(s, id).value].updatedAt
  {
    var k := IndexOfId(s, id).value;
    forall o | o in s && o.id == id ensures o.updatedAt <= s[k].updatedAt {
      var j :| 0 <= j < |s| && s[j] == o;
      assert k <= j;
    }
  }

  /** Appending a record whose id no record carries keeps ids unique. */
  lemma AppendKeepsUniqueIds(s: seq<WorkOrder>, x: WorkOrder)
    requires UniqueIds(s)
    requires forall i :: 0 <= i < |s| ==> s[i].id != x.id
    ensures UniqueIds(s + [x])
  {
    var r := s + [x];
    forall i, j | 0 <= i < j < |r| ensures r[i].id != r[j].id {
      assert r[i] == s[i];
      if j < |s| {
        assert r[j] == s[j];
      }
    }
  }

  /** Replacing a record by one with the same id keeps ids unique. */
  lemma ReplaceKeepsUniqueIds(s: seq<WorkOrder>, k: nat, x: WorkOrder)
    requires UniqueIds(s) && k < |s| && x.id == s[k].id
    ensures UniqueIds(s[k := x])
  {
    var r := s[k := x];
    forall i | 0 <= i < |s| ensures r[i].id == s[i].id {
    }
  }

  /** Sorting keeps ids unique. */
  lemma {:induction false} SortKeepsUniqueIds(s: seq<WorkOrder>)
    requires UniqueIds(s)
    ensures UniqueIds(SortByRecency(s))
  {
    if |s| > 0 {
      var rest := s[1..];
      assert UniqueIds(rest);
      SortKeepsUniqueIds(rest);
      assert !HasId(rest, s[0].id) by {
        forall o | o in rest ensures o.id != s[0].id {
          var j :| 0 <= j < |rest| && rest[j] == o;
          assert s[j + 1] == o;
        }
      }
      assert !HasId(SortByRecency(rest), s[0].id) by {
        forall o | o in SortByRecency(rest) ensures o.id != s[0].id {
          assert o in multiset(SortByRecency(rest));
          assert o in rest;
        }
      }
      InsertKeepsUniqueIds(s[0], SortByRecency(rest));
    }
  }

  lemma {:induction false} InsertKeepsUniqueIds(x: WorkOrder, s: seq<WorkOrder>)
    requires UniqueIds(s)
    requires !HasId(s, x.id)
    ensures UniqueIds(Insert(x, s))
  {
    if |s| == 0 || s[0].updatedAt <= x.updatedAt {
      PrependKeepsUniqueIds(x, s);
    } else {
      var rest := s[1..];
      assert UniqueIds(rest);
      assert !HasId(rest, x.id) by {
        forall o | o in rest ensures o.id != x.id {
          assert o in s;
        }
      }
      InsertKeepsUniqueIds(x, rest);
      var ins := Insert(x, rest);
      assert !HasId(ins, s[0].id) by {
        forall o | o in ins ensures o.id != s[0].id {
          assert o in multiset(ins);
          if o != x {
            assert o in rest;
            var j :| 0 <= j < |rest| && rest[j] == o;
            assert s[j + 1] == o;
          } else {
            assert s[0] in s;
          }
        }
      }
      PrependKeepsUniqueIds(s[0], ins);
    }
  }

  lemma PrependKeepsUniqueIds(x: WorkOrder, s: seq<WorkOrder>)
    requires UniqueIds(s) && !HasId(s, x.id)
    ensures UniqueIds([x] + s)
  {
    var r := [x] + s;
    forall i, j | 0 <= i < j < |r| ensures r[i].id != r[j].id {
      if i == 0 {
        assert r[j] == s[j - 1];
        assert r[j] in s;
      } else {
        assert r[i] == s[i - 1] && r[j] == s[j - 1];
      }
    }
  }

  /** Filtering keeps ids unique. */
  lemma {:induction false} FilterKeepsUniqueIds(s: seq<WorkOrder>, sel: Selector)
    requires UniqueIds(s)
    ensures UniqueIds(Filter(s, sel))
  {
    if |s| > 0 {
      var rest := s[1..];
      assert UniqueIds(rest);
      FilterKeepsUniqueIds(rest, sel);
      if Selects(sel, s[0]) {
        FilterMembers(rest, sel);
        assert !HasId(Filter(rest, sel), s[0].id) by {
          forall o | o in Filter(rest, sel) ensures o.id != s[0].id {
            var j :| 0 <= j < |rest| && rest[j] == o;
            assert s[j + 1] == o;
          }
        }
        PrependKeepsUniqueIds(s[0], Filter(rest, sel));
      }
    }
  }
}
