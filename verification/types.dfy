/** The work-order domain of lib/types.ts: two enumerations of string literals
    and three record shapes. Timestamps are the milliseconds that
    the stored ISO timestamp denotes. */
module WorkOrderTypes {

  /** An optional value: an omitted field, a missing record, an absent query. */
  datatype Option<+T> = None | Some(value: T) {
    /** The value if present, otherwise `default` (the `??` of TypeScript). */
    function GetOr(default: T): T
    {
      match this
      case Some(v) => v
      case None => default
    }
  }

  /** The three priorities of the union in lib/types.ts. */
  datatype Priority = Low | Medium | High

  /** The three statuses of the union in lib/types.ts. */
  datatype Status = Open | InProgress | Done

  /** The string literals of the two unions, in declaration order. */
  const PriorityNames: seq<string> := ["Low", "Medium", "High"]
  const StatusNames: seq<string> := ["Open", "In Progress", "Done"]

  /** The literal a priority is stored and compared as. */
  function PriorityName(p: Priority): (name: string)
    ensures name in PriorityNames
  {
    match p
    case Low => "Low"
    case Medium => "Medium"
    case High => "High"
  }

  /** The literal a status is stored and compared as. */
  function StatusName(s: Status): (name: string)
    ensures name in StatusNames
  {
    match s
    case Open => "Open"
    case InProgress => "In Progress"
    case Done => "Done"
  }

  /** Distinct priorities are stored as distinct literals. */
  lemma PriorityNamesDistinct(p: Priority, q: Priority)
    ensures PriorityName(p) == PriorityName(q) ==> p == q
  {
  }

  /** Each of the three priority literals names a priority. */
  lemma PriorityNamesCovered(name: string)
    requires name in PriorityNames
    ensures exists r :: PriorityName(r) == name
  {
    if name == "Low" {
      assert PriorityName(Low) == name;
    } else if name == "Medium" {
      assert PriorityName(Medium) == name;
    } else {
      assert PriorityName(High) == name;
    }
  }

  /** Distinct statuses are stored as distinct literals. */
  lemma StatusNamesDistinct(s: Status, t: Status)
    ensures StatusName(s) == StatusName(t) ==> s == t
  {
  }

  /** Each of the three status literals names a status. */
  lemma StatusNamesCovered(name: string)
    requires name in StatusNames
    ensures exists u :: StatusName(u) == name
  {
    if name == "Open" {
      assert StatusName(Open) == name;
    } else if name == "In Progress" {
      assert StatusName(InProgress) == name;
    } else {
      assert StatusName(Done) == name;
    }
  }

  /** A stored record. */
  datatype WorkOrder = WorkOrder(
    id: string,
    title: string,
    description: string,
    priority: Priority,
    status: Status,
    updatedAt: nat)

  /** What a client supplies for a new
      record. It has no id, status or updatedAt, so the client cannot choose
      them. */
  datatype CreateWorkOrderInput = CreateWorkOrderInput(
    title: string,
    description: string,
    priority: Priority)

  /** A change to a record: every field optional; there is no way
      to name an id or an updatedAt. */
  datatype UpdateWorkOrderInput = UpdateWorkOrderInput(
    title: Option<string>,
    description: Option<string>,
    priority: Option<Priority>,
    status: Option<Status>)
}
