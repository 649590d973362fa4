/** The `/api/emails/reorder` route (PUT): one `UPDATE emails SET sort_order
    = ? WHERE id = ?` per entry of `emailOrders`, all inside BEGIN ... COMMIT,
    with ROLLBACK when any of them fails. The `sort_order` column is a map
    from row id to order value. */
module ReorderRoute {
  import opened Http

  /** One entry of `emailOrders`: an `{ id, sort_order }` pair, or an entry the
      loop cannot destructure or whose UPDATE the database refuses. */
  datatype OrderEntry = Assignment(id: int, sortOrder: int) | Malformed

  /** The body's `emailOrders` member: unreadable body, missing or not an
      array, or an array of entries. */
  datatype EmailOrders = Unreadable | NotAnArray | Entries(entries: seq<OrderEntry>)

  /** Where the database fails, if anywhere: opening the connection or BEGIN,
      the UPDATE of entry `step`, or COMMIT. */
  datatype Fault = NoFault | SetupFault | UpdateFault(step: nat) | CommitFault

  const OrdersRequired := "Email orders array is required"
  const OrderUpdated := "Email order updated successfully"
  const FailedToReorder := "Failed to update email order"

  /** One UPDATE: sets the order of the row with this id; a missing row is
      left missing and nothing else changes. */
  function Apply(order: map<int, int>, e: OrderEntry): (r: map<int, int>)
    ensures r.Keys == order.Keys
    ensures forall id :: id in order && !Assigns(e, id) ==> r[id] == order[id]
    ensures e.Assignment? && e.id in order ==> r[e.id] == e.sortOrder
  {
    match e
    case Assignment(id, v) => if id in order then order[id := v] else order
    case Malformed => order
  }

  /** The UPDATEs of `entries`, in array order. The batch never adds or
      removes a row: UPDATE has no existence check and inserts nothing. */
  function ApplyAll(order: map<int, int>, entries: seq<OrderEntry>): (r: map<int, int>)
    ensures r.Keys == order.Keys
    decreases |entries|
  {
    if entries == [] then order
    else Apply(ApplyAll(order, entries[..|entries| - 1]), entries[|entries| - 1])
  }

  predicate Assigns(e: OrderEntry, id: int) {
    e.Assignment? && e.id == id
  }

  /** The batch commits: the body is an array, every entry can be applied and
      neither BEGIN, any of the UPDATEs nor COMMIT fails. An empty array
      commits unless BEGIN or COMMIT fails. */
  predicate Commits(orders: EmailOrders, fault: Fault)
    ensures Commits(orders, fault) ==> orders.Entries?
    ensures orders == Entries([]) ==> (Commits(orders, fault) <==> fault != SetupFault && fault != CommitFault)
  {
    && orders.Entries?
    && (forall k :: 0 <= k < |orders.entries| ==> orders.entries[k].Assignment?)
    && fault != SetupFault && fault != CommitFault
    && !(fault.UpdateFault? && fault.step < |orders.entries|)
  }

  /** A row no entry names keeps its order value. */
  lemma {:induction false} ApplyAllUntouched(order: map<int, int>, entries: seq<OrderEntry>, id: int)
    requires id in order
    requires forall k :: 0 <= k < |entries| ==> !Assigns(entries[k], id)
    ensures id in ApplyAll(order, entries) && ApplyAll(order, entries)[id] == order[id]
    decreases |entries|
  {
    if entries != [] {
      ApplyAllUntouched(order, entries[..|entries| - 1], id);
    }
  }

  /** The last entry that names a row decides its order value. */
  lemma {:induction false} ApplyAllLastWins(order: map<int, int>, entries: seq<OrderEntry>, k: nat)
    requires k < |entries| && entries[k].Assignment? && entries[k].id in order
    requires forall j :: k < j < |entries| ==> !Assigns(entries[j], entries[k].id)
    ensures entries[k].id in ApplyAll(order, entries)
    ensures ApplyAll(order, entries)[entries[k].id] == entries[k].sortOrder
    decreases |entries|
  {
    var n := |entries|;
    var init := entries[..n - 1];
    if k < n - 1 {
      ApplyAllLastWins(order, init, k);
    }
  }

  /** Entries whose ids name no row change nothing. */
  lemma {:induction false} ApplyAllUnknownIds(order: map<int, int>, entries: seq<OrderEntry>)
    requires forall k :: 0 <= k < |entries| ==> entries[k].Assignment? ==> entries[k].id !in order
    ensures ApplyAll(order, entries) == order
    decreases |entries|
  {
    if entries != [] {
      ApplyAllUnknownIds(order, entries[..|entries| - 1]);
    }
  }

  /** The `emails` table's `sort_order` column. */
  class OrderTable {
    var order: map<int, int>

    constructor (initial: map<int, int>)
      ensures order == initial
    {
      order := initial;
    }

    /** PUT: the transaction either applies every entry, in array order, or
        leaves the column as it was. */
    method Put(orders: EmailOrders, fault: Fault) returns (reply: Reply)
      modifies this
      ensures orders.Unreadable? ==> reply == Failure(500, FailedToReorder)
      ensures orders.NotAnArray? ==> reply == Failure(400, OrdersRequired)
      ensures orders.Entries? ==>
        reply == if Commits(orders, fault) then Success(OrderUpdated) else Failure(500, FailedToReorder)
      ensures reply.success ==> order == ApplyAll(old(order), orders.entries)
      ensures !reply.success ==> order == old(order)
    {
      if orders.Unreadable? {
        return Failure(500, FailedToReorder);
      }
      if orders.NotAnArray? {
        return Failure(400, OrdersRequired);
      }
      if fault == SetupFault {
        // getConnection or BEGIN threw: nothing ran.
        return Failure(500, FailedToReorder);
      }
      var entries := orders.entries;
      var snapshot := order;
      var failed := false;
      var i := 0;
      while i < |entries| && !failed
        invariant 0 <= i <= |entries|
        invariant !failed ==> order == ApplyAll(snapshot, entries[..i])
        invariant !failed ==> forall k :: 0 <= k < i ==> entries[k].Assignment? && fault != UpdateFault(k)
        invariant failed ==> !Commits(orders, fault)
        decreases |entries| - i, !failed
      {
        if entries[i].Malformed? || fault == UpdateFault(i) {
          failed := true;
        } else {
          assert entries[..i + 1][..i] == entries[..i];
          order := Apply(order, entries[i]);
          i := i + 1;
        }
      }
      if failed || fault == CommitFault {
        order := snapshot;  // ROLLBACK
        return Failure(500, FailedToReorder);
      }
      assert entries[..i] == entries;
      reply := Success(OrderUpdated);
    }
  }
}
