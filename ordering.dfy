/** The `Ordering` aggregate: an order placed at one table, its line items and
    its status, with the guards the aggregate enforces on itself. */
module Orders {
  import opened Common

  /** The three order statuses. COOKING is where every new order starts and
      COMPLETION is terminal. */
  datatype Status = Cooking | Meal | Completion

  /** Why an order operation was rejected. */
  datatype OrderError = InvalidOrder | OrderAlreadyCompleted

  /** One (menu, quantity) pair of an order. `orderId` is the back-reference to
      the owning order, absent until the order stamps it. */
  datatype LineItem = LineItem(menuId: int, quantity: int, orderId: Option<int>)

  /** An opaque clock reading supplied by the caller. */
  type Timestamp = int

  /** The line items after each has been attached to the order with id `id`. */
  function Stamped(items: seq<LineItem>, id: Option<int>): (r: seq<LineItem>)
    ensures |r| == |items|
    ensures forall i :: 0 <= i < |r| ==>
      r[i].orderId == id && r[i].menuId == items[i].menuId && r[i].quantity == items[i].quantity
  {
    if items == [] then [] else [items[0].(orderId := id)] + Stamped(items[1..], id)
  }

  /** The menu id of each line item. */
  function MenuIdsOf(items: seq<LineItem>): (ids: seq<int>)
    ensures |ids| == |items|
    ensures forall i :: 0 <= i < |items| ==> ids[i] == items[i].menuId
  {
    if items == [] then [] else [items[0].menuId] + MenuIdsOf(items[1..])
  }

  /** The guard in front of every status change. */
  function CheckIfAlreadyCompleted(status: Status): (r: Outcome<OrderError>)
    ensures r.Fail? <==> status == Completion
    ensures r.Fail? ==> r.error == OrderAlreadyCompleted
  {
    if status == Completion then Fail(OrderAlreadyCompleted) else Pass
  }

  /** The status an order has after one status-change request for `target`,
      whether the request was accepted or rejected. */
  function AfterChange(current: Status, target: Status): Status
  {
    if CheckIfAlreadyCompleted(current).Fail? then current else target
  }

  /** The status after a series of status-change requests, in order. */
  function AfterChanges(current: Status, targets: seq<Status>): Status
    decreases |targets|
  {
    if targets == [] then current
    else AfterChanges(AfterChange(current, targets[0]), targets[1..])
  }

  /** No request, of any target and in any number, moves an order out of COMPLETION. */
  lemma {:induction false} CompletionIsTerminal(targets: seq<Status>)
    ensures AfterChanges(Completion, targets) == Completion
  {
    if targets != [] {
      CompletionIsTerminal(targets[1..]);
    }
  }

  /** An order ends in COMPLETION exactly when it started there or COMPLETION
      was requested at some point. */
  lemma {:induction false} CompletionReachedIff(current: Status, targets: seq<Status>)
    ensures AfterChanges(current, targets) == Completion <==> current == Completion || Completion in targets
    decreases |targets|
  {
    if targets != [] {
      CompletionReachedIff(AfterChange(current, targets[0]), targets[1..]);
      assert targets == [targets[0]] + targets[1..];
    }
  }

  /** Before COMPLETION nothing orders COOKING and MEAL: any non-empty series of
      requests that avoids COMPLETION leaves the order at the last requested status. */
  lemma {:induction false} LastRequestWinsBeforeCompletion(current: Status, targets: seq<Status>)
    requires current != Completion && targets != []
    requires Completion !in targets
    ensures AfterChanges(current, targets) == targets[|targets| - 1]
    decreases |targets|
  {
    var next := AfterChange(current, targets[0]);
    if |targets| > 1 {
      assert targets[1..][|targets[1..]| - 1] == targets[|targets| - 1];
      assert next == targets[0] && next != Completion;
      LastRequestWinsBeforeCompletion(next, targets[1..]);
    }
  }

  /** The size check is fed the number of distinct known menus among the line
      items (what the order service asks the menu repository). That number
      equals the number of line items exactly when no menu is named twice and
      every menu is known. */
  lemma SizeCheckMeansKnownDistinctMenus(items: seq<LineItem>, catalog: set<int>)
    ensures |Present(MenuIdsOf(items), catalog)| == |items|
        <==> Distinct(MenuIdsOf(items)) && forall i :: 0 <= i < |items| ==> items[i].menuId in catalog
  {
    PresentCountIff(MenuIdsOf(items), catalog);
  }

  class Ordering {
    var id: Option<int>
    var orderTableId: int
    var status: Status
    var orderedTime: Timestamp
    var lineItems: seq<LineItem>

    /** Assigns every field and attaches the line items to this order. Reached
        only through the three factories below, after the null check. */
    constructor (id: Option<int>, orderTableId: int, status: Status, orderedTime: Timestamp, items: seq<LineItem>)
      ensures this.id == id && this.orderTableId == orderTableId
      ensures this.status == status && this.orderedTime == orderedTime
      ensures lineItems == Stamped(items, id)
    {
      this.id := id;
      this.orderTableId := orderTableId;
      this.status := status;
      this.orderedTime := orderedTime;
      this.lineItems := items;
      new;
      SetOrderIdOnOrderLineItems();
    }

    /** A new order: status COOKING whatever the line items, ordered at `now`.
        A missing line-item list is rejected. */
    static method Create(id: Option<int>, orderTableId: int, now: Timestamp, items: Option<seq<LineItem>>)
      returns (r: Result<Ordering, OrderError>)
      ensures items.None? <==> r.Failure?
      ensures r.Failure? ==> r.error == InvalidOrder
      ensures r.Success? ==> fresh(r.value)
      ensures r.Success? ==> r.value.id == id && r.value.orderTableId == orderTableId
      ensures r.Success? ==> r.value.status == Cooking && r.value.orderedTime == now
      ensures r.Success? ==> r.value.lineItems == Stamped(items.value, id)
    {
      if items.None? {
        return Failure(InvalidOrder);
      }
      var o := new Ordering(id, orderTableId, Cooking, now, items.value);
      r := Success(o);
    }

    /** An order rebuilt with a given id, status and time. A missing line-item
        list is rejected. */
    static method CreateWithStatus(id: Option<int>, orderTableId: int, status: Status, orderedTime: Timestamp,
                                   items: Option<seq<LineItem>>)
      returns (r: Result<Ordering, OrderError>)
      ensures items.None? <==> r.Failure?
      ensures r.Failure? ==> r.error == InvalidOrder
      ensures r.Success? ==> fresh(r.value)
      ensures r.Success? ==> r.value.id == id && r.value.orderTableId == orderTableId
      ensures r.Success? ==> r.value.status == status && r.value.orderedTime == orderedTime
      ensures r.Success? ==> r.value.lineItems == Stamped(items.value, id)
    {
      if items.None? {
        return Failure(InvalidOrder);
      }
      var o := new Ordering(id, orderTableId, status, orderedTime, items.value);
      r := Success(o);
    }

    /** An order with a given status and time that has no id yet, so its line
        items are attached to an absent id. A missing line-item list is rejected. */
    static method CreateWithoutId(orderTableId: int, status: Status, orderedTime: Timestamp,
                                  items: Option<seq<LineItem>>)
      returns (r: Result<Ordering, OrderError>)
      ensures items.None? <==> r.Failure?
      ensures r.Failure? ==> r.error == InvalidOrder
      ensures r.Success? ==> fresh(r.value)
      ensures r.Success? ==> r.value.id.None? && r.value.orderTableId == orderTableId
      ensures r.Success? ==> r.value.status == status && r.value.orderedTime == orderedTime
      ensures r.Success? ==> r.value.lineItems == Stamped(items.value, None)
    {
      if items.None? {
        return Failure(InvalidOrder);
      }
      var o := new Ordering(None, orderTableId, status, orderedTime, items.value);
      r := Success(o);
    }

    /** Attaches every line item, one at a time, to this order. */
    method SetOrderIdOnOrderLineItems()
      modifies this`lineItems
      ensures lineItems == Stamped(old(lineItems), id)
    {
      var i := 0;
      while i < |lineItems|
        invariant 0 <= i <= |lineItems| == |old(lineItems)|
        invariant forall j :: 0 <= j < i ==> lineItems[j] == old(lineItems)[j].(orderId := id)
        invariant forall j :: i <= j < |lineItems| ==> lineItems[j] == old(lineItems)[j]
      {
        lineItems := lineItems[i := lineItems[i].(orderId := id)];
        i := i + 1;
      }
    }

    /** Moves the order to another table; nothing else changes. */
    method IsFrom(tableId: int)
      modifies this`orderTableId
      ensures orderTableId == tableId
      ensures id == old(id) && status == old(status) && orderedTime == old(orderedTime)
      ensures lineItems == old(lineItems)
    {
      orderTableId := tableId;
    }

    /** Passes exactly when there is at least one line item and their number is
        `savedMenuCount`; changes nothing. */
    method ValidateOrderLineItemsSize(savedMenuCount: int) returns (r: Outcome<OrderError>)
      ensures r.Pass? <==> 0 < |lineItems| == savedMenuCount
      ensures r.Fail? ==> r.error == InvalidOrder
    {
      if |lineItems| == 0 || |lineItems| != savedMenuCount {
        return Fail(InvalidOrder);
      }
      return Pass;
    }

    /** One menu id per line item, in line-item order. */
    function MenuIds(): (ids: seq<int>)
      reads this
    {
      MenuIdsOf(lineItems)
    }

    /** Sets the status to `target` unless the order is already in COMPLETION,
        in which case it is rejected and the status stays COMPLETION. Nothing
        but the status changes. */
    method ChangeOrderStatusTo(target: Status) returns (r: Outcome<OrderError>)
      modifies this`status
      ensures r.Fail? <==> old(status) == Completion
      ensures r.Fail? ==> r.error == OrderAlreadyCompleted && status == Completion
      ensures r.Pass? ==> status == target
      ensures status == AfterChange(old(status), target)
      ensures id == old(id) && orderTableId == old(orderTableId) && orderedTime == old(orderedTime)
      ensures lineItems == old(lineItems)
    {
      r := CheckIfAlreadyCompleted(status);
      if r.Fail? {
        return;
      }
      status := target;
    }
  }

  /** An order for one line item starts in COOKING with that item attached;
      once in COMPLETION, a request for MEAL is rejected and changes nothing. */
  method PlaceThenComplete()
  {
    var placed := Ordering.Create(Some(1), 1, 0, Some([LineItem(10, 2, None)]));
    assert placed.Success?;
    var order := placed.value;
    assert order.status == Cooking && |order.lineItems| == 1;
    assert order.lineItems[0] == LineItem(10, 2, Some(1));
    var done := order.ChangeOrderStatusTo(Completion);
    assert done == Pass && order.status == Completion;
    var again := order.ChangeOrderStatusTo(Meal);
    assert again == Fail(OrderAlreadyCompleted) && order.status == Completion;
  }
}
