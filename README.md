# kitchenpos: order lifecycle and table grouping, in Dafny

This project models the two parts of the kitchenpos restaurant point-of-sale
backend that carry business rules, and proves what those rules guarantee.

- **The `Ordering` aggregate** (module `Orders`, `ordering.dfy`). This is an order placed at one
  table. It holds line items of (menu, quantity) and a status that is COOKING,
  MEAL or COMPLETION. The class `Orders.Ordering` has the Java class's fields:
  id, table id, status, ordered time and line items. Its three factories stand for the three Java
  constructors. Each one rejects a missing (null) line-item list, and on success
  it attaches every line item to the new order. Status changes are rejected once the
  order is in COMPLETION, and any other change is allowed. `AfterChanges`
  replays a series of status-change requests, and the lemmas about it state
  the state machine: COMPLETION is terminal, an order reaches COMPLETION exactly when
  it is requested, and there is no forced order between COOKING and MEAL.
- **Table-group create and ungroup** (module `TableGroups`, `table_group_service.dfy`).
  The repositories are the fields of one class, `TableGroups.TableGroupService`:
  a map from table id to table (its group id and whether it is empty), a map from group id to member
  table ids, and the list of orders (their table id and status). `Create`
  validates before it mutates. Every table the request names must be found.
  At least two distinct tables must be found. Every table must be empty and in
  no group. On success every member joins a fresh group, once however often it
  was named, and becomes occupied. `Ungroup` rejects an
  unknown group. It also rejects a group with an order on a member table that is
  COOKING or MEAL. Otherwise it clears every member's group id. The invariant
  `Valid()` (every group member points back at its group, and every grouped table
  is a member of its group) is kept by both operations.
- `common.dfy` (module `Common`) holds the Option, Result and Outcome types. It also
  holds the counting facts that both parts rely on. A lookup "by ids in ..." returns
  each row once. It finds as many rows as there were ids exactly when the ids are
  distinct and all of them exist. It finds as many rows as there were distinct ids
  exactly when all of them exist.

A rejected Java call throws `IllegalArgumentException`. In the model it returns a
`Failure`/`Fail` value, and the error is named for the rule that rejected it.
The clock (`LocalDateTime.now()`) is a `Timestamp` parameter.

`TableGroupService.create` passes the tables it looked up straight to
`TableGroup.of(...).grouping()`. `TableGroup` is not part of this model, so the
rules a request must meet are not visible in the service code. They are taken
from the assertions of `TableGroupServiceTest`: at least two tables, all found,
all empty, none grouped. That test is written against the older DAO-based
`kitchenpos.application.TableGroupService`, not the repository-based
`kitchenpos.table.application.TableGroupService` modelled here. No test names a
table twice. The lookup returns each table once, and only the tables it returns
reach `TableGroup.of`. So the model compares the number found with the number of
distinct ids requested, and it applies the two-table rule to those distinct
tables. A request such as `[1, 1, 2]` over two empty, ungrouped tables is
accepted, and the group holds tables 1 and 2 once each (`RepeatedIdGroupedOnce`).

## Model

| member | source | states |
|---|---|---|
| Common.PresentCountIff | src/main/java/kitchenpos/table/application/TableGroupService.java:30 | A lookup by ids finds at most as many rows as ids requested. It finds exactly as many when no id repeats and every id exists. |
| Orders.Stamped | src/main/java/kitchenpos/ordering/domain/Ordering.java:61-68 | After stamping there are as many line items as before. Each one refers to the order's id and keeps its menu id and quantity. |
| Orders.Ordering.SetOrderIdOnOrderLineItems | src/main/java/kitchenpos/ordering/domain/Ordering.java:61-68 | The loop over the line items leaves exactly the stamped list: every item is attached to this order. |
| Orders.Ordering.constructor | src/main/java/kitchenpos/ordering/domain/Ordering.java:44-51 | Assigns id, table, status and time as given, then attaches every line item to this order. |
| Orders.Ordering.Create | src/main/java/kitchenpos/ordering/domain/Ordering.java:35-42 | A null line-item list is rejected. Otherwise the new order is COOKING whatever its line items are, is stamped with time `now`, and all its line items refer to it. |
| Orders.Ordering.CreateWithStatus | src/main/java/kitchenpos/ordering/domain/Ordering.java:44-51 | A null line-item list is rejected. Otherwise the order has the given id, status and time, and all its line items refer to it. |
| Orders.Ordering.CreateWithoutId | src/main/java/kitchenpos/ordering/domain/Ordering.java:53-59 | A null line-item list is rejected. Otherwise the order has no id, and its line items are attached to that absent id. |
| Orders.Ordering.IsFrom | src/main/java/kitchenpos/ordering/domain/Ordering.java:70-72 | Only the table id changes. Status, time, id and line items stay the same. |
| Orders.Ordering.ValidateOrderLineItemsSize | src/main/java/kitchenpos/ordering/domain/Ordering.java:74-79 | Passes exactly when there is at least one line item and the number of line items equals the saved-menu count. Otherwise it fails with InvalidOrder. It changes nothing. |
| Orders.SizeCheckMeansKnownDistinctMenus | src/main/java/kitchenpos/ordering/domain/Ordering.java:74-85 | The number of distinct known menus among the line items, which the size check is fed, equals the number of line items exactly when no menu repeats and every menu is known. With the size check's non-empty condition this is the meaning of a passing check. |
| Orders.MenuIdsOf | src/main/java/kitchenpos/ordering/domain/Ordering.java:81-85 | Gives one menu id per line item, of the same length and in the same order. |
| Orders.CheckIfAlreadyCompleted | src/main/java/kitchenpos/ordering/domain/Ordering.java:93-97 | Fails, with OrderAlreadyCompleted, exactly when the status is COMPLETION. |
| Orders.Ordering.ChangeOrderStatusTo | src/main/java/kitchenpos/ordering/domain/Ordering.java:87-91 | On an order in COMPLETION the call is rejected and the status stays COMPLETION, even when COMPLETION is the target. Otherwise the status becomes exactly the target. Nothing but the status changes. |
| Orders.CompletionIsTerminal | src/main/java/kitchenpos/ordering/domain/Ordering.java:87-97 | No series of status-change requests moves an order out of COMPLETION. |
| Orders.CompletionReachedIff | src/main/java/kitchenpos/ordering/domain/Ordering.java:87-97 | After a series of requests the order is in COMPLETION exactly when it started there or COMPLETION was requested. |
| Orders.LastRequestWinsBeforeCompletion | src/main/java/kitchenpos/ordering/domain/Ordering.java:87-91 | From a status other than COMPLETION, any non-empty series of COOKING/MEAL requests ends at the last one requested. There is no forced order between COOKING and MEAL. |
| TableGroups.BlockedIffSomeOrderNotCompleted | src/main/java/kitchenpos/table/application/TableGroupService.java:48-53 | The blocking query answers yes exactly when some order on a member table is COOKING or MEAL. Equivalently, some such order is not yet COMPLETION. |
| TableGroups.CompletedOrdersNeverBlock | src/main/java/kitchenpos/table/application/TableGroupService.java:50 | Adding any number of COMPLETION orders never changes the blocking answer. |
| Common.PresentCoversRequest | src/main/java/kitchenpos/table/application/TableGroupService.java:30 | A lookup by ids finds at most as many rows as the request names distinct ids. It finds exactly that many when every named id exists, whatever the repeats. |
| Common.Dedup | src/main/java/kitchenpos/table/application/TableGroupService.java:30-33 | The tables that reach the group are the requested ones without repeats: no id occurs twice, and the set of ids is the requested set. |
| TableGroups.CreateCheckIff | src/test/java/kitchenpos/application/TableGroupServiceTest.java:65-125 | A group request is accepted exactly when it names at least two distinct tables and every named table exists, is empty and is in no group. |
| TableGroups.FewerThanTwoRequestedRejected | src/test/java/kitchenpos/application/TableGroupServiceTest.java:65-85 | A request naming one table, or none, is rejected whatever the tables are. |
| TableGroups.RepeatedIdGroupedOnce | src/main/java/kitchenpos/table/application/TableGroupService.java:30-33 | A request `[1, 1, 2]` over two empty, ungrouped tables is accepted, and the group holds `[1, 2]`. |
| TableGroups.TableGroupService.Create | src/main/java/kitchenpos/table/application/TableGroupService.java:29-36 | A rejected request changes nothing. An accepted one creates a group under a fresh id holding the requested tables, each once. Each of them now points at the group and is occupied. The invariant is kept. |
| TableGroups.UngroupUndoesGroup | src/test/java/kitchenpos/application/TableGroupServiceTest.java:127-141 | Grouping ungrouped tables and then releasing them gives every table back its former group id (none). The member tables stay occupied. |
| TableGroups.TableGroupService.Ungroup | src/main/java/kitchenpos/table/application/TableGroupService.java:39-46 | An unknown group is rejected with GroupNotFound before anything else is checked. A group with a COOKING or MEAL order on a member table is rejected with UngroupBlocked. Both rejections change nothing. Otherwise every member's group id is cleared and its emptiness is unchanged. The invariant is kept. |

## Left out

- The no-argument `Ordering()` constructor: it exists for the persistence framework only and leaves the status unset.
- `OrderLineItem.isIn` is modelled by its effect only. The item records the owning order's id (`LineItem.orderId`). The model does not keep a reference to the order object, so an item shared between two lists is not modelled. For the id-less constructor the recorded id is absent.
- Line items are values held in the order's sequence. In-place mutation of shared `OrderLineItem` objects and aliasing between orders are not modelled.
- `TableGroup.of`, `grouping` and `ungrouping` are not part of this model. Their rules come from `TableGroupServiceTest`. After `Ungroup` the group record is kept with an empty member list.
- `TableGroups.TableGroupService.Create` assumes that `TableGroup.grouping()` marks every member table occupied (`empty := false` in `Grouped`). `TableGroup` is not part of this model, so that effect is an assumption, not read from its code.
- `TableGroups.TableGroupService.Create` does not model the group's creation timestamp. Group ids come from a counter in place of the database's generated keys.
- Timestamps are opaque integers supplied by the caller. Line-item quantities are not checked for positivity, as in the source.
- Persistence (JPA mapping, cascades, `save`, transactions), `equals`/`hashCode`, concurrent requests, and the HTTP layer (`OrderRestController`, menu DTOs) are not modelled. The order service that calls `validateOrderLineItemsSize` with the repository's menu count is not part of this model. `SizeCheckMeansKnownDistinctMenus` states what that call means.
