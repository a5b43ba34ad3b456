/** Grouping and ungrouping of order tables, over in-memory repositories of
    tables, table groups and orders. */
module TableGroups {
  import opened Common
  import opened Orders

  /** An order table as the grouping rules see it: the group it belongs to, if
      any, and whether it is empty (no party seated). */
  datatype Table = Table(groupId: Option<int>, empty: bool)

  /** What the order repository answers about one order: its table and status. */
  datatype OrderRecord = OrderRecord(tableId: int, status: Status)

  /** Why a table-group operation was rejected. */
  datatype GroupError = InvalidGroup | GroupNotFound | UngroupBlocked

  /** The statuses of orders that keep their tables from being ungrouped. */
  const BlockingStatuses: set<Status> := {Cooking, Meal}

  /** The repository query "does any order on one of these tables have a
      blocking status?". */
  function AnyBlocking(orders: seq<OrderRecord>, tableIds: seq<int>): bool
  {
    if orders == [] then false
    else
      (orders[0].tableId in tableIds && orders[0].status in BlockingStatuses)
      || AnyBlocking(orders[1..], tableIds)
  }

  /** The query finds an order exactly when some order on one of the tables is
      COOKING or MEAL, that is, is not yet COMPLETION. */
  lemma {:induction false} BlockedIffSomeOrderNotCompleted(orders: seq<OrderRecord>, tableIds: seq<int>)
    ensures AnyBlocking(orders, tableIds)
        <==> exists i :: 0 <= i < |orders| && orders[i].tableId in tableIds && orders[i].status in BlockingStatuses
    ensures AnyBlocking(orders, tableIds)
        <==> exists i :: 0 <= i < |orders| && orders[i].tableId in tableIds && orders[i].status != Completion
  {
    if orders != [] {
      BlockedIffSomeOrderNotCompleted(orders[1..], tableIds);
      assert forall i :: 0 < i < |orders| ==> orders[i] == orders[1..][i - 1];
    }
  }

  /** Orders in COMPLETION never block: adding any number of them changes
      nothing in the answer. */
  lemma {:induction false} CompletedOrdersNeverBlock(orders: seq<OrderRecord>, completed: seq<OrderRecord>, tableIds: seq<int>)
    requires forall i :: 0 <= i < |completed| ==> completed[i].status == Completion
    ensures AnyBlocking(orders + completed, tableIds) == AnyBlocking(orders, tableIds)
  {
    if orders == [] {
      assert orders + completed == completed;
      BlockedIffSomeOrderNotCompleted(completed, tableIds);
    } else {
      CompletedOrdersNeverBlock(orders[1..], completed, tableIds);
      assert (orders + completed)[1..] == orders[1..] + completed;
    }
  }

  /** A table that may join a new group: empty and in no group. */
  predicate Groupable(t: Table)
  {
    t.empty && t.groupId.None?
  }

  /** The rules a group request must meet. Every table it names must be found;
      the lookup returns each table once, so a repeated id counts once. At least
      two tables must be found, and every found table must be groupable. */
  function CreateCheck(tables: map<int, Table>, ids: seq<int>): Outcome<GroupError>
  {
    if |Present(ids, tables.Keys)| != |Elements(ids)| then Fail(InvalidGroup)
    else if |Present(ids, tables.Keys)| < 2 then Fail(InvalidGroup)
    else if exists i :: 0 <= i < |ids| && ids[i] in tables && !Groupable(tables[ids[i]]) then Fail(InvalidGroup)
    else Pass
  }

  /** A group request is accepted exactly when it names at least two distinct
      tables and every table it names exists, is empty and is in no group. */
  lemma CreateCheckIff(tables: map<int, Table>, ids: seq<int>)
    ensures CreateCheck(tables, ids).Pass?
        <==> 2 <= |Elements(ids)|
             && forall i :: 0 <= i < |ids| ==> ids[i] in tables && Groupable(tables[ids[i]])
  {
    PresentCoversRequest(ids, tables.Keys);
  }

  /** A request naming fewer than two tables, the empty one included, is rejected. */
  lemma FewerThanTwoRequestedRejected(tables: map<int, Table>, ids: seq<int>)
    requires |ids| < 2
    ensures CreateCheck(tables, ids).Fail?
  {
    CreateCheckIff(tables, ids);
    if |ids| == 1 {
      assert Elements(ids) == {ids[0]};
    } else {
      assert Elements(ids) == {};
    }
  }

  /** A request that repeats a table id is not rejected for the repeat: two empty,
      ungrouped tables requested as [1, 1, 2] pass the rules, and the group holds
      each table once. */
  lemma RepeatedIdGroupedOnce()
    ensures CreateCheck(map[1 := Table(None, true), 2 := Table(None, true)], [1, 1, 2]).Pass?
    ensures Dedup([1, 1, 2]) == [1, 2]
  {
    var ids := [1, 1, 2];
    assert Elements(ids) == {1, 2} by {
      assert ids[0] == 1 && ids[2] == 2;
    }
    CreateCheckIff(map[1 := Table(None, true), 2 := Table(None, true)], ids);
    assert ids[..2] == [1, 1] && ids[..2][..1] == [1];
    assert Dedup([1]) == [1];
    assert Dedup([1, 1]) == [1];
  }

  /** The tables after the tables `ids` have joined group `g`. */
  function Grouped(tables: map<int, Table>, ids: seq<int>, g: int): map<int, Table>
  {
    map t | t in tables :: if t in ids then Table(Some(g), false) else tables[t]
  }

  /** The tables after the tables `ids` have left their group. */
  function Released(tables: map<int, Table>, ids: seq<int>): map<int, Table>
  {
    map t | t in tables :: if t in ids then tables[t].(groupId := None) else tables[t]
  }

  lemma GroupedStep(tables: map<int, Table>, ids: seq<int>, i: nat, g: int)
    requires i < |ids| && ids[i] in tables
    ensures Grouped(tables, ids[..i + 1], g) == Grouped(tables, ids[..i], g)[ids[i] := Table(Some(g), false)]
  {
    assert ids[..i + 1] == ids[..i] + [ids[i]];
  }

  lemma ReleasedStep(tables: map<int, Table>, ids: seq<int>, i: nat)
    requires i < |ids| && ids[i] in tables
    ensures Released(tables, ids[..i + 1]) == Released(tables, ids[..i])[ids[i] := tables[ids[i]].(groupId := None)]
  {
    assert ids[..i + 1] == ids[..i] + [ids[i]];
  }

  /** Grouping tables that were in no group and then releasing them gives every
      table back the group it had (none, for the grouped ones); the grouped
      tables stay occupied. */
  lemma UngroupUndoesGroup(tables: map<int, Table>, ids: seq<int>, g: int)
    requires forall i :: 0 <= i < |ids| ==> ids[i] in tables && tables[ids[i]].groupId.None?
    ensures Released(Grouped(tables, ids, g), ids).Keys == tables.Keys
    ensures forall t :: t in tables ==> Released(Grouped(tables, ids, g), ids)[t].groupId == tables[t].groupId
    ensures forall i :: 0 <= i < |ids| ==> !Released(Grouped(tables, ids, g), ids)[ids[i]].empty
  {
  }

  class TableGroupService {
    var tables: map<int, Table>
    var groups: map<int, seq<int>>
    var orders: seq<OrderRecord>
    var nextGroupId: int

    /** Group ids handed out so far are below `nextGroupId`; every member of a
        group points back at it, and every table that points at a group is
        one of its members. */
    ghost predicate Valid()
      reads this
    {
      (forall g :: g in groups ==> g < nextGroupId)
      && (forall g, t :: g in groups && t in groups[g] ==> t in tables && tables[t].groupId == Some(g))
      && (forall t :: t in tables && tables[t].groupId.Some? ==>
            tables[t].groupId.value in groups && t in groups[tables[t].groupId.value])
    }

    /** Repositories holding the given tables, none of them grouped yet, and orders. */
    constructor (tables: map<int, Table>, orders: seq<OrderRecord>)
      requires forall t :: t in tables ==> tables[t].groupId.None?
      ensures Valid()
      ensures this.tables == tables && this.orders == orders && groups == map[]
    {
      this.tables := tables;
      this.orders := orders;
      this.groups := map[];
      this.nextGroupId := 1;
    }

    /** Groups the requested tables under a fresh id when the request meets
        `CreateCheck`; otherwise changes nothing. */
    method Create(ids: seq<int>) returns (r: Result<int, GroupError>)
      requires Valid()
      modifies this
      ensures Valid()
      ensures orders == old(orders)
      ensures CreateCheck(old(tables), ids).Fail? ==>
        r == Failure(InvalidGroup) && tables == old(tables) && groups == old(groups) && nextGroupId == old(nextGroupId)
      ensures CreateCheck(old(tables), ids).Pass? ==>
        r.Success? && r.value !in old(groups) && groups == old(groups)[r.value := Dedup(ids)]
        && tables == Grouped(old(tables), ids, r.value) && nextGroupId == r.value + 1
      ensures r.Success? ==> Distinct(groups[r.value]) && Elements(groups[r.value]) == Elements(ids)
      ensures r.Success? ==> forall i :: 0 <= i < |ids| ==>
        ids[i] in tables && tables[ids[i]].groupId == Some(r.value) && !tables[ids[i]].empty
    {
      // Look the requested tables up.
      var found: set<int> := {};
      for i := 0 to |ids|
        invariant found == Present(ids[..i], tables.Keys)
      {
        assert ids[..i + 1] == ids[..i] + [ids[i]];
        if ids[i] in tables {
          found := found + {ids[i]};
        }
      }
      assert ids[..|ids|] == ids;
      if |found| != |Elements(ids)| || |found| < 2 {
        return Failure(InvalidGroup);
      }
      // Every found table must be empty and in no group.
      PresentCoversRequest(ids, tables.Keys);
      for i := 0 to |ids|
        invariant forall j :: 0 <= j < i ==> Groupable(tables[ids[j]])
      {
        if !Groupable(tables[ids[i]]) {
          return Failure(InvalidGroup);
        }
      }
      // Join every table to the new group.
      var g, before := nextGroupId, tables;
      var joined := before;
      for i := 0 to |ids|
        invariant joined == Grouped(before, ids[..i], g)
        modifies {}
      {
        GroupedStep(before, ids, i, g);
        joined := joined[ids[i] := Table(Some(g), false)];
      }
      assert ids[..|ids|] == ids;
      tables := joined;
      var members := Dedup(ids);
      forall t | t in members ensures t in ids {
        assert t in Elements(members);
      }
      forall t | t in ids ensures t in members {
        assert t in Elements(ids);
      }
      groups := groups[g := members];
      nextGroupId := g + 1;
      r := Success(g);
    }

    /** Releases every table of group `g`, unless the group is unknown or an
        order on one of its tables is still COOKING or MEAL; a rejected request
        changes nothing. */
    method Ungroup(g: int) returns (r: Outcome<GroupError>)
      requires Valid()
      modifies this
      ensures Valid()
      ensures orders == old(orders) && nextGroupId == old(nextGroupId)
      ensures g !in old(groups) ==>
        r == Fail(GroupNotFound) && tables == old(tables) && groups == old(groups)
      ensures g in old(groups) && AnyBlocking(old(orders), old(groups)[g]) ==>
        r == Fail(UngroupBlocked) && tables == old(tables) && groups == old(groups)
      ensures g in old(groups) && !AnyBlocking(old(orders), old(groups)[g]) ==>
        r == Pass && tables == Released(old(tables), old(groups)[g]) && groups == old(groups)[g := []]
      ensures r.Pass? ==> forall t :: t in old(groups)[g] ==>
        t in tables && tables[t].groupId.None? && tables[t].empty == old(tables)[t].empty
    {
      if g !in groups {
        return Fail(GroupNotFound);
      }
      var members := groups[g];
      if AnyBlocking(orders, members) {
        return Fail(UngroupBlocked);
      }
      var before := tables;
      var released := before;
      for i := 0 to |members|
        invariant forall t :: t in members ==> t in before
        invariant released == Released(before, members[..i])
        modifies {}
      {
        ReleasedStep(before, members, i);
        released := released[members[i] := before[members[i]].(groupId := None)];
      }
      assert members[..|members|] == members;
      tables := released;
      groups := groups[g := []];
      r := Pass;
    }
  }

  /** Two empty tables are grouped under one id, and with no order on them the
      group is then released again. */
  method GroupThenUngroup()
  {
    var service := new TableGroupService(map[1 := Table(None, true), 2 := Table(None, true)], []);
    var ids := [1, 2];
    assert Elements(ids) == {1, 2} by {
      assert ids[0] == 1 && ids[1] == 2;
    }
    CreateCheckIff(service.tables, ids);
    var created := service.Create(ids);
    assert created.Success?;
    var g := created.value;
    assert service.tables[1] == Table(Some(g), false) && service.tables[2] == Table(Some(g), false);
    var released := service.Ungroup(g);
    assert released == Pass;
    assert service.tables[1].groupId.None? && service.tables[2].groupId.None?;
  }
}
