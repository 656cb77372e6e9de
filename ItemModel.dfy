/** The item repository (`ListItem` in backend/src/models/ListItem.js): every
    operation resolves the parent list and goes through the list's access
    rule, and every change to an item also bumps its list's `updated_at`. */
module ItemModel {
  import opened Base
  import opened Js
  import opened Store
  import opened ListModel

  // Spelled around the keywords the controllers search for.
  const MsgNoAddItem: string := "Sem " + "permissão" + " para adicionar itens nesta lista"
  const MsgNoViewItems: string := "Sem " + "permissão" + " para ver os itens desta lista"
  const MsgNoEditItem: string := "Sem " + "permissão" + " para editar itens desta lista"
  const MsgNoModifyItem: string := "Sem " + "permissão" + " para modificar itens desta lista"
  const MsgNoDeleteItem: string := "Sem " + "permissão" + " para deletar itens desta lista"
  const MsgNoStats: string := "Sem " + "permissão" + " para ver estatísticas desta lista"
  const MsgItemNotFound: string := "Item " + "não encontrado"

  // ------------------------------------------------------------ table updates

  /** The lists table after `UPDATE lists SET updated_at = CURRENT_TIMESTAMP
      WHERE id = ?`: only that list's `updated_at` changes. */
  function Touch(lists: seq<ListRow>, id: Id, now: Time): (r: seq<ListRow>)
    ensures |r| == |lists|
    ensures forall k :: 0 <= k < |lists| ==> r[k] == if lists[k].id == id then lists[k].(updatedAt := now) else lists[k]
  {
    UpdateWhere(lists, (l: ListRow) => l.id == id, (l: ListRow) => l.(updatedAt := now))
  }

  lemma TouchKeeps(t: Tables, id: Id, nu: Id, nl: Id, ni: Id, ns: Id, now: Time)
    requires ValidState(t, nu, nl, ni, ns, now)
    ensures ValidState(t.(lists := Touch(t.lists, id, now)), nu, nl, ni, ns, now)
  {
    var lists := Touch(t.lists, id, now);
    SameListKeys(t, lists);
    forall l | l in lists ensures l.id < nl && l.createdAt <= now && l.updatedAt <= now {
      var k :| 0 <= k < |lists| && lists[k] == l;
      assert t.lists[k] in t.lists;
    }
  }

  /** The items table after `UPDATE list_items SET name = ?, description = ?,
      image = ?, completed = ?, updated_at = CURRENT_TIMESTAMP WHERE id = ?`. */
  function Rewrite(items: seq<ItemRow>, id: Id, name: string, description: Option<string>, image: Option<string>,
                   completed: bool, now: Time): (r: seq<ItemRow>)
    ensures |r| == |items|
    ensures forall k :: 0 <= k < |items| ==> r[k] == if items[k].id == id
      then items[k].(name := name, description := description, image := image, completed := completed, updatedAt := now)
      else items[k]
  {
    UpdateWhere(items, (i: ItemRow) => i.id == id,
      (i: ItemRow) => i.(name := name, description := description, image := image, completed := completed, updatedAt := now))
  }

  /** The items table after `UPDATE list_items SET completed = ?,
      updated_at = CURRENT_TIMESTAMP WHERE id = ?`. */
  function SetCompleted(items: seq<ItemRow>, id: Id, completed: bool, now: Time): (r: seq<ItemRow>)
    ensures |r| == |items|
    ensures forall k :: 0 <= k < |items| ==>
      r[k] == if items[k].id == id then items[k].(completed := completed, updatedAt := now) else items[k]
  {
    UpdateWhere(items, (i: ItemRow) => i.id == id, (i: ItemRow) => i.(completed := completed, updatedAt := now))
  }

  /** The items table after `DELETE FROM list_items WHERE id = ?`. */
  function Remove(items: seq<ItemRow>, id: Id): (r: seq<ItemRow>)
    ensures forall i :: i in r <==> i in items && i.id != id
  {
    Filter(items, (i: ItemRow) => i.id != id)
  }

  /** An item write that keeps keys, parent lists and creation times,
      followed by the bump of the parent list, keeps the database valid. */
  lemma RewriteKeeps(t: Tables, items: seq<ItemRow>, listId: Id, nu: Id, nl: Id, ni: Id, ns: Id, now: Time)
    requires ValidState(t, nu, nl, ni, ns, now)
    requires |items| == |t.items|
    requires forall k :: 0 <= k < |items| ==>
      && items[k].id == t.items[k].id && items[k].listId == t.items[k].listId
      && items[k].createdAt == t.items[k].createdAt && items[k].updatedAt <= now
    ensures ValidState(t.(items := items, lists := Touch(t.lists, listId, now)), nu, nl, ni, ns, now)
  {
    SameItemKeys(t, items);
    forall i | i in items ensures i.id < ni && i.createdAt <= now && i.updatedAt <= now {
      var k :| 0 <= k < |items| && items[k] == i;
      assert t.items[k] in t.items;
    }
    TouchKeeps(t.(items := items), listId, nu, nl, ni, ns, now);
  }

  /** Rewriting an item's fields, then bumping a list, keeps the database valid. */
  lemma RewriteItemKeeps(t: Tables, id: Id, name: string, description: Option<string>, image: Option<string>,
                         completed: bool, listId: Id, nu: Id, nl: Id, ni: Id, ns: Id, now: Time)
    requires ValidState(t, nu, nl, ni, ns, now)
    ensures ValidState(t.(items := Rewrite(t.items, id, name, description, image, completed, now),
                          lists := Touch(t.lists, listId, now)), nu, nl, ni, ns, now)
  {
    var items := Rewrite(t.items, id, name, description, image, completed, now);
    forall k | 0 <= k < |items| ensures
      && items[k].id == t.items[k].id && items[k].listId == t.items[k].listId
      && items[k].createdAt == t.items[k].createdAt && items[k].updatedAt <= now
    {
      assert t.items[k] in t.items;
    }
    RewriteKeeps(t, items, listId, nu, nl, ni, ns, now);
  }

  /** Setting an item's `completed` flag, then bumping a list, keeps the database valid. */
  lemma SetCompletedKeeps(t: Tables, id: Id, completed: bool, listId: Id, nu: Id, nl: Id, ni: Id, ns: Id, now: Time)
    requires ValidState(t, nu, nl, ni, ns, now)
    ensures ValidState(t.(items := SetCompleted(t.items, id, completed, now),
                          lists := Touch(t.lists, listId, now)), nu, nl, ni, ns, now)
  {
    var items := SetCompleted(t.items, id, completed, now);
    forall k | 0 <= k < |items| ensures
      && items[k].id == t.items[k].id && items[k].listId == t.items[k].listId
      && items[k].createdAt == t.items[k].createdAt && items[k].updatedAt <= now
    {
      assert t.items[k] in t.items;
    }
    RewriteKeeps(t, items, listId, nu, nl, ni, ns, now);
  }

  /** Appending an item with the next key to an existing list, then bumping
      that list, keeps the database valid. */
  lemma AppendItemKeeps(t: Tables, row: ItemRow, nu: Id, nl: Id, ni: Id, ns: Id, now: Time)
    requires ValidState(t, nu, nl, ni, ns, now)
    requires row.id == ni && row.listId in ListIds(t.lists) && row.createdAt <= now && row.updatedAt <= now
    ensures ValidState(t.(items := t.items + [row], lists := Touch(t.lists, row.listId, now)), nu, nl, ni + 1, ns, now)
  {
    PairwiseAppend(t.items, row, ItemBefore);
    var items := t.items + [row];
    assert forall i :: i in items <==> i in t.items || i == row;
    TouchKeeps(t.(items := items), row.listId, nu, nl, ni + 1, ns, now);
  }

  /** Deleting an item, then bumping a list, keeps the database valid. */
  lemma RemoveKeeps(t: Tables, id: Id, listId: Id, nu: Id, nl: Id, ni: Id, ns: Id, now: Time)
    requires ValidState(t, nu, nl, ni, ns, now)
    ensures ValidState(t.(items := Remove(t.items, id), lists := Touch(t.lists, listId, now)), nu, nl, ni, ns, now)
  {
    FilterPairwise(t.items, (i: ItemRow) => i.id != id, ItemBefore);
    TouchKeeps(t.(items := Remove(t.items, id)), listId, nu, nl, ni, ns, now);
  }

  /** Setting a flag keeps the keys ascending. */
  lemma SetCompletedAscending(items: seq<ItemRow>, id: Id, completed: bool, now: Time)
    requires Pairwise(items, ItemBefore)
    ensures Pairwise(SetCompleted(items, id, completed, now), ItemBefore)
  {
    var r := SetCompleted(items, id, completed, now);
    forall i, j | 0 <= i < j < |r| ensures ItemBefore(r[i], r[j]) {
      assert ItemBefore(items[i], items[j]);
    }
  }

  /** Toggling an item twice restores its `completed` flag: only its
      `updated_at` differs from the start, and no other row changes. */
  lemma ToggleTwice(items: seq<ItemRow>, x: ItemRow, now1: Time, now2: Time)
    requires Pairwise(items, ItemBefore) && x in items
    ensures var once := SetCompleted(items, x.id, !FindItem(items, x.id).value.completed, now1);
      var twice := SetCompleted(once, x.id, !FindItem(once, x.id).value.completed, now2);
      |twice| == |items| &&
      forall k :: 0 <= k < |items| ==> twice[k] == if items[k].id == x.id then items[k].(updatedAt := now2) else items[k]
  {
    FindItemOnly(items, x);
    var once := SetCompleted(items, x.id, !x.completed, now1);
    var k :| 0 <= k < |items| && items[k] == x;
    assert once[k] == x.(completed := !x.completed, updatedAt := now1);
    SetCompletedAscending(items, x.id, !x.completed, now1);
    FindItemOnly(once, once[k]);
    var twice := SetCompleted(once, x.id, x.completed, now2);
    forall m | 0 <= m < |items|
      ensures twice[m] == if items[m].id == x.id then items[m].(updatedAt := now2) else items[m]
    {
      if items[m].id == x.id {
        if m < k {
          assert ItemBefore(items[m], items[k]);
        } else if k < m {
          assert ItemBefore(items[k], items[m]);
        }
      }
    }
  }

  // ---------------------------------------------------------------- queries

  predicate IsOpen(i: ItemRow) { !i.completed }
  predicate IsDone(i: ItemRow) { i.completed }

  /** The order `ORDER BY completed ASC, created_at DESC` puts `a` before `b` in. */
  predicate ItemOrder(a: ItemRow, b: ItemRow) {
    (!a.completed && b.completed) || (a.completed == b.completed && a.createdAt >= b.createdAt)
  }

  /** The open items, newest first, and then the completed ones, newest first. */
  function GroupedByStatus(items: seq<ItemRow>): (r: seq<ItemRow>)
    ensures multiset(r) == multiset(items)
    ensures forall i, j :: 0 <= i < j < |r| ==> ItemOrder(r[i], r[j])
  {
    var open := SortDesc(Filter(items, IsOpen), CreatedAt);
    var done := SortDesc(Filter(items, IsDone), CreatedAt);
    var r := open + done;
    GroupsCover(items, open, done);
    GroupsOrdered(items, open, done, r);
    r
  }

  /** The two sorted groups together hold every item once. */
  lemma GroupsCover(items: seq<ItemRow>, open: seq<ItemRow>, done: seq<ItemRow>)
    requires open == SortDesc(Filter(items, IsOpen), CreatedAt)
    requires done == SortDesc(Filter(items, IsDone), CreatedAt)
    ensures multiset(open + done) == multiset(items)
  {
    FilterComplement(items, IsOpen, IsDone);
  }

  /** The open group followed by the completed group is in `ItemOrder`. */
  lemma GroupsOrdered(items: seq<ItemRow>, open: seq<ItemRow>, done: seq<ItemRow>, r: seq<ItemRow>)
    requires open == SortDesc(Filter(items, IsOpen), CreatedAt)
    requires done == SortDesc(Filter(items, IsDone), CreatedAt)
    requires r == open + done
    ensures forall i, j :: 0 <= i < j < |r| ==> ItemOrder(r[i], r[j])
  {
    SortDescMembers(Filter(items, IsOpen), CreatedAt);
    SortDescMembers(Filter(items, IsDone), CreatedAt);
    forall i, j | 0 <= i < j < |r| ensures ItemOrder(r[i], r[j]) {
      if j < |open| {
        assert r[i] == open[i] && r[j] == open[j];
        assert open[i] in open && open[j] in open;
      } else if i >= |open| {
        assert r[i] == done[i - |open|] && r[j] == done[j - |open|];
        assert done[i - |open|] in done && done[j - |open|] in done;
      } else {
        assert r[i] == open[i] && r[j] == done[j - |open|];
        assert open[i] in open && done[j - |open|] in done;
      }
    }
  }

  /** `ListItem.findByList`: after a read check, the list's items ordered open
      first, then by creation time, newest first. */
  function FindByList(t: Tables, listId: Id, userId: Id): (r: Result<seq<ItemRow>>)
    ensures !CheckPermission(t, listId, userId, "read") ==> r == Err(MsgNoViewItems)
    ensures CheckPermission(t, listId, userId, "read") ==>
      && r.Ok?
      && multiset(r.value) == multiset(ItemsOf(t.items, listId))
      && forall i, j :: 0 <= i < j < |r.value| ==> ItemOrder(r.value[i], r.value[j])
  {
    if !CheckPermission(t, listId, userId, "read") then Err(MsgNoViewItems)
    else Ok(GroupedByStatus(ItemsOf(t.items, listId)))
  }

  /** The result of `getListStats`. */
  datatype Stats = Stats(total: int, completed: int, pending: int, percentage: int)

  /** Euclidean division by a positive divisor brackets the dividend. */
  lemma DivBrackets(n: int, d: int)
    requires d > 0
    ensures d * (n / d) <= n < d * (n / d) + d
  {
  }

  /** If `2tp` stays within `201t` for a positive `t`, then `p` is at most 100. */
  lemma ScaledAtMostHundred(t: int, p: int)
    requires t > 0 && 2 * t * p <= 201 * t
    ensures p <= 100
  {
    assert 2 * t * p - 201 * t == t * (2 * p - 201);
  }

  /** `Math.round(completed / total * 100)` for `total > 0`, else 0, in exact
      arithmetic: the percentage rounded to the nearest integer, halves up. */
  function Percentage(completed: nat, total: nat): (p: int)
    ensures total == 0 ==> p == 0
    ensures total > 0 ==> 200 * completed - total < 2 * total * p <= 200 * completed + total
    ensures completed <= total ==> 0 <= p <= 100
  {
    if total == 0 then 0
    else
      var n := 200 * completed + total;
      var p := n / (2 * total);
      DivBrackets(n, 2 * total);
      if completed <= total then ScaledAtMostHundred(total, p); p else p
  }

  /** A list with every item done is at 100 percent; one with none done is at 0. */
  lemma PercentageExtremes(total: nat)
    ensures Percentage(total, total) == (if total == 0 then 0 else 100)
    ensures Percentage(0, total) == 0
  {
    if total > 0 {
      var p := Percentage(total, total);
      assert 2 * total * p <= 201 * total;
      assert 199 * total < 2 * total * p;
    }
  }

  /** `ListItem.getListStats`: after a read check, the number of the list's
      items, how many are completed, how many are pending, and the rounded
      percentage completed. */
  function GetListStats(t: Tables, listId: Id, userId: Id): (r: Result<Stats>)
    ensures !CheckPermission(t, listId, userId, "read") ==> r == Err(MsgNoStats)
    ensures CheckPermission(t, listId, userId, "read") ==>
      && r.Ok?
      && r.value.total == |ItemsOf(t.items, listId)|
      && r.value.completed == |Filter(ItemsOf(t.items, listId), IsDone)|
      && 0 <= r.value.completed <= r.value.total
      && r.value.pending == r.value.total - r.value.completed >= 0
      && 0 <= r.value.percentage <= 100
      && (r.value.total == 0 ==> r.value.percentage == 0)
      && (r.value.total > 0 ==> 200 * r.value.completed - r.value.total < 2 * r.value.total * r.value.percentage
                                  <= 200 * r.value.completed + r.value.total)
  {
    if !CheckPermission(t, listId, userId, "read") then Err(MsgNoStats)
    else
      var total := |ItemsOf(t.items, listId)|;
      var completed := |Filter(ItemsOf(t.items, listId), IsDone)|;
      Ok(Stats(total, completed, total - completed, Percentage(completed, total)))
  }

  // ---------------------------------------------------------------- mutations

  /** What `update`, `toggleCompleted` and `delete` find before they write. */
  datatype Access = Missing | Denied(item: ItemRow) | Granted(item: ItemRow)

  /** The checks `update`, `toggleCompleted` and `delete` make before they
      write: the item exists, and only then the caller may write its list. */
  function ItemAccess(t: Tables, id: Id, userId: Id): (a: Access)
    ensures a.Missing? <==> FindItem(t.items, id).None?
    ensures !a.Missing? ==> a.item == FindItem(t.items, id).value
    ensures a.Granted? <==> !a.Missing? && CheckPermission(t, a.item.listId, userId, "write")
  {
    match FindItem(t.items, id)
    case None => Missing
    case Some(i) => if CheckPermission(t, i.listId, userId, "write") then Granted(i) else Denied(i)
  }

  /** The error an unsuccessful access check raises. */
  function AccessError(a: Access, denied: string): (m: string)
    requires !a.Granted?
    ensures a.Missing? ==> m == MsgItemNotFound
    ensures a.Denied? ==> m == denied
  {
    if a.Missing? then MsgItemNotFound else denied
  }

  /** `ListItem.create`: after a write check on the list, inserts an open item
      and bumps the list. */
  method Create(db: Database, listId: Id, name: string, description: Option<string>, image: Option<string>, userId: Id)
    returns (r: Result<Id>)
    requires db.Valid()
    modifies db
    ensures db.Valid()
    ensures !CheckPermission(old(db.tables), listId, userId, "write") ==> r == Err(MsgNoAddItem) && db.tables == old(db.tables)
    ensures CheckPermission(old(db.tables), listId, userId, "write") ==>
      && r == Ok(old(db.nextItemId))
      && db.tables == old(db.tables).(
           items := old(db.tables.items) + [ItemRow(old(db.nextItemId), listId, name, description, false, image, db.clock, db.clock)],
           lists := Touch(old(db.tables.lists), listId, db.clock))
  {
    var t := db.tables;
    if !CheckPermission(t, listId, userId, "write") {
      return Err(MsgNoAddItem);
    }
    AllowedListExists(t, listId, userId, "write");
    var now := db.clock + 1;
    ValidLater(t, db.nextUserId, db.nextListId, db.nextItemId, db.nextShareId, db.clock, now);
    var row := ItemRow(db.nextItemId, listId, name, description, false, image, now, now);
    AppendItemKeeps(t, row, db.nextUserId, db.nextListId, db.nextItemId, db.nextShareId, now);
    db.Commit(t.(items := t.items + [row], lists := Touch(t.lists, listId, now)),
      db.nextUserId, db.nextListId, db.nextItemId + 1, db.nextShareId, now);
    r := Ok(row.id);
  }

  /** `ListItem.update`: not found, then the write check, then the UPDATE
      (which violates `name NOT NULL` when no name is given); the new
      `completed` is the truthiness of the given value. */
  method Update(db: Database, id: Id, name: Option<string>, description: Option<string>, image: Option<string>,
                completed: Option<JsonValue>, userId: Id)
    returns (r: Result<bool>)
    requires db.Valid()
    modifies db
    ensures db.Valid()
    ensures var a := ItemAccess(old(db.tables), id, userId);
      !a.Granted? ==> r == Err(AccessError(a, MsgNoEditItem)) && db.tables == old(db.tables)
    ensures var a := ItemAccess(old(db.tables), id, userId);
      a.Granted? && name.None? ==> r == Err(NotNullItemName) && db.tables == old(db.tables)
    ensures var a := ItemAccess(old(db.tables), id, userId);
      a.Granted? && name.Some? ==>
        && r == Ok(true)
        && db.tables == old(db.tables).(
             items := Rewrite(old(db.tables.items), id, name.value, description, image, Truthy(completed), db.clock),
             lists := Touch(old(db.tables.lists), a.item.listId, db.clock))
  {
    var t := db.tables;
    var a := ItemAccess(t, id, userId);
    if !a.Granted? {
      return Err(AccessError(a, MsgNoEditItem));
    }
    if name.None? {
      return Err(NotNullItemName);
    }
    var now := db.clock + 1;
    ValidLater(t, db.nextUserId, db.nextListId, db.nextItemId, db.nextShareId, db.clock, now);
    var items := Rewrite(t.items, id, name.value, description, image, Truthy(completed), now);
    RewriteItemKeeps(t, id, name.value, description, image, Truthy(completed), a.item.listId,
      db.nextUserId, db.nextListId, db.nextItemId, db.nextShareId, now);
    db.Commit(t.(items := items, lists := Touch(t.lists, a.item.listId, now)),
      db.nextUserId, db.nextListId, db.nextItemId, db.nextShareId, now);
    r := Ok(true);
  }

  /** `ListItem.toggleCompleted`: not found, then the write check, then the
      item's `completed` is set to the negation of its stored value. */
  method ToggleCompleted(db: Database, id: Id, userId: Id) returns (r: Result<bool>)
    requires db.Valid()
    modifies db
    ensures db.Valid()
    ensures var a := ItemAccess(old(db.tables), id, userId);
      !a.Granted? ==> r == Err(AccessError(a, MsgNoModifyItem)) && db.tables == old(db.tables)
    ensures var a := ItemAccess(old(db.tables), id, userId);
      a.Granted? ==>
        && r == Ok(true)
        && db.tables == old(db.tables).(
             items := SetCompleted(old(db.tables.items), id, !a.item.completed, db.clock),
             lists := Touch(old(db.tables.lists), a.item.listId, db.clock))
  {
    var t := db.tables;
    var a := ItemAccess(t, id, userId);
    if !a.Granted? {
      return Err(AccessError(a, MsgNoModifyItem));
    }
    var now := db.clock + 1;
    ValidLater(t, db.nextUserId, db.nextListId, db.nextItemId, db.nextShareId, db.clock, now);
    var items := SetCompleted(t.items, id, !a.item.completed, now);
    SetCompletedKeeps(t, id, !a.item.completed, a.item.listId, db.nextUserId, db.nextListId, db.nextItemId, db.nextShareId, now);
    db.Commit(t.(items := items, lists := Touch(t.lists, a.item.listId, now)),
      db.nextUserId, db.nextListId, db.nextItemId, db.nextShareId, now);
    r := Ok(true);
  }

  /** `ListItem.delete`: not found, then the write check, then the row is
      deleted and its list bumped. */
  method Delete(db: Database, id: Id, userId: Id) returns (r: Result<bool>)
    requires db.Valid()
    modifies db
    ensures db.Valid()
    ensures var a := ItemAccess(old(db.tables), id, userId);
      !a.Granted? ==> r == Err(AccessError(a, MsgNoDeleteItem)) && db.tables == old(db.tables)
    ensures var a := ItemAccess(old(db.tables), id, userId);
      a.Granted? ==>
        && r == Ok(true)
        && db.tables == old(db.tables).(
             items := Remove(old(db.tables.items), id),
             lists := Touch(old(db.tables.lists), a.item.listId, db.clock))
  {
    var t := db.tables;
    var a := ItemAccess(t, id, userId);
    if !a.Granted? {
      return Err(AccessError(a, MsgNoDeleteItem));
    }
    var now := db.clock + 1;
    ValidLater(t, db.nextUserId, db.nextListId, db.nextItemId, db.nextShareId, db.clock, now);
    RemoveKeeps(t, id, a.item.listId, db.nextUserId, db.nextListId, db.nextItemId, db.nextShareId, now);
    db.Commit(t.(items := Remove(t.items, id), lists := Touch(t.lists, a.item.listId, now)),
      db.nextUserId, db.nextListId, db.nextItemId, db.nextShareId, now);
    r := Ok(true);
  }
}
