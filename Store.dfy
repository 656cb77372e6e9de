/** The four tables of the SQLite schema (users, lists, list_items,
    list_shares), held in memory by one store object in rowid order, with the
    constraints the schema declares: AUTOINCREMENT keys, `email UNIQUE`,
    `UNIQUE(list_id, user_id)` and the foreign keys. */
module Store {
  import opened Base

  type Id = nat

  /** A value of the logical clock that stands for CURRENT_TIMESTAMP. */
  type Time = nat

  /** A bcrypt digest. Hashing and comparing passwords is outside the model. */
  datatype PasswordHash = PasswordHash(digest: string)

  datatype UserRow = UserRow(
    id: Id, name: string, email: string, password: PasswordHash,
    avatar: Option<string>, createdAt: Time, updatedAt: Time)

  datatype ListRow = ListRow(
    id: Id, name: string, description: Option<string>, isIndividual: bool,
    createdBy: Id, createdAt: Time, updatedAt: Time)

  datatype ItemRow = ItemRow(
    id: Id, listId: Id, name: string, description: Option<string>,
    completed: bool, image: Option<string>, createdAt: Time, updatedAt: Time)

  /** A grant of `permission` on a list to a user who is not (necessarily) its creator. */
  datatype ShareRow = ShareRow(
    id: Id, listId: Id, userId: Id, permission: string, createdAt: Time)

  /** The contents of the four tables at one moment. */
  datatype Tables = Tables(
    users: seq<UserRow>, lists: seq<ListRow>, items: seq<ItemRow>, shares: seq<ShareRow>)

  function UserIds(users: seq<UserRow>): set<Id> { set u | u in users :: u.id }
  function ListIds(lists: seq<ListRow>): set<Id> { set l | l in lists :: l.id }

  // Pairwise relations between a row and a later row of the same table.
  predicate UserBefore(a: UserRow, b: UserRow) { a.id < b.id && a.email != b.email }
  predicate ListBefore(a: ListRow, b: ListRow) { a.id < b.id }
  predicate ItemBefore(a: ItemRow, b: ItemRow) { a.id < b.id }
  predicate ShareBefore(a: ShareRow, b: ShareRow) {
    a.id < b.id && (a.listId != b.listId || a.userId != b.userId)
  }

  /** What the schema guarantees of every state: keys ascend in rowid order,
      emails and (list, user) share pairs are unique, every foreign key points
      at an existing row, and no individual list carries a share row. */
  ghost predicate Consistent(t: Tables) {
    && Pairwise(t.users, UserBefore)
    && Pairwise(t.lists, ListBefore)
    && Pairwise(t.items, ItemBefore)
    && Pairwise(t.shares, ShareBefore)
    && (forall l :: l in t.lists ==> l.createdBy in UserIds(t.users))
    && (forall i :: i in t.items ==> i.listId in ListIds(t.lists))
    && (forall s :: s in t.shares ==> s.listId in ListIds(t.lists) && s.userId in UserIds(t.users))
    && (forall s, l :: s in t.shares && l in t.lists && l.id == s.listId ==> !l.isIndividual)
  }

  // Single-row lookups: `SELECT ... WHERE key = ?` through `database.get`.

  function FindUser(users: seq<UserRow>, id: Id): (r: Option<UserRow>)
    ensures r.Some? <==> id in UserIds(users)
    ensures r.Some? ==> r.value in users && r.value.id == id
  {
    FirstWhere(users, (u: UserRow) => u.id == id)
  }

  function FindUserByEmail(users: seq<UserRow>, email: string): (r: Option<UserRow>)
    ensures r.Some? <==> exists u :: u in users && u.email == email
    ensures r.Some? ==> r.value in users && r.value.email == email
  {
    FirstWhere(users, (u: UserRow) => u.email == email)
  }

  function FindList(lists: seq<ListRow>, id: Id): (r: Option<ListRow>)
    ensures r.Some? <==> id in ListIds(lists)
    ensures r.Some? ==> r.value in lists && r.value.id == id
  {
    FirstWhere(lists, (l: ListRow) => l.id == id)
  }

  function FindItem(items: seq<ItemRow>, id: Id): (r: Option<ItemRow>)
    ensures r.Some? <==> exists i :: i in items && i.id == id
    ensures r.Some? ==> r.value in items && r.value.id == id
  {
    FirstWhere(items, (i: ItemRow) => i.id == id)
  }

  function FindShare(shares: seq<ShareRow>, listId: Id, userId: Id): (r: Option<ShareRow>)
    ensures r.Some? <==> exists s :: s in shares && s.listId == listId && s.userId == userId
    ensures r.Some? ==> r.value in shares && r.value.listId == listId && r.value.userId == userId
  {
    FirstWhere(shares, (s: ShareRow) => s.listId == listId && s.userId == userId)
  }

  /** With ascending keys, a list row is the one its id finds. */
  lemma FindListOnly(lists: seq<ListRow>, l: ListRow)
    requires Pairwise(lists, ListBefore) && l in lists
    ensures FindList(lists, l.id) == Some(l)
  {
    var p := (x: ListRow) => x.id == l.id;
    assert AtMostOne(lists, p) by {
      forall i, j | 0 <= i < j < |lists| && p(lists[i]) ensures !p(lists[j]) {
        assert ListBefore(lists[i], lists[j]);
      }
    }
    FirstWhereOnly(lists, p, l);
  }

  /** With ascending keys, a user row is the one its id finds. */
  lemma FindUserOnly(users: seq<UserRow>, u: UserRow)
    requires Pairwise(users, UserBefore) && u in users
    ensures FindUser(users, u.id) == Some(u)
  {
    var p := (x: UserRow) => x.id == u.id;
    assert AtMostOne(users, p) by {
      forall i, j | 0 <= i < j < |users| && p(users[i]) ensures !p(users[j]) {
        assert UserBefore(users[i], users[j]);
      }
    }
    FirstWhereOnly(users, p, u);
  }

  /** With ascending keys, an item row is the one its id finds. */
  lemma FindItemOnly(items: seq<ItemRow>, i: ItemRow)
    requires Pairwise(items, ItemBefore) && i in items
    ensures FindItem(items, i.id) == Some(i)
  {
    var p := (x: ItemRow) => x.id == i.id;
    assert AtMostOne(items, p) by {
      forall a, b | 0 <= a < b < |items| && p(items[a]) ensures !p(items[b]) {
        assert ItemBefore(items[a], items[b]);
      }
    }
    FirstWhereOnly(items, p, i);
  }

  /** With `UNIQUE(list_id, user_id)`, a share row is the one its pair finds. */
  lemma FindShareOnly(shares: seq<ShareRow>, s: ShareRow)
    requires Pairwise(shares, ShareBefore) && s in shares
    ensures FindShare(shares, s.listId, s.userId) == Some(s)
  {
    var p := (x: ShareRow) => x.listId == s.listId && x.userId == s.userId;
    assert AtMostOne(shares, p) by {
      forall i, j | 0 <= i < j < |shares| && p(shares[i]) ensures !p(shares[j]) {
        assert ShareBefore(shares[i], shares[j]);
      }
    }
    FirstWhereOnly(shares, p, s);
  }

  /** `SELECT * FROM list_items WHERE list_id = ?`, in scan order. */
  function ItemsOf(items: seq<ItemRow>, listId: Id): (r: seq<ItemRow>)
    ensures forall i :: i in r <==> i in items && i.listId == listId
    ensures multiset(r) <= multiset(items)
  {
    Filter(items, (i: ItemRow) => i.listId == listId)
  }

  // Messages of the SQLite faults a model call can raise. They are spelled as
  // concatenations of short pieces; none of them holds a non-ASCII character.
  const ForeignKeyFailed: string := "SQLITE_CONSTRAINT: " + "FOREIGN KEY " + "constraint failed"
  const NotNullListName: string := "SQLITE_CONSTRAINT: " + "NOT NULL constraint " + "failed: lists.name"
  const NotNullItemName: string := "SQLITE_CONSTRAINT: " + "NOT NULL constraint " + "failed: " + "list_items.name"
  const UniqueUserEmail: string := "SQLITE_CONSTRAINT: " + "UNIQUE constraint " + "failed: users.email"

  /** Rewriting list rows in place without touching their keys, owners or
      individual flags keeps the schema's constraints. */
  lemma SameListKeys(t: Tables, lists: seq<ListRow>)
    requires Consistent(t)
    requires |lists| == |t.lists|
    requires forall k :: 0 <= k < |lists| ==>
      lists[k].id == t.lists[k].id && lists[k].createdBy == t.lists[k].createdBy
      && lists[k].isIndividual == t.lists[k].isIndividual
    ensures Consistent(t.(lists := lists))
  {
    assert ListIds(lists) == ListIds(t.lists) by {
      forall x | x in ListIds(t.lists) ensures x in ListIds(lists) {
        var l :| l in t.lists && l.id == x;
        var k :| 0 <= k < |t.lists| && t.lists[k] == l;
        assert lists[k] in lists;
      }
    }
    forall i, j | 0 <= i < j < |lists| ensures ListBefore(lists[i], lists[j]) {
      assert ListBefore(t.lists[i], t.lists[j]);
    }
    forall l | l in lists ensures l.createdBy in UserIds(t.users) {
      var k :| 0 <= k < |lists| && lists[k] == l;
      assert t.lists[k] in t.lists;
    }
    forall s, l | s in t.shares && l in lists && l.id == s.listId ensures !l.isIndividual {
      var k :| 0 <= k < |lists| && lists[k] == l;
      assert t.lists[k] in t.lists;
    }
  }

  /** Rewriting item rows in place without touching their keys or parent lists
      keeps the schema's constraints. */
  lemma SameItemKeys(t: Tables, items: seq<ItemRow>)
    requires Consistent(t)
    requires |items| == |t.items|
    requires forall k :: 0 <= k < |items| ==> items[k].id == t.items[k].id && items[k].listId == t.items[k].listId
    ensures Consistent(t.(items := items))
  {
    forall i, j | 0 <= i < j < |items| ensures ItemBefore(items[i], items[j]) {
      assert ItemBefore(t.items[i], t.items[j]);
    }
    forall i | i in items ensures i.listId in ListIds(t.lists) {
      var k :| 0 <= k < |items| && items[k] == i;
      assert t.items[k] in t.items;
    }
  }

  // Every key lies below its AUTOINCREMENT counter and no timestamp lies after the clock.
  ghost predicate UsersBelow(users: seq<UserRow>, next: Id, clock: Time) {
    forall u :: u in users ==> u.id < next && u.createdAt <= clock && u.updatedAt <= clock
  }
  ghost predicate ListsBelow(lists: seq<ListRow>, next: Id, clock: Time) {
    forall l :: l in lists ==> l.id < next && l.createdAt <= clock && l.updatedAt <= clock
  }
  ghost predicate ItemsBelow(items: seq<ItemRow>, next: Id, clock: Time) {
    forall i :: i in items ==> i.id < next && i.createdAt <= clock && i.updatedAt <= clock
  }
  ghost predicate SharesBelow(shares: seq<ShareRow>, next: Id, clock: Time) {
    forall s :: s in shares ==> s.id < next && s.createdAt <= clock
  }

  /** The schema's constraints hold, every key is below its AUTOINCREMENT
      counter, and no timestamp lies after the clock. */
  ghost predicate ValidState(t: Tables, nextUser: Id, nextList: Id, nextItem: Id, nextShare: Id, clock: Time) {
    && Consistent(t)
    && UsersBelow(t.users, nextUser, clock)
    && ListsBelow(t.lists, nextList, clock)
    && ItemsBelow(t.items, nextItem, clock)
    && SharesBelow(t.shares, nextShare, clock)
  }

  /** Moving the clock forward keeps a state valid. */
  lemma ValidLater(t: Tables, nu: Id, nl: Id, ni: Id, ns: Id, clock: Time, now: Time)
    requires ValidState(t, nu, nl, ni, ns, clock) && clock <= now
    ensures ValidState(t, nu, nl, ni, ns, now)
  {
  }

  /** The SQLite database behind every model call: the four tables, the
      AUTOINCREMENT counters kept in `sqlite_sequence`, and the clock read by
      CURRENT_TIMESTAMP. */
  class Database {
    var tables: Tables
    var nextUserId: Id
    var nextListId: Id
    var nextItemId: Id
    var nextShareId: Id
    var clock: Time

    ghost predicate Valid()
      reads this
    {
      ValidState(tables, nextUserId, nextListId, nextItemId, nextShareId, clock)
    }

    /** A freshly created, empty database. */
    constructor ()
      ensures Valid()
      ensures tables == Tables([], [], [], [])
      ensures nextUserId == nextListId == nextItemId == nextShareId == 1 && clock == 0
    {
      tables := Tables([], [], [], []);
      nextUserId, nextListId, nextItemId, nextShareId := 1, 1, 1, 1;
      clock := 0;
    }

    /** Stores what one operation produced: the tables, the AUTOINCREMENT
        counters, and the time CURRENT_TIMESTAMP read for its writes. */
    method Commit(t: Tables, nu: Id, nl: Id, ni: Id, ns: Id, now: Time)
      requires ValidState(t, nu, nl, ni, ns, now)
      modifies this
      ensures Valid()
      ensures tables == t && nextUserId == nu && nextListId == nl && nextItemId == ni && nextShareId == ns && clock == now
    {
      tables, nextUserId, nextListId, nextItemId, nextShareId, clock := t, nu, nl, ni, ns, now;
    }
  }
}
