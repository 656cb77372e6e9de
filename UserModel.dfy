/** The user repository (`User` in backend/src/models/User.js): profile
    projection, profile and password updates, account deletion with the
    schema's cascades, and per-user counts. Hashing is outside the model: a
    password arrives already hashed. */
module UserModel {
  import opened Base
  import opened Store
  import opened ListModel
  import opened ItemModel

  // ------------------------------------------------------------ projection

  /** The columns `findById` selects: everything but the password and `updated_at`. */
  datatype Profile = Profile(id: Id, name: string, email: string, avatar: Option<string>, createdAt: Time)

  function ProfileOf(u: UserRow): Profile {
    Profile(u.id, u.name, u.email, u.avatar, u.createdAt)
  }

  /** `User.findById`: the profile of the user with that id. */
  function FindById(t: Tables, id: Id): (r: Option<Profile>)
    ensures r.Some? <==> id in UserIds(t.users)
    ensures r.Some? ==> exists u :: u in t.users && u.id == id && r.value == ProfileOf(u)
  {
    match FindUser(t.users, id)
    case None => None
    case Some(u) => Some(ProfileOf(u))
  }

  // ------------------------------------------------------------ table updates

  /** The users table after `UPDATE users SET name = ?, email = ?, avatar = ?,
      updated_at = CURRENT_TIMESTAMP WHERE id = ?`. */
  function SetProfile(users: seq<UserRow>, id: Id, name: string, email: string, avatar: Option<string>, now: Time)
    : (r: seq<UserRow>)
    ensures |r| == |users|
    ensures forall k :: 0 <= k < |users| ==> r[k] == if users[k].id == id
      then users[k].(name := name, email := email, avatar := avatar, updatedAt := now)
      else users[k]
  {
    UpdateWhere(users, (u: UserRow) => u.id == id,
      (u: UserRow) => u.(name := name, email := email, avatar := avatar, updatedAt := now))
  }

  /** The users table after `UPDATE users SET password = ?, updated_at =
      CURRENT_TIMESTAMP WHERE id = ?`. */
  function SetPassword(users: seq<UserRow>, id: Id, password: PasswordHash, now: Time): (r: seq<UserRow>)
    ensures |r| == |users|
    ensures forall k :: 0 <= k < |users| ==>
      r[k] == if users[k].id == id then users[k].(password := password, updatedAt := now) else users[k]
  {
    UpdateWhere(users, (u: UserRow) => u.id == id, (u: UserRow) => u.(password := password, updatedAt := now))
  }

  /** The ids of the lists `userId` created. */
  function OwnedListIds(lists: seq<ListRow>, userId: Id): set<Id> {
    set l | l in lists && l.createdBy == userId :: l.id
  }

  /** The tables after `DELETE FROM users WHERE id = ?` and the declared
      cascades: the user's lists go, and with them their items and shares;
      the user's own share rows on other lists go too. */
  function DeleteUserCascade(t: Tables, id: Id): (r: Tables)
    ensures forall u :: u in r.users <==> u in t.users && u.id != id
    ensures forall l :: l in r.lists <==> l in t.lists && l.createdBy != id
    ensures forall i :: i in r.items <==> i in t.items && i.listId !in OwnedListIds(t.lists, id)
    ensures forall s :: s in r.shares <==> s in t.shares && s.listId !in OwnedListIds(t.lists, id) && s.userId != id
  {
    var owned := OwnedListIds(t.lists, id);
    Tables(
      Filter(t.users, (u: UserRow) => u.id != id),
      Filter(t.lists, (l: ListRow) => l.createdBy != id),
      Filter(t.items, (i: ItemRow) => i.listId !in owned),
      Filter(t.shares, (s: ShareRow) => s.listId !in owned && s.userId != id))
  }

  /** Rewriting the users table without touching keys or creation times, and
      with every email still unique, keeps the database valid. */
  lemma SameUserKeys(t: Tables, users: seq<UserRow>, nu: Id, nl: Id, ni: Id, ns: Id, now: Time)
    requires ValidState(t, nu, nl, ni, ns, now)
    requires Pairwise(users, UserBefore)
    requires |users| == |t.users|
    requires forall k :: 0 <= k < |users| ==>
      && users[k].id == t.users[k].id && users[k].createdAt == t.users[k].createdAt && users[k].updatedAt <= now
    ensures ValidState(t.(users := users), nu, nl, ni, ns, now)
  {
    assert UserIds(users) == UserIds(t.users) by {
      forall x | x in UserIds(t.users) ensures x in UserIds(users) {
        var u :| u in t.users && u.id == x;
        var k :| 0 <= k < |t.users| && t.users[k] == u;
        assert users[k] in users;
      }
      forall x | x in UserIds(users) ensures x in UserIds(t.users) {
        var u :| u in users && u.id == x;
        var k :| 0 <= k < |users| && users[k] == u;
        assert t.users[k] in t.users;
      }
    }
    forall u | u in users ensures u.id < nu && u.createdAt <= now && u.updatedAt <= now {
      var k :| 0 <= k < |users| && users[k] == u;
      assert t.users[k] in t.users;
    }
  }

  /** A profile update that keeps emails unique keeps the database valid. */
  lemma SetProfileKeeps(t: Tables, id: Id, name: string, email: string, avatar: Option<string>,
                        nu: Id, nl: Id, ni: Id, ns: Id, now: Time)
    requires ValidState(t, nu, nl, ni, ns, now)
    requires forall u :: u in t.users && u.id != id ==> u.email != email
    ensures ValidState(t.(users := SetProfile(t.users, id, name, email, avatar, now)), nu, nl, ni, ns, now)
  {
    var users := SetProfile(t.users, id, name, email, avatar, now);
    forall i, j | 0 <= i < j < |users| ensures UserBefore(users[i], users[j]) {
      assert UserBefore(t.users[i], t.users[j]);
      assert t.users[i] in t.users && t.users[j] in t.users;
    }
    SameUserKeys(t, users, nu, nl, ni, ns, now);
  }

  /** A password change keeps the database valid. */
  lemma SetPasswordKeeps(t: Tables, id: Id, password: PasswordHash, nu: Id, nl: Id, ni: Id, ns: Id, now: Time)
    requires ValidState(t, nu, nl, ni, ns, now)
    ensures ValidState(t.(users := SetPassword(t.users, id, password, now)), nu, nl, ni, ns, now)
  {
    var users := SetPassword(t.users, id, password, now);
    forall i, j | 0 <= i < j < |users| ensures UserBefore(users[i], users[j]) {
      assert UserBefore(t.users[i], t.users[j]);
    }
    SameUserKeys(t, users, nu, nl, ni, ns, now);
  }

  /** Appending a user with the next key and a fresh email keeps the database valid. */
  lemma AppendUserKeeps(t: Tables, row: UserRow, nu: Id, nl: Id, ni: Id, ns: Id, now: Time)
    requires ValidState(t, nu, nl, ni, ns, now)
    requires row.id == nu && row.createdAt <= now && row.updatedAt <= now
    requires forall u :: u in t.users ==> u.email != row.email
    ensures ValidState(t.(users := t.users + [row]), nu + 1, nl, ni, ns, now)
  {
    PairwiseAppend(t.users, row, UserBefore);
    var users := t.users + [row];
    assert forall u :: u in users <==> u in t.users || u == row;
    assert UserIds(t.users) <= UserIds(users);
  }

  /** Deleting a user with its cascades keeps the database valid. */
  lemma DeleteUserKeeps(t: Tables, id: Id, nu: Id, nl: Id, ni: Id, ns: Id, now: Time)
    requires ValidState(t, nu, nl, ni, ns, now)
    ensures ValidState(DeleteUserCascade(t, id), nu, nl, ni, ns, now)
  {
    var r := DeleteUserCascade(t, id);
    var owned := OwnedListIds(t.lists, id);
    FilterPairwise(t.users, (u: UserRow) => u.id != id, UserBefore);
    FilterPairwise(t.lists, (l: ListRow) => l.createdBy != id, ListBefore);
    FilterPairwise(t.items, (i: ItemRow) => i.listId !in owned, ItemBefore);
    FilterPairwise(t.shares, (s: ShareRow) => s.listId !in owned && s.userId != id, ShareBefore);
    forall l | l in r.lists ensures l.createdBy in UserIds(r.users) {
      var u :| u in t.users && u.id == l.createdBy;
      assert u in r.users;
    }
    forall i | i in r.items ensures i.listId in ListIds(r.lists) {
      var l :| l in t.lists && l.id == i.listId;
      assert l.createdBy == id ==> i.listId in owned;
      assert l in r.lists;
    }
    forall s | s in r.shares ensures s.listId in ListIds(r.lists) && s.userId in UserIds(r.users) {
      var l :| l in t.lists && l.id == s.listId;
      assert l.createdBy == id ==> s.listId in owned;
      assert l in r.lists;
      var u :| u in t.users && u.id == s.userId;
      assert u in r.users;
    }
  }

  // ---------------------------------------------------------------- mutations

  /** `User.create` (with the hash already computed): inserts a user without
      an avatar; an email already in use violates `email UNIQUE`. */
  method Create(db: Database, name: string, email: string, password: PasswordHash) returns (r: Result<Id>)
    requires db.Valid()
    modifies db
    ensures db.Valid()
    ensures FindUserByEmail(old(db.tables.users), email).Some? ==>
      r == Err(UniqueUserEmail) && db.tables == old(db.tables)
    ensures FindUserByEmail(old(db.tables.users), email).None? ==>
      && r == Ok(old(db.nextUserId))
      && db.tables == old(db.tables).(users := old(db.tables.users)
           + [UserRow(old(db.nextUserId), name, email, password, None, db.clock, db.clock)])
  {
    var t := db.tables;
    if FindUserByEmail(t.users, email).Some? {
      return Err(UniqueUserEmail);
    }
    var now := db.clock + 1;
    ValidLater(t, db.nextUserId, db.nextListId, db.nextItemId, db.nextShareId, db.clock, now);
    var row := UserRow(db.nextUserId, name, email, password, None, now, now);
    AppendUserKeeps(t, row, db.nextUserId, db.nextListId, db.nextItemId, db.nextShareId, now);
    db.Commit(t.(users := t.users + [row]), db.nextUserId + 1, db.nextListId, db.nextItemId, db.nextShareId, now);
    r := Ok(row.id);
  }

  /** Another user already has this email. */
  predicate EmailTaken(users: seq<UserRow>, id: Id, email: string) {
    exists u :: u in users && u.id != id && u.email == email
  }

  /** `User.update`: overwrites name, email and avatar of the row with that
      id. The result says whether a row matched; giving the row an email
      another user has violates `email UNIQUE`. The password is kept. */
  method Update(db: Database, id: Id, name: string, email: string, avatar: Option<string>) returns (r: Result<bool>)
    requires db.Valid()
    modifies db
    ensures db.Valid()
    ensures id !in UserIds(old(db.tables.users)) ==> r == Ok(false) && db.tables == old(db.tables)
    ensures id in UserIds(old(db.tables.users)) && EmailTaken(old(db.tables.users), id, email) ==>
      r == Err(UniqueUserEmail) && db.tables == old(db.tables)
    ensures id in UserIds(old(db.tables.users)) && !EmailTaken(old(db.tables.users), id, email) ==>
      && r == Ok(true)
      && db.tables == old(db.tables).(users := SetProfile(old(db.tables.users), id, name, email, avatar, db.clock))
  {
    var t := db.tables;
    if FindUser(t.users, id).None? {
      return Ok(false);
    }
    if FirstWhere(t.users, (u: UserRow) => u.id != id && u.email == email).Some? {
      return Err(UniqueUserEmail);
    }
    var now := db.clock + 1;
    ValidLater(t, db.nextUserId, db.nextListId, db.nextItemId, db.nextShareId, db.clock, now);
    SetProfileKeeps(t, id, name, email, avatar, db.nextUserId, db.nextListId, db.nextItemId, db.nextShareId, now);
    db.Commit(t.(users := SetProfile(t.users, id, name, email, avatar, now)),
      db.nextUserId, db.nextListId, db.nextItemId, db.nextShareId, now);
    r := Ok(true);
  }

  /** `User.updatePassword` (with the hash already computed): replaces only
      the credential; the result says whether a row matched. */
  method UpdatePassword(db: Database, id: Id, password: PasswordHash) returns (r: bool)
    requires db.Valid()
    modifies db
    ensures db.Valid()
    ensures r == (id in UserIds(old(db.tables.users)))
    ensures !r ==> db.tables == old(db.tables)
    ensures r ==> db.tables == old(db.tables).(users := SetPassword(old(db.tables.users), id, password, db.clock))
  {
    var t := db.tables;
    if FindUser(t.users, id).None? {
      return false;
    }
    var now := db.clock + 1;
    ValidLater(t, db.nextUserId, db.nextListId, db.nextItemId, db.nextShareId, db.clock, now);
    SetPasswordKeeps(t, id, password, db.nextUserId, db.nextListId, db.nextItemId, db.nextShareId, now);
    db.Commit(t.(users := SetPassword(t.users, id, password, now)),
      db.nextUserId, db.nextListId, db.nextItemId, db.nextShareId, now);
    r := true;
  }

  /** `User.delete`: removes the user and everything the cascades reach; the
      result says whether a row matched. */
  method Delete(db: Database, id: Id) returns (r: bool)
    requires db.Valid()
    modifies db
    ensures db.Valid()
    ensures r == (id in UserIds(old(db.tables.users)))
    ensures db.tables == DeleteUserCascade(old(db.tables), id)
  {
    var t := db.tables;
    r := FindUser(t.users, id).Some?;
    DeleteUserKeeps(t, id, db.nextUserId, db.nextListId, db.nextItemId, db.nextShareId, db.clock);
    db.Commit(DeleteUserCascade(t, id), db.nextUserId, db.nextListId, db.nextItemId, db.nextShareId, db.clock);
  }

  // ------------------------------------------------------------ statistics

  /** The two counts `User.getStats` returns. */
  datatype UserStats = UserStats(listsCreated: nat, itemsCompleted: nat)

  /** The condition `created_by = ?` on a list row. */
  function CreatedByUser(userId: Id): ListRow -> bool {
    (l: ListRow) => l.createdBy == userId
  }

  /** The condition of the items query: a completed item whose list (joined
      on `li.list_id = l.id`) was created by the user. */
  function DoneInOwnList(t: Tables, userId: Id): ItemRow -> bool {
    (i: ItemRow) => i.completed && IsCreator(t, i.listId, userId)
  }

  /** `User.getStats`: how many lists the user created, and how many completed
      items those lists hold. */
  function GetStats(t: Tables, userId: Id): (r: UserStats)
    ensures r.listsCreated <= |t.lists| && r.itemsCompleted <= |t.items|
    ensures r.listsCreated == 0 <==> forall l :: l in t.lists ==> l.createdBy != userId
    ensures r.itemsCompleted == 0 <==>
      forall i :: i in t.items ==> !(i.completed && IsCreator(t, i.listId, userId))
  {
    var lists := Filter(t.lists, CreatedByUser(userId));
    var items := Filter(t.items, DoneInOwnList(t, userId));
    assert lists == [] <==> forall l :: l in t.lists ==> l.createdBy != userId by {
      if lists != [] {
        assert lists[0] in lists;
      }
    }
    assert items == [] <==> forall i :: i in t.items ==> !(i.completed && IsCreator(t, i.listId, userId)) by {
      if items != [] {
        assert items[0] in items;
      }
    }
    UserStats(|lists|, |items|)
  }

  /** The completed items of the given lists, list by list, as `getListStats`
      counts them. */
  function SumCompleted(t: Tables, lists: seq<ListRow>): nat {
    if lists == [] then 0
    else |Filter(ItemsOf(t.items, lists[0].id), IsDone)| + SumCompleted(t, lists[1..])
  }

  /** `listsCreated` is the number of distinct ids among the user's lists. */
  lemma ListsCreatedCountsOwned(t: Tables, userId: Id)
    requires Pairwise(t.lists, ListBefore)
    ensures GetStats(t, userId).listsCreated == |OwnedListIds(t.lists, userId)|
  {
    CreatedCount(t.lists, userId);
  }

  lemma {:induction false} CreatedCount(lists: seq<ListRow>, userId: Id)
    requires Pairwise(lists, ListBefore)
    ensures |Filter(lists, CreatedByUser(userId))| == |OwnedListIds(lists, userId)|
  {
    if lists != [] {
      TailPairwise(lists);
      CreatedCount(lists[1..], userId);
      OwnedCons(lists, userId);
    }
  }

  lemma OwnedCons(lists: seq<ListRow>, userId: Id)
    requires lists != []
    requires forall x :: x in lists[1..] ==> lists[0].id < x.id
    ensures lists[0].id !in OwnedListIds(lists[1..], userId)
    ensures OwnedListIds(lists, userId) ==
      OwnedListIds(lists[1..], userId) + (if lists[0].createdBy == userId then {lists[0].id} else {})
  {
    assert lists == [lists[0]] + lists[1..];
  }

  lemma TailPairwise(lists: seq<ListRow>)
    requires lists != [] && Pairwise(lists, ListBefore)
    ensures Pairwise(lists[1..], ListBefore)
    ensures forall x :: x in lists[1..] ==> lists[0].id < x.id
  {
    var rest := lists[1..];
    forall i, j | 0 <= i < j < |rest| ensures ListBefore(rest[i], rest[j]) {
      assert rest[i] == lists[i + 1] && rest[j] == lists[j + 1];
    }
    forall x | x in rest ensures lists[0].id < x.id {
      var k :| 0 <= k < |rest| && rest[k] == x;
      assert ListBefore(lists[0], lists[k + 1]);
    }
  }

  /** The completed items of the lists whose ids are in `ids`. */
  ghost function CompletedIn(items: seq<ItemRow>, ids: set<Id>): set<ItemRow> {
    set i | i in items && i.completed && i.listId in ids
  }

  /** `itemsCompleted` is the sum, over the user's lists, of the `completed`
      count `getListStats` reports for each. */
  lemma ItemsCompletedSumsListStats(t: Tables, userId: Id)
    requires Consistent(t)
    ensures GetStats(t, userId).itemsCompleted == SumCompleted(t, Filter(t.lists, CreatedByUser(userId)))
  {
    var owned := Filter(t.lists, CreatedByUser(userId));
    FilterPairwise(t.lists, CreatedByUser(userId), ListBefore);
    ItemsNoDuplicates(t.items);
    FilterCard(t.items, DoneInOwnList(t, userId));
    SumCounts(t, owned);
    OwnCompleted(t, userId);
  }

  lemma OwnCompleted(t: Tables, userId: Id)
    requires Pairwise(t.lists, ListBefore)
    ensures Kept(t.items, DoneInOwnList(t, userId)) == CompletedIn(t.items, ListIds(Filter(t.lists, CreatedByUser(userId))))
  {
    var owned := Filter(t.lists, CreatedByUser(userId));
    forall i | i in t.items
      ensures DoneInOwnList(t, userId)(i) <==> i.completed && i.listId in ListIds(owned)
    {
      IsCreatorMeansOwns(t, i.listId, userId);
      if i.listId in ListIds(owned) {
        var l :| l in owned && l.id == i.listId;
        assert l in t.lists && l.createdBy == userId;
      }
    }
  }

  lemma ItemsNoDuplicates(items: seq<ItemRow>)
    requires Pairwise(items, ItemBefore)
    ensures NoDuplicates(items)
  {
    forall i, j | 0 <= i < j < |items| ensures items[i] != items[j] {
      assert ItemBefore(items[i], items[j]);
    }
  }

  /** Over lists with distinct ids, the per-list counts add up to the count
      of completed items in any of them. */
  lemma {:induction false} SumCounts(t: Tables, lists: seq<ListRow>)
    requires Pairwise(lists, ListBefore) && NoDuplicates(t.items)
    ensures SumCompleted(t, lists) == |CompletedIn(t.items, ListIds(lists))|
  {
    if lists == [] {
      assert CompletedIn(t.items, ListIds(lists)) == {};
    } else {
      TailPairwise(lists);
      SumCounts(t, lists[1..]);
      ListCount(t.items, lists[0].id);
      IdsCons(lists);
      CompletedUnion(t.items, {lists[0].id}, ListIds(lists[1..]));
    }
  }

  lemma IdsCons(lists: seq<ListRow>)
    requires lists != []
    requires forall x :: x in lists[1..] ==> lists[0].id < x.id
    ensures ListIds(lists) == {lists[0].id} + ListIds(lists[1..])
    ensures {lists[0].id} * ListIds(lists[1..]) == {}
  {
    assert lists == [lists[0]] + lists[1..];
  }

  lemma CompletedUnion(items: seq<ItemRow>, a: set<Id>, b: set<Id>)
    requires a * b == {}
    ensures CompletedIn(items, a + b) == CompletedIn(items, a) + CompletedIn(items, b)
    ensures CompletedIn(items, a) * CompletedIn(items, b) == {}
  {
    forall i | i in CompletedIn(items, a) ensures i !in CompletedIn(items, b) {
      assert i.listId in a;
      assert i.listId !in a * b;
    }
  }

  /** The `completed` count of one list is the number of its completed rows. */
  lemma ListCount(items: seq<ItemRow>, listId: Id)
    requires NoDuplicates(items)
    ensures |Filter(ItemsOf(items, listId), IsDone)| == |CompletedIn(items, {listId})|
  {
    var r := ItemsOf(items, listId);
    SubNoDuplicates(items, r);
    FilterCard(r, IsDone);
    assert Kept(r, IsDone) == CompletedIn(items, {listId});
  }

  /** The share rows play no part in the counts. */
  lemma StatsIgnoreShares(t: Tables, shares: seq<ShareRow>, userId: Id)
    ensures GetStats(t.(shares := shares), userId) == GetStats(t, userId)
  {
    FilterExt(t.items, DoneInOwnList(t.(shares := shares), userId), DoneInOwnList(t, userId));
  }

  // ------------------------------------------------------------ properties

  /** The profile hides the credential: changing a password leaves every
      profile as it was. */
  lemma PasswordNotInProfile(t: Tables, id: Id, password: PasswordHash, now: Time, other: Id)
    ensures FindById(t.(users := SetPassword(t.users, id, password, now)), other) == FindById(t, other)
  {
    SameProfiles(SetPassword(t.users, id, password, now), t.users, other);
  }

  /** Two user tables that agree row by row on ids and profiles find the same
      profile for every id. */
  lemma {:induction false} SameProfiles(a: seq<UserRow>, b: seq<UserRow>, id: Id)
    requires |a| == |b|
    requires forall k :: 0 <= k < |a| ==> ProfileOf(a[k]) == ProfileOf(b[k])
    ensures FindUser(a, id).Some? == FindUser(b, id).Some?
    ensures FindUser(a, id).Some? ==> ProfileOf(FindUser(a, id).value) == ProfileOf(FindUser(b, id).value)
  {
    if a != [] {
      assert ProfileOf(a[0]) == ProfileOf(b[0]);
      if a[0].id != id {
        SameProfiles(a[1..], b[1..], id);
      }
    }
  }
}
