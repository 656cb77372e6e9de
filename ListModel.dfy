/** The list repository and sharing manager (`List` in
    backend/src/models/List.js): the access rule every list and item operation
    goes through, the list queries, and the owner-only sharing operations. */
module ListModel {
  import opened Base
  import opened Js
  import opened Store

  // ---------------------------------------------------------------- messages
  // Spelled around the keywords the controllers search for.

  const MsgNoEditList: string := "Sem " + "permissão" + " para editar esta lista"
  const MsgNoViewList: string := "Sem " + "permissão" + " para ver esta lista"
  const MsgOnlyCreatorDelete: string := "Apenas o " + "criador" + " pode deletar a lista"
  const MsgOnlyCreatorShare: string := "Apenas o " + "criador" + " pode compartilhar a lista"
  const MsgOnlyCreatorRemove: string := "Apenas o " + "criador" + " pode remover compartilhamentos"
  const MsgOnlyCreatorView: string := "Apenas o " + "criador" + " pode ver os compartilhamentos"
  const MsgIndividual: string := "Listas " + "individual" + "is não podem ser compartilhadas"
  const MsgUserNotFound: string := "Usuário " + "não encontrado"

  // -------------------------------------------------------------- permission

  /** The permission levels, weakest first. */
  const Levels: seq<string> := ["read", "write", "admin"]

  /** `Levels.indexOf(p)`: the rank of a level, -1 for any other string. */
  function LevelIndex(p: string): (k: int)
    ensures -1 <= k < |Levels|
    ensures k == -1 <==> p !in Levels
    ensures k >= 0 ==> Levels[k] == p
  {
    if p == "read" then 0 else if p == "write" then 1 else if p == "admin" then 2 else -1
  }

  /** The list exists and `userId` created it (`list && list.created_by === userId`). */
  predicate IsCreator(t: Tables, listId: Id, userId: Id) {
    var l := FindList(t.lists, listId);
    l.Some? && l.value.createdBy == userId
  }

  /** Some row of the lists table has this id and this creator. */
  ghost predicate Owns(t: Tables, listId: Id, userId: Id) {
    exists l :: l in t.lists && l.id == listId && l.createdBy == userId
  }

  /** `List.checkPermission`: the creator is always allowed; anyone else needs
      a share row on the list whose level ranks at least as high as the
      required one. */
  function CheckPermission(t: Tables, listId: Id, userId: Id, required: string): (ok: bool)
    ensures IsCreator(t, listId, userId) ==> ok
    ensures ok && !IsCreator(t, listId, userId) ==>
      exists s :: s in t.shares && s.listId == listId && s.userId == userId
        && LevelIndex(s.permission) >= LevelIndex(required)
  {
    if IsCreator(t, listId, userId) then true
    else
      match FindShare(t.shares, listId, userId)
      case None => false
      case Some(s) => LevelIndex(s.permission) >= LevelIndex(required)
  }

  /** The access rule stated over the tables, without lookups: the user
      created the list, or holds a share on it of a sufficient level. */
  ghost predicate Grants(t: Tables, listId: Id, userId: Id, required: string) {
    || Owns(t, listId, userId)
    || exists s :: s in t.shares && s.listId == listId && s.userId == userId
         && LevelIndex(s.permission) >= LevelIndex(required)
  }

  lemma IsCreatorMeansOwns(t: Tables, listId: Id, userId: Id)
    requires Pairwise(t.lists, ListBefore)
    ensures IsCreator(t, listId, userId) <==> Owns(t, listId, userId)
  {
    if Owns(t, listId, userId) {
      var l :| l in t.lists && l.id == listId && l.createdBy == userId;
      FindListOnly(t.lists, l);
    }
  }

  /** On a consistent database the lookups of `checkPermission` decide
      exactly the access rule. */
  lemma CheckPermissionMeansGrants(t: Tables, listId: Id, userId: Id, required: string)
    requires Consistent(t)
    ensures CheckPermission(t, listId, userId, required) <==> Grants(t, listId, userId, required)
  {
    IsCreatorMeansOwns(t, listId, userId);
    forall s | s in t.shares && s.listId == listId && s.userId == userId
      ensures FindShare(t.shares, listId, userId) == Some(s)
    {
      FindShareOnly(t.shares, s);
    }
  }

  /** The creator passes every check, whatever the share rows say. */
  lemma OwnerAlwaysAllowed(t: Tables, l: ListRow)
    requires Pairwise(t.lists, ListBefore) && l in t.lists
    ensures forall required :: CheckPermission(t, l.id, l.createdBy, required)
  {
    FindListOnly(t.lists, l);
  }

  /** For anyone but the creator, the one share row on the list decides, by rank:
      an admin share passes read and write, a write share passes read but not
      admin, a read share passes read only, and a share with an unknown level
      passes none of the three. */
  lemma ShareLevelDecides(t: Tables, s: ShareRow, required: string)
    requires Consistent(t) && s in t.shares && !Owns(t, s.listId, s.userId)
    ensures CheckPermission(t, s.listId, s.userId, required) <==> LevelIndex(s.permission) >= LevelIndex(required)
    ensures s.permission == "admin" && required in Levels ==> CheckPermission(t, s.listId, s.userId, required)
    ensures s.permission == "write" ==>
      CheckPermission(t, s.listId, s.userId, "read") == true && CheckPermission(t, s.listId, s.userId, "admin") == false
    ensures s.permission == "read" ==>
      CheckPermission(t, s.listId, s.userId, "read") == true && CheckPermission(t, s.listId, s.userId, "write") == false
    ensures s.permission !in Levels && required in Levels ==> !CheckPermission(t, s.listId, s.userId, required)
  {
    IsCreatorMeansOwns(t, s.listId, s.userId);
    FindShareOnly(t.shares, s);
  }

  /** A required level outside the three known ones ranks -1, so any share
      row passes it. */
  lemma UnknownRequiredLevelPassed(t: Tables, s: ShareRow, required: string)
    requires s in t.shares && required !in Levels
    ensures CheckPermission(t, s.listId, s.userId, required)
  {
  }

  /** Anyone allowed anything on a list, on a consistent database, is allowed it
      on a list that exists. */
  lemma AllowedListExists(t: Tables, listId: Id, userId: Id, required: string)
    requires Consistent(t) && CheckPermission(t, listId, userId, required)
    ensures listId in ListIds(t.lists)
  {
    if !IsCreator(t, listId, userId) {
      var s :| s in t.shares && s.listId == listId && s.userId == userId
        && LevelIndex(s.permission) >= LevelIndex(required);
    }
  }

  // ----------------------------------------------------------------- queries

  /** A row of `List.findById`: the list joined with its creator's name. */
  datatype ListDetail = ListDetail(list: ListRow, creatorName: string)

  /** `List.findById`: the list with that id, joined with its creator. */
  function FindById(t: Tables, id: Id): (r: Option<ListDetail>)
    ensures r.Some? ==> r.value.list in t.lists && r.value.list.id == id
    ensures r.Some? ==> exists u :: u in t.users && u.id == r.value.list.createdBy && u.name == r.value.creatorName
    ensures Consistent(t) ==> (r.Some? <==> id in ListIds(t.lists))
  {
    match FindList(t.lists, id)
    case None => None
    case Some(l) =>
      match FindUser(t.users, l.createdBy)
      case None => None
      case Some(u) => Some(ListDetail(l, u.name))
  }

  /** A row of `List.findByUser`: the list, its creator's name, and the
      caller's effective permission, "owner" or the level of the caller's share. */
  datatype ListView = ListView(list: ListRow, creatorName: string, userPermission: string)

  /** The user created the list or holds a share row on it. */
  ghost predicate VisibleTo(t: Tables, userId: Id, l: ListRow) {
    l.createdBy == userId || exists s :: s in t.shares && s.listId == l.id && s.userId == userId
  }

  /** The label `findByUser` gives a visible list: "owner" for its creator,
      otherwise the level of the user's share row on it. */
  ghost predicate Labelled(t: Tables, userId: Id, v: ListView) {
    if v.list.createdBy == userId then v.userPermission == "owner"
    else exists s :: s in t.shares && s.listId == v.list.id && s.userId == userId && s.permission == v.userPermission
  }

  predicate ViewBefore(a: ListView, b: ListView) { a.list.id < b.list.id }
  predicate OtherList(a: ListView, b: ListView) { a.list.id != b.list.id }
  function UpdatedAt(v: ListView): int { v.list.updatedAt }

  /** The joined and filtered row the query yields for one list, if any. */
  function ViewOf(t: Tables, userId: Id, l: ListRow): (r: Option<ListView>)
    ensures r.Some? ==> r.value.list == l && VisibleTo(t, userId, l) && Labelled(t, userId, r.value)
    ensures r.Some? ==> exists u :: u in t.users && u.id == l.createdBy && u.name == r.value.creatorName
    ensures r.None? ==> !VisibleTo(t, userId, l) || l.createdBy !in UserIds(t.users)
  {
    match FindUser(t.users, l.createdBy)
    case None => None
    case Some(u) =>
      if l.createdBy == userId then Some(ListView(l, u.name, "owner"))
      else
        match FindShare(t.shares, l.id, userId)
        case None => None
        case Some(s) => Some(ListView(l, u.name, s.permission))
  }

  /** The rows of the join over `ls`, before `ORDER BY`. */
  function Views(t: Tables, userId: Id, ls: seq<ListRow>): (r: seq<ListView>)
    ensures forall v :: v in r ==> v.list in ls && VisibleTo(t, userId, v.list) && Labelled(t, userId, v)
    ensures forall v :: v in r ==> exists u :: u in t.users && u.id == v.list.createdBy && u.name == v.creatorName
    ensures forall l :: l in ls && VisibleTo(t, userId, l) && l.createdBy in UserIds(t.users) ==>
      exists v :: v in r && v.list == l
  {
    if ls == [] then []
    else
      var rest := Views(t, userId, ls[1..]);
      assert ls == [ls[0]] + ls[1..];
      match ViewOf(t, userId, ls[0])
      case None => rest
      case Some(v) => [v] + rest
  }

  /** The join keeps the lists in scan order, so in ascending id order. */
  lemma {:induction false} ViewsAscending(t: Tables, userId: Id, ls: seq<ListRow>)
    requires Pairwise(ls, ListBefore)
    ensures Pairwise(Views(t, userId, ls), ViewBefore)
  {
    if ls != [] {
      assert Pairwise(ls[1..], ListBefore) by {
        forall i, j | 0 <= i < j < |ls[1..]| ensures ListBefore(ls[1..][i], ls[1..][j]) {
          assert ls[1..][i] == ls[i + 1] && ls[1..][j] == ls[j + 1];
        }
      }
      ViewsAscending(t, userId, ls[1..]);
      var rest := Views(t, userId, ls[1..]);
      var o := ViewOf(t, userId, ls[0]);
      if o.Some? {
        var v := o.value;
        assert Views(t, userId, ls) == [v] + rest;
        forall w | w in rest ensures ViewBefore(v, w) {
          WithinTail(ls, w.list);
        }
        ConsPairwise(v, rest);
      } else {
        assert Views(t, userId, ls) == rest;
      }
    }
  }

  /** A row found in the tail of an ascending sequence comes after its head. */
  lemma WithinTail(ls: seq<ListRow>, l: ListRow)
    requires Pairwise(ls, ListBefore) && ls != [] && l in ls[1..]
    ensures ls[0].id < l.id
  {
    var k :| 0 <= k < |ls[1..]| && ls[1..][k] == l;
    assert ls[k + 1] == l;
  }

  lemma ConsPairwise(v: ListView, rest: seq<ListView>)
    requires Pairwise(rest, ViewBefore)
    requires forall w :: w in rest ==> ViewBefore(v, w)
    ensures Pairwise([v] + rest, ViewBefore)
  {
    var r := [v] + rest;
    forall i, j | 0 <= i < j < |r| ensures ViewBefore(r[i], r[j]) {
      if i == 0 {
        assert r[j] in rest;
      } else {
        assert r[i] == rest[i - 1] && r[j] == rest[j - 1];
      }
    }
  }

  /** `List.findByUser`: the lists the user created or holds a share on, each
      with its creator's name and the user's label, newest update first. */
  function FindByUser(t: Tables, userId: Id): (r: seq<ListView>)
    ensures SortedDesc(r, UpdatedAt)
    ensures forall v :: v in r ==> v.list in t.lists && VisibleTo(t, userId, v.list) && Labelled(t, userId, v)
    ensures forall v :: v in r ==> exists u :: u in t.users && u.id == v.list.createdBy && u.name == v.creatorName
    ensures forall l :: l in t.lists && VisibleTo(t, userId, l) && l.createdBy in UserIds(t.users) ==>
      exists v :: v in r && v.list == l
  {
    var vs := Views(t, userId, t.lists);
    var r := SortDesc(vs, UpdatedAt);
    assert forall v :: v in r <==> v in vs by {
      forall v ensures v in r <==> v in vs {
        assert v in multiset(r) <==> v in multiset(vs);
      }
    }
    r
  }

  /** On a consistent database `findByUser` lists exactly the lists the user
      created or holds a share on, each of them once. */
  lemma FindByUserExactlyVisible(t: Tables, userId: Id)
    requires Consistent(t)
    ensures forall l :: l in t.lists ==> (VisibleTo(t, userId, l) <==> exists v :: v in FindByUser(t, userId) && v.list == l)
    ensures var r := FindByUser(t, userId);
      forall i, j :: 0 <= i < |r| && 0 <= j < |r| && i != j ==> r[i].list.id != r[j].list.id
  {
    var vs := Views(t, userId, t.lists);
    var r := FindByUser(t, userId);
    ViewsAscending(t, userId, t.lists);
    assert Pairwise(vs, OtherList) by {
      assert Pairwise(vs, ViewBefore);
    }
    PermutationPairwise(vs, r, OtherList);
  }

  /** `SELECT * FROM list_items WHERE list_id = ? ORDER BY ... DESC` sorts by this. */
  function CreatedAt(i: ItemRow): int { i.createdAt }

  /** `List.getListItems`: after a read check, the list's items, newest first. */
  function GetListItems(t: Tables, listId: Id, userId: Id): (r: Result<seq<ItemRow>>)
    ensures !CheckPermission(t, listId, userId, "read") ==> r == Err(MsgNoViewList)
    ensures CheckPermission(t, listId, userId, "read") ==>
      r.Ok? && multiset(r.value) == multiset(ItemsOf(t.items, listId)) && SortedDesc(r.value, CreatedAt)
  {
    if !CheckPermission(t, listId, userId, "read") then Err(MsgNoViewList)
    else Ok(SortDesc(ItemsOf(t.items, listId), CreatedAt))
  }

  /** A row of `List.getSharedUsers`: a share on the list joined with its user. */
  datatype SharedUser = SharedUser(id: Id, name: string, email: string, permission: string, sharedAt: Time)

  function SharedAt(e: SharedUser): int { e.sharedAt }

  /** The share `s` joined with the user `u`. */
  function SharedEntry(s: ShareRow, u: UserRow): SharedUser {
    SharedUser(u.id, u.name, u.email, s.permission, s.createdAt)
  }

  /** The rows of the join of `shares` with the users table on the list, before `ORDER BY`. */
  function SharedEntries(t: Tables, shares: seq<ShareRow>, listId: Id): (r: seq<SharedUser>)
    ensures forall e :: e in r ==>
      exists s, u :: s in shares && u in t.users && s.listId == listId && s.userId == u.id && e == SharedEntry(s, u)
    ensures forall s :: s in shares && s.listId == listId && s.userId in UserIds(t.users) ==>
      SharedEntry(s, FindUser(t.users, s.userId).value) in r
  {
    if shares == [] then []
    else
      var rest := SharedEntries(t, shares[1..], listId);
      var s := shares[0];
      assert shares == [s] + shares[1..];
      if s.listId != listId then rest
      else
        match FindUser(t.users, s.userId)
        case None => rest
        case Some(u) => [SharedEntry(s, u)] + rest
  }

  /** `List.getSharedUsers`: for the creator only, the users the list is
      shared with and their levels, most recent share first. */
  function GetSharedUsers(t: Tables, listId: Id, ownerId: Id): (r: Result<seq<SharedUser>>)
    ensures r.Err? <==> !IsCreator(t, listId, ownerId)
    ensures r.Err? ==> r.message == MsgOnlyCreatorView
    ensures r.Ok? ==> SortedDesc(r.value, SharedAt)
    ensures r.Ok? ==> forall e :: e in r.value ==>
      exists s, u :: s in t.shares && u in t.users && s.listId == listId && s.userId == u.id && e == SharedEntry(s, u)
  {
    if !IsCreator(t, listId, ownerId) then Err(MsgOnlyCreatorView)
    else
      var es := SharedEntries(t, t.shares, listId);
      var r := SortDesc(es, SharedAt);
      assert forall e :: e in r ==> e in es by {
        forall e | e in r ensures e in es {
          assert e in multiset(r);
        }
      }
      Ok(r)
  }

  /** On a consistent database every share row of the list shows up in
      `getSharedUsers`, with its user's name and email. */
  lemma GetSharedUsersComplete(t: Tables, listId: Id, ownerId: Id, s: ShareRow, u: UserRow)
    requires Consistent(t) && IsCreator(t, listId, ownerId)
    requires s in t.shares && s.listId == listId && u in t.users && u.id == s.userId
    ensures SharedEntry(s, u) in GetSharedUsers(t, listId, ownerId).value
  {
    FindUserOnly(t.users, u);
    var es := SharedEntries(t, t.shares, listId);
    var r := GetSharedUsers(t, listId, ownerId).value;
    assert SharedEntry(s, u) in multiset(es);
    assert multiset(r) == multiset(es);
  }

  // --------------------------------------------------------------- mutations

  /** A list row with a fresh key and an existing creator can be appended. */
  lemma AppendListConsistent(t: Tables, row: ListRow)
    requires Consistent(t) && row.createdBy in UserIds(t.users)
    requires forall l :: l in t.lists ==> l.id < row.id
    ensures Consistent(t.(lists := t.lists + [row]))
  {
    PairwiseAppend(t.lists, row, ListBefore);
    var lists := t.lists + [row];
    assert forall l :: l in lists <==> l in t.lists || l == row;
    assert ListIds(t.lists) <= ListIds(lists);
  }

  /** Appending a list with the next key keeps the database valid. */
  lemma AppendListKeeps(t: Tables, row: ListRow, nu: Id, nl: Id, ni: Id, ns: Id, now: Time)
    requires ValidState(t, nu, nl, ni, ns, now)
    requires row.id == nl && row.createdBy in UserIds(t.users) && row.createdAt <= now && row.updatedAt <= now
    ensures ValidState(t.(lists := t.lists + [row]), nu, nl + 1, ni, ns, now)
  {
    AppendListConsistent(t, row);
  }

  /** The lists table after `UPDATE lists SET name = ?, description = ?,
      updated_at = CURRENT_TIMESTAMP WHERE id = ?`: the matching row gets the
      new name, description and time; every other field and row stays. */
  function Rename(lists: seq<ListRow>, id: Id, name: string, description: Option<string>, now: Time): (r: seq<ListRow>)
    ensures |r| == |lists|
    ensures forall k :: 0 <= k < |lists| ==>
      r[k] == if lists[k].id == id then lists[k].(name := name, description := description, updatedAt := now) else lists[k]
  {
    UpdateWhere(lists, (l: ListRow) => l.id == id, (l: ListRow) => l.(name := name, description := description, updatedAt := now))
  }

  lemma RenameKeeps(t: Tables, id: Id, name: string, description: Option<string>,
                    nu: Id, nl: Id, ni: Id, ns: Id, now: Time)
    requires ValidState(t, nu, nl, ni, ns, now)
    ensures ValidState(t.(lists := Rename(t.lists, id, name, description, now)), nu, nl, ni, ns, now)
  {
    var lists := Rename(t.lists, id, name, description, now);
    SameListKeys(t, lists);
    forall l | l in lists ensures l.id < nl && l.createdAt <= now && l.updatedAt <= now {
      var k :| 0 <= k < |lists| && lists[k] == l;
      assert t.lists[k] in t.lists;
    }
  }

  /** The tables after `DELETE FROM lists WHERE id = ?` and the declared
      `ON DELETE CASCADE` of the list's items and shares. */
  function DeleteCascade(t: Tables, id: Id): (r: Tables)
    ensures r.users == t.users
    ensures forall l :: l in r.lists <==> l in t.lists && l.id != id
    ensures forall i :: i in r.items <==> i in t.items && i.listId != id
    ensures forall s :: s in r.shares <==> s in t.shares && s.listId != id
  {
    Tables(
      t.users,
      Filter(t.lists, (l: ListRow) => l.id != id),
      Filter(t.items, (i: ItemRow) => i.listId != id),
      Filter(t.shares, (s: ShareRow) => s.listId != id))
  }

  lemma DeleteCascadeConsistent(t: Tables, id: Id)
    requires Consistent(t)
    ensures Consistent(DeleteCascade(t, id))
  {
    var r := DeleteCascade(t, id);
    FilterPairwise(t.lists, (l: ListRow) => l.id != id, ListBefore);
    FilterPairwise(t.items, (i: ItemRow) => i.listId != id, ItemBefore);
    FilterPairwise(t.shares, (s: ShareRow) => s.listId != id, ShareBefore);
    forall i | i in r.items ensures i.listId in ListIds(r.lists) {
      var l :| l in t.lists && l.id == i.listId;
      assert l in r.lists;
    }
    forall s | s in r.shares ensures s.listId in ListIds(r.lists) {
      var l :| l in t.lists && l.id == s.listId;
      assert l in r.lists;
    }
  }

  lemma DeleteCascadeKeeps(t: Tables, id: Id, nu: Id, nl: Id, ni: Id, ns: Id, now: Time)
    requires ValidState(t, nu, nl, ni, ns, now)
    ensures ValidState(DeleteCascade(t, id), nu, nl, ni, ns, now)
  {
    DeleteCascadeConsistent(t, id);
  }

  /** The share rows of one (list, user) pair. */
  function PairShares(shares: seq<ShareRow>, listId: Id, userId: Id): (r: seq<ShareRow>)
    ensures forall s :: s in r <==> s in shares && s.listId == listId && s.userId == userId
  {
    Filter(shares, (s: ShareRow) => s.listId == listId && s.userId == userId)
  }

  /** `UNIQUE(list_id, user_id)`: a pair has at most one share row. */
  lemma AtMostOneSharePerPair(shares: seq<ShareRow>, listId: Id, userId: Id)
    requires Pairwise(shares, ShareBefore)
    ensures |PairShares(shares, listId, userId)| <= 1
  {
    var p := PairShares(shares, listId, userId);
    FilterPairwise(shares, (s: ShareRow) => s.listId == listId && s.userId == userId, ShareBefore);
    if |p| >= 2 {
      FirstTwoIn(p);
      assert false;
    }
  }

  /** The share rows after `shareList` gave `userId` the level `permission` on
      the list: the pair's row is updated in place if there is one, otherwise
      a new row with key `newId` is appended. */
  function Upsert(shares: seq<ShareRow>, listId: Id, userId: Id, permission: string, newId: Id, now: Time): (r: seq<ShareRow>)
    ensures FindShare(shares, listId, userId).None? ==> r == shares + [ShareRow(newId, listId, userId, permission, now)]
    ensures FindShare(shares, listId, userId).Some? ==> |r| == |shares| && forall k :: 0 <= k < |shares| ==>
      r[k] == if shares[k].listId == listId && shares[k].userId == userId then shares[k].(permission := permission) else shares[k]
  {
    if FindShare(shares, listId, userId).Some? then
      UpdateWhere(shares, (s: ShareRow) => s.listId == listId && s.userId == userId, (s: ShareRow) => s.(permission := permission))
    else shares + [ShareRow(newId, listId, userId, permission, now)]
  }

  /** Every row of an upsert is an old row, an old row of the pair with the
      new level, or the appended row of the pair. */
  lemma UpsertRows(shares: seq<ShareRow>, listId: Id, userId: Id, permission: string, newId: Id, now: Time)
    ensures var r := Upsert(shares, listId, userId, permission, newId, now);
      forall s :: s in r ==>
        || (s in shares && !(s.listId == listId && s.userId == userId))
        || (s.listId == listId && s.userId == userId && s.permission == permission
            && (s == ShareRow(newId, listId, userId, permission, now) || exists o :: o in shares && s == o.(permission := permission)))
    ensures var r := Upsert(shares, listId, userId, permission, newId, now);
      forall s :: s in shares && !(s.listId == listId && s.userId == userId) ==> s in r
  {
    var r := Upsert(shares, listId, userId, permission, newId, now);
    if FindShare(shares, listId, userId).Some? {
      forall s | s in r ensures
        || (s in shares && !(s.listId == listId && s.userId == userId))
        || (s.listId == listId && s.userId == userId && s.permission == permission
            && exists o :: o in shares && s == o.(permission := permission))
      {
        var k :| 0 <= k < |r| && r[k] == s;
        assert shares[k] in shares;
      }
      forall s | s in shares && !(s.listId == listId && s.userId == userId) ensures s in r {
        var k :| 0 <= k < |shares| && shares[k] == s;
        assert r[k] == s;
      }
    }
  }

  /** After an upsert the pair has exactly one share row, carrying the new
      level, and the keys still ascend. */
  lemma UpsertLeavesOneRow(shares: seq<ShareRow>, listId: Id, userId: Id, permission: string, newId: Id, now: Time)
    requires Pairwise(shares, ShareBefore)
    requires forall s :: s in shares ==> s.id < newId
    ensures Pairwise(Upsert(shares, listId, userId, permission, newId, now), ShareBefore)
    ensures |PairShares(Upsert(shares, listId, userId, permission, newId, now), listId, userId)| == 1
    ensures PairShares(Upsert(shares, listId, userId, permission, newId, now), listId, userId)[0].permission == permission
  {
    var r := Upsert(shares, listId, userId, permission, newId, now);
    if FindShare(shares, listId, userId).Some? {
      forall i, j | 0 <= i < j < |r| ensures ShareBefore(r[i], r[j]) {
        assert ShareBefore(shares[i], shares[j]);
      }
      var o := FindShare(shares, listId, userId).value;
      var k :| 0 <= k < |shares| && shares[k] == o;
      assert r[k] in PairShares(r, listId, userId);
    } else {
      PairwiseAppend(shares, ShareRow(newId, listId, userId, permission, now), ShareBefore);
      assert r[|shares|] in PairShares(r, listId, userId);
    }
    AtMostOneSharePerPair(r, listId, userId);
    UpsertRows(shares, listId, userId, permission, newId, now);
    var p := PairShares(r, listId, userId);
    assert p[0] in p;
  }

  /** Upserting a share on an existing, non-individual list for an existing
      user keeps the schema's constraints. */
  lemma UpsertConsistent(t: Tables, l: ListRow, userId: Id, permission: string, newId: Id, now: Time)
    requires Consistent(t) && forall s :: s in t.shares ==> s.id < newId
    requires l in t.lists && !l.isIndividual && userId in UserIds(t.users)
    ensures Consistent(t.(shares := Upsert(t.shares, l.id, userId, permission, newId, now)))
  {
    var r := Upsert(t.shares, l.id, userId, permission, newId, now);
    UpsertLeavesOneRow(t.shares, l.id, userId, permission, newId, now);
    UpsertRows(t.shares, l.id, userId, permission, newId, now);
    forall s, m | s in r && m in t.lists && m.id == s.listId ensures !m.isIndividual {
      if s.listId == l.id {
        FindListOnly(t.lists, l);
        FindListOnly(t.lists, m);
      }
    }
  }

  /** Upserted share keys stay below the counter, which advances only when a
      row is inserted. */
  lemma UpsertBelow(shares: seq<ShareRow>, listId: Id, userId: Id, permission: string, newId: Id, now: Time)
    requires SharesBelow(shares, newId, now)
    ensures SharesBelow(Upsert(shares, listId, userId, permission, newId, now),
      if FindShare(shares, listId, userId).Some? then newId else newId + 1, now)
  {
    UpsertRows(shares, listId, userId, permission, newId, now);
  }

  /** A share upsert keeps the database valid. */
  lemma UpsertKeeps(t: Tables, l: ListRow, userId: Id, permission: string, nu: Id, nl: Id, ni: Id, ns: Id, now: Time)
    requires ValidState(t, nu, nl, ni, ns, now)
    requires l in t.lists && !l.isIndividual && userId in UserIds(t.users)
    ensures ValidState(t.(shares := Upsert(t.shares, l.id, userId, permission, ns, now)), nu, nl, ni,
      if FindShare(t.shares, l.id, userId).Some? then ns else ns + 1, now)
  {
    UpsertConsistent(t, l, userId, permission, ns, now);
    UpsertBelow(t.shares, l.id, userId, permission, ns, now);
  }

  /** The share rows after `DELETE FROM list_shares WHERE list_id = ? AND user_id = ?`. */
  function Unshare(shares: seq<ShareRow>, listId: Id, userId: Id): (r: seq<ShareRow>)
    ensures forall s :: s in r <==> s in shares && !(s.listId == listId && s.userId == userId)
  {
    Filter(shares, (s: ShareRow) => !(s.listId == listId && s.userId == userId))
  }

  lemma UnshareConsistent(t: Tables, listId: Id, userId: Id)
    requires Consistent(t)
    ensures Consistent(t.(shares := Unshare(t.shares, listId, userId)))
  {
    FilterPairwise(t.shares, (s: ShareRow) => !(s.listId == listId && s.userId == userId), ShareBefore);
  }

  lemma UnshareKeeps(t: Tables, listId: Id, userId: Id, nu: Id, nl: Id, ni: Id, ns: Id, now: Time)
    requires ValidState(t, nu, nl, ni, ns, now)
    ensures ValidState(t.(shares := Unshare(t.shares, listId, userId)), nu, nl, ni, ns, now)
  {
    UnshareConsistent(t, listId, userId);
  }

  /** The checks of `List.shareList`, in their order: the caller created the
      list, the list is not individual, a user has the email; the result is
      that user's id. */
  function ShareTarget(t: Tables, listId: Id, userEmail: string, ownerId: Id): (r: Result<Id>)
    ensures !IsCreator(t, listId, ownerId) ==> r == Err(MsgOnlyCreatorShare)
    ensures IsCreator(t, listId, ownerId) && FindList(t.lists, listId).value.isIndividual ==> r == Err(MsgIndividual)
    ensures r.Err? ==> r.message in {MsgOnlyCreatorShare, MsgIndividual, MsgUserNotFound}
    ensures r == Err(MsgUserNotFound) <==>
      IsCreator(t, listId, ownerId) && !FindList(t.lists, listId).value.isIndividual
      && forall u :: u in t.users ==> u.email != userEmail
    ensures r.Ok? ==>
      && IsCreator(t, listId, ownerId) && !FindList(t.lists, listId).value.isIndividual
      && exists u :: u in t.users && u.email == userEmail && u.id == r.value
  {
    var l := FindList(t.lists, listId);
    if l.None? || l.value.createdBy != ownerId then Err(MsgOnlyCreatorShare)
    else if l.value.isIndividual then Err(MsgIndividual)
    else
      match FindUserByEmail(t.users, userEmail)
      case None => Err(MsgUserNotFound)
      case Some(u) => Ok(u.id)
  }

  /** `List.create`: inserts a list owned by `userId`; `isIndividual` is
      stored by its truthiness. */
  method Create(db: Database, name: string, description: Option<string>, isIndividual: Option<JsonValue>, userId: Id)
    returns (r: Result<Id>)
    requires db.Valid()
    modifies db
    ensures db.Valid()
    ensures userId !in UserIds(old(db.tables.users)) ==> r == Err(ForeignKeyFailed) && db.tables == old(db.tables)
    ensures userId in UserIds(old(db.tables.users)) ==>
      && r == Ok(old(db.nextListId))
      && db.tables == old(db.tables).(lists := old(db.tables.lists)
           + [ListRow(old(db.nextListId), name, description, Truthy(isIndividual), userId, db.clock, db.clock)])
  {
    var t := db.tables;
    if FindUser(t.users, userId).None? {
      return Err(ForeignKeyFailed);
    }
    var now := db.clock + 1;
    ValidLater(t, db.nextUserId, db.nextListId, db.nextItemId, db.nextShareId, db.clock, now);
    var row := ListRow(db.nextListId, name, description, Truthy(isIndividual), userId, now, now);
    AppendListKeeps(t, row, db.nextUserId, db.nextListId, db.nextItemId, db.nextShareId, now);
    db.Commit(t.(lists := t.lists + [row]), db.nextUserId, db.nextListId + 1, db.nextItemId, db.nextShareId, now);
    r := Ok(row.id);
  }

  /** `List.update`: a write check, then the UPDATE; a missing name violates
      `name NOT NULL` after the check has passed. */
  method Update(db: Database, id: Id, name: Option<string>, description: Option<string>, userId: Id)
    returns (r: Result<bool>)
    requires db.Valid()
    modifies db
    ensures db.Valid()
    ensures !CheckPermission(old(db.tables), id, userId, "write") ==>
      r == Err(MsgNoEditList) && db.tables == old(db.tables)
    ensures CheckPermission(old(db.tables), id, userId, "write") && name.None? ==>
      r == Err(NotNullListName) && db.tables == old(db.tables)
    ensures CheckPermission(old(db.tables), id, userId, "write") && name.Some? ==>
      && r == Ok(true)
      && db.tables == old(db.tables).(lists := Rename(old(db.tables.lists), id, name.value, description, db.clock))
  {
    var t := db.tables;
    if !CheckPermission(t, id, userId, "write") {
      return Err(MsgNoEditList);
    }
    if name.None? {
      return Err(NotNullListName);
    }
    AllowedListExists(t, id, userId, "write");
    var now := db.clock + 1;
    ValidLater(t, db.nextUserId, db.nextListId, db.nextItemId, db.nextShareId, db.clock, now);
    RenameKeeps(t, id, name.value, description, db.nextUserId, db.nextListId, db.nextItemId, db.nextShareId, now);
    r := Ok(FindList(t.lists, id).Some?);
    db.Commit(t.(lists := Rename(t.lists, id, name.value, description, now)),
      db.nextUserId, db.nextListId, db.nextItemId, db.nextShareId, now);
  }

  /** `List.delete`: only the creator of an existing list may delete it; the
      cascade removes its items and shares. */
  method Delete(db: Database, id: Id, userId: Id) returns (r: Result<bool>)
    requires db.Valid()
    modifies db
    ensures db.Valid()
    ensures !IsCreator(old(db.tables), id, userId) ==> r == Err(MsgOnlyCreatorDelete) && db.tables == old(db.tables)
    ensures IsCreator(old(db.tables), id, userId) ==> r == Ok(true) && db.tables == DeleteCascade(old(db.tables), id)
  {
    var t := db.tables;
    if !IsCreator(t, id, userId) {
      return Err(MsgOnlyCreatorDelete);
    }
    DeleteCascadeKeeps(t, id, db.nextUserId, db.nextListId, db.nextItemId, db.nextShareId, db.clock);
    db.Commit(DeleteCascade(t, id), db.nextUserId, db.nextListId, db.nextItemId, db.nextShareId, db.clock);
    r := Ok(true);
  }

  /** `List.shareList`: after the checks of `ShareTarget`, upserts the share
      row of (list, user) with the given level. */
  method ShareList(db: Database, listId: Id, userEmail: string, permission: string, ownerId: Id) returns (r: Result<bool>)
    requires db.Valid()
    modifies db
    ensures db.Valid()
    ensures ShareTarget(old(db.tables), listId, userEmail, ownerId).Err? ==>
      r == Err(ShareTarget(old(db.tables), listId, userEmail, ownerId).message) && db.tables == old(db.tables)
    ensures ShareTarget(old(db.tables), listId, userEmail, ownerId).Ok? ==>
      && r == Ok(true)
      && db.tables == old(db.tables).(shares := Upsert(old(db.tables.shares), listId,
           ShareTarget(old(db.tables), listId, userEmail, ownerId).value, permission, old(db.nextShareId), db.clock))
  {
    var t := db.tables;
    var target := ShareTarget(t, listId, userEmail, ownerId);
    if target.Err? {
      return Err(target.message);
    }
    var list := FindList(t.lists, listId).value;
    var now := db.clock + 1;
    ValidLater(t, db.nextUserId, db.nextListId, db.nextItemId, db.nextShareId, db.clock, now);
    UpsertKeeps(t, list, target.value, permission, db.nextUserId, db.nextListId, db.nextItemId, db.nextShareId, now);
    // An UPDATE of an existing row does not consume an AUTOINCREMENT key.
    var ns := if FindShare(t.shares, listId, target.value).None? then db.nextShareId + 1 else db.nextShareId;
    db.Commit(t.(shares := Upsert(t.shares, listId, target.value, permission, db.nextShareId, now)),
      db.nextUserId, db.nextListId, db.nextItemId, ns, now);
    r := Ok(true);
  }

  /** `List.removeShare`: only the creator may remove a share; the result
      says whether the pair had a row. */
  method RemoveShare(db: Database, listId: Id, userId: Id, ownerId: Id) returns (r: Result<bool>)
    requires db.Valid()
    modifies db
    ensures db.Valid()
    ensures !IsCreator(old(db.tables), listId, ownerId) ==> r == Err(MsgOnlyCreatorRemove) && db.tables == old(db.tables)
    ensures IsCreator(old(db.tables), listId, ownerId) ==>
      && r == Ok(exists s :: s in old(db.tables.shares) && s.listId == listId && s.userId == userId)
      && db.tables == old(db.tables).(shares := Unshare(old(db.tables.shares), listId, userId))
  {
    var t := db.tables;
    if !IsCreator(t, listId, ownerId) {
      return Err(MsgOnlyCreatorRemove);
    }
    r := Ok(FindShare(t.shares, listId, userId).Some?);
    UnshareKeeps(t, listId, userId, db.nextUserId, db.nextListId, db.nextItemId, db.nextShareId, db.clock);
    db.Commit(t.(shares := Unshare(t.shares, listId, userId)), db.nextUserId, db.nextListId, db.nextItemId, db.nextShareId, db.clock);
  }
}
