/** `ListController` (backend/src/controllers/listController.js): the
    validation chains of the list routes, the order in which each handler
    checks and calls the list model, and the status every outcome maps to. */
module ListController {
  import opened Base
  import opened Js
  import opened Store
  import opened Http
  import opened ListModel
  import opened ItemModel

  const MsgNameRequired: string := "Nome da lista é obrigatório"
  const MsgTypeBoolean: string := "Tipo da lista deve ser boolean"
  const MsgNameEmpty: string := "Nome da lista não pode estar vazio"
  const MsgBadEmail: string := "Email inválido"
  const MsgBadPermission: string := "Permissão inválida"
  const MsgNoAccess: string := "Sem " + "permissão" + " para acessar esta lista"
  const MsgListNotFound: string := "Lista não encontrada"
  const MsgCreated: string := "Lista criada com sucesso"
  const MsgUpdated: string := "Lista atualizada com sucesso"
  const MsgUpdateFailed: string := "Falha ao atualizar lista"
  const MsgDeleted: string := "Lista deletada com sucesso"
  const MsgDeleteFailed: string := "Falha ao deletar lista"
  const MsgShared: string := "Lista compartilhada com sucesso"
  const MsgUnshared: string := "Compartilhamento removido com sucesso"
  const MsgUnshareFailed: string := "Falha ao remover compartilhamento"

  /** One list of `getUserLists`: the row of `findByUser`, with its stats
      unless `getListStats` threw for it. */
  datatype ListEntry = ListEntry(view: ListView, stats: Option<Stats>)

  /** The payloads of the list routes' successful replies. */
  datatype ListPayload =
    | Saved(message: string, list: Option<ListDetail>)
    | Lists(lists: seq<ListEntry>)
    | Detail(shown: ListDetail, stats: Stats, items: seq<ItemRow>)
    | SharedUsers(sharedUsers: seq<SharedUser>)

  // ------------------------------------------------------------ validation

  /** `createListValidation`: the messages of the failed checks, in order. A
      name passes when it holds a non-space character. */
  function CreateErrors(name: Option<string>, isIndividual: Option<JsonValue>): (errs: seq<string>)
    ensures errs == [] <==>
      (exists i :: 0 <= i < |Given(name)| && !IsSpace(Given(name)[i])) && IsBooleanLike(isIndividual)
    ensures forall e :: e in errs ==> e == MsgNameRequired || e == MsgTypeBoolean
  {
    TrimmedNonEmptyIffVisible(Given(name));
    (if |Trim(Given(name))| >= 1 then [] else [MsgNameRequired])
    + (if IsBooleanLike(isIndividual) then [] else [MsgTypeBoolean])
  }

  /** `updateListValidation`: an absent name passes; a given one must hold a
      non-space character. */
  function UpdateErrors(name: Option<string>): (errs: seq<string>)
    ensures errs == [] <==> name.None? || exists i :: 0 <= i < |name.value| && !IsSpace(name.value[i])
    ensures errs != [] ==> errs == [MsgNameEmpty]
  {
    if name.None? then []
    else
      TrimmedNonEmptyIffVisible(name.value);
      if |Trim(name.value)| >= 1 then [] else [MsgNameEmpty]
  }

  /** `shareListValidation`: the address must pass `isEmail` (left abstract)
      and the level must be one of the three known ones. */
  function ShareErrors(email: Option<string>, permission: Option<string>, isEmail: string -> bool): (errs: seq<string>)
    ensures errs == [] <==> isEmail(Given(email)) && Given(permission) in Levels
    ensures Given(permission) !in Levels ==> MsgBadPermission in errs
  {
    (if isEmail(Given(email)) then [] else [MsgBadEmail])
    + (if Given(permission) in Levels then [] else [MsgBadPermission])
  }

  // ------------------------------------------------------------ read-only handlers

  /** One element of the `Promise.all` of `getUserLists`. */
  function WithStats(t: Tables, userId: Id, v: ListView): (e: ListEntry)
    ensures e.view == v
    ensures e.stats.Some? <==> CheckPermission(t, v.list.id, userId, "read")
    ensures e.stats.Some? ==> GetListStats(t, v.list.id, userId) == Ok(e.stats.value)
  {
    match GetListStats(t, v.list.id, userId)
    case Ok(s) => ListEntry(v, Some(s))
    case Err(_) => ListEntry(v, None)
  }

  /** `getUserLists`: every list `findByUser` returns, in its order, each with
      its stats when the caller may read them and without them otherwise. */
  function GetUserLists(t: Tables, caller: Caller): (res: Response<ListPayload>)
    ensures res.status == 200 && res.body.Payload? && res.body.value.Lists?
    ensures var lists, views := res.body.value.lists, FindByUser(t, caller.id);
      && |lists| == |views|
      && forall k :: 0 <= k < |lists| ==>
           && lists[k].view == views[k]
           && (lists[k].stats.Some? <==> CheckPermission(t, views[k].list.id, caller.id, "read"))
           && (lists[k].stats.Some? ==> GetListStats(t, views[k].list.id, caller.id) == Ok(lists[k].stats.value))
  {
    Response(200, Payload(Lists(Entries(t, caller.id, FindByUser(t, caller.id)))))
  }

  /** The `map` of `getUserLists` over the lists it found. */
  function Entries(t: Tables, userId: Id, views: seq<ListView>): (es: seq<ListEntry>)
    ensures |es| == |views|
    ensures forall k :: 0 <= k < |es| ==>
      && es[k].view == views[k]
      && (es[k].stats.Some? <==> CheckPermission(t, views[k].list.id, userId, "read"))
      && (es[k].stats.Some? ==> GetListStats(t, views[k].list.id, userId) == Ok(es[k].stats.value))
  {
    seq(|views|, k requires 0 <= k < |views| => WithStats(t, userId, views[k]))
  }

  /** On a consistent database a list of `getUserLists` comes without stats
      exactly when the caller is not its creator and holds it under a level
      other than the three known ones. */
  lemma StatsMissingOnlyForUnknownLevels(t: Tables, caller: Caller, k: int)
    requires Consistent(t)
    requires 0 <= k < |GetUserLists(t, caller).body.value.lists|
    ensures var e := GetUserLists(t, caller).body.value.lists[k];
      e.stats.None? <==> e.view.list.createdBy != caller.id && e.view.userPermission !in Levels
  {
    var v := FindByUser(t, caller.id)[k];
    assert v in FindByUser(t, caller.id);
    FindListOnly(t.lists, v.list);
    if v.list.createdBy == caller.id {
      OwnerAlwaysAllowed(t, v.list);
    } else {
      var s :| s in t.shares && s.listId == v.list.id && s.userId == caller.id && s.permission == v.userPermission;
      IsCreatorMeansOwns(t, v.list.id, caller.id);
      ShareLevelDecides(t, s, "read");
    }
  }

  /** `getListById`: the read check comes first (403), then existence (404);
      otherwise the list with its stats and its items. */
  function GetListById(t: Tables, caller: Caller, id: Id): (res: Response<ListPayload>)
    ensures !CheckPermission(t, id, caller.id, "read") ==> res == Response(403, Error(MsgNoAccess))
    ensures CheckPermission(t, id, caller.id, "read") && ListModel.FindById(t, id).None? ==>
      res == Response(404, Error(MsgListNotFound))
    ensures CheckPermission(t, id, caller.id, "read") && ListModel.FindById(t, id).Some? ==>
      && res.status == 200 && res.body.Payload? && res.body.value.Detail?
      && res.body.value.shown == ListModel.FindById(t, id).value
      && Ok(res.body.value.stats) == GetListStats(t, id, caller.id)
      && Ok(res.body.value.items) == ItemModel.FindByList(t, id, caller.id)
  {
    if !CheckPermission(t, id, caller.id, "read") then Response(403, Error(MsgNoAccess))
    else match ListModel.FindById(t, id)
      case None => Response(404, Error(MsgListNotFound))
      case Some(detail) =>
        var items := ItemModel.FindByList(t, id, caller.id).value;
        var stats := GetListStats(t, id, caller.id).value;
        Response(200, Payload(Detail(detail, stats, items)))
  }

  /** Since the read check comes first, a missing list yields 403, and on a
      consistent database the 404 branch is never taken. */
  lemma MissingListForbidden(t: Tables, caller: Caller, id: Id)
    requires Consistent(t)
    ensures id !in ListIds(t.lists) ==> GetListById(t, caller, id).status == 403
    ensures GetListById(t, caller, id).status != 404
  {
    if CheckPermission(t, id, caller.id, "read") {
      AllowedListExists(t, id, caller.id, "read");
    }
  }

  /** `getSharedUsers`: the owner-only error maps to 403. */
  function GetSharedUsersReply(t: Tables, caller: Caller, id: Id): (res: Response<ListPayload>)
    ensures !IsCreator(t, id, caller.id) ==> res == Response(403, Error(MsgOnlyCreatorView))
    ensures IsCreator(t, id, caller.id) ==>
      && res.status == 200 && res.body.Payload? && res.body.value.SharedUsers?
      && Ok(res.body.value.sharedUsers) == GetSharedUsers(t, id, caller.id)
  {
    match GetSharedUsers(t, id, caller.id)
    case Ok(users) => Response(200, Payload(SharedUsers(users)))
    case Err(m) =>
      Mentions("Apenas o ", KwCreator, " pode ver os compartilhamentos", [KwPermission, KwCreator]);
      Caught(m, [KwPermission, KwCreator], 403)
  }

  // ------------------------------------------------------------ error mapping

  /** Every error `List.shareList` raises names the creator, an individual
      list or a missing user, so `shareList` answers it with 400, never 403. */
  lemma ShareFailuresAre400(t: Tables, listId: Id, email: string, ownerId: Id)
    requires ShareTarget(t, listId, email, ownerId).Err?
    ensures var m := ShareTarget(t, listId, email, ownerId).message;
      Caught<ListPayload>(m, ShareKeywords, 400) == Response(400, Error(m))
  {
    ShareMessagesMentioned();
  }

  /** The keywords of the `catch` block of `shareList`. */
  const ShareKeywords: seq<string> := [KwPermission, KwCreator, KwIndividual, KwNotFound]

  lemma ShareMessagesMentioned()
    ensures MentionsAny(MsgOnlyCreatorShare, ShareKeywords)
    ensures MentionsAny(MsgIndividual, ShareKeywords)
    ensures MentionsAny(MsgUserNotFound, ShareKeywords)
  {
    Mentions("Apenas o ", KwCreator, " pode compartilhar a lista", ShareKeywords);
    Mentions("Listas ", KwIndividual, "is não podem ser compartilhadas", ShareKeywords);
    Mentions("Usuário ", KwNotFound, "", ShareKeywords);
    assert "Usuário " + KwNotFound + "" == MsgUserNotFound;
  }

  // ------------------------------------------------------------ mutating handlers

  /** `createList`: a validation failure is a 400 that creates nothing;
      otherwise the list is created with its trimmed texts and returned with
      201. A model error (the caller's row is gone) is a 500. */
  method CreateList(db: Database, caller: Caller, name: Option<string>, description: Option<string>,
                    isIndividual: Option<JsonValue>)
    returns (res: Response<ListPayload>)
    requires db.Valid()
    modifies db
    ensures db.Valid()
    ensures CreateErrors(name, isIndividual) != [] ==>
      res == Response(400, Invalid(CreateErrors(name, isIndividual))) && db.tables == old(db.tables)
    ensures CreateErrors(name, isIndividual) == [] && caller.id !in UserIds(old(db.tables.users)) ==>
      res == Response(500, Error(MsgInternal)) && db.tables == old(db.tables)
    ensures CreateErrors(name, isIndividual) == [] && caller.id in UserIds(old(db.tables.users)) ==>
      && db.tables == old(db.tables).(lists := old(db.tables.lists) + [ListRow(old(db.nextListId),
           Trim(Given(name)), Trimmed(description), Truthy(isIndividual), caller.id, db.clock, db.clock)])
      && res == Response(201, Payload(Saved(MsgCreated, ListModel.FindById(db.tables, old(db.nextListId)))))
      && res.body.value.list.Some?
  {
    var errs := CreateErrors(name, isIndividual);
    if errs != [] {
      return Response(400, Invalid(errs));
    }
    var r := ListModel.Create(db, Trim(Given(name)), Trimmed(description), isIndividual, caller.id);
    if r.Err? {
      return Response(500, Error(MsgInternal));
    }
    res := Response(201, Payload(Saved(MsgCreated, ListModel.FindById(db.tables, r.value))));
  }

  /** `updateList`: validation (400), then the model's write check (403); an
      absent name passes validation but violates `name NOT NULL` (500). */
  method UpdateList(db: Database, caller: Caller, id: Id, name: Option<string>, description: Option<string>)
    returns (res: Response<ListPayload>)
    requires db.Valid()
    modifies db
    ensures db.Valid()
    ensures UpdateErrors(name) != [] ==>
      res == Response(400, Invalid(UpdateErrors(name))) && db.tables == old(db.tables)
    ensures UpdateErrors(name) == [] && !CheckPermission(old(db.tables), id, caller.id, "write") ==>
      res == Response(403, Error(MsgNoEditList)) && db.tables == old(db.tables)
    ensures UpdateErrors(name) == [] && CheckPermission(old(db.tables), id, caller.id, "write") && name.None? ==>
      res == Response(500, Error(MsgInternal)) && db.tables == old(db.tables)
    ensures UpdateErrors(name) == [] && CheckPermission(old(db.tables), id, caller.id, "write") && name.Some? ==>
      && db.tables == old(db.tables).(lists := Rename(old(db.tables.lists), id, Trim(name.value), Trimmed(description), db.clock))
      && res == Response(200, Payload(Saved(MsgUpdated, ListModel.FindById(db.tables, id))))
  {
    var errs := UpdateErrors(name);
    if errs != [] {
      return Response(400, Invalid(errs));
    }
    var r := ListModel.Update(db, id, Trimmed(name), Trimmed(description), caller.id);
    match r
    case Err(m) =>
      Mentions("Sem ", KwPermission, " para editar esta lista", [KwPermission]);
      NotNullMentionsNone();
      res := Caught(m, [KwPermission], 403);
    case Ok(updated) =>
      if !updated {
        return Response(400, Error(MsgUpdateFailed));
      }
      res := Response(200, Payload(Saved(MsgUpdated, ListModel.FindById(db.tables, id))));
  }

  /** The SQLite message has no "ã". */
  lemma NotNullMentionsNone()
    ensures !MentionsAny(NotNullListName, [KwPermission])
  {
    MissingCharNotIncluded(NotNullListName, KwPermission, 'ã');
  }

  /** `deleteList`: only the creator may delete (403 otherwise); the cascade
      removes the list's items and shares. */
  method DeleteList(db: Database, caller: Caller, id: Id) returns (res: Response<ListPayload>)
    requires db.Valid()
    modifies db
    ensures db.Valid()
    ensures !IsCreator(old(db.tables), id, caller.id) ==>
      res == Response(403, Error(MsgOnlyCreatorDelete)) && db.tables == old(db.tables)
    ensures IsCreator(old(db.tables), id, caller.id) ==>
      res == Response(200, Message(MsgDeleted)) && db.tables == DeleteCascade(old(db.tables), id)
  {
    var r := ListModel.Delete(db, id, caller.id);
    match r
    case Err(m) =>
      Mentions("Apenas o ", KwCreator, " pode deletar a lista", [KwPermission, KwCreator]);
      res := Caught(m, [KwPermission, KwCreator], 403);
    case Ok(deleted) =>
      if !deleted {
        return Response(400, Error(MsgDeleteFailed));
      }
      res := Response(200, Message(MsgDeleted));
  }

  /** `shareList`: validation (400) before any model call, then every model
      error is a 400; on success the (list, user) share row is upserted. */
  method ShareList(db: Database, caller: Caller, id: Id, email: Option<string>, permission: Option<string>,
                   isEmail: string -> bool)
    returns (res: Response<ListPayload>)
    requires db.Valid()
    modifies db
    ensures db.Valid()
    ensures ShareErrors(email, permission, isEmail) != [] ==>
      res == Response(400, Invalid(ShareErrors(email, permission, isEmail))) && db.tables == old(db.tables)
    ensures ShareErrors(email, permission, isEmail) == [] ==>
      var target := ShareTarget(old(db.tables), id, Given(email), caller.id);
      && (target.Err? ==> res == Response(400, Error(target.message)) && db.tables == old(db.tables))
      && (target.Ok? ==>
           && res == Response(200, Message(MsgShared))
           && db.tables == old(db.tables).(shares := Upsert(old(db.tables.shares), id, target.value,
                Given(permission), old(db.nextShareId), db.clock)))
  {
    var errs := ShareErrors(email, permission, isEmail);
    if errs != [] {
      return Response(400, Invalid(errs));
    }
    ghost var t := db.tables;
    var r := ListModel.ShareList(db, id, Given(email), Given(permission), caller.id);
    match r
    case Err(m) =>
      ShareFailuresAre400(t, id, Given(email), caller.id);
      res := Caught(m, ShareKeywords, 400);
    case Ok(_) =>
      res := Response(200, Message(MsgShared));
  }

  /** `removeShare`: only the creator (403 otherwise); removing a pair
      without a share row is a 400. */
  method RemoveShare(db: Database, caller: Caller, id: Id, userId: Id) returns (res: Response<ListPayload>)
    requires db.Valid()
    modifies db
    ensures db.Valid()
    ensures !IsCreator(old(db.tables), id, caller.id) ==>
      res == Response(403, Error(MsgOnlyCreatorRemove)) && db.tables == old(db.tables)
    ensures IsCreator(old(db.tables), id, caller.id) ==>
      && db.tables == old(db.tables).(shares := Unshare(old(db.tables.shares), id, userId))
      && res == if exists s :: s in old(db.tables.shares) && s.listId == id && s.userId == userId
                then Response(200, Message(MsgUnshared)) else Response(400, Error(MsgUnshareFailed))
  {
    var r := ListModel.RemoveShare(db, id, userId, caller.id);
    match r
    case Err(m) =>
      Mentions("Apenas o ", KwCreator, " pode remover compartilhamentos", [KwPermission, KwCreator]);
      res := Caught(m, [KwPermission, KwCreator], 403);
    case Ok(removed) =>
      if !removed {
        return Response(400, Error(MsgUnshareFailed));
      }
      res := Response(200, Message(MsgUnshared));
  }
}
