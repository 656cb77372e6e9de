/** `ItemController` (backend/src/controllers/itemController.js): the
    validation chains of the item routes, the order of each handler's checks
    and calls into the item model, and the status every outcome maps to. */
module ItemController {
  import opened Base
  import opened Js
  import opened Store
  import opened Http
  import opened ListModel
  import opened ItemModel

  const MsgItemNameRequired: string := "Nome do item é obrigatório"
  const MsgItemNameEmpty: string := "Nome do item não pode estar vazio"
  const MsgBadImage: string := "Imagem deve ser uma URL válida"
  const MsgStatusBoolean: string := "Status deve ser boolean"
  const MsgNoAccessItem: string := "Sem " + "permissão" + " para acessar este item"
  const MsgItemCreated: string := "Item criado com sucesso"
  const MsgItemUpdated: string := "Item atualizado com sucesso"
  const MsgItemUpdateFailed: string := "Falha ao atualizar item"
  const MsgStatusChanged: string := "Status do item alterado com sucesso"
  const MsgStatusFailed: string := "Falha ao alterar status do item"
  const MsgItemDeleted: string := "Item deletado com sucesso"
  const MsgItemDeleteFailed: string := "Falha ao deletar item"

  /** The payloads of the item routes' successful replies. */
  datatype ItemPayload =
    | ItemSaved(message: string, item: Option<ItemRow>)
    | Items(items: seq<ItemRow>)
    | Found(found: ItemRow)
    | ListStats(stats: Stats)

  /** The keywords of the `catch` blocks of `updateItem`, `toggleCompleted`
      and `deleteItem`; all three answer them with 403. */
  const WriteKeywords: seq<string> := [KwPermission, KwNotFound]

  // ------------------------------------------------------------ validation

  /** `createItemValidation`: the name must hold a non-space character; an
      image, when given, must pass `isURL` (left abstract). */
  function CreateErrors(name: Option<string>, image: Option<string>, isURL: string -> bool): (errs: seq<string>)
    ensures errs == [] <==>
      && (exists i :: 0 <= i < |Given(name)| && !IsSpace(Given(name)[i]))
      && (image.None? || isURL(image.value))
    ensures forall e :: e in errs ==> e == MsgItemNameRequired || e == MsgBadImage
  {
    TrimmedNonEmptyIffVisible(Given(name));
    (if |Trim(Given(name))| >= 1 then [] else [MsgItemNameRequired])
    + (if image.None? || isURL(image.value) then [] else [MsgBadImage])
  }

  /** `updateItemValidation`: every field is optional, but a given name must
      hold a non-space character, a given image must pass `isURL`, and a given
      `completed` must pass `isBoolean()`. */
  function UpdateErrors(name: Option<string>, image: Option<string>, completed: Option<JsonValue>,
                        isURL: string -> bool): (errs: seq<string>)
    ensures errs == [] <==>
      && (name.None? || exists i :: 0 <= i < |name.value| && !IsSpace(name.value[i]))
      && (image.None? || isURL(image.value))
      && (completed.None? || IsBooleanLike(completed))
    ensures completed.Some? && !IsBooleanLike(completed) ==> MsgStatusBoolean in errs
  {
    TrimmedNonEmptyIffVisible(Given(name));
    (if name.None? || |Trim(name.value)| >= 1 then [] else [MsgItemNameEmpty])
    + (if image.None? || isURL(image.value) then [] else [MsgBadImage])
    + (if completed.None? || IsBooleanLike(completed) then [] else [MsgStatusBoolean])
  }

  // ------------------------------------------------------------ read-only handlers

  /** `getListItems`: the items in `findByList` order, or 403 without read access. */
  function GetListItems(t: Tables, caller: Caller, listId: Id): (res: Response<ItemPayload>)
    ensures !CheckPermission(t, listId, caller.id, "read") ==> res == Response(403, Error(MsgNoViewItems))
    ensures CheckPermission(t, listId, caller.id, "read") ==>
      && res.status == 200 && res.body.Payload? && res.body.value.Items?
      && multiset(res.body.value.items) == multiset(ItemsOf(t.items, listId))
      && forall i, j :: 0 <= i < j < |res.body.value.items| ==>
           ItemOrder(res.body.value.items[i], res.body.value.items[j])
  {
    match ItemModel.FindByList(t, listId, caller.id)
    case Ok(items) => Response(200, Payload(Items(items)))
    case Err(m) =>
      Mentions("Sem ", KwPermission, " para ver os itens desta lista", [KwPermission]);
      Caught(m, [KwPermission], 403)
  }

  /** `getItemById`: existence is checked first (404), then read access on
      the item's list (403). */
  function GetItemById(t: Tables, caller: Caller, id: Id): (res: Response<ItemPayload>)
    ensures FindItem(t.items, id).None? ==> res == Response(404, Error(MsgItemNotFound))
    ensures FindItem(t.items, id).Some? && !CheckPermission(t, FindItem(t.items, id).value.listId, caller.id, "read") ==>
      res == Response(403, Error(MsgNoAccessItem))
    ensures res.status == 200 <==>
      FindItem(t.items, id).Some? && CheckPermission(t, FindItem(t.items, id).value.listId, caller.id, "read")
    ensures res.status == 200 ==> res.body == Payload(Found(FindItem(t.items, id).value))
  {
    match FindItem(t.items, id)
    case None => Response(404, Error(MsgItemNotFound))
    case Some(item) =>
      if !CheckPermission(t, item.listId, caller.id, "read") then Response(403, Error(MsgNoAccessItem))
      else Response(200, Payload(Found(item)))
  }

  /** On a consistent database, a present item the caller may read is one
      whose list the caller created or holds any share of a known level on. */
  lemma ItemReadableByListAccess(t: Tables, caller: Caller, id: Id)
    requires Consistent(t) && FindItem(t.items, id).Some?
    ensures GetItemById(t, caller, id).status == 200 <==> Grants(t, FindItem(t.items, id).value.listId, caller.id, "read")
  {
    CheckPermissionMeansGrants(t, FindItem(t.items, id).value.listId, caller.id, "read");
  }

  /** `getListStats`: the stats, or 403 without read access. */
  function GetListStatsReply(t: Tables, caller: Caller, listId: Id): (res: Response<ItemPayload>)
    ensures !CheckPermission(t, listId, caller.id, "read") ==> res == Response(403, Error(MsgNoStats))
    ensures CheckPermission(t, listId, caller.id, "read") ==>
      && res.status == 200 && res.body.Payload? && res.body.value.ListStats?
      && var s := res.body.value.stats;
      && GetListStats(t, listId, caller.id) == Ok(s)
      && s.total == |ItemsOf(t.items, listId)|
      && s.pending == s.total - s.completed >= 0
      && 0 <= s.percentage <= 100
  {
    match GetListStats(t, listId, caller.id)
    case Ok(stats) => Response(200, Payload(ListStats(stats)))
    case Err(m) =>
      Mentions("Sem ", KwPermission, " para ver estatísticas desta lista", [KwPermission]);
      Caught(m, [KwPermission], 403)
  }

  // ------------------------------------------------------------ error mapping

  /** The item is looked up before the permission check, and a missing item
      is answered like a denied one: both are 403, never 404. */
  lemma AccessErrorsAre403(a: Access, denied: string)
    requires !a.Granted?
    requires denied == MsgNoEditItem || denied == MsgNoModifyItem || denied == MsgNoDeleteItem
    ensures Caught<ItemPayload>(AccessError(a, denied), WriteKeywords, 403) == Response(403, Error(AccessError(a, denied)))
  {
    Mentions("Item ", KwNotFound, "", WriteKeywords);
    assert "Item " + KwNotFound + "" == MsgItemNotFound;
    Mentions("Sem ", KwPermission, " para editar itens desta lista", WriteKeywords);
    Mentions("Sem ", KwPermission, " para modificar itens desta lista", WriteKeywords);
    Mentions("Sem ", KwPermission, " para deletar itens desta lista", WriteKeywords);
  }

  /** The SQLite message a nameless update raises holds no "ã", so it is a 500. */
  lemma NotNullItemIs500()
    ensures Caught<ItemPayload>(NotNullItemName, WriteKeywords, 403) == Response(500, Error(MsgInternal))
  {
    MissingCharNotIncluded(NotNullItemName, KwPermission, 'ã');
    MissingCharNotIncluded(NotNullItemName, KwNotFound, 'ã');
  }

  // ------------------------------------------------------------ mutating handlers

  /** `createItem`: validation (400) before any model call, then the write
      check (403); the new item is returned with 201. */
  method CreateItem(db: Database, caller: Caller, listId: Id, name: Option<string>, description: Option<string>,
                    image: Option<string>, isURL: string -> bool)
    returns (res: Response<ItemPayload>)
    requires db.Valid()
    modifies db
    ensures db.Valid()
    ensures CreateErrors(name, image, isURL) != [] ==>
      res == Response(400, Invalid(CreateErrors(name, image, isURL))) && db.tables == old(db.tables)
    ensures CreateErrors(name, image, isURL) == [] && !CheckPermission(old(db.tables), listId, caller.id, "write") ==>
      res == Response(403, Error(MsgNoAddItem)) && db.tables == old(db.tables)
    ensures CreateErrors(name, image, isURL) == [] && CheckPermission(old(db.tables), listId, caller.id, "write") ==>
      && db.tables == old(db.tables).(
           items := old(db.tables.items) + [ItemRow(old(db.nextItemId), listId, Trim(Given(name)), Trimmed(description),
                                                    false, image, db.clock, db.clock)],
           lists := Touch(old(db.tables.lists), listId, db.clock))
      && res == Response(201, Payload(ItemSaved(MsgItemCreated, FindItem(db.tables.items, old(db.nextItemId)))))
      && res.body.value.item.Some?
  {
    var errs := CreateErrors(name, image, isURL);
    if errs != [] {
      return Response(400, Invalid(errs));
    }
    var r := ItemModel.Create(db, listId, Trim(Given(name)), Trimmed(description), image, caller.id);
    match r
    case Err(m) =>
      Mentions("Sem ", KwPermission, " para adicionar itens nesta lista", [KwPermission]);
      res := Caught(m, [KwPermission], 403);
    case Ok(itemId) =>
      assert db.tables.items[|db.tables.items| - 1].id == itemId;
      res := Response(201, Payload(ItemSaved(MsgItemCreated, FindItem(db.tables.items, itemId))));
  }

  /** `updateItem`: validation (400), then not found or no write access
      (both 403); a nameless update passes validation but violates
      `name NOT NULL` (500). */
  method UpdateItem(db: Database, caller: Caller, id: Id, name: Option<string>, description: Option<string>,
                    image: Option<string>, completed: Option<JsonValue>, isURL: string -> bool)
    returns (res: Response<ItemPayload>)
    requires db.Valid()
    modifies db
    ensures db.Valid()
    ensures UpdateErrors(name, image, completed, isURL) != [] ==>
      res == Response(400, Invalid(UpdateErrors(name, image, completed, isURL))) && db.tables == old(db.tables)
    ensures UpdateErrors(name, image, completed, isURL) == [] ==>
      var a := ItemAccess(old(db.tables), id, caller.id);
      && (!a.Granted? ==> res == Response(403, Error(AccessError(a, MsgNoEditItem))) && db.tables == old(db.tables))
      && (a.Granted? && name.None? ==> res == Response(500, Error(MsgInternal)) && db.tables == old(db.tables))
      && (a.Granted? && name.Some? ==>
           && db.tables == old(db.tables).(
                items := Rewrite(old(db.tables.items), id, Trim(name.value), Trimmed(description), image,
                                 Truthy(completed), db.clock),
                lists := Touch(old(db.tables.lists), a.item.listId, db.clock))
           && res == Response(200, Payload(ItemSaved(MsgItemUpdated, FindItem(db.tables.items, id)))))
  {
    var errs := UpdateErrors(name, image, completed, isURL);
    if errs != [] {
      return Response(400, Invalid(errs));
    }
    ghost var a := ItemAccess(db.tables, id, caller.id);
    var r := ItemModel.Update(db, id, Trimmed(name), Trimmed(description), image, completed, caller.id);
    match r
    case Err(m) =>
      if !a.Granted? {
        AccessErrorsAre403(a, MsgNoEditItem);
      } else {
        NotNullItemIs500();
      }
      res := Caught(m, WriteKeywords, 403);
    case Ok(updated) =>
      if !updated {
        return Response(400, Error(MsgItemUpdateFailed));
      }
      res := Response(200, Payload(ItemSaved(MsgItemUpdated, FindItem(db.tables.items, id))));
  }

  /** `toggleCompleted`: not found or no write access (both 403); otherwise
      the flag is negated and the item returned. */
  method ToggleCompleted(db: Database, caller: Caller, id: Id) returns (res: Response<ItemPayload>)
    requires db.Valid()
    modifies db
    ensures db.Valid()
    ensures var a := ItemAccess(old(db.tables), id, caller.id);
      && (!a.Granted? ==> res == Response(403, Error(AccessError(a, MsgNoModifyItem))) && db.tables == old(db.tables))
      && (a.Granted? ==>
           && db.tables == old(db.tables).(
                items := SetCompleted(old(db.tables.items), id, !a.item.completed, db.clock),
                lists := Touch(old(db.tables.lists), a.item.listId, db.clock))
           && res == Response(200, Payload(ItemSaved(MsgStatusChanged, FindItem(db.tables.items, id)))))
  {
    ghost var a := ItemAccess(db.tables, id, caller.id);
    var r := ItemModel.ToggleCompleted(db, id, caller.id);
    match r
    case Err(m) =>
      AccessErrorsAre403(a, MsgNoModifyItem);
      res := Caught(m, WriteKeywords, 403);
    case Ok(updated) =>
      if !updated {
        return Response(400, Error(MsgStatusFailed));
      }
      res := Response(200, Payload(ItemSaved(MsgStatusChanged, FindItem(db.tables.items, id))));
  }

  /** `deleteItem`: not found or no write access (both 403); otherwise the
      row is deleted. */
  method DeleteItem(db: Database, caller: Caller, id: Id) returns (res: Response<ItemPayload>)
    requires db.Valid()
    modifies db
    ensures db.Valid()
    ensures var a := ItemAccess(old(db.tables), id, caller.id);
      && (!a.Granted? ==> res == Response(403, Error(AccessError(a, MsgNoDeleteItem))) && db.tables == old(db.tables))
      && (a.Granted? ==>
           && db.tables == old(db.tables).(
                items := Remove(old(db.tables.items), id),
                lists := Touch(old(db.tables.lists), a.item.listId, db.clock))
           && res == Response(200, Message(MsgItemDeleted)))
  {
    ghost var a := ItemAccess(db.tables, id, caller.id);
    var r := ItemModel.Delete(db, id, caller.id);
    match r
    case Err(m) =>
      AccessErrorsAre403(a, MsgNoDeleteItem);
      res := Caught(m, WriteKeywords, 403);
    case Ok(deleted) =>
      if !deleted {
        return Response(400, Error(MsgItemDeleteFailed));
      }
      res := Response(200, Message(MsgItemDeleted));
  }
}
