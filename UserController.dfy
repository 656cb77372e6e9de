/** `UserController` (backend/src/controllers/userController.js): the
    profile routes' validation, the email-conflict check and field merge of
    `updateProfile`, the guards of `deleteAccount`, `getProfile`, and the
    assembly of `exportData`. Password comparison (bcrypt) is the parameter
    `matches`; `isEmail` and `isURL` are parameters too. */
module UserController {
  import opened Base
  import opened Js
  import opened Store
  import opened Http
  import ListModel
  import ItemModel
  import opened UserModel

  const MsgShortName: string := "Nome deve ter pelo menos 2 caracteres"
  const MsgBadEmail: string := "Email inválido"
  const MsgBadAvatar: string := "Avatar deve ser uma URL válida"
  const MsgNoUser: string := "Usuário não encontrado"
  const MsgEmailInUse: string := "Email já está em uso"
  const MsgProfileFailed: string := "Falha ao atualizar perfil"
  const MsgProfileUpdated: string := "Perfil atualizado com sucesso"
  const MsgPasswordRequired: string := "Senha é obrigatória para deletar a conta"
  const MsgWrongPassword: string := "Senha incorreta"
  const MsgAccountDeleteFailed: string := "Falha ao deletar conta"
  const MsgAccountDeleted: string := "Conta deletada com sucesso"
  const MsgExported: string := "Dados exportados com sucesso"

  /** The user fields `updateProfile` returns. */
  datatype Account = Account(id: Id, name: string, email: string, avatar: Option<string>)

  /** One list of the export: the row of `findByUser` with its items. */
  datatype ExportedList = ExportedList(view: ListModel.ListView, items: seq<ItemRow>)

  /** `userData`: the caller's id, name and email, then the lists. */
  datatype Export = Export(user: Caller, lists: seq<ExportedList>)

  /** The payloads of the profile routes' successful replies. */
  datatype UserPayload =
    | ProfileAndStats(user: Profile, stats: UserStats)
    | ProfileSaved(message: string, account: Account)
    | Exported(message: string, data: Export, exportedAt: string)

  // ------------------------------------------------------------ validation

  /** `updateUserValidation`: every field is optional; a given name must keep
      at least two characters after `trim()`, a given email must pass
      `isEmail`, a given avatar `isURL`. */
  function ProfileErrors(name: Option<string>, email: Option<string>, avatar: Option<string>,
                         isEmail: string -> bool, isURL: string -> bool): (errs: seq<string>)
    ensures errs == [] <==>
      && (name.None? || |Trim(name.value)| >= 2)
      && (email.None? || isEmail(email.value))
      && (avatar.None? || isURL(avatar.value))
    ensures name.Some? && |name.value| < 2 ==> MsgShortName in errs
    ensures name.Some? && (forall i :: 0 <= i < |name.value| ==> IsSpace(name.value[i])) ==> MsgShortName in errs
  {
    (if name.None? || |Trim(name.value)| >= 2 then [] else [MsgShortName])
    + (if email.None? || isEmail(email.value) then [] else [MsgBadEmail])
    + (if avatar.None? || isURL(avatar.value) then [] else [MsgBadAvatar])
  }

  // ------------------------------------------------------------ updateProfile

  /** The values `updateProfile` writes: `name || req.user.name`,
      `email || req.user.email` and `avatar || null`. */
  function Merge(caller: Caller, name: Option<string>, email: Option<string>, avatar: Option<string>)
    : (r: (string, string, Option<string>))
    ensures name.None? || name == Some("") ==> r.0 == caller.name
    ensures email.None? || email == Some("") ==> r.1 == caller.email
    ensures avatar.None? || avatar == Some("") ==> r.2 == None
    ensures name.Some? && name.value != "" ==> r.0 == name.value
    ensures email.Some? && email.value != "" ==> r.1 == email.value
    ensures avatar.Some? && avatar.value != "" ==> r.2 == avatar
  {
    (OrElse(name, caller.name), OrElse(email, caller.email), OrNull(avatar))
  }

  /** The check before the update: a given, non-empty email other than the
      caller's own that some user already has. */
  predicate EmailConflict(t: Tables, caller: Caller, email: Option<string>) {
    email.Some? && email.value != "" && email.value != caller.email && FindUserByEmail(t.users, email.value).Some?
  }

  /** `req.user` is the caller's current row. */
  ghost predicate CallerCurrent(t: Tables, caller: Caller) {
    exists u :: u in t.users && u.id == caller.id && u.name == caller.name && u.email == caller.email
  }

  /** The email the merge writes is never taken by another user once the
      conflict check has passed, as long as `req.user` is the caller's
      current row: so `User.update` cannot hit `email UNIQUE`. */
  lemma MergedEmailFree(t: Tables, caller: Caller, name: Option<string>, email: Option<string>, avatar: Option<string>)
    requires Pairwise(t.users, UserBefore) && CallerCurrent(t, caller) && !EmailConflict(t, caller, email)
    ensures !EmailTaken(t.users, caller.id, Merge(caller, name, email, avatar).1)
  {
    var e := Merge(caller, name, email, avatar).1;
    var me :| me in t.users && me.id == caller.id && me.name == caller.name && me.email == caller.email;
    assert e == caller.email || FindUserByEmail(t.users, e).None?;
    OnlyRowWithEmail(t.users, me);
  }

  /** No other row of a users table shares the email of `a`. */
  lemma OnlyRowWithEmail(users: seq<UserRow>, a: UserRow)
    requires Pairwise(users, UserBefore) && a in users
    ensures forall b :: b in users && b.email == a.email ==> b == a
  {
    forall b | b in users && b.email == a.email ensures b == a {
      UniqueEmails(users, a, b);
    }
  }

  /** Two rows of a users table with clashing emails are the same row. */
  lemma UniqueEmails(users: seq<UserRow>, a: UserRow, b: UserRow)
    requires Pairwise(users, UserBefore) && a in users && b in users && a.email == b.email
    ensures a == b
  {
    var i :| 0 <= i < |users| && users[i] == a;
    var j :| 0 <= j < |users| && users[j] == b;
    assert !UserBefore(users[i], users[j]) && !UserBefore(users[j], users[i]);
  }

  /** `updateProfile`: validation (400), the email check (409, nothing
      written), then the merged update; a vanished caller row is a 400. */
  method UpdateProfile(db: Database, caller: Caller, name: Option<string>, email: Option<string>, avatar: Option<string>,
                       isEmail: string -> bool, isURL: string -> bool)
    returns (res: Response<UserPayload>)
    requires db.Valid()
    modifies db
    ensures db.Valid()
    ensures ProfileErrors(name, email, avatar, isEmail, isURL) != [] ==>
      res == Response(400, Invalid(ProfileErrors(name, email, avatar, isEmail, isURL))) && db.tables == old(db.tables)
    ensures ProfileErrors(name, email, avatar, isEmail, isURL) == [] && EmailConflict(old(db.tables), caller, email) ==>
      res == Response(409, Error(MsgEmailInUse)) && db.tables == old(db.tables)
    ensures ProfileErrors(name, email, avatar, isEmail, isURL) == [] && !EmailConflict(old(db.tables), caller, email) ==>
      var m := Merge(caller, Trimmed(name), email, avatar);
      && (caller.id !in UserIds(old(db.tables.users)) ==>
            res == Response(400, Error(MsgProfileFailed)) && db.tables == old(db.tables))
      && (caller.id in UserIds(old(db.tables.users)) && EmailTaken(old(db.tables.users), caller.id, m.1) ==>
            res == Response(500, Error(MsgInternal)) && db.tables == old(db.tables))
      && (caller.id in UserIds(old(db.tables.users)) && !EmailTaken(old(db.tables.users), caller.id, m.1) ==>
            && db.tables == old(db.tables).(users := SetProfile(old(db.tables.users), caller.id, m.0, m.1, m.2, db.clock))
            && res == Response(200, Payload(ProfileSaved(MsgProfileUpdated, Account(caller.id, m.0, m.1, m.2)))))
  {
    var errs := ProfileErrors(name, email, avatar, isEmail, isURL);
    if errs != [] {
      return Response(400, Invalid(errs));
    }
    if email.Some? && email.value != "" && email.value != caller.email && FindUserByEmail(db.tables.users, email.value).Some? {
      return Response(409, Error(MsgEmailInUse));
    }
    var m := Merge(caller, Trimmed(name), email, avatar);
    ghost var before := db.tables.users;
    var r := UserModel.Update(db, caller.id, m.0, m.1, m.2);
    match r
    case Err(_) =>
      res := Response(500, Error(MsgInternal));
    case Ok(updated) =>
      if !updated {
        return Response(400, Error(MsgProfileFailed));
      }
      UpdatedRowRead(before, caller.id, m.0, m.1, m.2, db.clock);
      var p := UserModel.FindById(db.tables, caller.id);
      res := Response(200, Payload(ProfileSaved(MsgProfileUpdated, Account(p.value.id, p.value.name, p.value.email, p.value.avatar))));
  }

  /** After `SET name, email, avatar` on the caller's row, `findById` reads
      the new values back. */
  lemma UpdatedRowRead(users: seq<UserRow>, id: Id, name: string, email: string, avatar: Option<string>, now: Time)
    requires id in UserIds(users)
    requires Pairwise(UserModel.SetProfile(users, id, name, email, avatar, now), UserBefore)
    ensures var f := FindUser(UserModel.SetProfile(users, id, name, email, avatar, now), id);
      f.Some? && f.value.name == name && f.value.email == email && f.value.avatar == avatar
  {
    var after := UserModel.SetProfile(users, id, name, email, avatar, now);
    var k :| 0 <= k < |users| && users[k].id == id;
    assert after[k].id == id;
    assert after[k] in after;
    FindUserOnly(after, after[k]);
  }

  // ------------------------------------------------------------ getProfile

  /** `getProfile`: 404 for a caller row that is gone, otherwise the profile
      and the caller's counts. */
  function GetProfile(t: Tables, caller: Caller): (res: Response<UserPayload>)
    ensures UserModel.FindById(t, caller.id).None? <==> res == Response(404, Error(MsgNoUser))
    ensures res.status == 200 <==> caller.id in UserIds(t.users)
    ensures res.status == 200 ==>
      res.body == Payload(ProfileAndStats(UserModel.FindById(t, caller.id).value, GetStats(t, caller.id)))
  {
    match UserModel.FindById(t, caller.id)
    case None => Response(404, Error(MsgNoUser))
    case Some(p) => Response(200, Payload(ProfileAndStats(p, GetStats(t, caller.id))))
  }

  /** What `getProfile` shows does not depend on the stored password. */
  lemma ProfileIgnoresPassword(t: Tables, caller: Caller, password: PasswordHash, now: Time)
    ensures GetProfile(t.(users := SetPassword(t.users, caller.id, password, now)), caller) == GetProfile(t, caller)
  {
    var t' := t.(users := SetPassword(t.users, caller.id, password, now));
    PasswordNotInProfile(t, caller.id, password, now, caller.id);
    FilterExt(t.items, DoneInOwnList(t', caller.id), DoneInOwnList(t, caller.id));
  }

  // ------------------------------------------------------------ deleteAccount

  /** `deleteAccount`: a missing or empty password is a 400 before any
      lookup; a password that does not match the caller's row is a 401 and
      deletes nothing; otherwise the account and its cascade go. A missing
      row by email makes `validatePassword` read a property of `undefined`,
      which the handler answers with 500. */
  method DeleteAccount(db: Database, caller: Caller, password: Option<string>, matches: (string, PasswordHash) -> bool)
    returns (res: Response<UserPayload>)
    requires db.Valid()
    modifies db
    ensures db.Valid()
    ensures password.None? || password.value == "" ==>
      res == Response(400, Error(MsgPasswordRequired)) && db.tables == old(db.tables)
    ensures password.Some? && password.value != "" ==>
      var row := FindUserByEmail(old(db.tables.users), caller.email);
      && (row.None? ==> res == Response(500, Error(MsgInternal)) && db.tables == old(db.tables))
      && (row.Some? && !matches(password.value, row.value.password) ==>
            res == Response(401, Error(MsgWrongPassword)) && db.tables == old(db.tables))
      && (row.Some? && matches(password.value, row.value.password) ==>
            && db.tables == DeleteUserCascade(old(db.tables), caller.id)
            && res == if caller.id in UserIds(old(db.tables.users))
                      then Response(200, Message(MsgAccountDeleted))
                      else Response(400, Error(MsgAccountDeleteFailed)))
  {
    if password.None? || password.value == "" {
      return Response(400, Error(MsgPasswordRequired));
    }
    var row := FindUserByEmail(db.tables.users, caller.email);
    if row.None? {
      return Response(500, Error(MsgInternal));
    }
    if !matches(password.value, row.value.password) {
      return Response(401, Error(MsgWrongPassword));
    }
    var deleted := UserModel.Delete(db, caller.id);
    if !deleted {
      return Response(400, Error(MsgAccountDeleteFailed));
    }
    res := Response(200, Message(MsgAccountDeleted));
  }

  // ------------------------------------------------------------ exportData

  /** `exportData`: one entry per list of `findByUser`, in its order, each
      with the items `findByList` returns for it. A list the caller may not
      read makes `findByList` throw, and the whole export is a 500. The
      time stamp is a parameter. */
  method ExportData(t: Tables, caller: Caller, exportedAt: string) returns (res: Response<UserPayload>)
    ensures var views := ListModel.FindByUser(t, caller.id);
      res.status == 200 <==> forall k :: 0 <= k < |views| ==> ListModel.CheckPermission(t, views[k].list.id, caller.id, "read")
    ensures res.status != 200 ==> res == Response(500, Error(MsgInternal))
    ensures res.status == 200 ==>
      && res.body.Payload? && res.body.value.Exported?
      && res.body.value.message == MsgExported && res.body.value.exportedAt == exportedAt
      && res.body.value.data.user == caller
      && ExportOf(t, caller.id, ListModel.FindByUser(t, caller.id), res.body.value.data.lists)
  {
    var lists := ListModel.FindByUser(t, caller.id);
    var out := ExportLists(t, caller.id, lists);
    if out.None? {
      return Response(500, Error(MsgInternal));
    }
    res := Response(200, Payload(Exported(MsgExported, Export(caller, out.value), exportedAt)));
  }

  /** `out` has one entry per list of `views`, in order, each carrying the
      items `findByList` returns for that list. */
  ghost predicate ExportOf(t: Tables, userId: Id, views: seq<ListModel.ListView>, out: seq<ExportedList>) {
    |out| == |views| && ExportPrefix(t, userId, views, out)
  }

  /** `out` is an export of the first `|out|` lists of `views`. */
  ghost predicate ExportPrefix(t: Tables, userId: Id, views: seq<ListModel.ListView>, out: seq<ExportedList>) {
    && |out| <= |views|
    && forall k :: 0 <= k < |out| ==>
         out[k].view == views[k] && ItemModel.FindByList(t, views[k].list.id, userId) == Ok(out[k].items)
  }

  /** The `for` loop of `exportData`: `push`es one entry per list, or stops
      at the first list whose items `findByList` refuses. */
  method ExportLists(t: Tables, userId: Id, lists: seq<ListModel.ListView>) returns (out: Option<seq<ExportedList>>)
    ensures out.Some? <==> forall k :: 0 <= k < |lists| ==> ListModel.CheckPermission(t, lists[k].list.id, userId, "read")
    ensures out.Some? ==> ExportOf(t, userId, lists, out.value)
  {
    var acc: seq<ExportedList> := [];
    while |acc| < |lists|
      invariant ExportPrefix(t, userId, lists, acc)
      invariant forall k :: 0 <= k < |acc| ==> ListModel.CheckPermission(t, lists[k].list.id, userId, "read")
      decreases |lists| - |acc|
    {
      var v := lists[|acc|];
      var items := ItemModel.FindByList(t, v.list.id, userId);
      if items.Err? {
        assert !ListModel.CheckPermission(t, v.list.id, userId, "read");
        return None;
      }
      ExportPrefixAppend(t, userId, lists, acc, items.value);
      acc := acc + [ExportedList(v, items.value)];
    }
    out := Some(acc);
  }

  /** One more `push` extends an export by the next list. */
  lemma ExportPrefixAppend(t: Tables, userId: Id, lists: seq<ListModel.ListView>, acc: seq<ExportedList>, items: seq<ItemRow>)
    requires |acc| < |lists|
    requires ExportPrefix(t, userId, lists, acc)
    requires ItemModel.FindByList(t, lists[|acc|].list.id, userId) == Ok(items)
    ensures ExportPrefix(t, userId, lists, acc + [ExportedList(lists[|acc|], items)])
  {
    var out := acc + [ExportedList(lists[|acc|], items)];
    forall k | 0 <= k < |out|
      ensures out[k].view == lists[k] && ItemModel.FindByList(t, lists[k].list.id, userId) == Ok(out[k].items)
    {
      if k < |acc| {
        assert out[k] == acc[k];
      }
    }
  }

  /** On a consistent database whose share rows all carry a known level, the
      caller may read every list `findByUser` returns, so the export succeeds. */
  lemma ExportableWhenLevelsKnown(t: Tables, caller: Caller, k: int)
    requires Consistent(t)
    requires forall s :: s in t.shares ==> s.permission in ListModel.Levels
    requires 0 <= k < |ListModel.FindByUser(t, caller.id)|
    ensures ListModel.CheckPermission(t, ListModel.FindByUser(t, caller.id)[k].list.id, caller.id, "read")
  {
    var v := ListModel.FindByUser(t, caller.id)[k];
    assert v in ListModel.FindByUser(t, caller.id);
    ReadableIfVisible(t, v.list, caller.id);
  }

  /** A list the user created or holds a share of a known level on passes the read check. */
  lemma ReadableIfVisible(t: Tables, l: ListRow, userId: Id)
    requires Consistent(t) && l in t.lists && ListModel.VisibleTo(t, userId, l)
    requires forall s :: s in t.shares ==> s.permission in ListModel.Levels
    ensures ListModel.CheckPermission(t, l.id, userId, "read")
  {
    if l.createdBy == userId {
      ListModel.OwnerAlwaysAllowed(t, l);
    } else {
      var s :| s in t.shares && s.listId == l.id && s.userId == userId;
      assert ListModel.LevelIndex(s.permission) >= 0 == ListModel.LevelIndex("read");
      ListModel.CheckPermissionMeansGrants(t, l.id, userId, "read");
    }
  }
}
