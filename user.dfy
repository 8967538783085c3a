/** The user controller: the read-only rules (login, search, fetch, the
    access check) as functions over the user and role tables, and the
    handlers that write as methods of a store holding the user table. */
module UserController {
  import opened Common
  import opened UserModel
  import opened UserBulk
  import RoleController

  type RoleTable = RoleController.RoleTable

  /** The message each handler answers with; messages whose text or extra
      fields are built from data carry that data. */
  datatype UserMsg =
    | EmailExists
    | UserRegistered
    | InvalidCredential
    | InactiveAccount
    | InvalidPassword
    | LoginSuccess
    | GeneralError
    | SearchNotFound
    | UsersFetched
    | UserNotFound
    | UserUpdated
    | UserDeleted
    | AccessModuleRequired
    | RoleNotFound
    | AccessDenied(requested: string)
    | AccessGranted(requested: string)
    | UserIdsRequired
    | NameRequired
    | NotBoth
    | InvalidUserIds(ids: seq<Id>)
    | UsersUpdated(count: nat)
    | NoUserChanged
    | UserArrayRequired
    | NoValidUpdate(invalidFields: seq<BadFields>, invalidIds: seq<Option<Id>>)
    | BatchUpdated(count: nat, invalidIds: seq<Option<Id>>, invalidFields: seq<BadFields>)

  /** What a successful login returns: the claims the token signs and the
      user summary with the name of the user's role. */
  datatype Session = Session(token: Claims, id: Id, firstName: string, lastName: string, email: string, role: string)

  // ---------------------------------------------------------------- login

  /** `login`. The lookup by email has no `isDeleted` filter. The checks run
      in order: unknown email (401), inactive account (403, before the
      password is looked at), wrong password (401). A user whose role is gone
      makes reading the populated role name throw (500). */
  function Login(users: UserTable, roles: RoleTable, email: string, password: string,
                 verify: (string, string) -> bool): (r: Reply<UserMsg, Session>)
    requires UniqueEmails(users)
    ensures r == Reply(401, InvalidCredential, None) <==> !EmailTaken(users, email, None)
    ensures r == Reply(403, InactiveAccount, None) <==>
      exists id :: id in users && users[id].email == email && !users[id].isActive
    ensures r == Reply(401, InvalidPassword, None) <==>
      exists id :: id in users && users[id].email == email && users[id].isActive
                && !verify(password, users[id].password)
    ensures r.code == 200 <==>
      exists id :: id in users && users[id].email == email && users[id].isActive
                && verify(password, users[id].password) && users[id].roleId in roles
    ensures r.code == 200 ==>
      && r.msg == LoginSuccess && r.data.Some?
      && var s := r.data.value;
         && s.id in users && users[s.id].email == email
         && s.token == Claims(s.id, email, users[s.id].roleId)
         && s.firstName == users[s.id].firstName && s.lastName == users[s.id].lastName
         && s.email == email
         && s.role == roles[users[s.id].roleId].roleName
    ensures r == Reply(500, GeneralError, None) <==>
      exists id :: id in users && users[id].email == email && users[id].isActive
                && verify(password, users[id].password) && users[id].roleId !in roles
    ensures r.code == 200 || r.code == 401 || r.code == 403 || r.code == 500
  {
    if !EmailTaken(users, email, None) then Reply(401, InvalidCredential, None)
    else
      var id :| id in users && users[id].email == email;
      var user := users[id];
      if !user.isActive then Reply(403, InactiveAccount, None)
      else if !verify(password, user.password) then Reply(401, InvalidPassword, None)
      else if user.roleId !in roles then Reply(500, GeneralError, None)
      else
        var session := Session(Claims(id, user.email, user.roleId), id, user.firstName, user.lastName,
                               user.email, roles[user.roleId].roleName);
        Reply(200, LoginSuccess, Some(session))
  }

  /** An inactive account is refused before the password is looked at: the
      outcome does not depend on the password or on the verifier. */
  lemma InactiveBeforePassword(users: UserTable, roles: RoleTable, email: string,
                               p1: string, p2: string, v1: (string, string) -> bool, v2: (string, string) -> bool)
    requires UniqueEmails(users)
    requires exists id :: id in users && users[id].email == email && !users[id].isActive
    ensures Login(users, roles, email, p1, v1) == Login(users, roles, email, p2, v2) == Reply(403, InactiveAccount, None)
  {
  }

  /** Login does not look at `isDeleted`: a soft-deleted user logs in as before. */
  lemma LoginIgnoresDeletion(users: UserTable, roles: RoleTable, id: Id, email: string,
                             password: string, verify: (string, string) -> bool)
    requires UniqueEmails(users) && id in users
    ensures UniqueEmails(users[id := users[id].(isDeleted := true)])
    ensures Login(users[id := users[id].(isDeleted := true)], roles, email, password, verify)
         == Login(users, roles, email, password, verify)
  {
    var deleted := users[id := users[id].(isDeleted := true)];
    WriteKeepsUniqueEmails(users, id, users[id].(isDeleted := true));
    if EmailTaken(users, email, None) {
      var j :| j in users && users[j].email == email;
      assert j in deleted && deleted[j].email == email;
    }
  }

  /** Registering and then logging in with the same password succeeds, with
      the claims of the new user, provided the verifier accepts the hash of
      the password and the role exists. */
  lemma RegisterThenLogin(users: UserTable, roles: RoleTable, id: Id,
                          firstName: string, lastName: string, email: string, password: string, roleId: Id,
                          hash: string -> string, verify: (string, string) -> bool)
    requires UniqueEmails(users) && id !in users && !EmailTaken(users, email, None)
    requires verify(password, hash(password)) && roleId in roles
    ensures var after := users[id := User(firstName, lastName, email, hash(password), roleId, true, false)];
      && UniqueEmails(after)
      && Login(after, roles, email, password, verify)
         == Reply(200, LoginSuccess,
                  Some(Session(Claims(id, email, roleId), id, firstName, lastName, email, roles[roleId].roleName)))
  {
    var created := User(firstName, lastName, email, hash(password), roleId, true, false);
    var after := users[id := created];
    WriteKeepsUniqueEmails(users, id, created);
    assert id in after && after[id].email == email;
    assert forall j :: j in after && after[j].email == email ==> j == id;
  }

  // ---------------------------------------------------------- access check

  /** `role.accessModule.map(m => m.toLowerCase())`: one folded entry per
      module, so a text is among them exactly when some module folds to it. */
  function LowerAll(modules: seq<string>, lower: string -> string): (r: seq<string>)
    ensures |r| == |modules|
    ensures forall x :: x in r <==> exists m :: m in modules && lower(m) == x
  {
    if modules == [] then []
    else
      var rest := LowerAll(modules[1..], lower);
      assert forall m :: m in modules[1..] ==> m in modules;
      assert forall m :: m in modules ==> m == modules[0] || m in modules[1..];
      [lower(modules[0])] + rest
  }

  /** `checkUserAccess` for the user id taken from the verified token.
      `accessToModule` is `None` when it is missing or not a string. */
  function CheckUserAccess(users: UserTable, roles: RoleTable, userId: Id, accessToModule: Option<string>,
                           lower: string -> string): (r: Reply<UserMsg, ()>)
    ensures !Truthy(accessToModule) ==> r == Reply(400, AccessModuleRequired, None)
    ensures Truthy(accessToModule) && userId !in users ==> r == Reply(404, UserNotFound, None)
    ensures Truthy(accessToModule) && userId in users && users[userId].roleId !in roles ==>
      r == Reply(404, RoleNotFound, None)
    ensures Truthy(accessToModule) && userId in users && users[userId].roleId in roles ==>
      var request := accessToModule.value;
      var granted := exists m :: m in roles[users[userId].roleId].accessModule && lower(m) == lower(request);
      r == if granted then Reply(200, AccessGranted(request), None) else Reply(403, AccessDenied(request), None)
  {
    if !Truthy(accessToModule) then Reply(400, AccessModuleRequired, None)
    else if userId !in users then Reply(404, UserNotFound, None)
    else if users[userId].roleId !in roles then Reply(404, RoleNotFound, None)
    else
      var role := roles[users[userId].roleId];
      var request := accessToModule.value;
      if lower(request) in LowerAll(role.accessModule, lower) then Reply(200, AccessGranted(request), None)
      else Reply(403, AccessDenied(request), None)
  }

  /** The access check reads neither flag of any user nor of any role. */
  lemma AccessIgnoresFlags(users: UserTable, roles: RoleTable, userId: Id, accessToModule: Option<string>,
                           lower: string -> string, x: Id, a: bool, d: bool, rid: Id, b: bool, e: bool)
    requires x in users && rid in roles
    ensures CheckUserAccess(users[x := users[x].(isActive := a, isDeleted := d)],
                            roles[rid := roles[rid].(isActive := b, isDeleted := e)],
                            userId, accessToModule, lower)
         == CheckUserAccess(users, roles, userId, accessToModule, lower)
  {
  }

  /** A role granting "Billing" lets "billing" through and refuses "invoice",
      with ASCII case folding. */
  lemma AccessExample(users: UserTable, roles: RoleTable, userId: Id)
    requires userId in users && users[userId].roleId in roles
    requires roles[users[userId].roleId].accessModule == ["Billing"]
    ensures CheckUserAccess(users, roles, userId, Some("billing"), AsciiLower).code == 200
    ensures CheckUserAccess(users, roles, userId, Some("invoice"), AsciiLower).code == 403
  {
    assert AsciiLower("Billing") == AsciiLower("billing");
    assert AsciiLower("Billing")[0] != AsciiLower("invoice")[0];
  }

  // --------------------------------------------------------- search, fetch

  /** The search filter of `getAllUsers`: with a truthy `search`, a
      case-insensitive prefix of the first name, last name or email. */
  predicate Matches(u: User, search: Option<string>, lower: string -> string)
  {
    || !Truthy(search)
    || IsPrefix(lower(search.value), lower(u.firstName))
    || IsPrefix(lower(search.value), lower(u.lastName))
    || IsPrefix(lower(search.value), lower(u.email))
  }

  /** With ASCII folding, a user is found by any non-empty prefix of their
      email. */
  lemma FoundByEmailPrefix(u: User, t: string)
    requires t != "" && IsPrefix(t, u.email)
    ensures Matches(u, Some(t), AsciiLower)
  {
    assert forall i :: 0 <= i < |t| ==> u.email[i] == t[i];
  }

  /** `getAllUsers`: exactly the users that are not soft-deleted and match
      the search; 404 when there is none. */
  function GetAllUsers(users: UserTable, search: Option<string>, lower: string -> string): (r: Reply<UserMsg, UserTable>)
    ensures r.data.Some?
    ensures forall id :: id in r.data.value <==> id in users && !users[id].isDeleted && Matches(users[id], search, lower)
    ensures forall id :: id in r.data.value ==> r.data.value[id] == users[id]
    ensures r.code == (if r.data.value == map[] then 404 else 200)
    ensures r.msg == (if r.code == 404 then SearchNotFound else UsersFetched)
  {
    var found := map id | id in users && !users[id].isDeleted && Matches(users[id], search, lower) :: users[id];
    if found == map[] then Reply(404, SearchNotFound, Some(found)) else Reply(200, UsersFetched, Some(found))
  }

  /** A search string that folds to the same text finds the same users. */
  lemma SearchIsCaseInsensitive(users: UserTable, s1: string, s2: string, lower: string -> string)
    requires s1 != "" && s2 != "" && lower(s1) == lower(s2)
    ensures GetAllUsers(users, Some(s1), lower) == GetAllUsers(users, Some(s2), lower)
  {
    var found1 := GetAllUsers(users, Some(s1), lower).data.value;
    var found2 := GetAllUsers(users, Some(s2), lower).data.value;
    assert forall u :: Matches(u, Some(s1), lower) == Matches(u, Some(s2), lower);
    assert found1.Keys == found2.Keys;
    assert found1 == found2;
  }

  /** `getUserById`: the user whatever its `isDeleted` flag; 400 only when
      the id is unknown. */
  function GetUserById(users: UserTable, id: Id): (r: Reply<UserMsg, (Id, User)>)
    ensures r.code == 200 <==> id in users
    ensures id in users ==> r.msg == UsersFetched && r.data == Some((id, users[id]))
    ensures id !in users ==> r == Reply(400, UserNotFound, None)
  {
    if id in users then Reply(200, UsersFetched, Some((id, users[id]))) else Reply(400, UserNotFound, None)
  }

  // --------------------------------------------------------- update many

  /** `ids.filter(id => !validIds.includes(id))`: the requested ids no user
      has, in request order with their repeats. */
  function UnknownIds(ids: seq<Id>, users: UserTable): (r: seq<Id>)
    ensures |r| <= |ids|
    ensures forall id :: id in r <==> id in ids && id !in users
  {
    if ids == [] then [] else (if ids[0] in users then [] else [ids[0]]) + UnknownIds(ids[1..], users)
  }

  /** The unknown ids keep the request order: the filter distributes over
      concatenation. */
  lemma {:induction false} UnknownIdsConcat(a: seq<Id>, b: seq<Id>, users: UserTable)
    ensures UnknownIds(a + b, users) == UnknownIds(a, users) + UnknownIds(b, users)
  {
    if a == [] {
      assert a + b == b;
    } else {
      assert (a + b)[0] == a[0] && (a + b)[1..] == a[1..] + b;
      UnknownIdsConcat(a[1..], b, users);
    }
  }

  /** The one name field a many-user update sets. */
  datatype NameUpdate = SetLastName(lastName: string) | SetFirstName(firstName: string)

  function Rename(u: User, f: NameUpdate): User
  {
    match f
    case SetLastName(v) => u.(lastName := v)
    case SetFirstName(v) => u.(firstName := v)
  }

  /** `updateMany` with `$set` of one name field on the listed users: they
      get that value and nothing else of any user changes. */
  function RenameAll(users: UserTable, ids: seq<Id>, f: NameUpdate): (r: UserTable)
    ensures r.Keys == users.Keys
    ensures forall id :: id in users && id in ids ==> r[id] == Rename(users[id], f)
    ensures forall id :: id in users && id !in ids ==> r[id] == users[id]
    ensures forall id :: id in users ==> r[id].email == users[id].email
  {
    map id | id in users :: if id in ids then Rename(users[id], f) else users[id]
  }

  /** The listed users whose value actually changes. */
  function ChangedCount(users: UserTable, ids: seq<Id>, f: NameUpdate): nat
  {
    |set id | id in ids && id in users && Rename(users[id], f) != users[id]|
  }

  /** No listed user changes exactly when the update leaves the table as it was. */
  lemma NoChangeIffSameTable(users: UserTable, ids: seq<Id>, f: NameUpdate)
    ensures ChangedCount(users, ids, f) == 0 <==> RenameAll(users, ids, f) == users
  {
    var changed := set id | id in ids && id in users && Rename(users[id], f) != users[id];
    if changed == {} {
      forall id | id in users
        ensures RenameAll(users, ids, f)[id] == users[id]
      {
        if id in ids {
          assert id !in changed;
        }
      }
    } else {
      var id :| id in changed;
      assert RenameAll(users, ids, f)[id] != users[id];
    }
  }

  /** A name update touches no email, so emails stay unique. */
  lemma RenameAllKeepsUniqueEmails(users: UserTable, ids: seq<Id>, f: NameUpdate)
    requires UniqueEmails(users)
    ensures UniqueEmails(RenameAll(users, ids, f))
  {
  }

  // ---------------------------------------------------------------- store

  /** The user table held in place. Ids come from a counter; the unique
      index on `email` is part of the invariant. */
  class UserStore {
    var users: UserTable
    var nextId: Id

    ghost predicate Valid()
      reads this
    {
      (forall id :: id in users ==> id < nextId) && UniqueEmails(users)
    }

    constructor ()
      ensures Valid() && users == map[]
    {
      users := map[];
      nextId := 0;
    }

    /** `register`: refused when any user, soft-deleted or not, has the
        email; otherwise the new user stores the hash of the password. */
    method Register(firstName: string, lastName: string, email: string, password: string, roleId: Id,
                    hash: string -> string) returns (reply: Reply<UserMsg, (Id, User)>)
      requires Valid()
      modifies this
      ensures Valid()
      ensures EmailTaken(old(users), email, None) ==>
        reply == Reply(400, EmailExists, None) && users == old(users) && nextId == old(nextId)
      ensures !EmailTaken(old(users), email, None) ==>
        var created := User(firstName, lastName, email, hash(password), roleId, true, false);
        && old(nextId) !in old(users)
        && users == old(users)[old(nextId) := created]
        && reply == Reply(201, UserRegistered, Some((old(nextId), created)))
    {
      if EmailTaken(users, email, None) {
        return Reply(400, EmailExists, None);
      }
      var id := nextId;
      var created := User(firstName, lastName, email, hash(password), roleId, true, false);
      WriteKeepsUniqueEmails(users, id, created);
      users := users[id := created];
      nextId := nextId + 1;
      reply := Reply(201, UserRegistered, Some((id, created)));
    }

    /** `updateUser`: the email check runs first, so an unknown id whose
        requested email another user holds gets 400, not 404. */
    method UpdateUser(id: Id, firstName: string, lastName: string, email: string, roleId: Id, isActive: bool)
      returns (reply: Reply<UserMsg, (Id, User)>)
      requires Valid()
      modifies this
      ensures Valid() && nextId == old(nextId)
      ensures EmailTaken(old(users), email, Some(id)) ==>
        reply == Reply(400, EmailExists, None) && users == old(users)
      ensures !EmailTaken(old(users), email, Some(id)) && id !in old(users) ==>
        reply == Reply(404, UserNotFound, None) && users == old(users)
      ensures !EmailTaken(old(users), email, Some(id)) && id in old(users) ==>
        var updated := old(users)[id].(firstName := firstName, lastName := lastName, email := email,
                                       roleId := roleId, isActive := isActive);
        && users == old(users)[id := updated]
        && updated.password == old(users)[id].password && updated.isDeleted == old(users)[id].isDeleted
        && reply == Reply(200, UserUpdated, Some((id, updated)))
    {
      if EmailTaken(users, email, Some(id)) {
        return Reply(400, EmailExists, None);
      }
      if id !in users {
        return Reply(404, UserNotFound, None);
      }
      var updated := users[id].(firstName := firstName, lastName := lastName, email := email,
                                roleId := roleId, isActive := isActive);
      WriteKeepsUniqueEmails(users, id, updated);
      users := users[id := updated];
      reply := Reply(200, UserUpdated, Some((id, updated)));
    }

    /** `deleteUser`: a soft delete, which sets only `isDeleted`. */
    method DeleteUser(id: Id) returns (reply: Reply<UserMsg, (Id, User)>)
      requires Valid()
      modifies this
      ensures Valid() && nextId == old(nextId)
      ensures id !in old(users) ==> reply == Reply(400, UserNotFound, None) && users == old(users)
      ensures id in old(users) ==>
        && reply == Reply(200, UserDeleted, None)
        && users == old(users)[id := old(users)[id].(isDeleted := true)]
    {
      if id !in users {
        return Reply(400, UserNotFound, None);
      }
      WriteKeepsUniqueEmails(users, id, users[id].(isDeleted := true));
      users := users[id := users[id].(isDeleted := true)];
      reply := Reply(200, UserDeleted, None);
    }

    /** `updateManyUsers`. `ids` is `None` when it is not an array. */
    method UpdateManyUsers(ids: Option<seq<Id>>, lastName: Option<string>, firstName: Option<string>)
      returns (reply: Reply<UserMsg, ()>)
      requires Valid()
      modifies this
      ensures Valid() && nextId == old(nextId)
      ensures ids.None? || ids.value == [] ==> reply == Reply(400, UserIdsRequired, None) && users == old(users)
      ensures ids.Some? && ids.value != [] && !Truthy(lastName) && !Truthy(firstName) ==>
        reply == Reply(400, NameRequired, None) && users == old(users)
      ensures ids.Some? && ids.value != [] && Truthy(lastName) && Truthy(firstName) ==>
        reply == Reply(400, NotBoth, None) && users == old(users)
      ensures ids.Some? && ids.value != [] && Truthy(lastName) != Truthy(firstName) ==>
        var unknown := UnknownIds(ids.value, old(users));
        var f := if Truthy(lastName) then SetLastName(lastName.value) else SetFirstName(firstName.value);
        var count := ChangedCount(old(users), ids.value, f);
        if unknown != [] then
          reply == Reply(404, InvalidUserIds(unknown), None) && users == old(users)
        else
          && users == RenameAll(old(users), ids.value, f)
          && reply == (if count > 0 then Reply(200, UsersUpdated(count), None) else Reply(404, NoUserChanged, None))
          && (reply.code == 404 <==> users == old(users))
    {
      if ids.None? || ids.value == [] {
        return Reply(400, UserIdsRequired, None);
      }
      if !Truthy(lastName) && !Truthy(firstName) {
        return Reply(400, NameRequired, None);
      }
      if Truthy(lastName) && Truthy(firstName) {
        return Reply(400, NotBoth, None);
      }
      var update := if Truthy(lastName) then SetLastName(lastName.value) else SetFirstName(firstName.value);
      var invalidIds := UnknownIds(ids.value, users);
      if invalidIds != [] {
        return Reply(404, InvalidUserIds(invalidIds), None);
      }
      var modifiedCount := ChangedCount(users, ids.value, update);
      NoChangeIffSameTable(users, ids.value, update);
      RenameAllKeepsUniqueEmails(users, ids.value, update);
      users := RenameAll(users, ids.value, update);
      if modifiedCount > 0 {
        reply := Reply(200, UsersUpdated(modifiedCount), None);
      } else {
        reply := Reply(404, NoUserChanged, None);
      }
    }

    /** `updateMultipleUsers`. `batch` is `None` when `users` is not an array. */
    method UpdateMultipleUsers(batch: Option<seq<Entry>>) returns (reply: Reply<UserMsg, ()>)
      requires Valid()
      modifies this
      ensures Valid() && nextId == old(nextId)
      ensures batch.None? || batch.value == [] ==> reply == Reply(400, UserArrayRequired, None) && users == old(users)
      ensures batch.Some? && batch.value != [] && Split(batch.value).None? ==>
        reply == Reply(500, GeneralError, None) && users == old(users)
      ensures batch.Some? && batch.value != [] && Split(batch.value).Some? ==>
        var p := Split(batch.value).value;
        if p.ops == [] then
          reply == Reply(400, NoValidUpdate(p.invalidFields, p.invalidIds), None) && users == old(users)
        else
          var w := BulkWrite(old(users), p.ops);
          && users == w.users
          && reply == (if w.ok then Reply(200, BatchUpdated(w.modified, p.invalidIds, p.invalidFields), None)
                       else Reply(500, GeneralError, None))
          && users.Keys == old(users).Keys
          && (forall id :: id in old(users) && Untouched(p.ops, id) ==> users[id] == old(users)[id])
    {
      if batch.None? || batch.value == [] {
        return Reply(400, UserArrayRequired, None);
      }
      var thrown, partition := SplitBatch(batch.value);
      SplitThrows(batch.value);
      if thrown {
        return Reply(500, GeneralError, None);
      }
      if partition.ops == [] {
        return Reply(400, NoValidUpdate(partition.invalidFields, partition.invalidIds), None);
      }
      var result := BulkWrite(users, partition.ops);
      BulkWriteFrame(users, partition.ops);
      users := result.users;
      if result.ok {
        reply := Reply(200, BatchUpdated(result.modified, partition.invalidIds, partition.invalidFields), None);
      } else {
        reply := Reply(500, GeneralError, None);
      }
    }
  }
}
