/** The role controller: a table of roles (id to record) and the seven
    handlers that read and edit it. */
module RoleController {
  import opened Common
  import opened Seqs

  /** A role document: its name, the access modules it grants (stored as
      given, in order), and the two flags with their schema defaults
      `isActive = true` and `isDeleted = false`. Timestamps are not modelled. */
  datatype Role = Role(roleName: string, accessModule: seq<string>, isActive: bool, isDeleted: bool)

  /** The message each handler answers with; the two messages whose text is
      built from the request carry the modules they list. */
  datatype RoleMsg =
    | InvalidData
    | RoleNameExists
    | Created
    | Fetched
    | RoleNotFound
    | RoleFetchedById
    | RoleUpdated
    | RoleDeleted
    | InvalidModule
    | ModulesAlreadyExist(duplicates: seq<string>)
    | AccessModuleAdded
    | NoneOfModulesExist(missing: seq<string>)
    | AccessModuleRemoved

  type RoleTable = map<Id, Role>

  /** Some role other than `except` is called `name`. The lookup has no
      `isDeleted` filter, so soft-deleted roles count. */
  predicate NameTaken(roles: RoleTable, name: string, except: Option<Id>)
  {
    exists id :: id in roles && roles[id].roleName == name && except != Some(id)
  }

  /** No two roles share a name, the invariant that the name checks of
      `createRole` and `updateRole` keep. */
  ghost predicate UniqueNames(roles: RoleTable)
  {
    forall i, j :: i in roles && j in roles && roles[i].roleName == roles[j].roleName ==> i == j
  }

  /** Writing a record under an id whose name no other role holds keeps
      names unique. */
  lemma WriteKeepsUniqueNames(roles: RoleTable, id: Id, role: Role)
    requires UniqueNames(roles)
    requires !NameTaken(roles, role.roleName, Some(id))
    ensures UniqueNames(roles[id := role])
  {
  }

  /** `getAllRoles`: the roles that are not soft-deleted, unchanged. */
  function GetAllRoles(roles: RoleTable): (r: Reply<RoleMsg, RoleTable>)
    ensures r.code == 200 && r.msg == Fetched && r.data.Some?
    ensures forall id :: id in r.data.value <==> id in roles && !roles[id].isDeleted
    ensures forall id :: id in r.data.value ==> r.data.value[id] == roles[id]
  {
    Reply(200, Fetched, Some(map id | id in roles && !roles[id].isDeleted :: roles[id]))
  }

  /** `getRoleById`: the role with that id whatever its `isDeleted` flag;
      400 only when no role has the id. */
  function GetRoleById(roles: RoleTable, id: Id): (r: Reply<RoleMsg, (Id, Role)>)
    ensures r.code == 200 <==> id in roles
    ensures id in roles ==> r.msg == RoleFetchedById && r.data == Some((id, roles[id]))
    ensures id !in roles ==> r == Reply(400, RoleNotFound, None)
  {
    if id in roles then Reply(200, RoleFetchedById, Some((id, roles[id])))
    else Reply(400, RoleNotFound, None)
  }

  /** The table after the soft delete of role `id`. */
  function SoftDeleted(roles: RoleTable, id: Id): (r: RoleTable)
    requires id in roles
    ensures r.Keys == roles.Keys
    ensures r[id].isDeleted
    ensures r[id].(isDeleted := roles[id].isDeleted) == roles[id]
    ensures forall k :: k in roles && k != id ==> r[k] == roles[k]
  {
    roles[id := roles[id].(isDeleted := true)]
  }

  /** A soft-deleted role keeps its name taken: a new role, or a rename of
      another role, still cannot use it. */
  lemma DeletedNameStaysTaken(roles: RoleTable, id: Id, name: string, except: Option<Id>)
    requires id in roles
    ensures NameTaken(SoftDeleted(roles, id), name, except) <==> NameTaken(roles, name, except)
  {
    var deleted := SoftDeleted(roles, id);
    if NameTaken(roles, name, except) {
      var j :| j in roles && roles[j].roleName == name && except != Some(j);
      assert j in deleted && deleted[j].roleName == name;
    }
  }

  /** Renaming a role frees its old name, whether or not the role is
      soft-deleted: with names unique, no role holds the old name any more. */
  lemma RenameFreesName(roles: RoleTable, id: Id, newName: string)
    requires UniqueNames(roles) && id in roles && newName != roles[id].roleName
    ensures !NameTaken(roles[id := roles[id].(roleName := newName)], roles[id].roleName, None)
  {
  }

  /** Deleting a role twice leaves the table as deleting it once. */
  lemma SoftDeleteIdempotent(roles: RoleTable, id: Id)
    requires id in roles
    ensures SoftDeleted(SoftDeleted(roles, id), id) == SoftDeleted(roles, id)
  {
  }

  /** A soft-deleted role drops out of the listing but is still fetched by id. */
  lemma SoftDeletedRoleHidden(roles: RoleTable, id: Id)
    requires id in roles
    ensures id !in GetAllRoles(SoftDeleted(roles, id)).data.value
    ensures GetRoleById(SoftDeleted(roles, id), id).code == 200
    ensures forall k :: k != id ==>
      (k in GetAllRoles(SoftDeleted(roles, id)).data.value <==> k in GetAllRoles(roles).data.value)
  {
  }

  /** The outcome of `updateAccessModule` for a role that exists: every
      requested module that the role already holds, in request order; the
      request is refused when there is any. */
  function DuplicateModules(existing: seq<string>, newModules: seq<string>): (r: seq<string>)
    ensures forall m :: m in r <==> m in newModules && m in existing
    ensures r == [] <==> forall m :: m in newModules ==> m !in existing
  {
    var r := Within(newModules, existing);
    assert r != [] ==> r[0] in r;
    r
  }

  /** The requested modules that the role does not hold, in request order;
      `removeAccessModule` is refused when this is the whole request. */
  function MissingModules(existing: seq<string>, modulesToRemove: seq<string>): (r: seq<string>)
    ensures forall m :: m in r <==> m in modulesToRemove && m !in existing
    ensures |r| == |modulesToRemove| <==> forall m :: m in modulesToRemove ==> m !in existing
  {
    WithoutKeepsAll(modulesToRemove, existing);
    Without(modulesToRemove, existing)
  }

  /** The module list after a successful `updateAccessModule`: the old list
      followed by the new modules with their repeats removed; a list that had
      no repeats still has none. */
  lemma AddedModules(existing: seq<string>, newModules: seq<string>)
    requires DuplicateModules(existing, newModules) == []
    ensures AddToSet(existing, newModules) == existing + Dedup(newModules)
    ensures NoDup(existing) ==> NoDup(AddToSet(existing, newModules))
  {
    AddToSetOfNew(existing, newModules);
    if NoDup(existing) {
      NoDupAppend(existing, newModules);
    }
  }

  /** The module list after `removeAccessModule`'s `$pull`: every occurrence
      of a requested module is gone, requested modules the role did not hold
      change nothing, a list without repeats stays so, and when some
      requested module is held (the only case the handler pulls) the list
      gets strictly shorter. */
  lemma RemovedModules(existing: seq<string>, modulesToRemove: seq<string>)
    ensures forall m :: m in Without(existing, modulesToRemove) <==> m in existing && m !in modulesToRemove
    ensures Without(existing, modulesToRemove) == Without(existing, Within(modulesToRemove, existing))
    ensures NoDup(existing) ==> NoDup(Without(existing, modulesToRemove))
    ensures (exists m :: m in modulesToRemove && m in existing) ==>
      |Without(existing, modulesToRemove)| < |existing|
  {
    WithoutRelevant(existing, modulesToRemove);
    WithoutKeepsAll(existing, modulesToRemove);
  }

  /** Only the requested modules that the list holds matter to the filter. */
  lemma {:induction false} WithoutRelevant(existing: seq<string>, t: seq<string>)
    ensures Without(existing, t) == Without(existing, Within(t, existing))
  {
    WithoutRelevantFrom(existing, existing, t);
  }

  /** The induction behind `WithoutRelevant`, over any list whose members
      the role holds. */
  lemma {:induction false} WithoutRelevantFrom(s: seq<string>, existing: seq<string>, t: seq<string>)
    requires forall m :: m in s ==> m in existing
    ensures Without(s, t) == Without(s, Within(t, existing))
  {
    if s != [] {
      assert s[0] in existing;
      assert forall m :: m in s[1..] ==> m in s;
      WithoutRelevantFrom(s[1..], existing, t);
    }
  }

  /** The role table held in place; ids come from a counter, so a new id is
      never one already in use, and no two roles share a name. */
  class RoleStore {
    var roles: RoleTable
    var nextId: Id

    ghost predicate Valid()
      reads this
    {
      && (forall id :: id in roles ==> id < nextId)
      && UniqueNames(roles)
    }

    constructor ()
      ensures Valid() && roles == map[]
    {
      roles := map[];
      nextId := 0;
    }

    /** `createRole`. `roleName` is absent or the empty string when falsy;
        `accessModule` is `None` when the body's field is not an array. */
    method CreateRole(roleName: Option<string>, accessModule: Option<seq<string>>)
      returns (reply: Reply<RoleMsg, (Id, Role)>)
      requires Valid()
      modifies this
      ensures Valid()
      ensures !Truthy(roleName) || accessModule.None? ==>
        reply == Reply(400, InvalidData, None) && roles == old(roles) && nextId == old(nextId)
      ensures Truthy(roleName) && accessModule.Some? && NameTaken(old(roles), roleName.value, None) ==>
        reply == Reply(400, RoleNameExists, None) && roles == old(roles) && nextId == old(nextId)
      ensures Truthy(roleName) && accessModule.Some? && !NameTaken(old(roles), roleName.value, None) ==>
        var created := Role(roleName.value, accessModule.value, true, false);
        && old(nextId) !in old(roles)
        && roles == old(roles)[old(nextId) := created]
        && reply == Reply(201, Created, Some((old(nextId), created)))
        && NameTaken(roles, roleName.value, None)
    {
      if !Truthy(roleName) || accessModule.None? {
        return Reply(400, InvalidData, None);
      }
      if NameTaken(roles, roleName.value, None) {
        return Reply(400, RoleNameExists, None);
      }
      var id := nextId;
      var created := Role(roleName.value, accessModule.value, true, false);
      WriteKeepsUniqueNames(roles, id, created);
      roles := roles[id := created];
      nextId := nextId + 1;
      assert id in roles && roles[id].roleName == roleName.value;
      reply := Reply(201, Created, Some((id, created)));
    }

    /** `updateRole`: the id must exist, and no other role may already carry
        the requested name; then exactly the three given fields change. */
    method UpdateRole(id: Id, roleName: string, accessModule: seq<string>, isActive: bool)
      returns (reply: Reply<RoleMsg, (Id, Role)>)
      requires Valid()
      modifies this
      ensures Valid() && nextId == old(nextId)
      ensures id !in old(roles) ==> reply == Reply(400, RoleNotFound, None) && roles == old(roles)
      ensures id in old(roles) && NameTaken(old(roles), roleName, Some(id)) ==>
        reply == Reply(400, RoleNameExists, None) && roles == old(roles)
      ensures id in old(roles) && !NameTaken(old(roles), roleName, Some(id)) ==>
        var updated := old(roles)[id].(roleName := roleName, accessModule := accessModule, isActive := isActive);
        && roles == old(roles)[id := updated]
        && updated.isDeleted == old(roles)[id].isDeleted
        && reply == Reply(200, RoleUpdated, Some((id, updated)))
    {
      if id !in roles {
        return Reply(400, RoleNotFound, None);
      }
      if NameTaken(roles, roleName, Some(id)) {
        return Reply(400, RoleNameExists, None);
      }
      var updated := roles[id].(roleName := roleName, accessModule := accessModule, isActive := isActive);
      WriteKeepsUniqueNames(roles, id, updated);
      roles := roles[id := updated];
      reply := Reply(200, RoleUpdated, Some((id, updated)));
    }

    /** `deleteRole`: a soft delete, which sets only `isDeleted`. */
    method DeleteRole(id: Id) returns (reply: Reply<RoleMsg, (Id, Role)>)
      requires Valid()
      modifies this
      ensures Valid() && nextId == old(nextId)
      ensures id !in old(roles) ==> reply == Reply(400, RoleNotFound, None) && roles == old(roles)
      ensures id in old(roles) ==> reply == Reply(200, RoleDeleted, None) && roles == SoftDeleted(old(roles), id)
    {
      if id !in roles {
        return Reply(400, RoleNotFound, None);
      }
      roles := roles[id := roles[id].(isDeleted := true)];
      reply := Reply(200, RoleDeleted, None);
    }

    /** `updateAccessModule`: all or nothing. `newModules` is `None` when the
        body's field is not an array. */
    method AddModules(id: Id, newModules: Option<seq<string>>) returns (reply: Reply<RoleMsg, (Id, Role)>)
      requires Valid()
      modifies this
      ensures Valid() && nextId == old(nextId)
      ensures newModules.None? || newModules.value == [] ==>
        reply == Reply(400, InvalidModule, None) && roles == old(roles)
      ensures newModules.Some? && newModules.value != [] && id !in old(roles) ==>
        reply == Reply(404, RoleNotFound, None) && roles == old(roles)
      ensures newModules.Some? && newModules.value != [] && id in old(roles) ==>
        var existing := old(roles)[id].accessModule;
        var duplicates := DuplicateModules(existing, newModules.value);
        if duplicates != [] then
          reply == Reply(400, ModulesAlreadyExist(duplicates), None) && roles == old(roles)
        else
          var updated := old(roles)[id].(accessModule := existing + Dedup(newModules.value));
          && roles == old(roles)[id := updated]
          && reply == Reply(200, AccessModuleAdded, Some((id, updated)))
          && (NoDup(existing) ==> NoDup(updated.accessModule))
    {
      if newModules.None? || newModules.value == [] {
        return Reply(400, InvalidModule, None);
      }
      if id !in roles {
        return Reply(404, RoleNotFound, None);
      }
      var existing := roles[id].accessModule;
      var duplicates := DuplicateModules(existing, newModules.value);
      if duplicates != [] {
        return Reply(400, ModulesAlreadyExist(duplicates), None);
      }
      AddedModules(existing, newModules.value);
      var updated := roles[id].(accessModule := AddToSet(existing, newModules.value));
      roles := roles[id := updated];
      reply := Reply(200, AccessModuleAdded, Some((id, updated)));
    }

    /** `removeAccessModule`: refused only when none of the requested modules
        is held; otherwise every occurrence of each requested module goes. */
    method RemoveModules(id: Id, modulesToRemove: Option<seq<string>>) returns (reply: Reply<RoleMsg, (Id, Role)>)
      requires Valid()
      modifies this
      ensures Valid() && nextId == old(nextId)
      ensures modulesToRemove.None? || modulesToRemove.value == [] ==>
        reply == Reply(400, InvalidModule, None) && roles == old(roles)
      ensures modulesToRemove.Some? && modulesToRemove.value != [] && id !in old(roles) ==>
        reply == Reply(404, RoleNotFound, None) && roles == old(roles)
      ensures modulesToRemove.Some? && modulesToRemove.value != [] && id in old(roles) ==>
        var existing := old(roles)[id].accessModule;
        if forall m :: m in modulesToRemove.value ==> m !in existing then
          && reply == Reply(400, NoneOfModulesExist(modulesToRemove.value), None)
          && roles == old(roles)
        else
          var updated := old(roles)[id].(accessModule := Without(existing, modulesToRemove.value));
          && roles == old(roles)[id := updated]
          && reply == Reply(200, AccessModuleRemoved, Some((id, updated)))
          && |updated.accessModule| < |existing|
    {
      if modulesToRemove.None? || modulesToRemove.value == [] {
        return Reply(400, InvalidModule, None);
      }
      if id !in roles {
        return Reply(404, RoleNotFound, None);
      }
      var existing := roles[id].accessModule;
      var missing := MissingModules(existing, modulesToRemove.value);
      if |missing| == |modulesToRemove.value| {
        WithoutNothing(modulesToRemove.value, existing);
        return Reply(400, NoneOfModulesExist(missing), None);
      }
      RemovedModules(existing, modulesToRemove.value);
      var updated := roles[id].(accessModule := Without(existing, modulesToRemove.value));
      roles := roles[id := updated];
      reply := Reply(200, AccessModuleRemoved, Some((id, updated)));
    }
  }
}
