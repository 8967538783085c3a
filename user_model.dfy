/** The user document and the token claims issued at login. */
module UserModel {
  import opened Common

  /** A user document. `password` holds the hash of the password, never the
      password itself; `roleId` refers to a role, which need not exist.
      Timestamps are not modelled. */
  datatype User = User(
    firstName: string,
    lastName: string,
    email: string,
    password: string,
    roleId: Id,
    isActive: bool,
    isDeleted: bool)

  type UserTable = map<Id, User>

  /** The claims a login token signs: user id, email and role id. The
      signature and the expiry around them are not modelled. */
  datatype Claims = Claims(userId: Id, email: string, roleId: Id)

  /** Some user other than `except` has this email; soft-deleted users count. */
  predicate EmailTaken(users: UserTable, email: string, except: Option<Id>)
  {
    exists id :: id in users && users[id].email == email && except != Some(id)
  }

  /** A soft-deleted user keeps its email taken. */
  lemma DeletedEmailStaysTaken(users: UserTable, id: Id, email: string, except: Option<Id>)
    requires id in users
    ensures EmailTaken(users[id := users[id].(isDeleted := true)], email, except) <==> EmailTaken(users, email, except)
  {
    var deleted := users[id := users[id].(isDeleted := true)];
    if EmailTaken(users, email, except) {
      var j :| j in users && users[j].email == email && except != Some(j);
      assert j in deleted && deleted[j].email == email;
    }
  }

  /** The unique index on `email`: no two users share one. */
  ghost predicate UniqueEmails(users: UserTable)
  {
    forall i, j :: i in users && j in users && users[i].email == users[j].email ==> i == j
  }

  /** Writing a record under an id whose new email no other user holds keeps
      emails unique. */
  lemma WriteKeepsUniqueEmails(users: UserTable, id: Id, u: User)
    requires UniqueEmails(users)
    requires !EmailTaken(users, u.email, Some(id))
    ensures UniqueEmails(users[id := u])
  {
  }
}
