/** User administration (`app/routes/user_pages.py`): the admin-only user
    list and forms, creating a user, and changing a user's manager. */
module UserPages {
  import opened Basics
  import opened Entities
  import opened Seqs
  import opened Store
  import opened Hierarchy

  /** Where every non-admin visitor of these pages is sent. */
  const DASHBOARD: Response := Redirect(303, "/dashboard")

  /** Where the forms return to. */
  const USER_LIST: Response := Redirect(303, "/ui/users")

  /** `if not user or user.role != "admin"`: the guard of every page here. */
  predicate AdminVisitor(user: Option<User>) {
    user.Some? && user.value.role == ADMIN_ROLE
  }

  /** `user_list`: the user rows for an admin, nothing otherwise. */
  function UserList(users: seq<User>, user: Option<User>): (r: Option<seq<User>>)
    ensures r.Some? <==> AdminVisitor(user)
    ensures r.Some? ==> multiset(r.value) == multiset(users)
  {
    if !AdminVisitor(user) then None else Some(users)
  }

  /** `create_user_form`: the privileges and the candidate managers (every user) for an admin. */
  function CreateUserForm(privileges: seq<Privilege>, users: seq<User>, user: Option<User>)
    : (r: Option<(seq<Privilege>, seq<User>)>)
    ensures r.Some? <==> AdminVisitor(user)
    ensures r.Some? ==> multiset(r.value.0) == multiset(privileges) && r.value.1 == users
  {
    if !AdminVisitor(user) then None else Some((privileges, users))
  }

  // ---------------------------------------------------------------------
  // Creating a user

  /** The privilege rows whose id was ticked on the form, in table order;
      none when no id was sent. */
  function ChosenPrivileges(privileges: seq<Privilege>, ids: seq<int>): (r: seq<Privilege>)
    ensures forall p :: p in r <==> p in privileges && p.id in ids
  {
    if ids == [] then [] else Filter(privileges, (p: Privilege) => p.id in ids)
  }

  /** The row `create_user_submit` adds. `hash` is `hash_password`. */
  function NewUser(id: nat, username: string, password: string, role: string, department: string,
                   managerId: Option<int>, privileges: seq<Privilege>, privilegeIds: seq<int>,
                   hash: string -> string, now: Timestamp): (r: User)
    ensures r.id == id && r.username == username && r.passwordHash == hash(password)
    ensures r.role == role && r.department == Some(department) && r.fullName.None?
    ensures r.isActive && r.managerId == managerId
    ensures forall p :: p in r.privileges <==> p in privileges && p.id in privilegeIds
  {
    User(id, username, hash(password), role, None, Some(department), true, now, managerId,
         ChosenPrivileges(privileges, privilegeIds))
  }

  /** A username already taken: the unique index makes the insert fail. */
  predicate UsernameTaken(users: seq<User>, username: string) {
    exists u :: u in users && u.username == username
  }

  /** `create_user_submit`: a non-admin is sent to the dashboard; a taken
      username fails the commit (HTTP 500) and adds nothing; otherwise the new
      user is appended with the next free id and the form returns to the list. */
  method CreateUserSubmit(db: Database, user: Option<User>, username: string, password: string, role: string,
                          department: string, managerId: Option<int>, privilegeIds: seq<int>,
                          hash: string -> string, now: Timestamp)
    returns (resp: Response)
    modifies db`users
    ensures !AdminVisitor(user) ==> resp == DASHBOARD && db.users == old(db.users)
    ensures AdminVisitor(user) && UsernameTaken(old(db.users), username) ==>
      resp == ServerError && db.users == old(db.users)
    ensures AdminVisitor(user) && !UsernameTaken(old(db.users), username) ==>
      resp == USER_LIST &&
      db.users == old(db.users) + [NewUser(NextId(old(db.users), (u: User) => u.id), username, password, role,
                                           department, managerId, db.privileges, privilegeIds, hash, now)]
  {
    if !AdminVisitor(user) {
      return DASHBOARD;
    }
    if exists u :: u in db.users && u.username == username {
      return ServerError;
    }
    var id := NextId(db.users, (u: User) => u.id);
    db.users := db.users + [NewUser(id, username, password, role, department, managerId, db.privileges,
                                    privilegeIds, hash, now)];
    resp := USER_LIST;
  }

  /** Adding a user keeps the manager graph acyclic, provided no row already
      names the new id as its manager and the form does not name it either
      (the new row has no subordinates). */
  lemma {:induction false} AddUserKeepsAcyclic(users: seq<User>, nu: User)
    requires Acyclic(users)
    requires forall u :: u in users ==> u.id != nu.id && u.managerId != Some(nu.id)
    requires nu.managerId != Some(nu.id)
    ensures Acyclic(users + [nu])
  {
    var rank := Rank(users);
    var rank' := (x: int) => if x == nu.id then 0 else rank(x) + 1;
    assert Ranked(users + [nu], rank') by {
      forall u | u in users + [nu] && u.managerId.Some?
        ensures rank'(u.id) < rank'(u.managerId.value)
      {
        if u != nu {
          assert u in users;
        }
      }
    }
  }

  /** The next free id is no existing row's id. */
  lemma NextIdFresh(users: seq<User>)
    ensures forall u :: u in users ==> u.id != NextId(users, (v: User) => v.id)
  {
    var n := NextId(users, (v: User) => v.id);
    forall u | u in users ensures u.id != n {
      var k :| 0 <= k < |users| && users[k] == u;
    }
  }

  // ---------------------------------------------------------------------
  // Changing a user's manager

  /** `manager_id or None`: an empty form field and 0 both clear the manager. */
  function ManagerField(managerId: Option<int>): (r: Option<int>)
    ensures r.None? <==> !GivenInt(managerId)
    ensures r.Some? ==> r == managerId
  {
    if GivenInt(managerId) then managerId else None
  }

  /** The user table after `update_user_manager` as written: an unknown target
      and a user named as their own manager change nothing; otherwise the
      target row's manager becomes `manager_id or None`, with no further check. */
  function ManagerSet(users: seq<User>, userId: int, managerId: Option<int>): (r: seq<User>)
    ensures |r| == |users|
    ensures UserIndex(users, userId).None? || managerId == Some(userId) ==> r == users
    ensures forall k :: 0 <= k < |users| && (UserIndex(users, userId).None? || k != UserIndex(users, userId).value) ==>
      r[k] == users[k]
    ensures UserIndex(users, userId).Some? && managerId != Some(userId) ==>
      var i := UserIndex(users, userId).value;
      && r[i].managerId == ManagerField(managerId)
      && r[i].(managerId := users[i].managerId) == users[i]
  {
    var i := UserIndex(users, userId);
    if i.None? || managerId == Some(userId) then users
    else users[i.value := users[i.value].(managerId := ManagerField(managerId))]
  }

  /** As written, the route lets an admin make a user's own subordinate their
      manager. Two users where user 2 reports to user 1: naming user 2 as user
      1's manager closes a cycle, after which the subordinate walk of either
      never ends. */
  lemma ManagerSetCanCloseCycle()
    ensures var a := User(1, "a", "", "staff", None, None, true, 0, None, []);
      var b := User(2, "b", "", "staff", None, None, true, 0, Some(1), []);
      && Acyclic([a, b])
      && !Acyclic(ManagerSet([a, b], 1, Some(2)))
  {
    var a := User(1, "a", "", "staff", None, None, true, 0, None, []);
    var b := User(2, "b", "", "staff", None, None, true, 0, Some(1), []);
    var rank := (x: int) => if x == 1 then 1 else 0;
    assert Ranked([a, b], rank);
    var users' := ManagerSet([a, b], 1, Some(2));
    assert users' == [a.(managerId := Some(2)), b];
    forall r: int -> nat ensures !Ranked(users', r) {
      assert users'[0] in users' && users'[1] in users';
    }
  }

  /** The corrected check: besides the target itself, no user in the target's
      subtree may become its manager. */
  function ManagerSetChecked(users: seq<User>, userId: int, managerId: Option<int>): (r: seq<User>)
    requires Acyclic(users)
    ensures |r| == |users|
    ensures managerId.Some? && InSubtree(users, managerId.value, userId) ==> r == users
    ensures managerId.None? || !InSubtree(users, managerId.value, userId) ==> r == ManagerSet(users, userId, managerId)
  {
    if managerId.Some? && (managerId.value == userId || managerId.value in Collect(users, userId)) then users
    else ManagerSet(users, userId, managerId)
  }

  /** Any subordinate of a user in the target's subtree is in it too. */
  lemma SubtreeClosed(users: seq<User>, t: int, u: User)
    requires Acyclic(users)
    requires u in users && u.managerId.Some? && InSubtree(users, u.managerId.value, t)
    ensures InSubtree(users, u.id, t)
  {
    var z := u.managerId.value;
    CollectMembers(users, z, u.id);
    if z != t {
      CollectTransitive(users, t, z, u.id);
    }
  }

  /** With the check, changing a manager keeps the manager graph acyclic. */
  lemma {:induction false} ManagerSetCheckedKeepsAcyclic(users: seq<User>, userId: int, managerId: Option<int>)
    requires Acyclic(users)
    ensures Acyclic(ManagerSetChecked(users, userId, managerId))
  {
    var r := ManagerSetChecked(users, userId, managerId);
    var i := UserIndex(users, userId);
    if r != users {
      var rank := Rank(users);
      var t := userId;
      var rank' := (x: int) => if InSubtree(users, x, t) then rank(x) else rank(x) + rank(t) + 1;
      assert r == users[i.value := users[i.value].(managerId := ManagerField(managerId))];
      forall u | u in r && u.managerId.Some? ensures rank'(u.id) < rank'(u.managerId.value) {
        var k :| 0 <= k < |r| && r[k] == u;
        if k == i.value {
          // The target row: its new manager lies outside its subtree.
          assert u.id == t && InSubtree(users, u.id, t);
        } else {
          assert u == users[k] && u in users;
          if InSubtree(users, u.managerId.value, t) {
            SubtreeClosed(users, t, u);
          }
        }
      }
      assert Ranked(r, rank');
    }
  }

  /** `update_user_manager` as written: a non-admin is sent to the dashboard;
      every other request returns to the user list, with the target row's
      manager set as `ManagerSet` says. The table need not be acyclic, and may
      become cyclic (`ManagerSetCanCloseCycle`). */
  method UpdateUserManager(db: Database, user: Option<User>, userId: int, managerId: Option<int>)
    returns (resp: Response)
    modifies db`users
    ensures !AdminVisitor(user) ==> resp == DASHBOARD && db.users == old(db.users)
    ensures AdminVisitor(user) ==> resp == USER_LIST && db.users == ManagerSet(old(db.users), userId, managerId)
  {
    if !AdminVisitor(user) {
      return DASHBOARD;
    }
    var i := UserIndex(db.users, userId);
    if i.None? {
      return USER_LIST;
    }
    if managerId == Some(userId) {
      return USER_LIST;
    }
    db.users := db.users[i.value := db.users[i.value].(managerId := ManagerField(managerId))];
    resp := USER_LIST;
  }

  /** The corrected route: as `update_user_manager`, but a manager taken from
      the target's subtree (`get_all_subordinate_ids` of the target) is refused
      as the target itself is. The manager graph stays acyclic. */
  method UpdateUserManagerChecked(db: Database, user: Option<User>, userId: int, managerId: Option<int>)
    returns (resp: Response)
    requires Acyclic(db.users)
    modifies db`users
    ensures !AdminVisitor(user) ==> resp == DASHBOARD && db.users == old(db.users)
    ensures AdminVisitor(user) ==> resp == USER_LIST && db.users == ManagerSetChecked(old(db.users), userId, managerId)
    ensures Acyclic(db.users)
  {
    if !AdminVisitor(user) {
      return DASHBOARD;
    }
    var i := UserIndex(db.users, userId);
    if i.None? {
      return USER_LIST;
    }
    if managerId == Some(userId) {
      return USER_LIST;
    }
    var target := db.users[i.value];
    var below := GetAllSubordinateIds(db.users, Some(target));
    if managerId.Some? && managerId.value in below {
      return USER_LIST;
    }
    ManagerSetCheckedKeepsAcyclic(db.users, userId, managerId);
    db.users := db.users[i.value := target.(managerId := ManagerField(managerId))];
    resp := USER_LIST;
  }

  /** Only the target row's manager changes; every other row, and every
      other column of the target, stays as it was. */
  lemma ManagerSetCheckedSpec(users: seq<User>, userId: int, managerId: Option<int>, k: int)
    requires Acyclic(users)
    requires 0 <= k < |users|
    ensures var r := ManagerSetChecked(users, userId, managerId);
      var i := UserIndex(users, userId);
      && (i.None? || k != i.value ==> r[k] == users[k])
      && (i.Some? && k == i.value ==> r[k] == users[k].(managerId := r[k].managerId))
      && (i.Some? && k == i.value && r != users ==> r[k].managerId == ManagerField(managerId))
  {
  }
}
