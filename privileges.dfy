/** Named privileges (`app/utils/privileges.py`). */
module Privileges {
  import opened Basics
  import opened Entities

  /** `any(p.code == code for p in privileges)`, scanning left to right. */
  function AnyHasCode(privileges: seq<Privilege>, code: string): (r: bool)
    ensures r <==> exists p :: p in privileges && p.code == code
  {
    if privileges == [] then false
    else privileges[0].code == code || AnyHasCode(privileges[1..], code)
  }

  /** `has_privilege(user, code)`. */
  function HasPrivilege(user: Option<User>, code: string): (r: bool)
    ensures r <==> user.Some? && (IsAdmin(user.value) || exists p :: p in user.value.privileges && p.code == code)
  {
    if user.None? then false
    else if IsAdmin(user.value) then true
    else AnyHasCode(user.value.privileges, code)
  }

  /** Granting a privilege never takes another away. */
  lemma HasPrivilegeMonotone(u: User, extra: Privilege, code: string)
    ensures HasPrivilege(Some(u), code) ==>
      HasPrivilege(Some(u.(privileges := u.privileges + [extra])), code)
  {
    if HasPrivilege(Some(u), code) && !IsAdmin(u) {
      var p :| p in u.privileges && p.code == code;
      assert p in u.privileges + [extra];
    }
  }
}
