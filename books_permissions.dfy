/** The book endpoints' access rule, `IsAdminUserOrReadOnly`
    (books/permissions.py): read-only methods for everyone, the rest for
    staff. */
module BookPermissions {
  import opened Accounts

  /** Django REST framework's `SAFE_METHODS`. */
  const SafeMethods: set<string> := {"GET", "HEAD", "OPTIONS"}

  /** `IsAdminUserOrReadOnly.has_permission` on a request with HTTP method `verb`
      and this user. */
  function HasPermission(verb: string, user: RequestUser): (allowed: bool)
    ensures IsStaff(user) ==> allowed
    ensures !IsStaff(user) ==> (allowed <==> verb == "GET" || verb == "HEAD" || verb == "OPTIONS")
  {
    verb in SafeMethods || IsStaff(user)
  }

  /** Listing and retrieving books is open to every caller, anonymous included. */
  lemma ReadsOpenToAll(user: RequestUser)
    ensures HasPermission("GET", user) && HasPermission("HEAD", user) && HasPermission("OPTIONS", user)
  {
  }

  /** A method outside the safe ones is allowed exactly to staff. */
  lemma WritesOnlyForStaff(verb: string, user: RequestUser)
    requires verb in {"POST", "PUT", "PATCH", "DELETE"}
    ensures HasPermission(verb, user) <==> IsStaff(user)
  {
  }

  /** Anonymous callers and authenticated non-staff callers may not create,
      update or delete books; staff may. */
  lemma WriteTruthTable(id: UserId)
    ensures !HasPermission("POST", Anonymous) && !HasPermission("PATCH", Anonymous)
         && !HasPermission("DELETE", Anonymous)
    ensures var member := Authenticated(Account(id, false));
         !HasPermission("POST", member) && !HasPermission("PATCH", member) && !HasPermission("DELETE", member)
    ensures var admin := Authenticated(Account(id, true));
         HasPermission("POST", admin) && HasPermission("PATCH", admin) && HasPermission("DELETE", admin)
  {
  }

  /** Whatever a non-staff caller may do, a staff caller may do too. */
  lemma StaffMonotone(verb: string, user: RequestUser, admin: RequestUser)
    requires !IsStaff(user) && IsStaff(admin)
    ensures HasPermission(verb, user) ==> HasPermission(verb, admin)
  {
  }
}
