/** The borrowing endpoints' access rule, `IsAdminOrIfAuthenticatedReadOnly`
    (borrowings/permissions.py): GET and POST for authenticated callers,
    everything for staff. */
module BorrowingPermissions {
  import opened Accounts
  import BookPermissions

  /** `IsAdminOrIfAuthenticatedReadOnly.has_permission` on a request with
      HTTP method `verb` and this user. */
  function HasPermission(verb: string, user: RequestUser): (allowed: bool)
    ensures IsStaff(user) ==> allowed
    ensures user.Anonymous? ==> !allowed
    ensures user.Authenticated? && !user.account.isStaff ==> (allowed <==> verb == "GET" || verb == "POST")
  {
    (verb in {"GET", "POST"} && IsAuthenticated(user)) || IsStaff(user)
  }

  /** An authenticated non-staff caller may list, retrieve and create, but
      neither update nor delete. */
  lemma MemberTruthTable(id: UserId)
    ensures var member := Authenticated(Account(id, false));
      && HasPermission("GET", member) && HasPermission("POST", member)
      && !HasPermission("PATCH", member) && !HasPermission("PUT", member) && !HasPermission("DELETE", member)
  {
  }

  /** An anonymous caller is refused every method, GET included. */
  lemma AnonymousRefused(verb: string)
    ensures !HasPermission(verb, Anonymous)
  {
  }

  /** Unlike the book rule, HEAD and OPTIONS are not open to non-staff
      callers, although the book rule grants them to everyone. */
  lemma HeadAndOptionsStaffOnly(user: RequestUser)
    requires !IsStaff(user)
    ensures !HasPermission("HEAD", user) && !HasPermission("OPTIONS", user)
    ensures BookPermissions.HasPermission("HEAD", user) && BookPermissions.HasPermission("OPTIONS", user)
  {
  }

  /** The decision reads nothing of the caller but the two flags. */
  lemma DependsOnlyOnFlags(verb: string, u: RequestUser, v: RequestUser)
    requires IsAuthenticated(u) == IsAuthenticated(v) && IsStaff(u) == IsStaff(v)
    ensures HasPermission(verb, u) == HasPermission(verb, v)
  {
  }
}
