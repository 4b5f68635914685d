/** The user attached to a request. The user model itself is not part of
    this model: only the two flags the core reads, and the primary key. */
module Accounts {

  type UserId = nat

  /** An authenticated account: its primary key and its `is_staff` flag. */
  datatype Account = Account(id: UserId, isStaff: bool)

  /** `request.user`: Django's `AnonymousUser` (never authenticated, never
      staff) or an authenticated account. */
  datatype RequestUser = Anonymous | Authenticated(account: Account)

  /** `request.user and request.user.is_authenticated` */
  predicate IsAuthenticated(u: RequestUser)
  {
    u.Authenticated?
  }

  /** `request.user and request.user.is_staff` */
  predicate IsStaff(u: RequestUser)
  {
    u.Authenticated? && u.account.isStaff
  }
}
