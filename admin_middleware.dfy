/** The guard in front of every admin route. */
module AdminMiddleware {
  import opened Wrappers
  import opened Store

  const AccessDenied := "Access denied. Admin only."

  /** The guard's decision: pass the request on, or answer with a status and a message. */
  datatype Decision = Next | Deny(status: Status, message: string)

  /**
   * `adminOnly`: only a request whose authenticated user has role exactly
   * "ADMIN" passes; a missing user and every other role answer 403. The guard
   * only reads the request's user.
   */
  function AdminOnly(user: Option<User>): (r: Decision)
    ensures r.Next? <==> user.Some? && user.value.role == AdminRole
    ensures r.Deny? ==> r.status == Forbidden && r.status.Code() == 403 && r.message == AccessDenied
  {
    if user.Some? && user.value.role == AdminRole then Next else Deny(Forbidden, AccessDenied)
  }

  /** The role test is exact: "admin" in another case, or with white space around it, does not pass. */
  lemma RoleMatchIsExact(u: User)
    requires u.role != AdminRole
    ensures AdminOnly(Some(u)) == Deny(Forbidden, AccessDenied)
    ensures AdminOnly(Some(u.(role := AdminRole))).Next?
  {
  }
}
