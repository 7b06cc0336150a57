/**
 * The access rules the service's own error messages announce, written
 * independently of the service code so that the code can be compared against
 * them: a token names no session, a signed-out session or a live one; only the
 * owner of an item may edit it ("Only the answer owner can edit the answer");
 * the owner or an administrator may delete it ("Only the answer owner or admin
 * can delete the answer", AnswerDeleteErrorCode.ATHR_003).
 */
module AccessPolicy {
  import opened Entities

  datatype TokenState = NoSession | SignedOut | Live(auth: UserAuth)

  /** What a token denotes in the session store. */
  function Classify(sessions: map<string, UserAuth>, token: string): (s: TokenState)
    ensures s.NoSession? <==> token !in sessions
    ensures s.SignedOut? <==> token in sessions && sessions[token].logoutAt.Some?
    ensures s.Live? ==> s.auth == sessions[token]
  {
    if token !in sessions then NoSession
    else if sessions[token].logoutAt.Some? then SignedOut
    else Live(sessions[token])
  }

  datatype Action = Edit | Delete

  /** Ownership is identity of user uuids; the admin role widens delete only. */
  predicate Permits(action: Action, actor: User, owner: User, adminRole: string) {
    match action
    case Edit => actor.uuid == owner.uuid
    case Delete => actor.uuid == owner.uuid || actor.role == adminRole
  }
}
