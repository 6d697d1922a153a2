/**
 * The access guard shared by both bots: an empty allow-list admits everyone,
 * otherwise exactly the listed user ids are admitted.
 */
module AccessGuard {

  predicate IsUserAllowed(userId: int, allowedUserIds: set<int>)
  {
    allowedUserIds == {} || userId in allowedUserIds
  }

  /** An unconfigured allow-list lets every user through. */
  lemma EmptyAllowsAll(userId: int)
    ensures IsUserAllowed(userId, {})
  {
  }

  /** A configured allow-list admits a user exactly when the user is listed. */
  lemma ListedOnly(userId: int, allowedUserIds: set<int>)
    requires allowedUserIds != {}
    ensures IsUserAllowed(userId, allowedUserIds) <==> userId in allowedUserIds
  {
  }

  /** Listing more users never locks out a user who was admitted by a non-empty list. */
  lemma Monotone(userId: int, smaller: set<int>, larger: set<int>)
    requires smaller != {} && smaller <= larger
    requires IsUserAllowed(userId, smaller)
    ensures IsUserAllowed(userId, larger)
  {
  }
}
