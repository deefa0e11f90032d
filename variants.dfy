/**
 * How the two directories differ: the controller's validator adds the
 * local-part rule, and the controller renumbers ids on delete where the
 * service keeps them.
 */
module Variants {
  import opened Wrappers
  import opened ErrorMessages
  import opened Email
  import opened Users
  import Controllers
  import Services

  /** Whatever the controller's validator accepts, the service's accepts too. */
  lemma ControllerAcceptsLess(syntax: SyntaxCheck, email: string)
    ensures Controllers.ValidateEmail(syntax, email) == Accepted ==> Services.ValidateEmail(syntax, email) == Accepted
  {
  }

  /**
   * With a syntax check that needs an '@', the two validators disagree exactly
   * when the controller reports the local-part error; the service then judges
   * the address by its domain alone.
   */
  lemma ValidatorsDifferOnlyByLocalPartRule(syntax: SyntaxCheck, email: string)
    requires SyntaxNeedsAt(syntax)
    ensures Controllers.ValidateEmail(syntax, email) != Services.ValidateEmail(syntax, email)
      <==> Controllers.ValidateEmail(syntax, email) == Rejected(NoAlphanumericCharacters)
    ensures Controllers.ValidateEmail(syntax, email) == Rejected(NoAlphanumericCharacters) ==>
      Services.ValidateEmail(syntax, email) == (if DomainAllowed(email) then Accepted else Rejected(InvalidEmailDomain))
  {
  }

  /**
   * Controller delete: users before the removed one are untouched, and each
   * user after it moves up one place and takes the id one lower than its own.
   */
  lemma ControllerDeleteShiftsIds(users: seq<User>, k: nat)
    requires PositionalIds(users) && k < |users|
    ensures var after := Renumbered(RemoveAt(users, k));
      && |after| == |users| - 1
      && (forall j :: 0 <= j < k ==> after[j] == users[j])
      && (forall j :: k <= j < |after| ==> after[j] == users[j + 1].(id := users[j + 1].id - 1))
  {
  }

  /**
   * So, in the controller, deleting any user but the last and then asking for
   * its id finds the user that stood after it, now under that id.
   */
  lemma ControllerDeleteThenGetFindsNext(users: seq<User>, k: nat)
    requires PositionalIds(users) && k + 1 < |users|
    ensures var after := Renumbered(RemoveAt(users, k));
      FindIndex(after, users[k].id) == Some(k)
      && after[k].name == users[k + 1].name && after[k].email == users[k + 1].email
  {
    var after := Renumbered(RemoveAt(users, k));
    RenumberedInvariants(RemoveAt(users, k));
    PositionalLookup(after, users[k].id);
  }

  /**
   * Service delete: every survivor is an unchanged record of the old list,
   * and no survivor holds the deleted id, so a later lookup finds nothing.
   */
  lemma ServiceDeleteKeepsIds(users: seq<User>, k: nat)
    requires IncreasingIds(users) && k < |users|
    ensures var after := RemoveAt(users, k);
      (forall j :: 0 <= j < |after| ==> after[j] in users)
      && FindIndex(after, users[k].id) == None
  {
    IncreasingIdsUnique(users);
    RemoveDropsId(users, k);
  }
}
