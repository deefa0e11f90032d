/**
 * The newer directory: a service over its own static user list that reports
 * failures through an error result, has no local-part rule in its validator,
 * and leaves ids alone on delete.
 */
module Services {
  import opened Wrappers
  import opened Text
  import opened ErrorMessages
  import opened Email
  import opened Users

  /**
   * The service's email validator: blank or failing the syntax check is a
   * format error, otherwise the domain rule decides. An address with no '@'
   * makes `Substring` throw, and nothing here catches it.
   */
  function ValidateEmail(syntax: SyntaxCheck, email: string): (r: EmailCheck)
    ensures r == Rejected(InvalidEmailFormat) <==> IsBlank(email) || !syntax(email)
    ensures r == Throws <==> !IsBlank(email) && syntax(email) && '@' !in email
    ensures r == Rejected(InvalidEmailDomain) <==>
      !IsBlank(email) && syntax(email) && '@' in email && !DomainAllowed(email)
    ensures r == Accepted <==> !IsBlank(email) && syntax(email) && '@' in email && DomainAllowed(email)
  {
    if IsBlank(email) || !syntax(email) then Rejected(InvalidEmailFormat)
    else
      var at := LastIndexOf(email, '@');
      // Substring(-1) raises ArgumentOutOfRangeException.
      if at < 0 then Throws
      else
        DomainCheckAtLastAt(email);
        if !EndsWithAllowedDomain(ToLower(email[at..])) then Rejected(InvalidEmailDomain)
        else Accepted
  }

  /** When the syntax check admits only strings with an '@', the validator never throws. */
  lemma ValidateEmailNeverThrows(syntax: SyntaxCheck, email: string)
    requires SyntaxNeedsAt(syntax)
    ensures ValidateEmail(syntax, email).Accepted? || ValidateEmail(syntax, email).Rejected?
  {
  }

  class UserService {
    /** The framework's email-syntax attribute the validator consults. */
    const emailSyntax: SyntaxCheck
    /** The static user list. */
    var users: seq<User>

    /**
     * What every operation keeps: ids rise in list order (so they are unique),
     * and emails are unique ignoring case. The syntax check is assumed to
     * admit only strings with an '@'.
     */
    ghost predicate Valid()
      reads this
    {
      && SyntaxNeedsAt(emailSyntax)
      && IncreasingIds(users)
      && UniqueEmails(users)
    }

    constructor (emailSyntax: SyntaxCheck)
      requires SyntaxNeedsAt(emailSyntax)
      ensures Valid() && this.emailSyntax == emailSyntax && users == []
    {
      this.emailSyntax := emailSyntax;
      users := [];
    }

    /** All users, in stored order: ids increasing, emails unique ignoring case. */
    function GetAllUsers(): (r: seq<User>)
      reads this
      requires Valid()
      ensures r == users
      ensures IncreasingIds(r) && UniqueEmails(r)
    {
      users
    }

    /** The first user holding `id`, or none when no user does. */
    function GetUserById(id: int): (r: Option<User>)
      reads this
      ensures r.None? <==> forall k :: 0 <= k < |users| ==> users[k].id != id
      ensures r.Some? ==> exists k ::
        && 0 <= k < |users| && users[k] == r.value && r.value.id == id
        && forall j :: 0 <= j < k ==> users[j].id != id
    {
      match FindIndex(users, id)
      case None => None
      case Some(k) => Some(users[k])
    }

    /**
     * Create: the email rules, then a case-insensitive duplicate; otherwise
     * the user is appended under id max+1 (1 for an empty list). A failure
     * returns no user, an error, and leaves the list as it was.
     */
    method AddUser(form: UserForm) returns (created: Option<User>, error: Option<ErrorCode>)
      requires Valid()
      modifies this
      ensures Valid()
      ensures created.None? <==> error.Some?
      ensures var check := ValidateEmail(emailSyntax, form.email);
        if check.Rejected? then created == None && error == Some(check.reason) && users == old(users)
        else if EmailTaken(old(users), form.email) then
          created == None && error == Some(DuplicateEmail) && users == old(users)
        else
          (created == Some(User(NextId(old(users)), form.name, form.email))
           && users == old(users) + [created.value])
    {
      ValidateEmailNeverThrows(emailSyntax, form.email);
      var check := ValidateEmail(emailSyntax, form.email);
      if check.Rejected? {
        return None, Some(check.reason);
      }
      if EmailTaken(users, form.email) {
        return None, Some(DuplicateEmail);
      }
      var user := User(NextId(users), form.name, form.email);
      AppendKeepsIncreasingIds(users, form);
      AppendKeepsUniqueEmails(users, user);
      users := users + [user];
      created, error := Some(user), None;
    }

    /**
     * Update: the email rules first, then the lookup, then a duplicate that is
     * not the user's own current email; on success only the target's name
     * and email change.
     */
    method UpdateUser(id: int, form: UserForm) returns (updated: Option<User>, error: Option<ErrorCode>)
      requires Valid()
      modifies this
      ensures Valid()
      ensures updated.None? <==> error.Some?
      ensures var check := ValidateEmail(emailSyntax, form.email);
        var found := FindIndex(old(users), id);
        if check.Rejected? then updated == None && error == Some(check.reason) && users == old(users)
        else if found.None? then updated == None && error == Some(UserNotFound) && users == old(users)
        else if !EqualsIgnoreCase(old(users)[found.value].email, form.email) && EmailTaken(old(users), form.email) then
          updated == None && error == Some(DuplicateEmail) && users == old(users)
        else
          (users == Overwrite(old(users), found.value, form) && updated == Some(users[found.value]))
    {
      ValidateEmailNeverThrows(emailSyntax, form.email);
      var check := ValidateEmail(emailSyntax, form.email);
      if check.Rejected? {
        return None, Some(check.reason);
      }
      var found := FindIndex(users, id);
      if found.None? {
        return None, Some(UserNotFound);
      }
      var k := found.value;
      if !EqualsIgnoreCase(users[k].email, form.email) && EmailTaken(users, form.email) {
        return None, Some(DuplicateEmail);
      }
      OverwriteKeepsUniqueEmails(users, k, form);
      OverwriteKeepsIds(users, k, form);
      users := Overwrite(users, k, form);
      updated, error := Some(users[k]), None;
    }

    /**
     * Delete: an error when no user holds the id; otherwise exactly that user
     * is removed and every survivor keeps its id, so the id is gone.
     */
    method DeleteUser(id: int) returns (deleted: bool, error: Option<ErrorCode>)
      requires Valid()
      modifies this
      ensures Valid()
      ensures deleted <==> error.None?
      ensures match FindIndex(old(users), id)
        case None => !deleted && error == Some(UserNotFound) && users == old(users)
        case Some(k) => deleted && users == RemoveAt(old(users), k)
      ensures deleted ==> FindIndex(users, id) == None
    {
      var found := FindIndex(users, id);
      if found.None? {
        return false, Some(UserNotFound);
      }
      RemoveKeepsInvariants(users, found.value);
      IncreasingIdsUnique(users);
      RemoveDropsId(users, found.value);
      users := RemoveAt(users, found.value);
      deleted, error := true, None;
    }
  }
}
