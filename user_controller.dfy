/**
 * The older, self-contained directory: an API controller that owns a
 * static user list, validates emails itself (first failing rule wins),
 * and renumbers the survivors' ids after every delete.
 */
module Controllers {
  import opened Wrappers
  import opened Text
  import opened ErrorMessages
  import opened Email
  import opened Users

  /** The errors a 400 response carries: the framework's attribute errors, or the one error the action recorded. */
  datatype ModelErrors = AttributeErrors | ModelError(code: ErrorCode)

  /** What a 200 response carries. */
  datatype Payload = OneUser(user: User) | AllUsers(users: seq<User>) | Note(message: string)

  /** The HTTP outcome kinds the controller's actions produce. */
  datatype Response =
    | Ok(payload: Payload)
    | Created(user: User)
    | BadRequest(errors: ModelErrors)
    | NotFound(error: ErrorCode)
    | Conflict(error: ErrorCode)

  /**
   * The controller's email validator. Each rule runs only when the ones before
   * it passed, and the first to fail names the error: blank, then syntax, then
   * the local part, then the domain. An address with no '@' makes the
   * domain step's `Substring` throw; the validator catches that and reports a
   * format error, so it never lets an exception out.
   */
  function ValidateEmail(syntax: SyntaxCheck, email: string): (r: EmailCheck)
    ensures !r.Throws?
    ensures IsBlank(email) ==> r == Rejected(InvalidEmailFormat)
    ensures r == Accepted <==>
      !IsBlank(email) && syntax(email) && LocalPartHasAlphanumeric(email) && '@' in email && DomainAllowed(email)
    ensures r == Rejected(NoAlphanumericCharacters) <==>
      !IsBlank(email) && syntax(email) && !LocalPartHasAlphanumeric(email)
    ensures r == Rejected(InvalidEmailDomain) <==>
      !IsBlank(email) && syntax(email) && LocalPartHasAlphanumeric(email) && '@' in email && !DomainAllowed(email)
    ensures r == Rejected(InvalidEmailFormat) <==>
      IsBlank(email) || !syntax(email) || (LocalPartHasAlphanumeric(email) && '@' !in email)
  {
    if IsBlank(email) then Rejected(InvalidEmailFormat)
    else if !syntax(email) then Rejected(InvalidEmailFormat)
    else
      LocalPartCheck(email);
      if !ContainsAsciiAlphanumeric(BeforeFirst(email, '@')) then Rejected(NoAlphanumericCharacters)
      else
        var at := LastIndexOf(email, '@');
        // Substring(-1) throws here; the catch turns that into a format error.
        if at < 0 then Rejected(InvalidEmailFormat)
        else
          DomainCheckAtLastAt(email);
          if !EndsWithAllowedDomain(ToLower(email[at..])) then Rejected(InvalidEmailDomain)
          else Accepted
  }

  class UserController {
    /** The framework's email-syntax attribute the validator consults. */
    const emailSyntax: SyntaxCheck
    /** The static user list. */
    var users: seq<User>

    /** What every action keeps: ids are the users' 1-based positions, and emails are unique ignoring case. */
    ghost predicate Valid()
      reads this
    {
      && PositionalIds(users)
      && UniqueEmails(users)
    }

    constructor (emailSyntax: SyntaxCheck)
      ensures Valid() && this.emailSyntax == emailSyntax && users == []
    {
      this.emailSyntax := emailSyntax;
      users := [];
    }

    /** GET by id: the first user holding the id, or 404 when none does. */
    function GetUser(id: int): (r: Response)
      reads this
      ensures r.Ok? || r == NotFound(UserNotFound)
      ensures r.NotFound? <==> forall k :: 0 <= k < |users| ==> users[k].id != id
      ensures r.Ok? ==> exists k ::
        && 0 <= k < |users| && r == Ok(OneUser(users[k])) && users[k].id == id
        && forall j :: 0 <= j < k ==> users[j].id != id
    {
      match FindIndex(users, id)
      case None => NotFound(UserNotFound)
      case Some(k) => Ok(OneUser(users[k]))
    }

    /** GET all: the stored list as it is, whose ids are 1..n in order and whose emails are unique. */
    function GetAllUsers(): (r: Response)
      reads this
      requires Valid()
      ensures r.Ok? && r.payload.AllUsers? && r.payload.users == users
      ensures PositionalIds(r.payload.users) && UniqueEmails(r.payload.users)
    {
      Ok(AllUsers(users))
    }

    /**
     * POST: attribute errors, then the email rules, then a case-insensitive
     * duplicate; otherwise the user is appended under id max+1 (1 for an
     * empty list), which the positional invariant makes the new length.
     */
    method AddUser(modelStateValid: bool, newUser: User) returns (r: Response)
      requires Valid()
      modifies this
      ensures Valid()
      ensures var check := ValidateEmail(emailSyntax, newUser.email);
        if !modelStateValid then r == BadRequest(AttributeErrors) && users == old(users)
        else if check != Accepted then r == BadRequest(ModelError(check.reason)) && users == old(users)
        else if EmailTaken(old(users), newUser.email) then r == Conflict(DuplicateEmail) && users == old(users)
        else r == Created(User(NextId(old(users)), newUser.name, newUser.email)) && users == old(users) + [r.user]
      ensures r.Created? ==> r.user.id == |old(users)| + 1
    {
      if !modelStateValid {
        return BadRequest(AttributeErrors);
      }
      var check := ValidateEmail(emailSyntax, newUser.email);
      if check != Accepted {
        return BadRequest(ModelError(check.reason));
      }
      if EmailTaken(users, newUser.email) {
        return Conflict(DuplicateEmail);
      }
      var added := User(NextId(users), newUser.name, newUser.email);
      AppendKeepsPositionalIds(users, UserForm(newUser.name, newUser.email));
      AppendKeepsUniqueEmails(users, added);
      users := users + [added];
      r := Created(added);
    }

    /**
     * PUT: attribute errors, then the email rules (before the lookup), then
     * 404, then a duplicate that is not the user's own current email; on
     * success only that user's name and email change.
     */
    method UpdateUser(modelStateValid: bool, id: int, updatedUser: User) returns (r: Response)
      requires Valid()
      modifies this
      ensures Valid()
      ensures var check := ValidateEmail(emailSyntax, updatedUser.email);
        var found := FindIndex(old(users), id);
        if !modelStateValid then r == BadRequest(AttributeErrors) && users == old(users)
        else if check != Accepted then r == BadRequest(ModelError(check.reason)) && users == old(users)
        else if found.None? then r == NotFound(UserNotFound) && users == old(users)
        else if !EqualsIgnoreCase(old(users)[found.value].email, updatedUser.email) && EmailTaken(old(users), updatedUser.email) then
          r == Conflict(DuplicateEmail) && users == old(users)
        else
          (users == Overwrite(old(users), found.value, UserForm(updatedUser.name, updatedUser.email))
           && r == Ok(OneUser(users[found.value])))
      ensures r.Conflict? ==> !EqualsIgnoreCase(old(users)[FindIndex(old(users), id).value].email, updatedUser.email)
    {
      if !modelStateValid {
        return BadRequest(AttributeErrors);
      }
      var check := ValidateEmail(emailSyntax, updatedUser.email);
      if check != Accepted {
        return BadRequest(ModelError(check.reason));
      }
      var found := FindIndex(users, id);
      if found.None? {
        return NotFound(UserNotFound);
      }
      var k := found.value;
      if !EqualsIgnoreCase(users[k].email, updatedUser.email) && EmailTaken(users, updatedUser.email) {
        return Conflict(DuplicateEmail);
      }
      var form := UserForm(updatedUser.name, updatedUser.email);
      OverwriteKeepsUniqueEmails(users, k, form);
      users := Overwrite(users, k, form);
      r := Ok(OneUser(users[k]));
    }

    /**
     * DELETE: 404 when no user holds the id; otherwise the first such user
     * is removed and the survivors, in order, are given ids 1..n.
     */
    method DeleteUser(id: int) returns (r: Response)
      requires Valid()
      modifies this
      ensures Valid()
      ensures match FindIndex(old(users), id)
        case None => r == NotFound(UserNotFound) && users == old(users)
        case Some(k) => r == Ok(Note(UserDeleted)) && users == Renumbered(RemoveAt(old(users), k))
    {
      var found := FindIndex(users, id);
      if found.None? {
        return NotFound(UserNotFound);
      }
      ghost var remaining := RemoveAt(users, found.value);
      RemoveKeepsInvariants(users, found.value);
      users := RemoveAt(users, found.value);
      var i := 0;
      while i < |users|
        invariant |users| == |remaining|
        invariant 0 <= i <= |users|
        invariant forall j :: 0 <= j < i ==> users[j] == User(j + 1, remaining[j].name, remaining[j].email)
        invariant forall j :: i <= j < |users| ==> users[j] == remaining[j]
      {
        users := users[i := users[i].(id := i + 1)];
        i := i + 1;
      }
      RenumberedInvariants(remaining);
      r := Ok(Note(UserDeleted));
    }
  }
}
