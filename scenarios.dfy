/**
 * A client of the service: a create, duplicate create, update, delete and
 * lookup walk-through, run on a fresh directory for any two addresses the
 * validator accepts that differ ignoring case.
 */
module Scenarios {
  import opened Wrappers
  import opened Text
  import opened ErrorMessages
  import opened Email
  import opened Users
  import Services

  /**
   * On an empty directory: the first create gets id 1; a second create with
   * the same address is a duplicate; updating user 1 to the other address
   * keeps id 1; deleting user 1 succeeds; looking it up then finds nothing.
   */
  method Walkthrough(syntax: SyntaxCheck, first: UserForm, second: UserForm, change: UserForm)
    returns (created: Option<User>, duplicateError: Option<ErrorCode>, updated: Option<User>,
             deleted: bool, afterDelete: Option<User>)
    requires SyntaxNeedsAt(syntax)
    requires Services.ValidateEmail(syntax, first.email) == Accepted
    requires Services.ValidateEmail(syntax, second.email) == Accepted
    requires Services.ValidateEmail(syntax, change.email) == Accepted
    requires EqualsIgnoreCase(first.email, second.email)
    requires !EqualsIgnoreCase(first.email, change.email)
    ensures created == Some(User(1, first.name, first.email))
    ensures duplicateError == Some(DuplicateEmail)
    ensures updated == Some(User(1, change.name, change.email))
    ensures deleted && afterDelete == None
  {
    var service := new Services.UserService(syntax);
    created, duplicateError := CreateTwice(service, first, second);
    updated, deleted, afterDelete := UpdateDeleteGet(service, first, change);
  }

  /** The two creates, on an empty directory. */
  method CreateTwice(service: Services.UserService, first: UserForm, second: UserForm)
    returns (created: Option<User>, duplicateError: Option<ErrorCode>)
    requires service.Valid() && service.users == []
    requires Services.ValidateEmail(service.emailSyntax, first.email) == Accepted
    requires Services.ValidateEmail(service.emailSyntax, second.email) == Accepted
    requires EqualsIgnoreCase(first.email, second.email)
    modifies service
    ensures service.Valid() && service.users == [User(1, first.name, first.email)]
    ensures created == Some(User(1, first.name, first.email))
    ensures duplicateError == Some(DuplicateEmail)
  {
    var error, none;
    created, error := service.AddUser(first);
    assert EmailTaken(service.users, second.email) by {
      assert EqualsIgnoreCase(service.users[0].email, second.email);
    }
    none, duplicateError := service.AddUser(second);
  }

  /** The update, the delete and the lookup, on a directory holding the first user. */
  method UpdateDeleteGet(service: Services.UserService, first: UserForm, change: UserForm)
    returns (updated: Option<User>, deleted: bool, afterDelete: Option<User>)
    requires service.Valid() && service.users == [User(1, first.name, first.email)]
    requires Services.ValidateEmail(service.emailSyntax, change.email) == Accepted
    requires !EqualsIgnoreCase(first.email, change.email)
    modifies service
    ensures updated == Some(User(1, change.name, change.email))
    ensures deleted && afterDelete == None
  {
    var error;
    assert FindIndex(service.users, 1) == Some(0);
    assert !EmailTaken(service.users, change.email) by {
      assert service.users[0].email == first.email;
    }
    updated, error := service.UpdateUser(1, change);
    assert FindIndex(service.users, 1) == Some(0);
    deleted, error := service.DeleteUser(1);
    afterDelete := service.GetUserById(1);
  }
}
