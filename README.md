# UserCrud directory core, modelled in Dafny

UserCrud is an in-memory user directory with two parallel implementations.
Each keeps a static `List<User>` and runs create, read, update and delete over
it behind an email-validation pipeline:

- `UserController` is the older variant. It validates emails itself: blank,
  then the framework's syntax check, then an ASCII letter or digit before the
  first `@`, then an allowed domain suffix. The first rule that fails names the
  error. It answers with HTTP outcomes and renumbers the survivors' ids to
  1..n after every delete.
- `UserService` is the newer variant. It reports failures through an error
  result, has no local-part rule, and leaves ids alone on delete.

The model has these files:

- `text.dfy` holds the .NET string calls the rules use: `IsNullOrWhiteSpace`
  with the exact `char.IsWhiteSpace` set, `ToLower`, `OrdinalIgnoreCase`
  equality, `EndsWith`, `LastIndexOf`, `Split('@')[0]` and the `[a-zA-Z0-9]`
  regex.
- `email.dfy` states the validation rules on their own. It proves that the
  string calls the code makes compute those rules.
- `users.dfy` holds the user record, the list queries (lookup by id, the
  duplicate scan, `max + 1`) and the list edits. It also holds the invariants
  the edits keep.
- `user_controller.dfy` and `user_service.dfy` hold one class each. The class
  has the list as a field, its actions as methods that change it, and its
  reads as functions.
- `variants.dfy` proves how the two variants differ.
- `scenarios.dfy` is a client that runs a create, duplicate, update,
  delete and lookup walk-through on the service.
- `id_overflow.dfy` models id assignment in 32-bit arithmetic (see Findings).

How the framework and library pieces stand in the model:

- The framework's email-syntax check (`EmailAddressAttribute.IsValid`) is the
  parameter `syntax: string -> bool`. Each class keeps it as a constant. The
  service class assumes one thing about it, stated as `Email.SyntaxNeedsAt`:
  it accepts no string without an `@`.
- The controller's model-binding check (`ModelState.IsValid`, from the
  attributes on `Models/User.cs`) is the boolean parameter `modelStateValid`.
- Case conversion and case-insensitive comparison fold ASCII letters only.
- `_mapper.Map` is a field copy: `Name` and `Email` go over, and the id is
  kept. `UserDto` is the `User` value itself.
- `Domains.AllowedDomains`, used by the service, is not part of this model. It
  is taken to be the controller's list `.com .net .org .co .pk`.

Three behaviours of the code worth noting:

- Validation runs before the id lookup in both updates.
- No phone rules are enforced.
- The controller renumbers ids on delete.

## Model

| member | source | states |
|---|---|---|
| `Text.IsBlank` | UserCrud/Controllers/UserController.cs:37 | `string.IsNullOrWhiteSpace`: every character is one of the `char.IsWhiteSpace` characters (so the empty string is blank) |
| `Text.ContainsAsciiAlphanumeric` | UserCrud/Controllers/UserController.cs:53 | `Regex.IsMatch(s, "[a-zA-Z0-9]")`: some position holds an ASCII letter or digit |
| `Text.ToLower` | UserCrud/Services/UserService.cs:29 | same length, each character lower-cased on its own |
| `Text.EqualsIgnoreCase` | UserCrud/Services/UserService.cs:82-83 | equal exactly when the lengths agree and every pair of characters agrees after lower-casing |
| `Text.EndsWith` | UserCrud/Services/UserService.cs:30 | true exactly when the suffix is no longer than the text and matches its last characters one by one |
| `Text.LastIndexOf` | UserCrud/Controllers/UserController.cs:60 | -1 exactly when the character is absent; otherwise a position holding it, with no later one holding it |
| `Text.BeforeFirst` | UserCrud/Controllers/UserController.cs:52 | the result is a prefix of the text that contains no `@`, and is followed by `@` whenever it is shorter than the text |
| `Email.EndsWithAllowedDomain` | UserCrud/Controllers/UserController.cs:61 | `AllowedDomains.Any(d => s.EndsWith(d))`: the text ends with one of `.com .net .org .co .pk` |
| `Email.LocalPartCheck` | UserCrud/Controllers/UserController.cs:52-53 | the regex test on `Split('@')[0]` holds exactly when some ASCII letter or digit has no `@` before it |
| `Email.DomainCheckAtLastAt` | UserCrud/Controllers/UserController.cs:60-61 | for an address with an `@`: testing the lower-cased text from the last `@` against the allowed suffixes gives the same answer as testing the whole lower-cased address |
| `Email.DomainAllowedIgnoresCase` | UserCrud/Controllers/UserController.cs:60 | two addresses equal ignoring case pass or fail the domain rule together |
| `Email.DomainMessageListsAllowedDomains` | UserCrud/Helpers/ErrorMessages.cs:9 | the domain error's text names exactly the allowed suffixes, in list order, separated by commas |
| `Controllers.ValidateEmail` | UserCrud/Controllers/UserController.cs:35-74 | first failure wins. A blank address is a format error. Otherwise a syntax failure is a format error. Otherwise no letter or digit before the first `@` is `NoAlphanumericCharacters`. Otherwise a missing `@` is a format error (the caught exception). Otherwise a disallowed domain is `InvalidEmailDomain`. Each outcome is stated with both directions; no exception escapes |
| `Controllers.UserController.constructor` | UserCrud/Controllers/UserController.cs:13 | the list starts empty and the invariant holds; the constructor stands for process start, when the static list is created, not for the per-request controller instance |
| `Controllers.UserController.GetUser` | UserCrud/Controllers/UserController.cs:77-94 | 404 `UserNotFound` exactly when no user holds the id; otherwise 200 with the first user holding it |
| `Controllers.UserController.GetAllUsers` | UserCrud/Controllers/UserController.cs:97-108 | 200 with the stored list; the listed ids are 1..n in order and the emails are unique ignoring case |
| `Controllers.UserController.AddUser` | UserCrud/Controllers/UserController.cs:111-136 | attribute errors, then the email verdict, then a case-insensitive duplicate (409), each leaving the list unchanged; otherwise the user is appended under max+1 (1 when empty), which equals the new length; the invariant is kept |
| `Controllers.UserController.UpdateUser` | UserCrud/Controllers/UserController.cs:139-172 | attribute errors, then the email verdict (before the lookup), then 404, then 409 only when the new email differs from the user's own ignoring case and is taken; on success only that user's name and email change; unique emails are kept |
| `Controllers.UserController.DeleteUser` | UserCrud/Controllers/UserController.cs:175-198 | 404 with the list unchanged when no user holds the id; otherwise the new list is the old one without that user, renumbered 1..n in order |
| `Services.ValidateEmail` | UserCrud/Services/UserService.cs:21-36 | a format error exactly when blank or failing syntax. Otherwise `InvalidEmailDomain` exactly when an `@` is present and the domain is not allowed, and acceptance exactly when it is. A missing `@` throws. There is no local-part rule |
| `Services.ValidateEmailNeverThrows` | UserCrud/Services/UserService.cs:24-29 | with a syntax check that needs an `@`, the validator only accepts or rejects |
| `Services.UserService.constructor` | UserCrud/Services/UserService.cs:13 | the list starts empty and the invariant holds; the constructor stands for process start, when the static list is created; the per-scope instance constructor at lines 15-18 does not reset the list |
| `Services.UserService.GetAllUsers` | UserCrud/Services/UserService.cs:38-41 | the stored list, with ids increasing and emails unique ignoring case |
| `Services.UserService.GetUserById` | UserCrud/Services/UserService.cs:43-47 | none exactly when no user holds the id; otherwise the first user holding it |
| `Services.UserService.AddUser` | UserCrud/Services/UserService.cs:49-66 | no user and an error exactly on failure. The email verdict fails first, then `DuplicateEmail`, each with the list unchanged. Otherwise the user is appended under max+1 (1 when empty). Increasing ids and unique emails are kept |
| `Services.UserService.UpdateUser` | UserCrud/Services/UserService.cs:68-90 | the email error first, then `UserNotFound`, then `DuplicateEmail` only when the new email differs from the user's own ignoring case; on success only the target's name and email change, its id and the other users stay |
| `Services.UserService.DeleteUser` | UserCrud/Services/UserService.cs:92-103 | `UserNotFound` with the list unchanged when no user holds the id; otherwise exactly that user is removed, every other record is kept as it was, and the id is no longer found |
| `Users.FindIndex` | UserCrud/Services/UserService.cs:45 | none exactly when no user holds the id; otherwise the position of the first user holding it |
| `Users.EmailTaken` | UserCrud/Services/UserService.cs:57 | `users.Any(u => u.Email.Equals(email, OrdinalIgnoreCase))`: some stored user's email equals the address ignoring case |
| `Users.MaxId` | UserCrud/Services/UserService.cs:63 | an id some user holds, at least every user's id |
| `Users.NextId` | UserCrud/Services/UserService.cs:63 | 1 on an empty list; otherwise one more than an id some user holds, and greater than every id, so it is fresh |
| `Users.Overwrite` | UserCrud/Services/UserService.cs:88 | the target keeps its id and takes the new name and email; every other position is unchanged |
| `Users.RemoveAt` | UserCrud/Services/UserService.cs:101 | one user fewer; users before the position stay in place and users after it move up one place in the same order |
| `Users.Renumbered` | UserCrud/Controllers/UserController.cs:188-189 | same length; each user keeps its name and email and gets its 1-based position as its id |
| `Users.PositionalLookup` | UserCrud/Controllers/UserController.cs:149 | with ids equal to positions, the user holding `id` is the one at position `id - 1`, and there is none outside 1..n |
| `Users.IncreasingIdsUnique` | UserCrud/Services/UserService.cs:63-64 | ids that rise in list order are unique |
| `Users.FindIndexUnique` | UserCrud/Services/UserService.cs:45 | with unique ids, looking up any stored user's id finds that user |
| `Users.FindAppended` | UserCrud/Services/UserService.cs:62-65 | after a create the new user is found under the id it was given, at the end of the list |
| `Users.AppendKeepsUniqueEmails` | UserCrud/Controllers/UserController.cs:121-128 | appending a user whose email is not taken ignoring case keeps emails unique |
| `Users.AppendKeepsIncreasingIds` | UserCrud/Services/UserService.cs:63-64 | appending under the next id keeps ids increasing |
| `Users.AppendKeepsPositionalIds` | UserCrud/Controllers/UserController.cs:127-128 | when ids equal positions, the next id is the length plus one, and appending under it keeps ids equal to positions |
| `Users.OverwriteKeepsUniqueEmails` | UserCrud/Controllers/UserController.cs:156-164 | updating to an email equal to the user's own ignoring case, or not taken at all, keeps emails unique |
| `Users.OverwriteKeepsIds` | UserCrud/Services/UserService.cs:88 | an update changes no id |
| `Users.RemoveKeepsInvariants` | UserCrud/Services/UserService.cs:101 | removing a user keeps ids increasing and emails unique |
| `Users.RemoveDropsId` | UserCrud/Services/UserService.cs:95-101 | with unique ids, no survivor holds the removed user's id |
| `Users.RenumberedInvariants` | UserCrud/Controllers/UserController.cs:186-189 | renumbering makes ids equal positions and keeps emails unique |
| `ErrorMessages.Message` | UserCrud/Helpers/ErrorMessages.cs:5-10 | every error kind is reported by a non-empty text; the controller sends the same texts from its own nested constants at UserController.cs:18-23 |
| `ErrorMessages.MessagesDistinct` | UserCrud/Helpers/ErrorMessages.cs:5-10 | different error kinds have different texts |
| `Variants.ControllerAcceptsLess` | UserCrud/Controllers/UserController.cs:52-57 | every address the controller accepts, the service accepts |
| `Variants.ValidatorsDifferOnlyByLocalPartRule` | UserCrud/Services/UserService.cs:21-36 | with a syntax check that needs an `@`, the two validators disagree exactly when the controller reports `NoAlphanumericCharacters`; the service then decides by the domain alone |
| `Variants.ControllerDeleteShiftsIds` | UserCrud/Controllers/UserController.cs:186-189 | controller delete: users before the removed one are unchanged; each user after it moves up and its id drops by one |
| `Variants.ControllerDeleteThenGetFindsNext` | UserCrud/Controllers/UserController.cs:179-189 | controller delete of any user but the last: a lookup of the deleted id then finds the user that stood after it |
| `Variants.ServiceDeleteKeepsIds` | UserCrud/Services/UserService.cs:95-102 | service delete: every survivor is an unchanged old record and the deleted id is gone |
| `Scenarios.Walkthrough` | UserCrud/Services/UserService.cs:49-102 | on an empty directory: create gets id 1. A second create with the same address ignoring case gives `DuplicateEmail`. Updating user 1 to another address keeps id 1. Deleting user 1 succeeds, and then looking it up finds nothing |
| `IdOverflow.WrapInt32` | UserCrud/Services/UserService.cs:63 | the result is a 32-bit `int`, congruent to the input modulo 2^32 and equal to it when it is in range |
| `IdOverflow.NextIdAsWritten` | UserCrud/Services/UserService.cs:63 | the id the code hands out: 1 on an empty list, otherwise a 32-bit `int` congruent to max+1 modulo 2^32 |
| `IdOverflow.AsWrittenAgreesBelowMax` | UserCrud/Services/UserService.cs:63 | while every id is below `int.MaxValue`, the wrapping assignment gives the same id as the unbounded one |
| `IdOverflow.AsWrittenRepeatsAnId` | UserCrud/Services/UserService.cs:63-64 | once one user holds `int.MaxValue` and another holds `int.MinValue`, the next id handed out is already taken |
| `IdOverflow.WrapScenario` | UserCrud/Services/UserService.cs:63-64 | from one user at `int.MaxValue`, two creates both get `int.MinValue` |

## Left out

- Program.cs, BaseController.cs, UserdbContext.cs and MappingProfile.cs: host wiring, the response-envelope adapter (its `ApiResponse<T>` type is not part of this model), the EF Core context and the AutoMapper configuration.
- MappingProfile.cs configures no map from `UpdateUserDto` to `User`, so the real `_mapper.Map(userDto, user)` call at UserService.cs:88 would be refused by the mapping library. The model performs the intended field copy (name and email).
- IUserService.cs: an interface whose signatures do not match the service.
- Phone numbers: no code enforces the declared phone messages or the `[Phone]` attribute, so the model has no phone field.
- Framework validation: `EmailAddressAttribute`, `[Required]`, `[StringLength]` and `ModelState` are library code. They are a predicate parameter and a boolean parameter, not reimplemented.
- Controllers.ValidateEmail: adding errors to `ModelState` is replaced by returning the error in the response.
- Controllers.ValidateEmail: a null email is not modelled separately; `IsNullOrWhiteSpace` treats it like the empty string.
- Controllers.ValidateEmail: `ToLower` and `EndsWith(string)` are culture-sensitive in .NET. The model folds ASCII letters only and compares characters exactly.
- Services.ValidateEmail: the same, for its `ToLower` and `EndsWith` calls.
- Text.EqualsIgnoreCase: `OrdinalIgnoreCase` also folds non-ASCII letters; the model folds ASCII letters only.
- The `catch` blocks that report `ServerError`: nothing in the modelled actions can throw, so those paths are not modelled.
- The static shared lists: each class models a single, sequential owner of its list. Thread safety is not modelled.
- User records are values and the list is a sequence field, so aliasing is lost. The controller hands out the stored `User` object, and a later edit or renumbering changes what the caller holds. The model returns a copy.
- Services.UserService.AddUser: ids are unbounded integers here. The 32-bit wrap-around is modelled on its own in `IdOverflow` and reported under Findings.
- Controllers.UserController.AddUser: ids are unbounded integers here too. In the controller, ids equal list positions, and a .NET list cannot reach `int.MaxValue` elements, so the wrap cannot occur.
- Services.UserService: an exception would pass through the service to its caller. The model instead assumes the syntax check admits only strings with an `@`, and proves that under this assumption nothing throws.

## Findings

| source | as written | input that shows it | evidently intended | confidence | as-written member | corrected member |
|---|---|---|---|---|---|---|
| UserCrud/Services/UserService.cs:63 | `users.Max(u => u.Id) + 1` is unchecked 32-bit `int` arithmetic and wraps from 2147483647 to -2147483648 | start from an empty directory, create one user, then alternate create and delete-the-older until the one stored user holds id 2147483647; create twice: both new users get id -2147483648 | each created user gets an id that no stored user holds | medium (default unchecked arithmetic assumed; the project file is not part of this model), not executed | `IdOverflow.AsWrittenRepeatsAnId` | `Users.NextId` |
