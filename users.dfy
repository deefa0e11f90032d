/**
 * The stored user record and the list operations both directory variants
 * perform on their `List<User>`: lookup by id, the case-insensitive
 * duplicate scan, id assignment, and the three edits (append, overwrite,
 * remove), with the invariants the edits keep.
 */
module Users {
  import opened Wrappers
  import opened Text

  /** A stored user. `id` is assigned by the directory; a caller never sets it. */
  datatype User = User(id: int, name: string, email: string)

  /** The caller-supplied part of a create or update request. */
  datatype UserForm = UserForm(name: string, email: string)

  /** `users.FirstOrDefault(u => u.Id == id)`, as the position of the first match. */
  function FindIndex(users: seq<User>, id: int): (r: Option<nat>)
    ensures r.None? <==> forall k :: 0 <= k < |users| ==> users[k].id != id
    ensures r.Some? ==> r.value < |users| && users[r.value].id == id
    ensures r.Some? ==> forall k :: 0 <= k < r.value ==> users[k].id != id
  {
    if users == [] then None
    else if users[0].id == id then Some(0)
    else match FindIndex(users[1..], id)
      case None => None
      case Some(k) => Some(k + 1)
  }

  /** `users.Any(u => u.Email.Equals(email, StringComparison.OrdinalIgnoreCase))`. */
  predicate EmailTaken(users: seq<User>, email: string) {
    exists k :: 0 <= k < |users| && EqualsIgnoreCase(users[k].email, email)
  }

  /** `users.Max(u => u.Id)`. */
  function MaxId(users: seq<User>): (m: int)
    requires |users| > 0
    ensures exists k :: 0 <= k < |users| && users[k].id == m
    ensures forall k :: 0 <= k < |users| ==> users[k].id <= m
  {
    if |users| == 1 then users[0].id
    else
      var rest := MaxId(users[1..]);
      if users[0].id < rest then rest else users[0].id
  }

  /** `users.Count == 0 ? 1 : users.Max(u => u.Id) + 1`, with unbounded integers. */
  function NextId(users: seq<User>): (r: int)
    ensures |users| == 0 ==> r == 1
    ensures |users| > 0 ==> exists k :: 0 <= k < |users| && users[k].id == r - 1
    ensures forall k :: 0 <= k < |users| ==> users[k].id < r
  {
    if |users| == 0 then 1 else MaxId(users) + 1
  }

  /** No two stored users share an id. */
  ghost predicate UniqueIds(users: seq<User>) {
    forall i, j :: 0 <= i < j < |users| ==> users[i].id != users[j].id
  }

  /** Ids rise strictly in list order. */
  ghost predicate IncreasingIds(users: seq<User>) {
    forall i, j :: 0 <= i < j < |users| ==> users[i].id < users[j].id
  }

  /** Each user's id is its 1-based position in the list. */
  ghost predicate PositionalIds(users: seq<User>) {
    forall k :: 0 <= k < |users| ==> users[k].id == k + 1
  }

  /** No two stored users have emails that are equal ignoring case. */
  ghost predicate UniqueEmails(users: seq<User>) {
    forall i, j :: 0 <= i < j < |users| ==> !EqualsIgnoreCase(users[i].email, users[j].email)
  }

  /** The list after `user.Name = name; user.Email = email` on the user at position `k`. */
  function Overwrite(users: seq<User>, k: nat, form: UserForm): (r: seq<User>)
    requires k < |users|
    ensures |r| == |users|
    ensures r[k] == User(users[k].id, form.name, form.email)
    ensures forall j :: 0 <= j < |users| && j != k ==> r[j] == users[j]
  {
    users[k := users[k].(name := form.name, email := form.email)]
  }

  /** The list after `users.Remove(user)` on the user at position `k`. */
  function RemoveAt(users: seq<User>, k: nat): (r: seq<User>)
    requires k < |users|
    ensures |r| == |users| - 1
    ensures forall j :: 0 <= j < k ==> r[j] == users[j]
    ensures forall j :: k <= j < |r| ==> r[j] == users[j + 1]
  {
    users[..k] + users[k + 1..]
  }

  /** The list after `for (i = 0; i < users.Count; i++) users[i].Id = i + 1`. */
  function Renumbered(users: seq<User>): (r: seq<User>)
    ensures |r| == |users|
    ensures forall k :: 0 <= k < |users| ==> r[k] == User(k + 1, users[k].name, users[k].email)
  {
    if users == [] then []
    else
      var front := Renumbered(users[..|users| - 1]);
      front + [users[|users| - 1].(id := |users|)]
  }

  /** With positional ids, the user holding `id` is the one at position `id - 1`, if there is one. */
  lemma PositionalLookup(users: seq<User>, id: int)
    requires PositionalIds(users)
    ensures FindIndex(users, id) == if 1 <= id <= |users| then Some(id - 1) else None
  {
    if 1 <= id <= |users| {
      assert users[id - 1].id == id;
    }
  }

  /** Increasing ids are unique ids. */
  lemma IncreasingIdsUnique(users: seq<User>)
    requires IncreasingIds(users)
    ensures UniqueIds(users)
  {
  }

  /** With unique ids, the lookup finds the one user holding the id, whatever its position. */
  lemma FindIndexUnique(users: seq<User>, k: nat)
    requires UniqueIds(users) && k < |users|
    ensures FindIndex(users, users[k].id) == Some(k)
  {
  }

  /** Creating then looking up: the appended user is found under the id it was given. */
  lemma FindAppended(users: seq<User>, form: UserForm)
    ensures FindIndex(users + [User(NextId(users), form.name, form.email)], NextId(users)) == Some(|users|)
  {
    var id := NextId(users);
    var grown := users + [User(id, form.name, form.email)];
    assert forall k :: 0 <= k < |users| ==> grown[k].id == users[k].id != id;
    assert grown[|users|].id == id;
    var r := FindIndex(grown, id);
    assert r.Some? && r.value == |users|;
  }

  /** Appending a user whose email is not taken keeps emails unique ignoring case. */
  lemma AppendKeepsUniqueEmails(users: seq<User>, user: User)
    requires UniqueEmails(users) && !EmailTaken(users, user.email)
    ensures UniqueEmails(users + [user])
  {
    var grown := users + [user];
    assert forall k :: 0 <= k < |users| ==> grown[k] == users[k];
  }

  /** Appending under the next id keeps ids increasing: the new id exceeds every stored one. */
  lemma AppendKeepsIncreasingIds(users: seq<User>, form: UserForm)
    requires IncreasingIds(users)
    ensures IncreasingIds(users + [User(NextId(users), form.name, form.email)])
  {
    var grown := users + [User(NextId(users), form.name, form.email)];
    assert forall k :: 0 <= k < |users| ==> grown[k] == users[k];
  }

  /** With positional ids the next id is the list length plus one, so appending keeps ids positional. */
  lemma AppendKeepsPositionalIds(users: seq<User>, form: UserForm)
    requires PositionalIds(users)
    ensures NextId(users) == |users| + 1
    ensures PositionalIds(users + [User(NextId(users), form.name, form.email)])
  {
    if |users| > 0 {
      assert users[|users| - 1].id == |users|;
    }
    var grown := users + [User(NextId(users), form.name, form.email)];
    assert forall k :: 0 <= k < |users| ==> grown[k] == users[k];
  }

  /**
   * Overwriting a user's name and email keeps emails unique provided the new
   * email either matches the user's own current email ignoring case or is
   * not taken at all: the update's self-exclusion is safe.
   */
  lemma OverwriteKeepsUniqueEmails(users: seq<User>, k: nat, form: UserForm)
    requires UniqueEmails(users) && k < |users|
    requires EqualsIgnoreCase(users[k].email, form.email) || !EmailTaken(users, form.email)
    ensures UniqueEmails(Overwrite(users, k, form))
  {
    var r := Overwrite(users, k, form);
    forall i, j | 0 <= i < j < |r|
      ensures !EqualsIgnoreCase(r[i].email, r[j].email)
    {
      if i == k {
        assert !EqualsIgnoreCase(users[k].email, users[j].email);
      } else if j == k {
        assert !EqualsIgnoreCase(users[i].email, users[k].email);
      }
    }
  }

  /** An overwrite leaves every id where it was, so any ordering of ids survives it. */
  lemma OverwriteKeepsIds(users: seq<User>, k: nat, form: UserForm)
    requires k < |users|
    ensures forall j :: 0 <= j < |users| ==> Overwrite(users, k, form)[j].id == users[j].id
  {
  }

  /** Removing a user keeps the survivors' order, so ids stay increasing and emails unique. */
  lemma RemoveKeepsInvariants(users: seq<User>, k: nat)
    requires k < |users|
    ensures IncreasingIds(users) ==> IncreasingIds(RemoveAt(users, k))
    ensures UniqueEmails(users) ==> UniqueEmails(RemoveAt(users, k))
  {
    var r := RemoveAt(users, k);
    forall i, j | 0 <= i < j < |r|
      ensures exists i', j' :: 0 <= i' < j' < |users| && r[i] == users[i'] && r[j] == users[j']
    {
      var i' := if i < k then i else i + 1;
      var j' := if j < k then j else j + 1;
      assert r[i] == users[i'] && r[j] == users[j'];
    }
  }

  /** With unique ids, the removed user's id is held by no survivor: a later lookup finds nothing. */
  lemma RemoveDropsId(users: seq<User>, k: nat)
    requires UniqueIds(users) && k < |users|
    ensures FindIndex(RemoveAt(users, k), users[k].id) == None
  {
    var r := RemoveAt(users, k);
    forall j | 0 <= j < |r|
      ensures r[j].id != users[k].id
    {
      if j >= k {
        assert r[j] == users[j + 1];
      }
    }
  }

  /** Renumbering makes ids positional and keeps names and emails, so email uniqueness survives. */
  lemma RenumberedInvariants(users: seq<User>)
    ensures PositionalIds(Renumbered(users))
    ensures UniqueEmails(users) ==> UniqueEmails(Renumbered(users))
  {
  }
}
