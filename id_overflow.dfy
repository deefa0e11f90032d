/**
 * Id assignment as the C# code computes it, in 32-bit `int` arithmetic that
 * is unchecked by default: `max + 1` wraps to the smallest `int` once the
 * largest id is `int.MaxValue`, and from then on it can hand out an id that
 * is already taken.
 */
module IdOverflow {
  import opened Users

  const Int32Min: int := -0x8000_0000
  const Int32Max: int := 0x7FFF_FFFF

  /** Two's-complement wrap-around of a mathematical integer into `int`. */
  function WrapInt32(x: int): (r: int)
    ensures Int32Min <= r <= Int32Max
    ensures Int32Min <= x <= Int32Max ==> r == x
    ensures (x - r) % 0x1_0000_0000 == 0
  {
    (x - Int32Min) % 0x1_0000_0000 + Int32Min
  }

  /** `users.Count == 0 ? 1 : users.Max(u => u.Id) + 1`, with the addition wrapping. */
  function NextIdAsWritten(users: seq<User>): (r: int)
    ensures Int32Min <= r <= Int32Max
    ensures |users| == 0 ==> r == 1
    ensures |users| > 0 ==> (MaxId(users) + 1 - r) % 0x1_0000_0000 == 0
  {
    if |users| == 0 then 1 else WrapInt32(MaxId(users) + 1)
  }

  /** Below the top of the range the wrapping and the unbounded id assignment agree. */
  lemma AsWrittenAgreesBelowMax(users: seq<User>)
    requires forall k :: 0 <= k < |users| ==> Int32Min <= users[k].id < Int32Max
    ensures NextIdAsWritten(users) == NextId(users)
  {
  }

  /**
   * Ids are `int`s. Once some user holds `int.MaxValue` and another holds `int.MinValue`,
   * the next id handed out is already taken.
   */
  lemma AsWrittenRepeatsAnId(users: seq<User>, a: nat, b: nat)
    requires forall k :: 0 <= k < |users| ==> Int32Min <= users[k].id <= Int32Max
    requires a < |users| && b < |users|
    requires users[a].id == Int32Max && users[b].id == Int32Min
    ensures NextIdAsWritten(users) == users[b].id
    ensures !UniqueIds(users + [User(NextIdAsWritten(users), "", "")])
  {
    var m := MaxId(users);
    assert m == Int32Max;
    var grown := users + [User(NextIdAsWritten(users), "", "")];
    assert grown[b] == users[b] && grown[|users|].id == grown[b].id;
  }

  /**
   * The sequence of states that reaches it: one user at `int.MaxValue`
   * (reached by alternating creates and deletes), a create that wraps to
   * `int.MinValue`, and a second create that gets `int.MinValue` again.
   */
  lemma WrapScenario()
    ensures var first := [User(Int32Max, "Farhanxxx", "a1@test.com")];
      var second := first + [User(NextIdAsWritten(first), "Another1", "b2@test.net")];
      && NextIdAsWritten(first) == Int32Min
      && NextIdAsWritten(second) == Int32Min
      && !UniqueIds(second + [User(NextIdAsWritten(second), "Third123", "c3@test.org")])
  {
    var first := [User(Int32Max, "Farhanxxx", "a1@test.com")];
    assert MaxId(first) == Int32Max;
    var second := first + [User(NextIdAsWritten(first), "Another1", "b2@test.net")];
    assert second[0].id == Int32Max && second[1].id == Int32Min;
    AsWrittenRepeatsAnId(second, 0, 1);
    var third := second + [User(NextIdAsWritten(second), "Third123", "c3@test.org")];
    assert third[1].id == third[2].id;
  }
}
