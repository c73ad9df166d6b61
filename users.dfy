/**
 * The `User` record, the two seed users, and the two read-only queries the
 * controller runs over the user list: the first user with a given identifier,
 * and the users whose e-mail contains a given text.
 */
module Users {

  import opened Wrappers
  import Sequences
  import Text

  /** A user record; `active` is the nullable `bool?` of the source. */
  datatype User = User(
    id: int,
    firstName: string,
    lastName: string,
    email: string,
    description: string,
    active: Option<bool>)

  /** The first seed user, inactive. */
  const Alicia: User :=
    User(1, "Alicia", "Doe", "a.doe@example", "Facilitator", Some(false))

  /** The second seed user, active; note the leading blank in the e-mail. */
  const Bram: User :=
    User(2, "Bram", "Doe", " b.doe@example", "EngineerSenior", Some(true))

  /** The seed users, in the order they are added. */
  const Seeds: seq<User> := [Alicia, Bram]

  /** Identifiers are the 1-based positions in the list: `users[i].id == i + 1`. */
  ghost predicate IdsArePositions(users: seq<User>)
  {
    forall i :: 0 <= i < |users| ==> users[i].id == i + 1
  }

  /** `i` is the first index whose user has identifier `id`. */
  ghost predicate IsFirstWithId(users: seq<User>, id: int, i: int)
  {
    0 <= i < |users| && users[i].id == id && forall j :: 0 <= j < i ==> users[j].id != id
  }

  /** The first user with identifier `id`, if there is one. */
  function FindById(users: seq<User>, id: int): (r: Option<User>)
    ensures r.None? <==> forall i :: 0 <= i < |users| ==> users[i].id != id
    ensures r.Some? ==> exists i :: IsFirstWithId(users, id, i) && users[i] == r.value
    decreases |users|
  {
    if users == [] then None
    else if users[0].id == id then (assert IsFirstWithId(users, id, 0); Some(users[0]))
    else
      var r := FindById(users[1..], id);
      assert forall i :: 1 <= i < |users| ==> users[i] == users[1..][i - 1];
      assert r.Some? ==> exists i :: IsFirstWithId(users, id, i) && users[i] == r.value by {
        if r.Some? {
          var k :| IsFirstWithId(users[1..], id, k) && users[1..][k] == r.value;
          assert IsFirstWithId(users, id, k + 1);
        }
      }
      r
  }

  /**
   * On a list whose identifiers are its positions, looking up `id` finds
   * the user at position `id - 1` exactly when `1 <= id <= |users|`.
   */
  lemma FindByPosition(users: seq<User>, id: int)
    requires IdsArePositions(users)
    ensures FindById(users, id) == if 1 <= id <= |users| then Some(users[id - 1]) else None
  {
    if 1 <= id <= |users| {
      assert users[id - 1].id == id;
      var k :| IsFirstWithId(users, id, k) && users[k] == FindById(users, id).value;
    }
  }

  /** The search predicate: the user's e-mail contains `email`, ordinally. */
  function EmailContains(email: string): User -> bool
  {
    (u: User) => Text.Contains(u.email, email)
  }

  /** The users whose e-mail contains `email`, in list order. */
  function WithEmail(users: seq<User>, email: string): seq<User>
  {
    Sequences.Filter(users, EmailContains(email))
  }
}
