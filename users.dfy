/**
 * The user table shared by both variants: the `User` record, the linear scan
 * behind `get_user_by_name`, and the three-way login decision. The variants
 * differ only in how a given password is checked against the stored one, so
 * that check is a parameter here.
 */
module Users {
  import opened Common
  import opened KeyedTable

  /** An account; `password` is plaintext or a hash, depending on the variant. */
  datatype User = User(id: U64, username: string, password: string)

  /**
   * `users.values().find(|u| u.username == name)`: the first user named `name`
   * met when the table is scanned in the order `order`.
   */
  function FindByName(users: map<U64, User>, order: seq<U64>, name: string): (r: Option<User>)
    requires forall i :: 0 <= i < |order| ==> order[i] in users
    ensures r.None? <==> forall i :: 0 <= i < |order| ==> users[order[i]].username != name
    ensures r.Some? ==> r.value in users.Values && r.value.username == name
    ensures r.Some? ==>
      exists i :: 0 <= i < |order| && users[order[i]] == r.value &&
        forall j :: 0 <= j < i ==> users[order[j]].username != name
  {
    if order == [] then None
    else if users[order[0]].username == name then Some(users[order[0]])
    else
      var r := FindByName(users, order[1..], name);
      assert r.Some? ==>
        exists i :: 1 <= i < |order| && users[order[i]] == r.value &&
          forall j :: 0 <= j < i ==> users[order[j]].username != name
      by {
        if r.Some? {
          var i :| 0 <= i < |order| - 1 && users[order[1..][i]] == r.value &&
            forall j :: 0 <= j < i ==> users[order[1..][j]].username != name;
          assert forall j :: 1 <= j < i + 1 ==> users[order[j]].username != name by {
            forall j | 1 <= j < i + 1 ensures users[order[j]].username != name {
              assert order[j] == order[1..][j - 1];
            }
          }
        }
      }
      r
  }

  /**
   * Over a whole table: the scan finds nothing exactly when no stored user has
   * the name, whatever the iteration order.
   */
  lemma FindByNameNoneIff(users: map<U64, User>, order: seq<U64>, name: string)
    requires IsIterationOrder(order, users.Keys)
    ensures FindByName(users, order, name).None? <==>
      forall id :: id in users ==> users[id].username != name
  {
  }

  /**
   * When exactly one stored user has the name, the scan returns that user in
   * every iteration order.
   */
  lemma FindByNameUnique(users: map<U64, User>, order: seq<U64>, id: U64)
    requires IsIterationOrder(order, users.Keys)
    requires id in users
    requires forall other :: other in users && users[other].username == users[id].username ==> other == id
    ensures FindByName(users, order, users[id].username) == Some(users[id])
  {
  }

  /**
   * The login decision: an unknown username is `Unauthorized`; otherwise the
   * user found is checked with `accepts(given, stored)`, giving `Ok` or
   * `BadRequest`.
   */
  function LoginDecision(users: map<U64, User>, order: seq<U64>, request: User,
                         accepts: (string, string) -> bool): (s: Status)
    requires IsIterationOrder(order, users.Keys)
    ensures s == Unauthorized <==> forall id :: id in users ==> users[id].username != request.username
    ensures s == Ok ==>
      exists id :: id in users && users[id].username == request.username &&
        accepts(request.password, users[id].password)
    ensures s == BadRequest ==>
      exists id :: id in users && users[id].username == request.username &&
        !accepts(request.password, users[id].password)
  {
    FindByNameNoneIff(users, order, request.username);
    match FindByName(users, order, request.username)
    case None => Unauthorized
    case Some(stored) => if accepts(request.password, stored.password) then Ok else BadRequest
  }

  /**
   * When the requested name belongs to exactly one stored user, the outcome is
   * determined by that user's password alone: `Ok` if it is accepted and
   * `BadRequest` if not, in every iteration order.
   */
  lemma LoginDecisionUnique(users: map<U64, User>, order: seq<U64>, request: User,
                            accepts: (string, string) -> bool, id: U64)
    requires IsIterationOrder(order, users.Keys)
    requires id in users && users[id].username == request.username
    requires forall other :: other in users && users[other].username == request.username ==> other == id
    ensures LoginDecision(users, order, request, accepts) ==
      if accepts(request.password, users[id].password) then Ok else BadRequest
  {
  }

  /**
   * With two users of the same name, the user `get_user_by_name` returns
   * depends on the iteration order, so duplicate names make login ambiguous.
   */
  lemma DuplicateNamesAreAmbiguous()
    ensures
      var users := map[1 := User(1, "alice", "a"), 2 := User(2, "alice", "b")];
      && IsIterationOrder([1, 2], users.Keys) && IsIterationOrder([2, 1], users.Keys)
      && FindByName(users, [1, 2], "alice") == Some(users[1])
      && FindByName(users, [2, 1], "alice") == Some(users[2])
  {
  }
}
