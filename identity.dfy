/**
 * The user table: the username lookup that guards registration, the
 * uniqueness it maintains, and the list of all users.
 */
module Identity {
  import opened Schema

  /** No two users share a username. */
  ghost predicate UsernamesDistinct(users: seq<User>) {
    forall i, j :: 0 <= i < j < |users| ==> users[i].username != users[j].username
  }

  /** No two users share an id. */
  ghost predicate IdsDistinct(users: seq<User>) {
    forall i, j :: 0 <= i < j < |users| ==> users[i].id != users[j].id
  }

  /**
   * The first user whose username is `name`, scanning in table order, or
   * None when there is none (the query that tests whether a name is taken).
   */
  function FindByUsername(users: seq<User>, name: string): (r: Option<User>)
    ensures r.None? <==> forall u :: u in users ==> u.username != name
    ensures r.Some? ==>
      exists i :: 0 <= i < |users| && users[i] == r.value && r.value.username == name &&
        forall j :: 0 <= j < i ==> users[j].username != name
  {
    if users == [] then None
    else if users[0].username == name then Some(users[0])
    else
      var r := FindByUsername(users[1..], name);
      assert forall u :: u in users ==> u == users[0] || u in users[1..];
      if r.Some? then
        var i :| 0 <= i < |users[1..]| && users[1..][i] == r.value && r.value.username == name &&
          forall j :: 0 <= j < i ==> users[1..][j].username != name;
        assert users[i + 1] == r.value;
        assert forall j :: 1 <= j < i + 1 ==> users[j] == users[1..][j - 1];
        r
      else
        r
  }

  /** The users listed by the user index, as a set: the query has no ORDER BY. */
  function AllUsers(users: seq<User>): set<User> {
    set u | u in users
  }

  /**
   * Registering a name that the lookup did not find keeps usernames pairwise
   * distinct.
   */
  lemma RegisterKeepsUsernamesDistinct(users: seq<User>, u: User)
    requires UsernamesDistinct(users)
    requires FindByUsername(users, u.username).None?
    ensures UsernamesDistinct(users + [u])
  {
    var users' := users + [u];
    forall i, j | 0 <= i < j < |users'| ensures users'[i].username != users'[j].username {
      if j == |users| {
        assert users'[i] in users;
      }
    }
  }

  /** A successful registration adds exactly the new user to the listing. */
  lemma AllUsersAfterRegister(users: seq<User>, u: User)
    ensures AllUsers(users + [u]) == AllUsers(users) + {u}
  {
    assert forall v :: v in users + [u] <==> v in users || v == u;
  }

  /** With distinct ids the listing has one entry per row of the user table. */
  lemma {:induction false} AllUsersCount(users: seq<User>)
    requires IdsDistinct(users)
    ensures |AllUsers(users)| == |users|
  {
    if users != [] {
      var init, last := users[..|users| - 1], users[|users| - 1];
      assert users == init + [last];
      assert IdsDistinct(init);
      AllUsersCount(init);
      AllUsersAfterRegister(init, last);
      LastIdFresh(users);
    }
  }

  /** With distinct ids, the id of the last user appears nowhere before it. */
  lemma LastIdFresh(users: seq<User>)
    requires users != [] && IdsDistinct(users)
    ensures forall v :: v in users[..|users| - 1] ==> v.id != users[|users| - 1].id
  {
    var init := users[..|users| - 1];
    forall v | v in init ensures v.id != users[|users| - 1].id {
      var k :| 0 <= k < |init| && init[k] == v;
      assert users[k] == v;
    }
  }
}
