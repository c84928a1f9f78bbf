/**
 * The follow table as a directed graph: who follows a user, whom a user
 * follows, and how following and unfollowing change those answers.
 */
module Graph {
  import opened Schema

  /** No edge goes from a user to that same user. */
  ghost predicate NoSelfFollow(follows: set<Follow>) {
    forall f :: f in follows ==> f.follower != f.followee
  }

  /** The follower ids of the edges whose followee is `u`. */
  function FollowerIds(follows: set<Follow>, u: UserId): (r: set<UserId>)
    ensures forall a :: a in r <==> Follow(a, u) in follows
  {
    set f | f in follows && f.followee == u :: f.follower
  }

  /** The followee ids of the edges whose follower is `u`. */
  function FolloweeIds(follows: set<Follow>, u: UserId): (r: set<UserId>)
    ensures forall b :: b in r <==> Follow(u, b) in follows
  {
    set f | f in follows && f.follower == u :: f.followee
  }

  /**
   * The registered users whose id is among the follower ids of `u`; an edge
   * naming an id with no user row contributes nothing.
   */
  function Followers(users: seq<User>, follows: set<Follow>, u: UserId): (r: set<User>)
    ensures forall v :: v in r <==> v in users && Follow(v.id, u) in follows
  {
    set v | v in users && v.id in FollowerIds(follows, u)
  }

  /** The registered users whose id is among the followee ids of `u`. */
  function Following(users: seq<User>, follows: set<Follow>, u: UserId): (r: set<User>)
    ensures forall v :: v in r <==> v in users && Follow(u, v.id) in follows
  {
    set v | v in users && v.id in FolloweeIds(follows, u)
  }

  /** The registered users that carry id `a`. */
  function UsersWithId(users: seq<User>, a: UserId): set<User> {
    set v | v in users && v.id == a
  }

  /** The two reads are converse: x follows y exactly when y is followed by x. */
  lemma FollowersFollowingConverse(users: seq<User>, follows: set<Follow>, x: User, y: User)
    requires x in users && y in users
    ensures x in Followers(users, follows, y.id) <==> y in Following(users, follows, x.id)
  {
  }

  /** Without self edges nobody appears among their own followers or followees. */
  lemma NoSelfInReads(users: seq<User>, follows: set<Follow>, v: User)
    requires NoSelfFollow(follows)
    ensures v !in Followers(users, follows, v.id) && v !in Following(users, follows, v.id)
  {
  }

  /**
   * Adding the edge (a, b) adds the users with id a to the followers of b,
   * and leaves the followers of every other user as they were.
   */
  lemma FollowersAfterFollow(users: seq<User>, follows: set<Follow>, a: UserId, b: UserId, c: UserId)
    ensures Followers(users, follows + {Follow(a, b)}, c) ==
      if c == b then Followers(users, follows, c) + UsersWithId(users, a) else Followers(users, follows, c)
  {
  }

  /**
   * Adding the edge (a, b) adds the users with id b to the followees of a,
   * and leaves the followees of every other user as they were.
   */
  lemma FollowingAfterFollow(users: seq<User>, follows: set<Follow>, a: UserId, b: UserId, c: UserId)
    ensures Following(users, follows + {Follow(a, b)}, c) ==
      if c == a then Following(users, follows, c) + UsersWithId(users, b) else Following(users, follows, c)
  {
  }

  /**
   * Removing the edge (a, b) removes the users with id a from the followers
   * of b, and leaves the followers of every other user as they were.
   */
  lemma FollowersAfterUnfollow(users: seq<User>, follows: set<Follow>, a: UserId, b: UserId, c: UserId)
    ensures Followers(users, follows - {Follow(a, b)}, c) ==
      if c == b then Followers(users, follows, c) - UsersWithId(users, a) else Followers(users, follows, c)
  {
  }

  /**
   * Removing the edge (a, b) removes the users with id b from the followees
   * of a, and leaves the followees of every other user as they were.
   */
  lemma FollowingAfterUnfollow(users: seq<User>, follows: set<Follow>, a: UserId, b: UserId, c: UserId)
    ensures Following(users, follows - {Follow(a, b)}, c) ==
      if c == a then Following(users, follows, c) - UsersWithId(users, b) else Following(users, follows, c)
  {
  }
}
