/**
 * The in-memory store behind the write handlers: the user, follow and tweet
 * tables with their id counters, changed in place by register, follow,
 * unfollow and tweet.
 */
module Store {
  import opened Schema
  import Identity
  import Graph
  import Timeline

  class SocialStore {
    var users: seq<User>
    var follows: set<Follow>
    var tweets: seq<Tweet>
    var nextUserId: UserId
    var nextTweetId: TweetId

    /**
     * The table constraints: ids are assigned 1, 2, 3, ... in insertion
     * order, usernames are non-empty and unique, and no user follows
     * themself.
     */
    ghost predicate Valid()
      reads this
    {
      && nextUserId == |users| + 1
      && nextTweetId == |tweets| + 1
      && (forall i :: 0 <= i < |users| ==> users[i].id == i + 1 && users[i].username != "")
      && Identity.UsernamesDistinct(users)
      && Graph.NoSelfFollow(follows)
      && (forall i :: 0 <= i < |tweets| ==> tweets[i].id == i + 1)
    }

    /** An empty database. */
    constructor ()
      ensures Valid()
      ensures users == [] && follows == {} && tweets == []
    {
      users, follows, tweets := [], {}, [];
      nextUserId, nextTweetId := 1, 1;
    }

    /**
     * Registers `username`. A missing or empty name and a name already taken
     * are refused and change nothing; otherwise exactly one user with a fresh
     * id is appended and that id is returned.
     */
    method Register(username: Option<string>) returns (r: Result<UserId>)
      requires Valid()
      modifies this
      ensures Valid()
      ensures follows == old(follows) && tweets == old(tweets)
      ensures (username.None? || username.value == "") ==>
        r == Err(UsernameRequired) && users == old(users)
      ensures username.Some? && username.value != "" && Identity.FindByUsername(old(users), username.value).Some? ==>
        r == Err(UsernameTaken) && users == old(users)
      ensures username.Some? && username.value != "" && Identity.FindByUsername(old(users), username.value).None? ==>
        r == Ok(old(nextUserId)) && users == old(users) + [User(old(nextUserId), username.value)]
      ensures r.Ok? ==> forall u :: u in old(users) ==> u.id != r.value && u.username != username.value
    {
      if username.None? || username.value == "" {
        return Err(UsernameRequired);
      }
      var name := username.value;
      if Identity.FindByUsername(users, name).Some? {
        return Err(UsernameTaken);
      }
      var user := User(nextUserId, name);
      Identity.RegisterKeepsUsernamesDistinct(users, user);
      users := users + [user];
      nextUserId := nextUserId + 1;
      r := Ok(user.id);
    }

    /**
     * Adds the edge `follower` -> `followee`. Following oneself is refused;
     * an edge already present violates the primary key at commit and is
     * refused too. Either refusal leaves the edges as they were; on success
     * exactly the new edge is added.
     */
    method FollowUser(follower: UserId, followee: UserId) returns (r: Result<()>)
      requires Valid()
      modifies this
      ensures Valid()
      ensures users == old(users) && tweets == old(tweets)
      ensures follower == followee ==> r == Err(CannotFollowYourself) && follows == old(follows)
      ensures follower != followee && Follow(follower, followee) in old(follows) ==>
        r == Err(DuplicateFollow) && follows == old(follows)
      ensures follower != followee && Follow(follower, followee) !in old(follows) ==>
        r == Ok(()) && follows == old(follows) + {Follow(follower, followee)}
    {
      if follower == followee {
        return Err(CannotFollowYourself);
      }
      var edge := Follow(follower, followee);
      if edge in follows {
        return Err(DuplicateFollow);
      }
      follows := follows + {edge};
      r := Ok(());
    }

    /**
     * Deletes the edge `follower` -> `followee` if present. It always
     * succeeds; every other edge is kept.
     */
    method UnfollowUser(follower: UserId, followee: UserId) returns (r: Result<()>)
      requires Valid()
      modifies this
      ensures Valid()
      ensures users == old(users) && tweets == old(tweets)
      ensures r == Ok(())
      ensures follows == old(follows) - {Follow(follower, followee)}
    {
      follows := follows - {Follow(follower, followee)};
      r := Ok(());
    }

    /**
     * Posts a tweet stamped `createdAt`. A missing author or content leaves a
     * NOT NULL column empty and is refused at commit, changing nothing;
     * otherwise exactly one tweet with a fresh id is appended and every
     * earlier tweet is kept. Neither the author nor the reply parent is
     * checked to exist.
     */
    method PostTweet(userId: Option<UserId>, content: Option<string>, inReplyTo: Option<TweetId>, createdAt: int)
      returns (r: Result<TweetId>)
      requires Valid()
      modifies this
      ensures Valid()
      ensures users == old(users) && follows == old(follows)
      ensures (userId.None? || content.None?) ==> r == Err(NotNullViolation) && tweets == old(tweets)
      ensures userId.Some? && content.Some? ==>
        r == Ok(old(nextTweetId)) &&
        tweets == old(tweets) + [Tweet(old(nextTweetId), userId.value, content.value, createdAt, inReplyTo)]
      ensures r.Ok? ==> forall t :: t in old(tweets) ==> t.id != r.value
    {
      if userId.None? || content.None? {
        return Err(NotNullViolation);
      }
      var t := Tweet(nextTweetId, userId.value, content.value, createdAt, inReplyTo);
      tweets := tweets + [t];
      nextTweetId := nextTweetId + 1;
      r := Ok(t.id);
    }
  }

  /**
   * In a valid store the listing of users has one entry per registered user,
   * and user and tweet ids are pairwise distinct.
   */
  lemma ValidStoreIdsDistinct(s: SocialStore)
    requires s.Valid()
    ensures |Identity.AllUsers(s.users)| == |s.users|
    ensures Identity.IdsDistinct(s.users)
    ensures forall i, j :: 0 <= i < j < |s.tweets| ==> s.tweets[i].id != s.tweets[j].id
  {
    Identity.AllUsersCount(s.users);
  }

  /**
   * A walk through the account handlers: alice and bob register, a second
   * alice and an empty name are refused, a self-follow and a repeated follow
   * are refused, and unfollowing twice succeeds both times.
   */
  method AccountsWalkthrough() {
    var store := new SocialStore();
    var alice := store.Register(Some("alice"));
    assert alice == Ok(1);
    var bob := store.Register(Some("bob"));
    assert Identity.FindByUsername([User(1, "alice")], "bob").None?;
    assert bob == Ok(2);
    var again := store.Register(Some("alice"));
    assert again == Err(UsernameTaken);
    var empty := store.Register(Some(""));
    assert empty == Err(UsernameRequired);

    var self := store.FollowUser(1, 1);
    assert self == Err(CannotFollowYourself);
    var follow := store.FollowUser(2, 1);
    assert follow == Ok(());
    var twice := store.FollowUser(2, 1);
    assert twice == Err(DuplicateFollow) && store.follows == {Follow(2, 1)};

    var unfollow := store.UnfollowUser(2, 1);
    var again2 := store.UnfollowUser(2, 1);
    assert unfollow == again2 == Ok(()) && store.follows == {};
  }

  /**
   * A walk through the timeline reads: user 2 follows user 1, user 1
   * tweets, and the tweet shows in user 2's feed but not in user 1's, and a
   * far explore page is empty.
   */
  method TimelineWalkthrough() {
    var store := new SocialStore();
    var follow := store.FollowUser(2, 1);
    assert follow == Ok(()) && store.follows == {Follow(2, 1)};
    var hello := store.PostTweet(Some(1), Some("hello"), None, 0);
    assert hello == Ok(1);
    var tweet := Tweet(1, 1, "hello", 0, None);
    assert store.tweets == [tweet];
    assert Graph.FolloweeIds(store.follows, 2) == {1};
    assert Timeline.FromAuthors([tweet], {1}) == [tweet];
    assert Timeline.ByRecency([tweet]) == [tweet];
    assert Timeline.Feed(store.tweets, store.follows, 2, 1, 10) == [tweet];
    Timeline.FeedEmptyWithoutFollowees(store.tweets, store.follows, 1, 1, 10);
    Timeline.ExplorePageBounds(store.tweets, 1000, 10);
    assert Timeline.Explore(store.tweets, 1000, 10) == [];
  }
}
