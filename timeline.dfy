/**
 * The two timeline reads. Both order tweets newest first by `createdAt` and
 * return one page of the result; the feed first keeps only the tweets whose
 * author the reader follows.
 */
module Timeline {
  import opened Schema
  import Graph

  function Min(a: int, b: int): int {
    if a <= b then a else b
  }

  /** Each tweet is at least as recent as every tweet after it. */
  ghost predicate NewestFirst(s: seq<Tweet>) {
    forall i, j :: 0 <= i < j < |s| ==> s[i].createdAt >= s[j].createdAt
  }

  /** Each tweet of `s` is no more recent than `x`. */
  ghost predicate NoNewerThan(x: Tweet, s: seq<Tweet>) {
    forall k :: 0 <= k < |s| ==> s[k].createdAt <= x.createdAt
  }

  /** Places `t` into a newest-first sequence before the first tweet it is not older than. */
  function Insert(t: Tweet, s: seq<Tweet>): (r: seq<Tweet>)
    ensures multiset(r) == multiset(s) + multiset{t}
  {
    if s == [] || t.createdAt >= s[0].createdAt then [t] + s
    else
      assert s == [s[0]] + s[1..];
      [s[0]] + Insert(t, s[1..])
  }

  /** Inserting into a newest-first sequence keeps it newest first. */
  lemma {:induction false} InsertNewestFirst(t: Tweet, s: seq<Tweet>)
    requires NewestFirst(s)
    ensures NewestFirst(Insert(t, s))
  {
    if s != [] && t.createdAt < s[0].createdAt {
      var rest := Insert(t, s[1..]);
      assert NewestFirst(s[1..]);
      InsertNewestFirst(t, s[1..]);
      assert NoNewerThan(s[0], rest) by {
        forall k | 0 <= k < |rest| ensures rest[k].createdAt <= s[0].createdAt {
          assert rest[k] in multiset(s[1..]) + multiset{t};
          if rest[k] != t {
            assert rest[k] in s[1..];
          }
        }
      }
      assert Insert(t, s) == [s[0]] + rest;
    }
  }

  /**
   * `ORDER BY created_at DESC`: a newest-first arrangement of `s`. The order
   * among tweets with equal `createdAt` is this function's own choice; the
   * query fixes none. Only the completeness lemmas rely on every page being
   * cut from this one arrangement; `NewestFirstUnique` shows that the choice
   * is immaterial when timestamps are distinct.
   */
  function ByRecency(s: seq<Tweet>): (r: seq<Tweet>)
    ensures multiset(r) == multiset(s)
    ensures NewestFirst(r)
  {
    if s == [] then []
    else
      assert s == [s[0]] + s[1..];
      InsertNewestFirst(s[0], ByRecency(s[1..]));
      Insert(s[0], ByRecency(s[1..]))
  }

  /**
   * The tweets of `s` whose author is in `authors`, in the order of `s`:
   * each kept tweet occurs as often as in `s`, every other tweet not at all.
   */
  function FromAuthors(s: seq<Tweet>, authors: set<UserId>): (r: seq<Tweet>)
    ensures forall t :: t in r <==> t in s && t.userId in authors
    ensures forall t :: multiset(r)[t] == if t.userId in authors then multiset(s)[t] else 0
    ensures |r| <= |s|
  {
    if s == [] then []
    else
      assert s == [s[0]] + s[1..];
      assert forall t :: t in s <==> t == s[0] || t in s[1..];
      (if s[0].userId in authors then [s[0]] else []) + FromAuthors(s[1..], authors)
  }

  /** The position of the first item of page `page`, pages being 1-based. */
  function Offset(page: int, perPage: int): nat
    requires page >= 1 && perPage >= 1
  {
    (page - 1) * perPage
  }

  /** Each page starts `perPage` items after the previous one. */
  lemma NextOffset(page: int, perPage: int)
    requires page >= 1 && perPage >= 1
    ensures Offset(page + 1, perPage) == Offset(page, perPage) + perPage
  {
  }

  /**
   * Page `page` of `s` with `perPage` items per page: the items from position
   * (page-1)*perPage on, at most `perPage` of them, cut at the end of `s`.
   */
  function Page<T>(s: seq<T>, page: int, perPage: int): (r: seq<T>)
    requires page >= 1 && perPage >= 1
    ensures Offset(page, perPage) >= |s| ==> r == []
    ensures Offset(page, perPage) < |s| ==> |r| == Min(perPage, |s| - Offset(page, perPage))
    ensures forall i :: 0 <= i < |r| ==> Offset(page, perPage) + i < |s| && r[i] == s[Offset(page, perPage) + i]
  {
    var offset := Offset(page, perPage);
    if offset >= |s| then [] else s[offset..Min(offset + perPage, |s|)]
  }

  /** Pages 1 to `count` of `s`, concatenated. */
  function Pages<T>(s: seq<T>, perPage: int, count: nat): seq<T>
    requires perPage >= 1
  {
    if count == 0 then [] else Pages(s, perPage, count - 1) + Page(s, count, perPage)
  }

  /** The personalised feed of `u`: one page of the followees' tweets, newest first. */
  function Feed(tweets: seq<Tweet>, follows: set<Follow>, u: UserId, page: int, perPage: int): seq<Tweet>
    requires page >= 1 && perPage >= 1
  {
    Page(ByRecency(FromAuthors(tweets, Graph.FolloweeIds(follows, u))), page, perPage)
  }

  /** The global explore stream: one page of all tweets, newest first. */
  function Explore(tweets: seq<Tweet>, page: int, perPage: int): seq<Tweet>
    requires page >= 1 && perPage >= 1
  {
    Page(ByRecency(tweets), page, perPage)
  }

  /**
   * Consecutive pages tile the sequence: pages 1 to `count` together are its
   * first count*perPage items (the offset of page count+1), with no gap and
   * no overlap.
   */
  lemma {:induction false} PagesArePrefix<T>(s: seq<T>, perPage: int, count: nat)
    requires perPage >= 1
    ensures Pages(s, perPage, count) == s[..Min(Offset(count + 1, perPage), |s|)]
  {
    if count > 0 {
      PagesArePrefix(s, perPage, count - 1);
      var lo, hi := Offset(count, perPage), Offset(count + 1, perPage);
      NextOffset(count, perPage);
      var p := Page(s, count, perPage);
      if lo >= |s| {
        assert Min(hi, |s|) == Min(lo, |s|);
      } else {
        assert p == s[lo..Min(hi, |s|)];
        assert s[..Min(hi, |s|)] == s[..lo] + s[lo..Min(hi, |s|)];
      }
    }
  }

  /** A page of a newest-first sequence is itself newest first. */
  lemma PageNewestFirst(s: seq<Tweet>, page: int, perPage: int)
    requires page >= 1 && perPage >= 1
    requires NewestFirst(s)
    ensures NewestFirst(Page(s, page, perPage))
  {
    var r, offset := Page(s, page, perPage), Offset(page, perPage);
    forall i, j | 0 <= i < j < |r| ensures r[i].createdAt >= r[j].createdAt {
      assert r[i] == s[offset + i] && r[j] == s[offset + j];
    }
  }

  /** The item at position k of `s` lies on page k / perPage + 1. */
  lemma ItemOnItsPage<T>(s: seq<T>, perPage: int, k: int) returns (page: int)
    requires perPage >= 1 && 0 <= k < |s|
    ensures page == k / perPage + 1 && page >= 1
    ensures s[k] in Page(s, page, perPage)
  {
    var q, rem := k / perPage, k % perPage;
    assert k == q * perPage + rem && 0 <= rem < perPage;
    page := q + 1;
    assert Offset(page, perPage) == q * perPage;
    var r := Page(s, page, perPage);
    assert r[rem] == s[k];
  }

  /** Every tweet in the feed is in the tweet table and written by a user that `u` follows. */
  lemma FeedOnlyFollowees(tweets: seq<Tweet>, follows: set<Follow>, u: UserId, page: int, perPage: int, t: Tweet)
    requires page >= 1 && perPage >= 1
    requires t in Feed(tweets, follows, u, page, perPage)
    ensures t in tweets && Follow(u, t.userId) in follows
  {
    var pool := ByRecency(FromAuthors(tweets, Graph.FolloweeIds(follows, u)));
    var r := Page(pool, page, perPage);
    var i :| 0 <= i < |r| && r[i] == t;
    assert t in pool;
    assert t in multiset(pool);
  }

  /** A user who follows nobody has an empty feed on every page. */
  lemma FeedEmptyWithoutFollowees(tweets: seq<Tweet>, follows: set<Follow>, u: UserId, page: int, perPage: int)
    requires page >= 1 && perPage >= 1
    requires forall f :: f in follows ==> f.follower != u
    ensures Feed(tweets, follows, u, page, perPage) == []
  {
    var r := Feed(tweets, follows, u, page, perPage);
    if r != [] {
      FeedOnlyFollowees(tweets, follows, u, page, perPage, r[0]);
      assert false;
    }
  }

  /** The feed is ordered newest first. */
  lemma FeedNewestFirst(tweets: seq<Tweet>, follows: set<Follow>, u: UserId, page: int, perPage: int)
    requires page >= 1 && perPage >= 1
    ensures NewestFirst(Feed(tweets, follows, u, page, perPage))
  {
    PageNewestFirst(ByRecency(FromAuthors(tweets, Graph.FolloweeIds(follows, u))), page, perPage);
  }

  /**
   * The feed holds at most `perPage` tweets, and a page that starts past the
   * followees' tweets is empty rather than an error.
   */
  lemma FeedPageBounds(tweets: seq<Tweet>, follows: set<Follow>, u: UserId, page: int, perPage: int)
    requires page >= 1 && perPage >= 1
    ensures |Feed(tweets, follows, u, page, perPage)| <= perPage
    ensures Offset(page, perPage) >= |FromAuthors(tweets, Graph.FolloweeIds(follows, u))| ==>
      Feed(tweets, follows, u, page, perPage) == []
  {
    var pool := FromAuthors(tweets, Graph.FolloweeIds(follows, u));
    assert |ByRecency(pool)| == |multiset(pool)| == |pool|;
  }

  /** Every tweet written by a followee of `u` is among the tweets the feed orders and pages. */
  lemma FolloweeTweetInPool(tweets: seq<Tweet>, follows: set<Follow>, u: UserId, t: Tweet)
    requires t in tweets && Follow(u, t.userId) in follows
    ensures t in ByRecency(FromAuthors(tweets, Graph.FolloweeIds(follows, u)))
  {
    assert t in multiset(FromAuthors(tweets, Graph.FolloweeIds(follows, u)));
  }

  /** Every tweet written by a followee of `u` appears on some page of the feed. */
  lemma FeedComplete(tweets: seq<Tweet>, follows: set<Follow>, u: UserId, perPage: int, t: Tweet)
    requires perPage >= 1
    requires t in tweets && Follow(u, t.userId) in follows
    ensures exists page :: page >= 1 && t in Feed(tweets, follows, u, page, perPage)
  {
    var pool := ByRecency(FromAuthors(tweets, Graph.FolloweeIds(follows, u)));
    FolloweeTweetInPool(tweets, follows, u, t);
    var k :| 0 <= k < |pool| && pool[k] == t;
    var p := ItemOnItsPage(pool, perPage, k);
    assert Feed(tweets, follows, u, p, perPage) == Page(pool, p, perPage);
  }

  /** Every tweet in the explore stream is in the tweet table, and the stream is newest first. */
  lemma ExploreSound(tweets: seq<Tweet>, page: int, perPage: int)
    requires page >= 1 && perPage >= 1
    ensures forall t :: t in Explore(tweets, page, perPage) ==> t in tweets
    ensures NewestFirst(Explore(tweets, page, perPage))
  {
    var pool := ByRecency(tweets);
    PageNewestFirst(pool, page, perPage);
    forall t | t in Explore(tweets, page, perPage) ensures t in tweets {
      assert t in multiset(pool);
    }
  }

  /**
   * The explore stream holds at most `perPage` tweets, exactly that many
   * while the table has them, and none on a page that starts past the end.
   */
  lemma ExplorePageBounds(tweets: seq<Tweet>, page: int, perPage: int)
    requires page >= 1 && perPage >= 1
    ensures Offset(page, perPage) >= |tweets| ==> Explore(tweets, page, perPage) == []
    ensures page * perPage <= |tweets| ==> |Explore(tweets, page, perPage)| == perPage
    ensures |Explore(tweets, page, perPage)| <= perPage
  {
    assert |ByRecency(tweets)| == |multiset(tweets)| == |tweets|;
    assert page * perPage == Offset(page, perPage) + perPage;
  }

  /** Every tweet appears on some page of the explore stream. */
  lemma ExploreComplete(tweets: seq<Tweet>, perPage: int, t: Tweet)
    requires perPage >= 1
    requires t in tweets
    ensures exists page :: page >= 1 && t in Explore(tweets, page, perPage)
  {
    var pool := ByRecency(tweets);
    assert t in multiset(pool);
    var k :| 0 <= k < |pool| && pool[k] == t;
    var p := ItemOnItsPage(pool, perPage, k);
    assert Explore(tweets, p, perPage) == Page(pool, p, perPage);
  }

  /** No two different tweets of `s` share a `createdAt`. */
  ghost predicate DistinctTimestamps(s: seq<Tweet>) {
    forall x, y :: x in s && y in s && x.createdAt == y.createdAt ==> x == y
  }

  /**
   * When no two different tweets share a timestamp there is only one
   * newest-first arrangement of them, so every `ORDER BY created_at DESC`
   * query over the same tweets yields the same sequence.
   */
  lemma {:induction false} NewestFirstUnique(a: seq<Tweet>, b: seq<Tweet>)
    requires multiset(a) == multiset(b)
    requires NewestFirst(a) && NewestFirst(b)
    requires DistinctTimestamps(a)
    ensures a == b
  {
    if a == [] {
      SameSize(a, b);
    } else {
      NewestHeadsAgree(a, b);
      DropHead(a);
      DropHead(b);
      NewestFirstUnique(a[1..], b[1..]);
      SameHeadSameTail(a, b);
    }
  }

  /** Sequences with the same elements, counted with multiplicity, have the same length. */
  lemma SameSize(a: seq<Tweet>, b: seq<Tweet>)
    requires multiset(a) == multiset(b)
    ensures |a| == |b|
  {
    assert |a| == |multiset(a)| && |b| == |multiset(b)|;
  }

  /** Two non-empty sequences with the same first item and the same rest are equal. */
  lemma SameHeadSameTail(a: seq<Tweet>, b: seq<Tweet>)
    requires a != [] && b != [] && a[0] == b[0] && a[1..] == b[1..]
    ensures a == b
  {
    assert a == [a[0]] + a[1..] && b == [b[0]] + b[1..];
  }

  /** Two newest-first arrangements of the same tweets with distinct timestamps start alike. */
  lemma NewestHeadsAgree(a: seq<Tweet>, b: seq<Tweet>)
    requires a != [] && multiset(a) == multiset(b)
    requires NewestFirst(a) && NewestFirst(b)
    requires DistinctTimestamps(a)
    ensures b != [] && a[0] == b[0]
  {
    assert b[0] in multiset(a) && a[0] in multiset(b);
    var i :| 0 <= i < |a| && a[i] == b[0];
    var j :| 0 <= j < |b| && b[j] == a[0];
    assert a[0].createdAt >= a[i].createdAt;
    assert b[0].createdAt >= b[j].createdAt;
  }

  /** Dropping the first tweet keeps the order, the distinct timestamps and the rest of the multiset. */
  lemma DropHead(a: seq<Tweet>)
    requires a != []
    ensures multiset(a[1..]) == multiset(a) - multiset{a[0]}
    ensures NewestFirst(a) ==> NewestFirst(a[1..])
    ensures DistinctTimestamps(a) ==> DistinctTimestamps(a[1..])
  {
    assert a == [a[0]] + a[1..];
    assert forall x :: x in a[1..] ==> x in a;
  }

  /**
   * With distinct timestamps, a page of the explore stream is the same
   * whichever newest-first order the database picks for that request.
   */
  lemma ExploreOrderIndependent(tweets: seq<Tweet>, order: seq<Tweet>, page: int, perPage: int)
    requires page >= 1 && perPage >= 1
    requires DistinctTimestamps(tweets)
    requires multiset(order) == multiset(tweets) && NewestFirst(order)
    ensures Page(order, page, perPage) == Explore(tweets, page, perPage)
  {
    var pool := ByRecency(tweets);
    assert DistinctTimestamps(order) by {
      assert forall x :: x in order <==> x in multiset(tweets);
    }
    NewestFirstUnique(order, pool);
  }

  /**
   * With distinct timestamps, a page of u's feed is the same whichever
   * newest-first order of the followees' tweets the database picks for that
   * request.
   */
  lemma FeedOrderIndependent(tweets: seq<Tweet>, follows: set<Follow>, u: UserId, order: seq<Tweet>, page: int, perPage: int)
    requires page >= 1 && perPage >= 1
    requires DistinctTimestamps(tweets)
    requires multiset(order) == multiset(FromAuthors(tweets, Graph.FolloweeIds(follows, u))) && NewestFirst(order)
    ensures Page(order, page, perPage) == Feed(tweets, follows, u, page, perPage)
  {
    var matching := FromAuthors(tweets, Graph.FolloweeIds(follows, u));
    forall x | x in order ensures x in tweets {
      assert x in multiset(matching);
    }
    NewestFirstUnique(order, ByRecency(matching));
  }

  /**
   * Whatever newest-first order of `pool` the database picks for a request,
   * the page cut from it holds only tweets of `pool`, is newest first and
   * has at most `perPage` items.
   */
  lemma AnyOrderPageSound(pool: seq<Tweet>, order: seq<Tweet>, page: int, perPage: int)
    requires page >= 1 && perPage >= 1
    requires multiset(order) == multiset(pool) && NewestFirst(order)
    ensures forall t :: t in Page(order, page, perPage) ==> t in pool
    ensures NewestFirst(Page(order, page, perPage))
    ensures |Page(order, page, perPage)| <= perPage
  {
    PageNewestFirst(order, page, perPage);
    forall t | t in Page(order, page, perPage) ensures t in pool {
      assert t in multiset(order);
    }
  }
}
