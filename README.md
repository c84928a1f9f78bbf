# mintwit: a verified model of the social-graph store and its timelines

mintwit is a small social network backend. It keeps three tables: users, tweets,
and directed follow edges. Four handlers write to them: register, follow,
unfollow and tweet. The read handlers list users, followers and followees, and
serve two timelines. The personalised feed holds the tweets of the users someone
follows. The explore stream holds all tweets. Both are ordered newest first by
`created_at` and cut into pages.

This project models that core in Dafny:

- `schema.dfy` (`Schema`): the rows of the three tables and the handlers' error outcomes.
- `identity.dfy` (`Identity`): the username lookup that guards registration, the
  uniqueness it keeps, and the list of users.
- `graph.dfy` (`Graph`): the follower and followee reads over the follow table, and
  how follow and unfollow change them.
- `timeline.dfy` (`Timeline`): filtering by author, ordering by `created_at`
  descending, pagination, the feed and the explore stream.
- `store.dfy` (`Store`): class `SocialStore`. It holds the tables in memory as a
  sequence of users, a set of follow edges, a sequence of tweets and two id
  counters. Its methods are the write handlers and change that state in place.
  `AccountsWalkthrough` and `TimelineWalkthrough` are methods whose assertions
  about two short sessions the verifier proves. The first covers registrations,
  refused names, follows and unfollows. The second covers a follow, a tweet,
  both users' feeds and an out-of-range explore page.

The database is replaced by the class's fields. The reads are functions over
those fields. Each write handler returns `Ok` or `Err` with the reason.

Behaviour of the code that the model keeps:

- A second `follow` of the same pair is an error. The code inserts the row and
  the composite primary key rejects it at commit, so the model returns
  `Err(DuplicateFollow)` and keeps the edges.
- No handler checks that a user id or a reply parent exists. SQLite does not
  enforce foreign keys by default. So no handler reports a missing user or
  tweet: follow, tweet and feed accept any id.
- Tweet content is not checked for emptiness or length. `String(280)` is not
  enforced by SQLite. Only a missing (null) author or content is refused, by the
  NOT NULL columns.
- The order is `created_at` descending with no tie-break among equal
  timestamps, and none is claimed.
- The user, follower and followee lists have no `ORDER BY`. They are modelled as sets.

## Model

| member | source | states |
|---|---|---|
| `Identity.FindByUsername` | mintwit/app.py:37 | the lookup answers None exactly when no user has the name; otherwise it returns the first user in table order whose username is the name |
| `Identity.RegisterKeepsUsernamesDistinct` | mintwit/app.py:37-41 | appending a user whose name the lookup did not find keeps all usernames pairwise distinct |
| `Identity.AllUsersAfterRegister` | mintwit/app.py:45-48 | after a successful registration the user listing is the old listing plus exactly the new user |
| `Identity.AllUsersCount` | mintwit/app.py:45-48 | when user ids are distinct, the listing has exactly one entry per row of the user table |
| `Graph.FollowerIds` | mintwit/app.py:75-76 | an id is collected exactly when the edge (id, u) is in the follow table |
| `Graph.FolloweeIds` | mintwit/app.py:84-85 | an id is collected exactly when the edge (u, id) is in the follow table |
| `Graph.Followers` | mintwit/app.py:75-77 | a user is a follower of u exactly when the user is registered and the edge (user.id, u) exists |
| `Graph.Following` | mintwit/app.py:84-86 | a user is followed by u exactly when the user is registered and the edge (u, user.id) exists |
| `Graph.FollowersFollowingConverse` | mintwit/app.py:72-87 | for registered x and y, x is among y's followers exactly when y is among the users x follows |
| `Graph.NoSelfInReads` | mintwit/app.py:55-56 | with no self edge, a user is never among their own followers or followees |
| `Graph.FollowersAfterFollow` | mintwit/app.py:57-60 | adding the edge (a, b) adds the users with id a to b's followers and leaves every other user's followers unchanged |
| `Graph.FollowingAfterFollow` | mintwit/app.py:57-60 | adding the edge (a, b) adds the users with id b to a's followees and leaves every other user's followees unchanged |
| `Graph.FollowersAfterUnfollow` | mintwit/app.py:67-69 | removing the edge (a, b) removes the users with id a from b's followers and leaves every other user's followers unchanged |
| `Graph.FollowingAfterUnfollow` | mintwit/app.py:67-69 | removing the edge (a, b) removes the users with id b from a's followees and leaves every other user's followees unchanged |
| `Timeline.Insert` | mintwit/app.py:108 | inserting a tweet yields the old tweets plus that tweet, as a multiset |
| `Timeline.InsertNewestFirst` | mintwit/app.py:108 | inserting a tweet into a newest-first sequence keeps it newest first |
| `Timeline.ByRecency` | mintwit/app.py:108 | `ORDER BY created_at DESC` returns a permutation of its input in non-increasing `created_at` order |
| `Timeline.FromAuthors` | mintwit/app.py:107-108 | a tweet is kept exactly when it is in the table and its author is in the given set; each kept tweet occurs as many times as in the table and every other tweet not at all; the result is no longer than the table |
| `Timeline.Page` | mintwit/app.py:110 | item i of page p is item (p-1)*per_page + i of the input; a page holds min(per_page, what remains) items, and a page past the end is empty |
| `Timeline.PagesArePrefix` | mintwit/app.py:110 | pages 1 to n together are exactly the first n*per_page items: consecutive slices with no gap and no overlap |
| `Timeline.PageNewestFirst` | mintwit/app.py:110-111 | any page of a newest-first sequence is newest first |
| `Timeline.ItemOnItsPage` | mintwit/app.py:110 | the item at position k lies on page k / per_page + 1 |
| `Timeline.FeedOnlyFollowees` | mintwit/app.py:107-111 | every tweet in u's feed is in the tweet table and written by a user that u follows |
| `Timeline.FeedEmptyWithoutFollowees` | mintwit/app.py:107-111 | a user who follows nobody has an empty feed on every page |
| `Timeline.FeedNewestFirst` | mintwit/app.py:108-111 | the feed is ordered by non-increasing `created_at` |
| `Timeline.FeedPageBounds` | mintwit/app.py:110-111 | the feed holds at most per_page tweets, and a page starting past the followees' tweets is empty, not an error |
| `Timeline.FolloweeTweetInPool` | mintwit/app.py:107-108 | every tweet written by a followee of u is among the tweets the feed query orders and pages |
| `Timeline.FeedComplete` | mintwit/app.py:107-111 | every tweet written by a followee of u appears on some page of u's feed |
| `Timeline.ExploreSound` | mintwit/app.py:123 | every tweet in the explore stream is in the tweet table, and the stream is newest first |
| `Timeline.ExplorePageBounds` | mintwit/app.py:123 | the explore page holds at most per_page tweets, exactly per_page while the table has that many, and none past the end |
| `Timeline.ExploreComplete` | mintwit/app.py:123 | every tweet appears on some page of the explore stream |
| `Timeline.NewestFirstUnique` | mintwit/app.py:108 | when no two tweets share a `created_at`, two newest-first arrangements of the same tweets are equal |
| `Timeline.ExploreOrderIndependent` | mintwit/app.py:123 | with distinct timestamps, every newest-first order the database may choose gives the same explore page |
| `Timeline.FeedOrderIndependent` | mintwit/app.py:107-111 | with distinct timestamps, every newest-first order of the followees' tweets gives the same feed page |
| `Timeline.AnyOrderPageSound` | mintwit/app.py:107-110 | whatever newest-first order of the queried tweets a request gets (the feed query here, the explore query at line 123 alike), its page holds only matching tweets, is newest first and has at most per_page items |
| `Store.SocialStore.constructor` | mintwit/app.py:12-29 | the store starts with empty user, follow and tweet tables and satisfies the table constraints |
| `Store.SocialStore.Register` | mintwit/app.py:33-42 | a missing or empty name fails with UsernameRequired, and a taken name fails with UsernameTaken; both leave the store unchanged. Otherwise exactly one user with the next id is appended, the id is fresh, and usernames stay distinct |
| `Store.SocialStore.FollowUser` | mintwit/app.py:52-60 | following yourself fails with CannotFollowYourself, and an existing edge fails with DuplicateFollow; both leave the edges unchanged. Otherwise exactly the edge is added, and no edge is ever a self edge |
| `Store.SocialStore.UnfollowUser` | mintwit/app.py:64-69 | always succeeds and removes exactly the pair; a missing pair is a no-op, and users and tweets are unchanged |
| `Store.SocialStore.PostTweet` | mintwit/app.py:91-98 | a missing author or content fails with NotNullViolation and changes nothing. Otherwise exactly one tweet is appended, with the next (fresh) id and the given author, content, timestamp and reply parent; earlier tweets are unchanged |
| `Store.ValidStoreIdsDistinct` | mintwit/app.py:12-23 | in a valid store the user listing has one entry per user, and user ids and tweet ids are each pairwise distinct |

`Timeline.Feed` and `Timeline.Explore` are the feed and explore handlers, and
`Identity.AllUsers` is the user listing (mintwit/app.py:45-48). They carry no
contract of their own. The `Feed*` and `Explore*` lemmas and
`Identity.AllUsersAfterRegister` and `Identity.AllUsersCount` above state their
properties.

## Left out

- HTTP routing, JSON request and response encoding, status codes and the waitress server (mintwit/app.py:1-9, 130-134). Results are `Ok`/`Err` values, and the feed returns whole tweet rows rather than their `{id, content, user_id}` projection.
- SQLAlchemy sessions, commits, the sqlite file and rollback after a failed commit. The tables are fields of `SocialStore`, and a refused write changes nothing.
- Timestamp values. `createdAt` is an argument of `PostTweet`. The column default at mintwit/app.py:22 is evaluated once, at import. So all rows written while one server process runs share a timestamp, and rows kept in the database file from earlier runs carry earlier ones. The model allows any values, which covers both. `created_at` of users and follow edges is never read and is dropped.
- The order among tweets with equal `created_at`. The query does not fix it, and `ByRecency` picks one order. `Timeline.AnyOrderPageSound` shows that soundness, ordering and page size hold for every newest-first order of the same tweets.
- Timeline.FeedComplete, Timeline.ExploreComplete: completeness across pages assumes that every page request sees one order of tied tweets. Each page is a separate query with its own offset (mintwit/app.py:108-110, 123), and SQL may order ties differently in each, so a tweet tied with another can be skipped. Within one server run ties are the usual case. `Timeline.ExploreOrderIndependent` and `Timeline.FeedOrderIndependent` show that the assumption is not needed when timestamps are distinct.
- Timeline.Page, Timeline.Feed, Timeline.Explore: require `page >= 1` and `per_page >= 1`. The normalisation of smaller values happens inside Flask-SQLAlchemy's `paginate`, which is not part of this model.
- `int()` failures when parsing `page` and `per_page`.
- Follow, unfollow, follower, followee and feed requests with a missing (null) id, and the string-to-integer comparison of query-string ids. Ids are modelled as integers.
- Usernames and contents that are JSON values other than strings.
- Column length limits (`String(80)`, `String(280)`) and foreign keys. SQLite enforces neither, so the code has no such checks.
- Concurrency between requests. Each handler is modelled as one atomic step.
- cli2.py. It is an interactive shell that forwards each command over HTTP, and its current user is UI session state.
