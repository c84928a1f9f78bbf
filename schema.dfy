/**
 * The three tables of the social network (users, tweets, follow edges) as
 * values, and the outcomes of the write handlers.
 */
module Schema {

  datatype Option<+T> = None | Some(value: T)

  type UserId = int
  type TweetId = int

  /** A row of the `user` table. Its `created_at` column is never read and is left out. */
  datatype User = User(id: UserId, username: string)

  /**
   * A row of the `tweet` table. `createdAt` is an abstract timestamp fixed
   * when the row is inserted; `inReplyTo` is the nullable parent tweet id.
   */
  datatype Tweet = Tweet(id: TweetId, userId: UserId, content: string, createdAt: int, inReplyTo: Option<TweetId>)

  /**
   * A row of the `follow` table. The pair is the composite primary key, so
   * the table is a set of these. Its `created_at` column is never read.
   */
  datatype Follow = Follow(follower: UserId, followee: UserId)

  /** The ways a write handler can fail. */
  datatype Error =
    | UsernameRequired      // username missing or empty
    | UsernameTaken         // a user with that username already exists
    | CannotFollowYourself  // follower and followee are the same id
    | DuplicateFollow       // the (follower, followee) primary key is already present at commit
    | NotNullViolation      // a NOT NULL column of the tweet row was left empty at commit

  datatype Result<+T> = Ok(value: T) | Err(error: Error)
}
