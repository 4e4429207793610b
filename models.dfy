/**
 * The entities the tweet repository works with: rows of the Tweets and
 * UserFollows tables, the transfer object returned to callers, and the
 * outcomes of the repository's operations.
 */
module Models {

  /** A value that may be absent (a `null` of the C# repository). */
  datatype Option<+T> = None | Some(value: T)

  /** Why a repository operation failed; each stands for an exception `TweetRepository.cs` throws. */
  datatype Error =
    | UserDoesNotExist   // CreateTweet: the author id is not a key of Users
    | TweetDoesNotExist  // DeleteTweet: no tweet has the id
    | StorageFault       // SaveChanges rejected the insert (a primary key already taken)

  /** The outcome of an operation that writes: a value, or the error it raised. */
  datatype Result<+T> = Success(value: T) | Failure(error: Error)

  /**
   * A row of the Tweets table. `createdAt` is the row's timestamp as a
   * count of ticks; the `User` navigation property is not tracked.
   */
  datatype Tweet = Tweet(id: int, userId: int, content: string, createdAt: int)

  /** The transfer object every read returns and CreateTweet accepts. */
  datatype TweetDto = TweetDto(id: int, userId: int, content: string, createdAt: int)

  /** A row of the UserFollows table: `followerId` follows `followingId`. */
  datatype UserFollow = UserFollow(followerId: int, followingId: int)
}
