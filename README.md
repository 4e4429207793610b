# Tweet repository of Twitter-Clone, modelled in Dafny

The model covers `TweetRepository`, the gateway between the tweet domain and
the database of the Twitter-Clone backend. It creates tweets, looks them up by
id, lists all tweets or one user's tweets, composes the feed of a user from
the tweets of everyone they follow, and deletes tweets. The database is
pictured as three in-memory tables, all fields of the class
`Repositories.TweetRepository`:

- `users: set<int>`: the keys of the Users table;
- `tweets: seq<Tweet>`: the rows of the Tweets table, in table order;
- `userFollows: seq<UserFollow>`: the rows of the UserFollows table, one
  `(followerId, followingId)` edge each.

Each write (`CreateTweet`, `DeleteTweet`) is one atomic update of `tweets`.
The reads change nothing. The object invariant `Valid()` holds the two table
constraints the repository keeps: tweet ids are a primary key, and every
tweet's author is a user. The exceptions `TweetRepository.cs` throws become `Failure`
values of `Models.Result`, and a `null` return becomes `Models.Option.None`.

Files, one module each:

- `models.dfy` (`Models`): `Tweet`, `TweetDto`, `UserFollow`, `Option`, `Result`, `Error`.
- `mapper.dfy` (`TweetMapper`): the mapper between tweets and transfer objects, and the mapping of a whole list (`Select`).
- `queries.dfy` (`Queries`): the LINQ selections the repository sends to the database, as pure functions. These are `Where`, the follow-edge projection, the lookup by key, `OrderByDescending(CreatedAt)` and the removal of one row.
- `repository.dfy` (`Repositories`): the class `TweetRepository` with its six operations, the loop that builds every result list, and the properties of the feed.

The feed's order is specified only as "`CreatedAt` never increases" plus "a
permutation of the selected tweets". The database's `ORDER BY` has no
tie-break, so the specification leaves the order among equal timestamps
open. `OrderByCreatedAtDescending` (an insertion sort) is one order that meets
it, and no contract depends on which one it picks.

How the model renders the repository's error and edge cases:

- A missing id makes `GetTweetById` return `null` (`TweetRepository.cs:57-60`), modelled as `None`.
- A missing author or tweet makes `CreateTweet` and `DeleteTweet` throw `ArgumentException` (`TweetRepository.cs:30`, `:136`), modelled as `Failure(UserDoesNotExist)` and `Failure(TweetDoesNotExist)`.
- The list of followed ids keeps duplicate edges (`TweetRepository.cs:115`), and so does `FollowingIds`; the feed only tests membership in it, so duplicates change nothing.

## Model

| member | source | states |
|---|---|---|
| `TweetMapper.MapperRoundTrip` | Twitter-Clone/Repositories/TweetRepository.cs:33-38 | mapping a transfer object to a tweet and back gives the original, in both directions, so CreateTweet returns what it was given |
| `TweetMapper.MapToDtos` | Twitter-Clone/Repositories/TweetRepository.cs:79-81 | mapping a list gives one transfer object per tweet, position by position, of the same length |
| `TweetMapper.MapToDtosMembership` | Twitter-Clone/Repositories/TweetRepository.cs:119-123 | a transfer object is in the mapped list exactly when the tweet it maps back to is in the input |
| `TweetMapper.MapToDtosCount` | Twitter-Clone/Repositories/TweetRepository.cs:119-123 | each transfer object occurs in the mapped list as often as its tweet occurs in the input |
| `TweetMapper.MapToDtosPermutation` | Twitter-Clone/Repositories/TweetRepository.cs:117-123 | mapping two permutations of each other gives two permutations of each other (sorting before mapping keeps the feed a permutation) |
| `Queries.Where` | Twitter-Clone/Repositories/TweetRepository.cs:96 | `Where` keeps every tweet that satisfies the predicate as often as it occurs, drops all others, and keeps table order (a subsequence) |
| `Queries.AuthoredBy` | Twitter-Clone/Repositories/TweetRepository.cs:96 | the selected tweets are exactly those of the table whose `UserId` is the given user, with multiplicities, in table order |
| `Queries.AuthoredByAny` | Twitter-Clone/Repositories/TweetRepository.cs:117 | the selected tweets are exactly those whose `UserId` is in the id list (`following.Contains`), with multiplicities, in table order |
| `Queries.FollowingIds` | Twitter-Clone/Repositories/TweetRepository.cs:115 | an id is in the list exactly when some edge has the viewer as `FollowerId` and that id as `FollowingId`; the list is no longer than the edge table |
| `Queries.FindById` | Twitter-Clone/Repositories/TweetRepository.cs:56 | lookup by id gives None exactly when no tweet has the id, and otherwise the first position holding a tweet with that id |
| `Queries.RemoveAt` | Twitter-Clone/Repositories/TweetRepository.cs:139 | removing a row keeps every row before it and shifts every row after it down by one |
| `Queries.RemoveAtById` | Twitter-Clone/Repositories/TweetRepository.cs:132-140 | with unique ids, removing the row with an id keeps ids unique, keeps exactly the rows with other ids, and leaves no row with that id |
| `Queries.OrderByCreatedAtDescending` | Twitter-Clone/Repositories/TweetRepository.cs:117 | the ordered list is a permutation of the input with non-increasing `CreatedAt` |
| `Repositories.ToDtoList` | Twitter-Clone/Repositories/TweetRepository.cs:98-100 | the `foreach ... Add` loop yields one transfer object per tweet, in order, of the same length |
| `Repositories.FeedMembership` | Twitter-Clone/Repositories/TweetRepository.cs:115-123 | a feed holds a tweet exactly when the tweet is stored and the viewer follows its author |
| `Repositories.FeedOfNobody` | Twitter-Clone/Repositories/TweetRepository.cs:115-117 | a viewer with no outgoing follow edge has an empty feed, not an error |
| `Repositories.FeedsAgreeUpToTies` | Twitter-Clone/Repositories/TweetRepository.cs:117 | any two feeds of the same tables hold the same tweets and the same `CreatedAt` at every position, so they differ only in the order of equal timestamps |
| `Repositories.SameTimestamps` | Twitter-Clone/Repositories/TweetRepository.cs:117 | two lists ordered by non-increasing `CreatedAt` that are permutations of each other have equal length and equal timestamps position by position |
| `Repositories.FeedScenario` | Twitter-Clone/Repositories/TweetRepository.cs:115-123 | viewer follows A only; A posts T1 and later T2, unfollowed B posts T3: every feed is exactly [T2, T1] |
| `Repositories.TweetRepository.constructor` | Twitter-Clone/Repositories/TweetRepository.cs:15-20 | the repository starts over the given tables, which satisfy the key and author constraints |
| `Repositories.TweetRepository.CreateTweet` | Twitter-Clone/Repositories/TweetRepository.cs:26-38 | unknown author: `UserDoesNotExist`, tweets unchanged; id already stored: `StorageFault`, tweets unchanged; otherwise exactly the mapped tweet is appended and the input returned; users and follows never change; the invariant is kept |
| `Repositories.TweetRepository.GetTweetById` | Twitter-Clone/Repositories/TweetRepository.cs:56-63 | result is None exactly when no stored tweet has the id; otherwise it is the transfer object of the first stored tweet with that id (`FirstOrDefault`) |
| `Repositories.TweetRepository.GetAllTweets` | Twitter-Clone/Repositories/TweetRepository.cs:77-83 | one transfer object per stored tweet, position by position, so the length equals the tweet count |
| `Repositories.TweetRepository.GetTweetsByUserId` | Twitter-Clone/Repositories/TweetRepository.cs:96-102 | the result is the mapped list of the user's tweets in table order; a transfer object is in it exactly when it maps back to a stored tweet by that user; empty when the user wrote nothing |
| `Repositories.TweetRepository.GetTweetsByFollowingUsers` | Twitter-Clone/Repositories/TweetRepository.cs:113-125 | the result is a permutation of the mapped tweets by followed authors, with non-increasing `CreatedAt`; it holds exactly the stored tweets of followed authors; it is empty when the viewer follows nobody |
| `Repositories.TweetRepository.DeleteTweet` | Twitter-Clone/Repositories/TweetRepository.cs:132-140 | unknown id: `TweetDoesNotExist`, tweets unchanged; otherwise exactly that row is removed, every other tweet stays, and a later lookup of the id finds nothing; the invariant is kept |

## Left out

- `Twitter-Clone/Program.cs`: dependency registration, logging setup, authentication, the Supabase client, CORS and the middleware pipeline. None of it is logic of the repository.
- Logging (`_logger.Log...`) and the catch-log-rethrow blocks. They only propagate the exception they caught.
- `async`/`Task`, change tracking and transactions. Each write is one atomic update of the `tweets` field.
- Storage faults in general (connectivity, timeouts). The one storage fault modelled is an insert whose id is already stored: `CreateTweet` reports it as `StorageFault`, for the `DbUpdateException` that `SaveChangesAsync` would raise.
- CreateTweet: the database's assignment of ids and timestamps is not modelled. The mapped tweet is stored with the id and `CreatedAt` it carries. The new row is appended at the end of the table, but `TweetRepository.cs` does not fix where a row appears in later unordered reads.
- The mapper (`TweetMapper`) is not part of this model. It is taken to copy every tracked field. `Tweet` and `TweetDto` carry id, author id, content and timestamp; the `User` navigation property (`Include(t => t.User)`) and author display data are not tracked. So the feed query's lack of `Include` makes no difference in the model.
- `CreatedAt` is an integer count of ticks, not a `DateTime`. Ids are unbounded integers; `TweetRepository.cs` never does arithmetic on them.
- GetTweetsByFollowingUsers: the order among tweets with equal `CreatedAt` is not specified, because `OrderByDescending` at `TweetRepository.cs:117` has no tie-break.
- Valid: the conjunct that every tweet's author is in `users` rests on the database's foreign key from `Tweets.UserId` to `Users`; `TweetRepository.cs` does not check it for rows already stored, and `CreateTweet` preserves it by its author check.
- No method is run concurrently with another; isolation between requests belongs to the database.
