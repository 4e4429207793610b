/**
 * The tweet repository: tweet creation, lookup, listing, the feed of the
 * users one follows, and deletion, over an in-memory picture of the
 * Users, Tweets and UserFollows tables. Each write is one atomic update
 * of the Tweets table.
 */
module Repositories {
  import opened Models
  import opened TweetMapper
  import opened Queries

  /**
   * The `foreach (var tweet in tweets) tweetDtos.Add(MapTweetToTweetDto(tweet))`
   * loop every read ends with: one transfer object per tweet, in order.
   */
  method ToDtoList(ts: seq<Tweet>) returns (dtos: seq<TweetDto>)
    ensures |dtos| == |ts|
    ensures forall i :: 0 <= i < |ts| ==> dtos[i] == MapTweetToTweetDto(ts[i])
    ensures dtos == MapToDtos(ts)
  {
    dtos := [];
    var i := 0;
    while i < |ts|
      invariant 0 <= i <= |ts|
      invariant |dtos| == i
      invariant forall k :: 0 <= k < i ==> dtos[k] == MapTweetToTweetDto(ts[k])
    {
      dtos := dtos + [MapTweetToTweetDto(ts[i])];
      i := i + 1;
    }
  }

  /**
   * What the feed of `userId` is: the transfer objects of the tweets whose
   * author `userId` follows, each as often as in the table, newest first.
   * The order among tweets with equal timestamps is left open.
   */
  ghost predicate IsFeed(dtos: seq<TweetDto>, tweets: seq<Tweet>, follows: seq<UserFollow>, userId: int)
  {
    && multiset(dtos) == multiset(MapToDtos(AuthoredByAny(tweets, FollowingIds(follows, userId))))
    && DtosNewestFirst(dtos)
  }

  /** `CreatedAt` never increases along the list of transfer objects. */
  ghost predicate DtosNewestFirst(dtos: seq<TweetDto>)
  {
    forall i, j :: 0 <= i < j < |dtos| ==> dtos[i].createdAt >= dtos[j].createdAt
  }

  /**
   * Two newest-first permutations of each other carry the same timestamp
   * at every position: they can differ only in the order of ties.
   */
  lemma {:induction false} SameTimestamps(a: seq<TweetDto>, b: seq<TweetDto>)
    requires multiset(a) == multiset(b)
    requires DtosNewestFirst(a) && DtosNewestFirst(b)
    ensures |a| == |b|
    ensures forall i :: 0 <= i < |a| ==> a[i].createdAt == b[i].createdAt
    decreases |a|
  {
    assert |a| == |b| by { assert |multiset(a)| == |multiset(b)|; }
    if a != [] {
      assert a[0] in multiset(b);
      var k :| 0 <= k < |b| && b[k] == a[0];
      HeadsAgree(a, b);
      DropAtNewestFirst(b, k);
      assert multiset(a[1..]) == multiset(a) - multiset{a[0]} by {
        assert a == [a[0]] + a[1..];
      }
      SameTimestamps(a[1..], b[..k] + b[k + 1..]);
      DropAtTimestamps(a, b, k);
    }
  }

  /** Two newest-first permutations of each other start with the same timestamp. */
  lemma HeadsAgree(a: seq<TweetDto>, b: seq<TweetDto>)
    requires multiset(a) == multiset(b) && a != []
    requires DtosNewestFirst(a) && DtosNewestFirst(b)
    ensures b != [] && a[0].createdAt == b[0].createdAt
  {
    assert a[0] in multiset(b);
    assert b != [] && b[0] in multiset(a);
    var k :| 0 <= k < |b| && b[k] == a[0];
    var m :| 0 <= m < |a| && a[m] == b[0];
    assert k > 0 ==> b[0].createdAt >= b[k].createdAt;
    assert m > 0 ==> a[0].createdAt >= a[m].createdAt;
  }

  /**
   * If `a` without its head matches `b` without position `k` timestamp by
   * timestamp, and `b[k]` has the head's timestamp, then `a` matches `b`.
   */
  lemma DropAtTimestamps(a: seq<TweetDto>, b: seq<TweetDto>, k: nat)
    requires DtosNewestFirst(b) && |a| == |b| && k < |b|
    requires a[0].createdAt == b[0].createdAt == b[k].createdAt
    requires forall i :: 0 <= i < |a| - 1 ==> a[1..][i].createdAt == (b[..k] + b[k + 1..])[i].createdAt
    ensures forall i :: 0 <= i < |a| ==> a[i].createdAt == b[i].createdAt
  {
    var rest := b[..k] + b[k + 1..];
    forall i | 0 < i < |a| ensures a[i].createdAt == b[i].createdAt {
      assert a[i] == a[1..][i - 1];
      if i <= k {
        assert rest[i - 1] == b[i - 1];
        assert i - 1 > 0 ==> b[0].createdAt >= b[i - 1].createdAt;
        assert i < k ==> b[i].createdAt >= b[k].createdAt;
      } else {
        assert rest[i - 1] == b[i];
      }
    }
  }

  /** Taking the element at position `k` out of a newest-first list leaves the other elements, newest first. */
  lemma DropAtNewestFirst(b: seq<TweetDto>, k: nat)
    requires DtosNewestFirst(b) && k < |b|
    ensures DtosNewestFirst(b[..k] + b[k + 1..])
    ensures multiset(b[..k] + b[k + 1..]) == multiset(b) - multiset{b[k]}
  {
    var rest := b[..k] + b[k + 1..];
    assert b == b[..k] + [b[k]] + b[k + 1..];
    forall i, j | 0 <= i < j < |rest| ensures rest[i].createdAt >= rest[j].createdAt {
      var i' := if i < k then i else i + 1;
      var j' := if j < k then j else j + 1;
      assert rest[i] == b[i'] && rest[j] == b[j'];
    }
  }

  /**
   * The feed is determined up to the order of tweets with equal timestamps:
   * any two feeds of the same tables hold the same tweets and the same
   * timestamp at every position.
   */
  lemma FeedsAgreeUpToTies(f1: seq<TweetDto>, f2: seq<TweetDto>, tweets: seq<Tweet>, follows: seq<UserFollow>, userId: int)
    requires IsFeed(f1, tweets, follows, userId) && IsFeed(f2, tweets, follows, userId)
    ensures multiset(f1) == multiset(f2) && |f1| == |f2|
    ensures forall i :: 0 <= i < |f1| ==> f1[i].createdAt == f2[i].createdAt
  {
    SameTimestamps(f1, f2);
  }

  /** A feed holds exactly the tweets of the table written by someone the viewer follows. */
  lemma FeedMembership(dtos: seq<TweetDto>, tweets: seq<Tweet>, follows: seq<UserFollow>, userId: int, d: TweetDto)
    requires IsFeed(dtos, tweets, follows, userId)
    ensures d in dtos <==> MapTweetDtoToTweet(d) in tweets && UserFollow(userId, d.userId) in follows
  {
    var selected := AuthoredByAny(tweets, FollowingIds(follows, userId));
    assert d in dtos <==> d in multiset(MapToDtos(selected));
    MapToDtosMembership(selected, d);
  }

  /** Someone who follows nobody has an empty feed. */
  lemma FeedOfNobody(dtos: seq<TweetDto>, tweets: seq<Tweet>, follows: seq<UserFollow>, userId: int)
    requires IsFeed(dtos, tweets, follows, userId)
    requires forall e :: e in follows ==> e.followerId != userId
    ensures dtos == []
  {
    if dtos != [] {
      FeedMembership(dtos, tweets, follows, userId, dtos[0]);
    }
  }

  /**
   * The viewer follows `a` only; `a` posted `t1` and later `t2`, and `b`,
   * whom the viewer does not follow, posted `t3`. Every feed is `[t2, t1]`.
   */
  lemma FeedScenario(dtos: seq<TweetDto>, t1: Tweet, t2: Tweet, t3: Tweet, viewer: int, a: int, b: int)
    requires a != b
    requires t1.userId == a && t2.userId == a && t3.userId == b
    requires t1.createdAt < t2.createdAt
    requires IsFeed(dtos, [t1, t2, t3], [UserFollow(viewer, a)], viewer)
    ensures dtos == [MapTweetToTweetDto(t2), MapTweetToTweetDto(t1)]
  {
    var following := FollowingIds([UserFollow(viewer, a)], viewer);
    assert following == [a];
    var selected := AuthoredByAny([t1, t2, t3], following);
    ScenarioSelection(t1, t2, t3, a, b);
    MapToDtosPermutation(selected, [t1, t2]);
    TwoNewestFirst(dtos, t2, t1);
  }

  /** Of `t1`, `t2` by `a` and `t3` by `b`, the tweets by `a` are `t1` and `t2`. */
  lemma ScenarioSelection(t1: Tweet, t2: Tweet, t3: Tweet, a: int, b: int)
    requires a != b
    requires t1.userId == a && t2.userId == a && t3.userId == b
    ensures multiset(AuthoredByAny([t1, t2, t3], [a])) == multiset([t1, t2])
  {
    var selected := AuthoredByAny([t1, t2, t3], [a]);
    assert multiset([t1, t2, t3]) == multiset{t1, t2} + multiset{t3};
    forall t ensures multiset(selected)[t] == multiset([t1, t2])[t] {
      assert multiset([t1, t2]) == multiset{t1, t2};
      if t.userId == a {
        assert t != t3;
      } else {
        assert t != t1 && t != t2;
      }
    }
  }

  /** The only newest-first feed of two tweets with distinct timestamps puts the newer first. */
  lemma TwoNewestFirst(dtos: seq<TweetDto>, newer: Tweet, older: Tweet)
    requires multiset(dtos) == multiset(MapToDtos([older, newer]))
    requires older.createdAt < newer.createdAt
    requires DtosNewestFirst(dtos)
    ensures dtos == [MapTweetToTweetDto(newer), MapTweetToTweetDto(older)]
  {
    var n, o := MapTweetToTweetDto(newer), MapTweetToTweetDto(older);
    assert MapToDtos([older, newer]) == [o, n];
    assert |dtos| == 2 by { assert |multiset(dtos)| == |dtos|; }
    assert dtos == [dtos[0], dtos[1]];
    assert dtos[0] in multiset(dtos) && dtos[1] in multiset(dtos);
    if dtos[0] == o {
      assert false;
    }
    assert multiset(dtos) == multiset{n, dtos[1]};
  }

  /**
   * The repository over its three tables. `users` are the keys of Users,
   * `tweets` the rows of Tweets in table order, `userFollows` the rows of
   * UserFollows.
   */
  class TweetRepository {
    var users: set<int>
    var tweets: seq<Tweet>
    var userFollows: seq<UserFollow>

    /**
     * The table constraints the repository keeps: tweet ids are a primary
     * key, and every tweet's author is a user.
     */
    ghost predicate Valid()
      reads this
    {
      UniqueIds(tweets) && forall t :: t in tweets ==> t.userId in users
    }

    constructor (users: set<int>, tweets: seq<Tweet>, userFollows: seq<UserFollow>)
      requires UniqueIds(tweets)
      requires forall t :: t in tweets ==> t.userId in users
      ensures Valid()
      ensures this.users == users && this.tweets == tweets && this.userFollows == userFollows
    {
      this.users := users;
      this.tweets := tweets;
      this.userFollows := userFollows;
    }

    /**
     * Stores a new tweet. A missing author is refused before anything is
     * written; an id already in the table is refused by the store; otherwise
     * exactly the mapped tweet is added and its transfer object returned.
     */
    method CreateTweet(tweet: TweetDto) returns (r: Result<TweetDto>)
      requires Valid()
      modifies this`tweets
      ensures Valid()
      ensures users == old(users) && userFollows == old(userFollows)
      ensures tweet.userId !in users ==> r == Failure(UserDoesNotExist) && tweets == old(tweets)
      ensures tweet.userId in users && FindById(old(tweets), tweet.id).Some? ==>
                r == Failure(StorageFault) && tweets == old(tweets)
      ensures tweet.userId in users && FindById(old(tweets), tweet.id).None? ==>
                r == Success(tweet) && tweets == old(tweets) + [MapTweetDtoToTweet(tweet)]
    {
      if tweet.userId !in users {
        return Failure(UserDoesNotExist);
      }
      var newTweet := MapTweetDtoToTweet(tweet);
      if FindById(tweets, newTweet.id).Some? {
        return Failure(StorageFault);
      }
      tweets := tweets + [newTweet];
      MapperRoundTrip(newTweet, tweet);
      r := Success(MapTweetToTweetDto(newTweet));
    }

    /** The tweet with the id, or None when no stored tweet has it. */
    method GetTweetById(id: int) returns (r: Option<TweetDto>)
      ensures r.None? <==> forall t :: t in tweets ==> t.id != id
      ensures r.Some? ==> r.value.id == id && MapTweetDtoToTweet(r.value) in tweets
      ensures r.Some? ==> exists k :: 0 <= k < |tweets| && r.value == MapTweetToTweetDto(tweets[k]) &&
                            forall j :: 0 <= j < k ==> tweets[j].id != id
    {
      var found := FindById(tweets, id);
      if found.None? {
        r := None;
      } else {
        var t := tweets[found.value];
        MapperRoundTrip(t, MapTweetToTweetDto(t));
        r := Some(MapTweetToTweetDto(t));
      }
    }

    /** One transfer object per stored tweet, in table order. */
    method GetAllTweets() returns (dtos: seq<TweetDto>)
      ensures |dtos| == |tweets|
      ensures forall i :: 0 <= i < |tweets| ==> dtos[i] == MapTweetToTweetDto(tweets[i])
    {
      dtos := ToDtoList(tweets);
    }

    /** The tweets `userId` wrote, in table order; none when they wrote nothing. */
    method GetTweetsByUserId(userId: int) returns (dtos: seq<TweetDto>)
      ensures dtos == MapToDtos(AuthoredBy(tweets, userId))
      ensures forall d :: d in dtos <==> MapTweetDtoToTweet(d) in tweets && d.userId == userId
      ensures (forall t :: t in tweets ==> t.userId != userId) ==> dtos == []
    {
      var selected := AuthoredBy(tweets, userId);
      dtos := ToDtoList(selected);
      forall d ensures d in dtos <==> MapTweetDtoToTweet(d) in tweets && d.userId == userId {
        MapToDtosMembership(selected, d);
      }
      if dtos != [] {
        assert MapTweetDtoToTweet(dtos[0]) in selected;
      }
    }

    /**
     * The feed of `userId`: the ids they follow, the tweets by those
     * authors, newest first, as transfer objects.
     */
    method GetTweetsByFollowingUsers(userId: int) returns (dtos: seq<TweetDto>)
      ensures IsFeed(dtos, tweets, userFollows, userId)
      ensures forall d :: d in dtos <==> MapTweetDtoToTweet(d) in tweets && UserFollow(userId, d.userId) in userFollows
      ensures (forall e :: e in userFollows ==> e.followerId != userId) ==> dtos == []
    {
      var following := FollowingIds(userFollows, userId);
      var selected := AuthoredByAny(tweets, following);
      var ordered := OrderByCreatedAtDescending(selected);
      dtos := ToDtoList(ordered);
      MapToDtosPermutation(ordered, selected);
      forall d ensures d in dtos <==> MapTweetDtoToTweet(d) in tweets && UserFollow(userId, d.userId) in userFollows {
        FeedMembership(dtos, tweets, userFollows, userId, d);
      }
      if forall e :: e in userFollows ==> e.followerId != userId {
        FeedOfNobody(dtos, tweets, userFollows, userId);
      }
    }

    /**
     * Deletes the tweet with the id. A missing id is refused before anything
     * is written; otherwise exactly that tweet is removed and a later lookup
     * of the id finds nothing.
     */
    method DeleteTweet(id: int) returns (r: Result<()>)
      requires Valid()
      modifies this`tweets
      ensures Valid()
      ensures users == old(users) && userFollows == old(userFollows)
      ensures FindById(old(tweets), id).None? ==> r == Failure(TweetDoesNotExist) && tweets == old(tweets)
      ensures FindById(old(tweets), id).Some? ==>
                r == Success(()) && tweets == RemoveAt(old(tweets), FindById(old(tweets), id).value)
      ensures forall t :: t in tweets <==> t in old(tweets) && t.id != id
      ensures FindById(tweets, id).None?
    {
      var found := FindById(tweets, id);
      if found.None? {
        return Failure(TweetDoesNotExist);
      }
      RemoveAtById(tweets, found.value);
      tweets := RemoveAt(tweets, found.value);
      r := Success(());
    }
  }
}
