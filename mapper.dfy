/**
 * The translation between persisted tweets and transfer objects. The
 * mapper's own code is not part of this model; it is taken to copy every
 * field the model tracks, so the two directions are inverse to each other.
 */
module TweetMapper {
  import opened Models

  function MapTweetToTweetDto(t: Tweet): (d: TweetDto)
  {
    TweetDto(t.id, t.userId, t.content, t.createdAt)
  }

  function MapTweetDtoToTweet(d: TweetDto): (t: Tweet)
  {
    Tweet(d.id, d.userId, d.content, d.createdAt)
  }

  /** The two directions of the mapper undo each other. */
  lemma MapperRoundTrip(t: Tweet, d: TweetDto)
    ensures MapTweetDtoToTweet(MapTweetToTweetDto(t)) == t
    ensures MapTweetToTweetDto(MapTweetDtoToTweet(d)) == d
  {
  }

  /**
   * `Select(MapTweetToTweetDto)` over a list of tweets: one transfer object
   * per tweet, position by position.
   */
  function MapToDtos(ts: seq<Tweet>): (ds: seq<TweetDto>)
    ensures |ds| == |ts|
    ensures forall i :: 0 <= i < |ts| ==> ds[i] == MapTweetToTweetDto(ts[i])
  {
    if ts == [] then [] else [MapTweetToTweetDto(ts[0])] + MapToDtos(ts[1..])
  }

  /** A transfer object is in the mapped list exactly when the tweet it maps back to is in the input. */
  lemma {:induction false} MapToDtosMembership(ts: seq<Tweet>, d: TweetDto)
    ensures d in MapToDtos(ts) <==> MapTweetDtoToTweet(d) in ts
  {
    var ds := MapToDtos(ts);
    MapperRoundTrip(MapTweetDtoToTweet(d), d);
    if d in ds {
      var i :| 0 <= i < |ds| && ds[i] == d;
      MapperRoundTrip(ts[i], d);
      assert ts[i] == MapTweetDtoToTweet(d);
    }
    if MapTweetDtoToTweet(d) in ts {
      var i :| 0 <= i < |ts| && ts[i] == MapTweetDtoToTweet(d);
      assert ds[i] == d;
    }
  }

  /** Mapping keeps multiplicities: each transfer object occurs as often as its tweet. */
  lemma {:induction false} MapToDtosCount(ts: seq<Tweet>, d: TweetDto)
    ensures multiset(MapToDtos(ts))[d] == multiset(ts)[MapTweetDtoToTweet(d)]
  {
    if ts != [] {
      MapToDtosCount(ts[1..], d);
      assert ts == [ts[0]] + ts[1..];
      assert MapToDtos(ts) == [MapTweetToTweetDto(ts[0])] + MapToDtos(ts[1..]);
      MapperRoundTrip(ts[0], d);
    }
  }

  /** Mapping two permutations of each other gives two permutations of each other. */
  lemma MapToDtosPermutation(a: seq<Tweet>, b: seq<Tweet>)
    requires multiset(a) == multiset(b)
    ensures multiset(MapToDtos(a)) == multiset(MapToDtos(b))
  {
    forall d: TweetDto
      ensures multiset(MapToDtos(a))[d] == multiset(MapToDtos(b))[d]
    {
      MapToDtosCount(a, d);
      MapToDtosCount(b, d);
    }
  }
}
