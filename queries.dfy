/**
 * The selections the repository sends to the database, written as pure
 * functions over the tables: `Where`, the follow-edge projection, the
 * lookup by primary key, `OrderByDescending(CreatedAt)` and the removal
 * of one row.
 */
module Queries {
  import opened Models

  /** `a` is `b` with some elements left out: its elements occur in `b` in the same order. */
  ghost predicate IsSubsequence(a: seq<Tweet>, b: seq<Tweet>)
    decreases |b|
  {
    a == [] ||
    (b != [] && ((a[0] == b[0] && IsSubsequence(a[1..], b[1..])) || IsSubsequence(a, b[1..])))
  }

  /**
   * LINQ `Where`: the tweets that satisfy `keep`, in table order. Every
   * kept tweet occurs as often as in the table, every other tweet not at all.
   */
  function Where(ts: seq<Tweet>, keep: Tweet -> bool): (r: seq<Tweet>)
    ensures forall t :: multiset(r)[t] == if keep(t) then multiset(ts)[t] else 0
    ensures forall t :: t in r <==> t in ts && keep(t)
    ensures IsSubsequence(r, ts)
  {
    if ts == [] then []
    else
      assert ts == [ts[0]] + ts[1..];
      if keep(ts[0]) then [ts[0]] + Where(ts[1..], keep) else Where(ts[1..], keep)
  }

  /** The filter of GetTweetsByUserId: the tweets whose author is `userId`. */
  function AuthoredBy(ts: seq<Tweet>, userId: int): (r: seq<Tweet>)
    ensures forall t :: multiset(r)[t] == if t.userId == userId then multiset(ts)[t] else 0
    ensures forall t :: t in r <==> t in ts && t.userId == userId
    ensures IsSubsequence(r, ts)
  {
    Where(ts, (t: Tweet) => t.userId == userId)
  }

  /** The filter of the feed: the tweets whose author is one of `authors`. */
  function AuthoredByAny(ts: seq<Tweet>, authors: seq<int>): (r: seq<Tweet>)
    ensures forall t :: multiset(r)[t] == if t.userId in authors then multiset(ts)[t] else 0
    ensures forall t :: t in r <==> t in ts && t.userId in authors
    ensures IsSubsequence(r, ts)
  {
    Where(ts, (t: Tweet) => t.userId in authors)
  }

  /**
   * The `FollowingId` of every edge whose `FollowerId` is `userId`, in edge
   * order (duplicates kept: the table enforces no uniqueness here).
   */
  function FollowingIds(follows: seq<UserFollow>, userId: int): (ids: seq<int>)
    ensures forall x :: x in ids <==> UserFollow(userId, x) in follows
    ensures |ids| <= |follows|
  {
    if follows == [] then []
    else
      assert follows == [follows[0]] + follows[1..];
      if follows[0].followerId == userId
      then [follows[0].followingId] + FollowingIds(follows[1..], userId)
      else FollowingIds(follows[1..], userId)
  }

  /** No two rows of the table share a primary key. */
  ghost predicate UniqueIds(ts: seq<Tweet>)
  {
    forall i, j :: 0 <= i < j < |ts| ==> ts[i].id != ts[j].id
  }

  /**
   * The lookup by primary key (`FindAsync`, `FirstOrDefault(t => t.Id == id)`):
   * the position of the first tweet with the id, or None when there is none.
   */
  function FindById(ts: seq<Tweet>, id: int): (r: Option<nat>)
    ensures r.None? <==> forall t :: t in ts ==> t.id != id
    ensures r.Some? ==> r.value < |ts| && ts[r.value].id == id
    ensures r.Some? ==> forall k :: 0 <= k < r.value ==> ts[k].id != id
  {
    if ts == [] then None
    else if ts[0].id == id then Some(0)
    else
      match FindById(ts[1..], id)
      case None => None
      case Some(k) => Some(k + 1)
  }

  /** The table with the row at position `i` taken out (`Remove`). */
  function RemoveAt(ts: seq<Tweet>, i: nat): (r: seq<Tweet>)
    requires i < |ts|
    ensures |r| == |ts| - 1
    ensures forall k :: 0 <= k < i ==> r[k] == ts[k]
    ensures forall k :: i <= k < |r| ==> r[k] == ts[k + 1]
  {
    ts[..i] + ts[i + 1..]
  }

  /**
   * With unique keys, removing the row with a key keeps every other row,
   * keeps the keys unique and leaves no row with that key.
   */
  lemma RemoveAtById(ts: seq<Tweet>, i: nat)
    requires UniqueIds(ts) && i < |ts|
    ensures UniqueIds(RemoveAt(ts, i))
    ensures forall t :: t in RemoveAt(ts, i) <==> t in ts && t.id != ts[i].id
    ensures FindById(RemoveAt(ts, i), ts[i].id).None?
  {
    var r := RemoveAt(ts, i);
    forall t | t in ts && t.id != ts[i].id
      ensures t in r
    {
      var k :| 0 <= k < |ts| && ts[k] == t;
      if k < i { assert r[k] == t; } else { assert r[k - 1] == t; }
    }
  }

  /** The tweets are ordered newest first: `CreatedAt` never increases along the list. */
  ghost predicate NewestFirst(ts: seq<Tweet>)
  {
    forall i, j :: 0 <= i < j < |ts| ==> ts[i].createdAt >= ts[j].createdAt
  }

  /** Puts `t` into a newest-first list, before the first tweet not newer than it. */
  function InsertByCreatedAt(t: Tweet, s: seq<Tweet>): (r: seq<Tweet>)
    requires NewestFirst(s)
    ensures NewestFirst(r)
    ensures multiset(r) == multiset(s) + multiset{t}
  {
    if s == [] then [t]
    else if t.createdAt >= s[0].createdAt then [t] + s
    else
      assert s == [s[0]] + s[1..];
      var rest := InsertByCreatedAt(t, s[1..]);
      assert forall u :: u in rest ==> u.createdAt <= s[0].createdAt by {
        forall u | u in rest ensures u.createdAt <= s[0].createdAt {
          assert u in multiset(s[1..]) + multiset{t};
        }
      }
      PrependNewestFirst(s[0], rest);
      [s[0]] + rest
  }

  /** A tweet at least as new as every tweet of a newest-first list can go in front of it. */
  lemma PrependNewestFirst(x: Tweet, rest: seq<Tweet>)
    requires NewestFirst(rest)
    requires forall u :: u in rest ==> u.createdAt <= x.createdAt
    ensures NewestFirst([x] + rest)
  {
    var r := [x] + rest;
    forall i, j | 0 <= i < j < |r| ensures r[i].createdAt >= r[j].createdAt {
      assert r[j] == rest[j - 1];
      if i > 0 { assert r[i] == rest[i - 1]; }
    }
  }

  /**
   * `OrderByDescending(x => x.CreatedAt)`: the same tweets, newest first.
   * The order among tweets with equal timestamps is this function's own
   * choice; no caller relies on it.
   */
  function OrderByCreatedAtDescending(ts: seq<Tweet>): (r: seq<Tweet>)
    ensures NewestFirst(r)
    ensures multiset(r) == multiset(ts)
  {
    if ts == [] then []
    else
      assert ts == [ts[0]] + ts[1..];
      InsertByCreatedAt(ts[0], OrderByCreatedAtDescending(ts[1..]))
  }
}
