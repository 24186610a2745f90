/**
 The feed's data model and the engagement toggle of the home timeline: a tweet
 carries an author snapshot, four counters and three viewer flags; like,
 repost and bookmark each flip one flag and move its paired counter by one.
 */
module Feed {

  datatype Option<T> = None | Some(value: T)

  /** `verified` is optional: the current user's profile leaves it out. */
  datatype Author = Author(name: string, handle: string, avatar: string, verified: Option<bool>)

  datatype Stats = Stats(comments: int, reposts: int, likes: int, bookmarks: int)

  datatype Viewer = Viewer(liked: bool, reposted: bool, bookmarked: bool)

  /** `createdAt` is the creation instant in milliseconds since the epoch
      (the number the ISO timestamp stands for). */
  datatype Tweet = Tweet(
    id: string,
    content: string,
    createdAt: int,
    media: Option<seq<string>>,
    author: Author,
    stats: Stats,
    viewer: Viewer)

  /** The three togglable viewer relationships. */
  datatype EngagementKey = Liked | Reposted | Bookmarked

  /** The four counters of a tweet. */
  datatype StatKey = Comments | Reposts | Likes | Bookmarks

  /** The counter each engagement kind moves. */
  function EngagementStatKey(k: EngagementKey): (key: StatKey)
    ensures key != Comments
  {
    match k
    case Liked => Likes
    case Reposted => Reposts
    case Bookmarked => Bookmarks
  }

  /** Distinct engagement kinds move distinct counters. */
  lemma EngagementStatKeyInjective(k: EngagementKey, k': EngagementKey)
    ensures EngagementStatKey(k) == EngagementStatKey(k') <==> k == k'
  {
  }

  function Flag(v: Viewer, k: EngagementKey): bool {
    match k
    case Liked => v.liked
    case Reposted => v.reposted
    case Bookmarked => v.bookmarked
  }

  /** `{ ...viewer, [k]: b }` */
  function WithFlag(v: Viewer, k: EngagementKey, b: bool): (w: Viewer)
    ensures Flag(w, k) == b
    ensures forall k' :: k' != k ==> Flag(w, k') == Flag(v, k')
  {
    match k
    case Liked => v.(liked := b)
    case Reposted => v.(reposted := b)
    case Bookmarked => v.(bookmarked := b)
  }

  function Stat(s: Stats, key: StatKey): int {
    match key
    case Comments => s.comments
    case Reposts => s.reposts
    case Likes => s.likes
    case Bookmarks => s.bookmarks
  }

  /** `{ ...stats, [key]: n }` */
  function WithStat(s: Stats, key: StatKey, n: int): (t: Stats)
    ensures Stat(t, key) == n
    ensures forall key' :: key' != key ==> Stat(t, key') == Stat(s, key')
  {
    match key
    case Comments => s.(comments := n)
    case Reposts => s.(reposts := n)
    case Likes => s.(likes := n)
    case Bookmarks => s.(bookmarks := n)
  }

  lemma ViewerExtensional(v: Viewer, w: Viewer)
    requires forall k :: Flag(v, k) == Flag(w, k)
    ensures v == w
  {
    assert Flag(v, Liked) == Flag(w, Liked);
    assert Flag(v, Reposted) == Flag(w, Reposted);
    assert Flag(v, Bookmarked) == Flag(w, Bookmarked);
  }

  lemma StatsExtensional(s: Stats, t: Stats)
    requires forall key :: Stat(s, key) == Stat(t, key)
    ensures s == t
  {
    assert Stat(s, Comments) == Stat(t, Comments);
    assert Stat(s, Reposts) == Stat(t, Reposts);
    assert Stat(s, Likes) == Stat(t, Likes);
    assert Stat(s, Bookmarks) == Stat(t, Bookmarks);
  }

  /** What one toggle of `k` does to a tweet: the flag for `k` is negated, the
      paired counter goes up by one if the flag is now set and down by one if
      it is now clear, and nothing else about the tweet changes. */
  ghost predicate FlipsExactly(t: Tweet, u: Tweet, k: EngagementKey) {
    var key := EngagementStatKey(k);
    && u.id == t.id && u.content == t.content && u.createdAt == t.createdAt
    && u.media == t.media && u.author == t.author
    && Flag(u.viewer, k) == !Flag(t.viewer, k)
    && (forall k' :: k' != k ==> Flag(u.viewer, k') == Flag(t.viewer, k'))
    && Stat(u.stats, key) == Stat(t.stats, key) + (if Flag(u.viewer, k) then 1 else -1)
    && (forall key' :: key' != key ==> Stat(u.stats, key') == Stat(t.stats, key'))
  }

  /** The per-tweet branch of handleEngagement for a matching id. */
  function ToggleTweet(t: Tweet, k: EngagementKey): (u: Tweet)
    ensures FlipsExactly(t, u, k)
  {
    var toggled := !Flag(t.viewer, k);
    var key := EngagementStatKey(k);
    t.(viewer := WithFlag(t.viewer, k, toggled),
       stats := WithStat(t.stats, key, Stat(t.stats, key) + (if toggled then 1 else -1)))
  }

  /** Liking moves the likes, reposting the reposts, bookmarking the
      bookmarks: each toggle negates its own flag and moves the counter of the
      same name by one, up when the flag is now set and down when it is now
      clear. */
  lemma ToggleTweetFields(t: Tweet)
    ensures var u := ToggleTweet(t, Liked);
            u.viewer.liked == !t.viewer.liked
            && u.stats.likes == t.stats.likes + (if u.viewer.liked then 1 else -1)
    ensures var u := ToggleTweet(t, Reposted);
            u.viewer.reposted == !t.viewer.reposted
            && u.stats.reposts == t.stats.reposts + (if u.viewer.reposted then 1 else -1)
    ensures var u := ToggleTweet(t, Bookmarked);
            u.viewer.bookmarked == !t.viewer.bookmarked
            && u.stats.bookmarks == t.stats.bookmarks + (if u.viewer.bookmarked then 1 else -1)
  {
  }

  /** Two toggles of the same kind restore the tweet. */
  lemma ToggleTweetTwice(t: Tweet, k: EngagementKey)
    ensures ToggleTweet(ToggleTweet(t, k), k) == t
  {
    var w := ToggleTweet(ToggleTweet(t, k), k);
    ViewerExtensional(w.viewer, t.viewer);
    StatsExtensional(w.stats, t.stats);
  }

  /** Toggles of any two kinds on one tweet commute. */
  lemma ToggleTweetCommutes(t: Tweet, k1: EngagementKey, k2: EngagementKey)
    ensures ToggleTweet(ToggleTweet(t, k1), k2) == ToggleTweet(ToggleTweet(t, k2), k1)
  {
    var a := ToggleTweet(ToggleTweet(t, k1), k2);
    var b := ToggleTweet(ToggleTweet(t, k2), k1);
    ViewerExtensional(a.viewer, b.viewer);
    StatsExtensional(a.stats, b.stats);
  }

  /** handleEngagement: every tweet whose id matches is toggled, every other
      tweet comes back as it was, in the same order. */
  function HandleEngagement(tweets: seq<Tweet>, id: string, k: EngagementKey): (r: seq<Tweet>)
    ensures |r| == |tweets|
    ensures forall i :: 0 <= i < |tweets| && tweets[i].id == id ==> FlipsExactly(tweets[i], r[i], k)
    ensures forall i :: 0 <= i < |tweets| && tweets[i].id != id ==> r[i] == tweets[i]
  {
    if |tweets| == 0 then []
    else
      var head := if tweets[0].id != id then tweets[0] else ToggleTweet(tweets[0], k);
      var rest := HandleEngagement(tweets[1..], id, k);
      assert forall i :: 1 <= i < |tweets| ==> ([head] + rest)[i] == rest[i - 1] && tweets[i] == tweets[1..][i - 1];
      [head] + rest
  }

  /** Toggling an id no tweet carries leaves the feed as it was. */
  lemma UnknownIdNoOp(tweets: seq<Tweet>, id: string, k: EngagementKey)
    requires forall i :: 0 <= i < |tweets| ==> tweets[i].id != id
    ensures HandleEngagement(tweets, id, k) == tweets
  {
    var r := HandleEngagement(tweets, id, k);
    assert forall i :: 0 <= i < |tweets| ==> r[i] == tweets[i];
  }

  /** A toggle keeps every tweet's id, so the feed's ids and their order. */
  lemma HandleEngagementKeepsIds(tweets: seq<Tweet>, id: string, k: EngagementKey)
    ensures forall i :: 0 <= i < |tweets| ==> HandleEngagement(tweets, id, k)[i].id == tweets[i].id
  {
  }

  /** Toggling the same id and kind twice gives back the feed. */
  lemma {:induction false} ToggleTwiceRestores(tweets: seq<Tweet>, id: string, k: EngagementKey)
    ensures HandleEngagement(HandleEngagement(tweets, id, k), id, k) == tweets
  {
    if |tweets| > 0 {
      ToggleTwiceRestores(tweets[1..], id, k);
      var once := HandleEngagement(tweets, id, k);
      assert once[1..] == HandleEngagement(tweets[1..], id, k);
      if tweets[0].id == id {
        ToggleTweetTwice(tweets[0], k);
      }
    }
  }

  /** Any two toggles, on any ids and kinds, may be applied in either order. */
  lemma {:induction false} TogglesCommute(tweets: seq<Tweet>, id1: string, k1: EngagementKey, id2: string, k2: EngagementKey)
    ensures HandleEngagement(HandleEngagement(tweets, id1, k1), id2, k2)
         == HandleEngagement(HandleEngagement(tweets, id2, k2), id1, k1)
  {
    if |tweets| > 0 {
      TogglesCommute(tweets[1..], id1, k1, id2, k2);
      var t := tweets[0];
      if t.id == id1 && t.id == id2 {
        ToggleTweetCommutes(t, k1, k2);
      }
    }
  }

  // ----- Counter invariant ------------------------------------------------

  /** Every counter of `t` is its baseline plus one for each flag that is set:
      the comment counter equals its baseline, and each engagement counter is
      its baseline plus one exactly when the viewer flag is on. */
  ghost predicate MatchesBaseline(t: Tweet, base: Stats) {
    && t.stats.comments == base.comments
    && forall k :: Stat(t.stats, EngagementStatKey(k)) == Stat(base, EngagementStatKey(k)) + (if Flag(t.viewer, k) then 1 else 0)
  }

  /** Each tweet of the feed against its own baseline, position by position. */
  ghost predicate FeedMatches(tweets: seq<Tweet>, bases: seq<Stats>) {
    |tweets| == |bases| && forall i :: 0 <= i < |tweets| ==> MatchesBaseline(tweets[i], bases[i])
  }

  predicate NonNegative(s: Stats) {
    s.comments >= 0 && s.reposts >= 0 && s.likes >= 0 && s.bookmarks >= 0
  }

  /** A tweet with every flag clear matches its own counters as baseline. */
  lemma FreshTweetMatches(t: Tweet)
    requires !t.viewer.liked && !t.viewer.reposted && !t.viewer.bookmarked
    ensures MatchesBaseline(t, t.stats)
  {
    assert forall k :: !Flag(t.viewer, k);
  }

  /** A toggle keeps the tweet on its baseline. */
  lemma ToggleTweetKeepsBaseline(t: Tweet, base: Stats, k: EngagementKey)
    requires MatchesBaseline(t, base)
    ensures MatchesBaseline(ToggleTweet(t, k), base)
  {
    var u := ToggleTweet(t, k);
    forall k' ensures Stat(u.stats, EngagementStatKey(k')) == Stat(base, EngagementStatKey(k')) + (if Flag(u.viewer, k') then 1 else 0) {
      EngagementStatKeyInjective(k, k');
    }
  }

  /** A toggle keeps the whole feed on its baselines. */
  lemma HandleEngagementKeepsBaseline(tweets: seq<Tweet>, bases: seq<Stats>, id: string, k: EngagementKey)
    requires FeedMatches(tweets, bases)
    ensures FeedMatches(HandleEngagement(tweets, id, k), bases)
  {
    var r := HandleEngagement(tweets, id, k);
    forall i | 0 <= i < |tweets| ensures MatchesBaseline(r[i], bases[i]) {
      if tweets[i].id == id {
        ToggleTweetKeepsBaseline(tweets[i], bases[i], k);
        var u := ToggleTweet(tweets[i], k);
        ViewerExtensional(r[i].viewer, u.viewer);
        StatsExtensional(r[i].stats, u.stats);
      }
    }
  }

  /** On a non-negative baseline no counter is ever negative. */
  lemma MatchesBaselineNonNegative(t: Tweet, base: Stats)
    requires MatchesBaseline(t, base) && NonNegative(base)
    ensures NonNegative(t.stats)
  {
    assert Stat(t.stats, EngagementStatKey(Liked)) >= Stat(base, EngagementStatKey(Liked));
    assert Stat(t.stats, EngagementStatKey(Reposted)) >= Stat(base, EngagementStatKey(Reposted));
    assert Stat(t.stats, EngagementStatKey(Bookmarked)) >= Stat(base, EngagementStatKey(Bookmarked));
  }
}
