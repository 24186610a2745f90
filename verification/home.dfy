/**
 The state of the home timeline (tweets, draft, isPosting) and its
 transitions: editing the draft, toggling an engagement, posting the draft,
 and the end of the short "Posting..." period. The fresh id and the clock
 are parameters of the post transition; the 250 ms timer that ends the
 posting period is the separate `PostingDone` transition.
 */
module Home {
  import opened JsString
  import opened Feed
  import opened RelativeTime

  /** Longest post, in UTF-16 code units of the trimmed draft. */
  const MaxPostLength: nat := 280

  const ZeroStats: Stats := Stats(0, 0, 0, 0)

  const NoFlags: Viewer := Viewer(false, false, false)

  /** The signed-in profile; it has no `verified` field. */
  const CurrentUser: Author := Author("Ava Indigo", "avaindigo", "https://i.pravatar.cc/150?img=47", None)

  datatype HomeState = HomeState(tweets: seq<Tweet>, draft: string, isPosting: bool)

  const SeedContent1: string := "Design systems aren\U{2019}t static \U{2014} they\U{2019}re living, evolving products. Ship tiny improvements every week and your velocity compounds faster than you think."
  const SeedContent2: string := "Weekend shipping session \U{2705} Built a focus mode for my productivity app: ambient soundscapes + AI generated task summaries. Beta invites go out tomorrow!"
  const SeedContent3: string := "Just launched our open design kit for early-stage founders. 12 responsive templates, light/dark mode, and a Figma library that actually snaps together. Free for the next 48h."

  /** Counters of the three seeded tweets. */
  const SeedStats: seq<Stats> := [Stats(24, 98, 642, 119), Stats(54, 143, 984, 202), Stats(88, 365, 2204, 441)]

  /** The three seeded tweets, stamped once when the module loads, at
      `loaded`: created 25 minutes, 3 hours and 28 hours before that. */
  function InitialTweets(loaded: int): (r: seq<Tweet>)
    ensures |r| == 3 && r[0].id == "1" && r[1].id == "2" && r[2].id == "3"
    ensures forall i :: 0 <= i < |r| ==> r[i].createdAt < loaded && r[i].viewer == NoFlags && NonNegative(r[i].stats)
  {
    [ Tweet("1",
        SeedContent1,
        loaded - 1000 * 60 * 25,
        Some(["https://images.unsplash.com/photo-1582719478325-d83fc0c5ba3b"]),
        Author("Maya Nielsen", "ui_maya", "https://i.pravatar.cc/150?img=32", Some(true)),
        SeedStats[0],
        NoFlags),
      Tweet("2",
        SeedContent2,
        loaded - 1000 * 60 * 60 * 3,
        None,
        Author("Theo Carter", "shipwiththeo", "https://i.pravatar.cc/150?img=65", Some(false)),
        SeedStats[1],
        NoFlags),
      Tweet("3",
        SeedContent3,
        loaded - 1000 * 60 * 60 * 28,
        None,
        Author("Studio North", "studionorth", "https://i.pravatar.cc/150?img=12", Some(true)),
        SeedStats[2],
        NoFlags) ]
  }

  /** The component's first render, for a module loaded at `loaded`: seeded
      tweets, empty draft, not posting. */
  function Init(loaded: int): (r: HomeState)
    ensures |r.tweets| == 3 && UniqueIds(r.tweets)
    ensures r.draft == "" && !r.isPosting && !CanPost(r.draft)
  {
    HomeState(InitialTweets(loaded), "", false)
  }

  /** The seeded tweets, stamped when the module loaded, read "25 minutes
      ago", "3 hours ago" and "yesterday" (one day) at any render within
      30 seconds of that. */
  lemma SeededAges(loaded: int, now: int)
    requires loaded <= now < loaded + 30_000
    ensures FormatRelativeTime(InitialTweets(loaded)[0].createdAt, now) == Relative(25, Minutes)
    ensures FormatRelativeTime(InitialTweets(loaded)[1].createdAt, now) == Relative(3, Hours)
    ensures FormatRelativeTime(InitialTweets(loaded)[2].createdAt, now) == Relative(1, Days)
  {
  }

  predicate UniqueIds(tweets: seq<Tweet>) {
    forall i, j :: 0 <= i < j < |tweets| ==> tweets[i].id != tweets[j].id
  }

  predicate FreshId(tweets: seq<Tweet>, id: string) {
    forall i :: 0 <= i < |tweets| ==> tweets[i].id != id
  }

  /** canPost: the trimmed draft is 1 to 280 UTF-16 code units long. A draft
      of white space only never qualifies; a qualifying draft has 1 to 280
      characters once trimmed, and exactly that many code units when none of
      them lies outside the Basic Multilingual Plane. */
  function CanPost(draft: string): (ok: bool)
    ensures AllTrimmable(draft) ==> !ok
    ensures ok ==> 1 <= |Trim(draft)| <= MaxPostLength
    ensures (forall i :: 0 <= i < |Trim(draft)| ==> Trim(draft)[i] <= '\U{FFFF}')
            ==> (ok <==> 1 <= |Trim(draft)| <= MaxPostLength)
  {
    var n := Utf16Length(Trim(draft));
    0 < n && n <= MaxPostLength
  }

  /** However the text is padded with white space, the draft can be posted
      exactly when the text, counted in UTF-16 code units, is 1 to 280 long. */
  lemma CanPostPadded(p: string, text: string, q: string)
    requires AllTrimmable(p) && AllTrimmable(q) && IsTrimmed(text)
    ensures CanPost(p + text + q) <==> 1 <= Utf16Length(text) <= MaxPostLength
  {
    TrimUnique(p, text, q);
  }

  /** A draft of `n` copies of one non-space character can be posted
      exactly when its code units, one or two per character, number 1 to 280. */
  lemma CanPostRepeated(n: nat, c: char)
    requires !IsTrimmable(c)
    ensures CanPost(seq(n, _ => c)) <==> 1 <= n * (if c <= '\U{FFFF}' then 1 else 2) <= MaxPostLength
  {
    var text: string := seq(n, _ => c);
    assert IsTrimmed(text);
    Utf16LengthRepeated(n, c);
    assert [] + text + [] == text;
    CanPostPadded([], text, []);
  }

  /** 280 letters post, 281 do not; 140 emoji (two code units each) post,
      141 do not. */
  lemma CanPostBoundary()
    ensures CanPost(seq(280, _ => 'a')) && !CanPost(seq(281, _ => 'a'))
    ensures CanPost(seq(140, _ => '\U{1F680}')) && !CanPost(seq(141, _ => '\U{1F680}'))
  {
    CanPostRepeated(280, 'a');
    CanPostRepeated(281, 'a');
    CanPostRepeated(140, '\U{1F680}');
    CanPostRepeated(141, '\U{1F680}');
  }

  /** The tweet handlePost builds: the trimmed draft as content, the current
      user marked verified as author, no media, zero counters, no flags. */
  function NewTweet(id: string, content: string, now: int): (t: Tweet)
    ensures t.id == id && t.content == content && t.createdAt == now && t.media == None
    ensures t.author.name == CurrentUser.name && t.author.handle == CurrentUser.handle
    ensures t.author.avatar == CurrentUser.avatar && t.author.verified == Some(true)
    ensures (forall key :: Stat(t.stats, key) == 0) && (forall k :: !Flag(t.viewer, k))
  {
    Tweet(id, content, now, None, CurrentUser.(verified := Some(true)), ZeroStats, NoFlags)
  }

  /** handlePost: when the draft cannot be posted or a post is under way,
      nothing changes; otherwise a fresh tweet holding the trimmed draft goes
      in front of the unchanged feed, the draft is cleared and the posting
      period begins. */
  function HandlePost(s: HomeState, newId: string, now: int): (r: HomeState)
    requires FreshId(s.tweets, newId)
    ensures !CanPost(s.draft) || s.isPosting ==> r == s
    ensures CanPost(s.draft) && !s.isPosting ==>
      && |r.tweets| == |s.tweets| + 1
      && r.tweets[1..] == s.tweets
      && r.tweets[0].id == newId
      && r.tweets[0].content == Trim(s.draft)
      && r.tweets[0].createdAt == now
      && r.tweets[0].media == None
      && r.tweets[0].author.name == CurrentUser.name
      && r.tweets[0].author.handle == CurrentUser.handle
      && r.tweets[0].author.avatar == CurrentUser.avatar
      && r.tweets[0].author.verified == Some(true)
      && (forall key :: Stat(r.tweets[0].stats, key) == 0)
      && (forall k :: !Flag(r.tweets[0].viewer, k))
      && r.draft == ""
      && r.isPosting
    ensures CanPost(s.draft) && !s.isPosting ==>
      IsTrimmed(r.tweets[0].content) && 1 <= Utf16Length(r.tweets[0].content) <= MaxPostLength
  {
    if !CanPost(s.draft) || s.isPosting then s
    else
      var tweet := NewTweet(newId, Trim(s.draft), now);
      HomeState([tweet] + s.tweets, "", true)
  }

  /** The timer set by handlePost fires: the posting period ends and nothing
      else changes. */
  function PostingDone(s: HomeState): (r: HomeState)
    ensures r.tweets == s.tweets && r.draft == s.draft && !r.isPosting
  {
    s.(isPosting := false)
  }

  /** Posting a draft cannot repeat until the timer has fired: a second
      submit in the posting period is ignored even if a new draft was typed. */
  lemma NoDoublePost(s: HomeState, id1: string, id2: string, text: string, now: int)
    requires FreshId(s.tweets, id1) && CanPost(s.draft) && !s.isPosting
    requires FreshId(HandlePost(s, id1, now).tweets, id2)
    ensures var s1 := HandlePost(s, id1, now).(draft := text);
            HandlePost(s1, id2, now) == s1
  {
  }

  /** Once the timer has fired, the next postable draft is posted: the feed
      grows by one tweet holding that draft, trimmed. */
  lemma PostCycle(s: HomeState, id1: string, id2: string, text: string, now1: int, now2: int)
    requires FreshId(s.tweets, id1) && CanPost(s.draft) && !s.isPosting
    requires FreshId(HandlePost(s, id1, now1).tweets, id2) && CanPost(text)
    ensures var s1 := PostingDone(HandlePost(s, id1, now1)).(draft := text);
            var s2 := HandlePost(s1, id2, now2);
            |s2.tweets| == |s.tweets| + 2 && s2.tweets[0].content == Trim(text)
            && s2.tweets[1].content == Trim(s.draft) && s2.tweets[2..] == s.tweets
  {
    var s1 := PostingDone(HandlePost(s, id1, now1)).(draft := text);
    var s2 := HandlePost(s1, id2, now2);
    assert s2.tweets[1..] == s1.tweets;
    assert s2.tweets[2..] == s1.tweets[1..];
  }

  // ----- Event traces -----------------------------------------------------

  /** The user's and the timer's inputs to the page. */
  datatype Event =
    | Edit(text: string)
    | Engage(id: string, action: EngagementKey)
    | Submit(newId: string, now: int)
    | TimerFired

  /** A submitted tweet gets an id no tweet of the feed has. */
  predicate Allowed(s: HomeState, e: Event) {
    e.Submit? ==> FreshId(s.tweets, e.newId)
  }

  /** One input applied to the page. Typing changes only the draft; a toggle
      changes only the tweets, keeping their number and ids; a submit adds at
      most one tweet in front of the unchanged feed; the timer only ends the
      posting period. */
  function Step(s: HomeState, e: Event): (r: HomeState)
    requires Allowed(s, e)
    ensures e.Edit? ==> r.tweets == s.tweets && r.draft == e.text && r.isPosting == s.isPosting
    ensures e.Engage? ==>
              && r.draft == s.draft && r.isPosting == s.isPosting && |r.tweets| == |s.tweets|
              && (forall i :: 0 <= i < |r.tweets| ==> r.tweets[i].id == s.tweets[i].id)
    ensures e.Submit? ==> r.tweets == s.tweets || (|r.tweets| == |s.tweets| + 1 && r.tweets[1..] == s.tweets && r.isPosting)
    ensures e.TimerFired? ==> r.tweets == s.tweets && r.draft == s.draft && !r.isPosting
  {
    match e
    case Edit(text) => s.(draft := text)
    case Engage(id, action) => s.(tweets := HandleEngagement(s.tweets, id, action))
    case Submit(newId, now) => HandlePost(s, newId, now)
    case TimerFired => PostingDone(s)
  }

  predicate ValidTrace(s: HomeState, events: seq<Event>)
    decreases |events|
  {
    |events| == 0 || (Allowed(s, events[0]) && ValidTrace(Step(s, events[0]), events[1..]))
  }

  function Run(s: HomeState, events: seq<Event>): HomeState
    requires ValidTrace(s, events)
    decreases |events|
  {
    if |events| == 0 then s else Run(Step(s, events[0]), events[1..])
  }

  /** Each tweet's baseline counters: a post adds a zero baseline in front,
      nothing else changes the baselines. */
  function StepBases(s: HomeState, bases: seq<Stats>, e: Event): seq<Stats> {
    if e.Submit? && CanPost(s.draft) && !s.isPosting then [ZeroStats] + bases else bases
  }

  function RunBases(s: HomeState, bases: seq<Stats>, events: seq<Event>): seq<Stats>
    requires ValidTrace(s, events)
    decreases |events|
  {
    if |events| == 0 then bases
    else RunBases(Step(s, events[0]), StepBases(s, bases, events[0]), events[1..])
  }

  /** Every counter is its non-negative baseline plus its flag, and no two
      tweets share an id. */
  ghost predicate Invariant(s: HomeState, bases: seq<Stats>) {
    && FeedMatches(s.tweets, bases)
    && (forall i :: 0 <= i < |bases| ==> NonNegative(bases[i]))
    && UniqueIds(s.tweets)
  }

  /** The seeded feed starts with every flag clear, on its own counters as
      baseline. */
  lemma InitialInvariant(loaded: int)
    ensures Invariant(Init(loaded), SeedStats)
  {
    var ts := InitialTweets(loaded);
    FreshTweetMatches(ts[0]);
    FreshTweetMatches(ts[1]);
    FreshTweetMatches(ts[2]);
  }

  lemma EngageKeepsInvariant(s: HomeState, bases: seq<Stats>, id: string, action: EngagementKey)
    requires Invariant(s, bases)
    ensures Invariant(s.(tweets := HandleEngagement(s.tweets, id, action)), bases)
  {
    HandleEngagementKeepsBaseline(s.tweets, bases, id, action);
    HandleEngagementKeepsIds(s.tweets, id, action);
  }

  /** Putting a fresh, unengaged tweet with zero counters in front keeps the
      invariant, with a zero baseline in front. */
  lemma PrependKeepsInvariant(t: Tweet, tweets: seq<Tweet>, bases: seq<Stats>)
    requires FeedMatches(tweets, bases) && UniqueIds(tweets) && FreshId(tweets, t.id)
    requires t.stats == ZeroStats && t.viewer == NoFlags
    ensures FeedMatches([t] + tweets, [ZeroStats] + bases) && UniqueIds([t] + tweets)
  {
    var ts := [t] + tweets;
    var nb := [ZeroStats] + bases;
    FreshTweetMatches(t);
    assert forall i :: 1 <= i < |ts| ==> ts[i] == tweets[i - 1] && nb[i] == bases[i - 1];
    forall i, j | 0 <= i < j < |ts| ensures ts[i].id != ts[j].id {
      if i == 0 {
        assert ts[j] == tweets[j - 1];
      } else {
        assert ts[i] == tweets[i - 1] && ts[j] == tweets[j - 1];
      }
    }
  }

  lemma PostKeepsInvariant(s: HomeState, bases: seq<Stats>, newId: string, now: int)
    requires Invariant(s, bases) && FreshId(s.tweets, newId) && CanPost(s.draft) && !s.isPosting
    ensures Invariant(HandlePost(s, newId, now), [ZeroStats] + bases)
  {
    var t := NewTweet(newId, Trim(s.draft), now);
    assert HandlePost(s, newId, now).tweets == [t] + s.tweets;
    PrependKeepsInvariant(t, s.tweets, bases);
  }

  lemma StepKeepsInvariant(s: HomeState, bases: seq<Stats>, e: Event)
    requires Invariant(s, bases) && Allowed(s, e)
    ensures Invariant(Step(s, e), StepBases(s, bases, e))
  {
    match e
    case Edit(_) =>
    case TimerFired =>
    case Engage(id, action) =>
      EngageKeepsInvariant(s, bases, id, action);
    case Submit(newId, now) =>
      if CanPost(s.draft) && !s.isPosting {
        PostKeepsInvariant(s, bases, newId, now);
      }
  }

  /** Whatever happens on the page, every counter stays its non-negative
      baseline plus its flag and ids stay unique. */
  lemma {:induction false} RunKeepsInvariant(s: HomeState, bases: seq<Stats>, events: seq<Event>)
    requires Invariant(s, bases) && ValidTrace(s, events)
    ensures Invariant(Run(s, events), RunBases(s, bases, events))
    decreases |events|
  {
    if |events| > 0 {
      StepKeepsInvariant(s, bases, events[0]);
      RunKeepsInvariant(Step(s, events[0]), StepBases(s, bases, events[0]), events[1..]);
    }
  }

  /** From the first render, through any sequence of edits, toggles, posts
      and timer events, no counter of any tweet is negative and no two
      tweets share an id. */
  lemma ReachableStatesSound(loaded: int, events: seq<Event>)
    requires ValidTrace(Init(loaded), events)
    ensures forall i :: 0 <= i < |Run(Init(loaded), events).tweets| ==> NonNegative(Run(Init(loaded), events).tweets[i].stats)
    ensures UniqueIds(Run(Init(loaded), events).tweets)
  {
    var bases := SeedStats;
    InitialInvariant(loaded);
    RunKeepsInvariant(Init(loaded), bases, events);
    var r := Run(Init(loaded), events);
    var rb := RunBases(Init(loaded), bases, events);
    forall i | 0 <= i < |r.tweets| ensures NonNegative(r.tweets[i].stats) {
      MatchesBaselineNonNegative(r.tweets[i], rb[i]);
    }
  }

  /** Liking the first seeded tweet shows 643 likes; unliking it shows 642
      again. */
  lemma LikeUnlikeSeeded(loaded: int)
    ensures var s1 := Step(Init(loaded), Engage("1", Liked));
            s1.tweets[0].viewer.liked && s1.tweets[0].stats.likes == 643
    ensures var s2 := Step(Step(Init(loaded), Engage("1", Liked)), Engage("1", Liked));
            s2 == Init(loaded)
  {
    ToggleTwiceRestores(InitialTweets(loaded), "1", Liked);
  }
}
