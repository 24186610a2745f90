# Home timeline state model

A Dafny model of the logic inside the home-timeline component of a small
social-feed page (`TwitterHome`). The component keeps three pieces of state:
the list of tweets, the composer draft, and an `isPosting` flag. Its logic
consists of:

- **Engagement toggle** (`handleEngagement` with the `engagementStatKey`
  table). Every tweet with the given id has one viewer flag flipped: liked,
  reposted or bookmarked. The paired counter (likes, reposts or bookmarks)
  moves by +1 or −1. Every other tweet is returned as it was.
- **Composer** (`canPost`, `handlePost`). The trimmed draft must be 1 to 280
  UTF-16 code units long, and no post may be under way. If so, a new tweet
  holding the trimmed draft goes in front of the feed. It has zero counters,
  no flags, and the current user marked verified as author. The draft is then
  cleared and the "Posting..." period begins. A 250 ms timer ends that period.
- **Relative time** (`formatRelativeTime`). The unit and value that label a
  tweet's age: minutes, then hours rounded from the rounded minutes, then
  days rounded from those hours.
- **Avatar fallback initials**. The expression under each author's and each
  suggestion's avatar: split the name on spaces, take each piece's first
  character, keep two, upper-case them.

Files:

- `js_string.dfy` (module `JsString`): the JavaScript string built-ins used
  by that logic. `trim` uses the exact ECMA-262 white-space set. `length`
  counts UTF-16 code units. Also `split` and `join` with a one-character
  separator, and ASCII `toUpperCase`.
- `feed.dfy` (module `Feed`): the tweet data model, the toggle, and the
  counter invariant.
- `home.dfy` (module `Home`): the component state, the seeded feed, the
  composer, the posting timer, event traces, and the invariant every
  reachable state keeps.
- `relative_time.dfy` (module `RelativeTime`): `Math.round` and unit
  selection.
- `initials.dfy` (module `Initials`): the avatar fallback.

Some external inputs become parameters:

- The clock. A tweet's `createdAt` and the current time are milliseconds
  since the epoch. The clock is read at two different times. The seeded
  tweets are stamped once, when the module loads (`loaded`). Their age is
  read at each render (`now`).
- The fresh id from `crypto.randomUUID()`.
- The timer, which becomes an explicit `TimerFired` event (`PostingDone`).

Behaviour of the code that is easy to miss:

- `handlePost` is also a no-op while `isPosting` is set.
- `Math.round` sends halves towards +∞, not away from zero. This only matters
  for ages in the future.
- Hours are rounded from the already rounded minutes. An age from 23 h 29 min
  30 s onwards (84,570,000 ms) therefore reads as one day, and 89 min 30 s
  reads as 2 hours.

## Model

| member | source | states |
|---|---|---|
| Feed.EngagementStatKey | twitter-clone/src/components/twitter-home.tsx:187-193 | every engagement kind moves one of the three engagement counters, never the comment counter |
| Feed.EngagementStatKeyInjective | twitter-clone/src/components/twitter-home.tsx:189-193 | two kinds move the same counter exactly when they are the same kind |
| Feed.WithFlag | twitter-clone/src/components/twitter-home.tsx:235 | the spread update sets the chosen flag and leaves the other two flags as they were |
| Feed.WithStat | twitter-clone/src/components/twitter-home.tsx:236-239 | the spread update sets the chosen counter and leaves the other three counters as they were |
| Feed.ToggleTweet | twitter-clone/src/components/twitter-home.tsx:231-240 | the chosen flag is negated; its counter gains 1 if the flag is now set and loses 1 if now clear; id, content, time, media, author, other flags and other counters are unchanged |
| Feed.ToggleTweetFields | twitter-clone/src/components/twitter-home.tsx:187-193 | liking negates `liked` and moves `likes`, reposting negates `reposted` and moves `reposts`, bookmarking negates `bookmarked` and moves `bookmarks`, each by +1 when the flag is now set and -1 when now clear |
| Feed.ToggleTweetTwice | twitter-clone/src/components/twitter-home.tsx:231-238 | toggling one kind twice gives back the same tweet |
| Feed.ToggleTweetCommutes | twitter-clone/src/components/twitter-home.tsx:231-238 | toggles of two kinds on one tweet give the same tweet in either order |
| Feed.HandleEngagement | twitter-clone/src/components/twitter-home.tsx:224-243 | same length and order; every tweet with the id is toggled exactly as above, and every other tweet is returned as it was |
| Feed.UnknownIdNoOp | twitter-clone/src/components/twitter-home.tsx:226-229 | toggling an id no tweet carries leaves the feed as it was |
| Feed.HandleEngagementKeepsIds | twitter-clone/src/components/twitter-home.tsx:226-229 | the toggle keeps every position's id |
| Feed.ToggleTwiceRestores | twitter-clone/src/components/twitter-home.tsx:224-243 | toggling the same id and kind twice gives back the original feed |
| Feed.TogglesCommute | twitter-clone/src/components/twitter-home.tsx:224-243 | any two toggles, on any ids and kinds, give the same feed in either order |
| Feed.FreshTweetMatches | twitter-clone/src/components/twitter-home.tsx:107-109 | a tweet with every flag clear is on its own counters as baseline |
| Feed.ToggleTweetKeepsBaseline | twitter-clone/src/components/twitter-home.tsx:231-238 | if every counter is its baseline plus its flag before a toggle, it still is after |
| Feed.HandleEngagementKeepsBaseline | twitter-clone/src/components/twitter-home.tsx:224-243 | the baseline-plus-flag relation holds for the whole feed after a toggle |
| Feed.MatchesBaselineNonNegative | twitter-clone/src/components/twitter-home.tsx:236-239 | counters on a non-negative baseline are never negative |
| JsString.Trim | twitter-clone/src/components/twitter-home.tsx:219 | the trimmed draft is the infix left once the white space at both ends is removed; it neither starts nor ends with white space; it is empty exactly when the draft is all white space |
| JsString.TrimUnique | twitter-clone/src/components/twitter-home.tsx:219 | trim of white space + trimmed text + white space is exactly that text |
| JsString.TrimEmpty | twitter-clone/src/components/twitter-home.tsx:219 | trimming leaves nothing exactly when the draft is all white space |
| JsString.TrimIdempotent | twitter-clone/src/components/twitter-home.tsx:253 | the posted content, already trimmed, is unchanged by trimming again |
| JsString.Utf16Length | twitter-clone/src/components/twitter-home.tsx:219 | length counts one code unit per character, two for characters outside the Basic Multilingual Plane; it equals the character count exactly when there are none of those |
| JsString.Utf16LengthConcat | twitter-clone/src/components/twitter-home.tsx:219 | a single character counts one code unit, or two outside the Basic Multilingual Plane, and the counts of two strings add up over concatenation; together this fixes `length` for every string, mixed ones included |
| JsString.Split | twitter-clone/src/components/twitter-home.tsx:437 | at least one piece, none containing the separator |
| JsString.JoinSplit | twitter-clone/src/components/twitter-home.tsx:437 | joining the pieces of a split with the separator gives back the name |
| JsString.SplitJoin | twitter-clone/src/components/twitter-home.tsx:437 | splitting a join of separator-free pieces gives back the pieces |
| JsString.ToUpperAscii | twitter-clone/src/components/twitter-home.tsx:441 | upper-casing keeps the length and maps each character separately |
| Initials.Head | twitter-clone/src/components/twitter-home.tsx:438 | `piece[0]` joined as text is the piece's first character, or nothing for an empty piece |
| Initials.FirstChars | twitter-clone/src/components/twitter-home.tsx:438-439 | mapping each piece to its first character and joining gives at most one character per piece, exactly one per piece when no piece is empty, and begins with the first piece's first character |
| Initials.FirstCharsOfSplit | twitter-clone/src/components/twitter-home.tsx:436-439 | the first characters of the space-separated pieces, joined, are exactly the word starts of the name in order (empty pieces add nothing) |
| Initials.AvatarInitials | twitter-clone/src/components/twitter-home.tsx:436-441 | at most two characters: the upper-cased first two word starts of the name, in order (as many as there are, up to two) |
| Initials.BlankNameNoInitials | twitter-clone/src/components/twitter-home.tsx:436-441 | a name of spaces only gives an empty fallback |
| Initials.TwoWordInitials | twitter-clone/src/components/twitter-home.tsx:436-441 | a name of two space-separated words gives the upper-cased first letters of the two words |
| Initials.CurrentUserInitials | twitter-clone/src/components/twitter-home.tsx:78-82 | the current user's name "Ava Indigo", spelt out piece by piece, gives "AI", the fallback written out for the current user |
| Initials.EmptyPiecesSkipped | twitter-clone/src/components/twitter-home.tsx:579-584 | for " a  b" the leading and doubled spaces make empty pieces that add nothing, giving the capitals of a and b |
| RelativeTime.JsRound | twitter-clone/src/components/twitter-home.tsx:198 | `Math.round(x / y)` is the integer within half a step of x / y, halves going up |
| RelativeTime.JsRoundMonotone | twitter-clone/src/components/twitter-home.tsx:204 | rounding never reverses the order of its inputs |
| RelativeTime.UnitAndValue | twitter-clone/src/components/twitter-home.tsx:198-211 | the unit is minutes exactly below 3,570,000 ms, hours exactly from there below 84,570,000 ms, days from then on; minutes are below 60 and within half a minute of the age; hours lie in 1..23; days are at least 1 |
| RelativeTime.RelativeTimeValue | twitter-clone/src/components/twitter-home.tsx:204-211 | the value is the age rounded to the unit, up to the double rounding: h hours covers ages from h hours less 30.5 minutes to h hours plus 29.5 minutes; d days covers ages from d days less 12.5 hours and 30 s to d days plus 11.5 hours less 30 s |
| RelativeTime.FormatRelativeTime | twitter-clone/src/components/twitter-home.tsx:195-211 | for the age `now - createdAt`: minutes exactly below 3,570,000 ms, hours exactly from there below 84,570,000 ms, days from then on; m minutes covers ages within half a minute of m minutes, h hours covers h hours less 30.5 minutes up to h hours plus 29.5 minutes, d days covers d days less 12.5 hours and 30 s up to d days plus 11.5 hours less 30 s; a tweet from the past never shows a negative value |
| RelativeTime.RelativeTimeMonotone | twitter-clone/src/components/twitter-home.tsx:198-211 | an older tweet never gets a smaller unit, nor a smaller value in the same unit |
| RelativeTime.FormatRelativeTimeShift | twitter-clone/src/components/twitter-home.tsx:195-211 | only the age matters: shifting creation and reading time together changes nothing, and reading later never shows a smaller unit |
| RelativeTime.ExactlyOneHour | twitter-clone/src/components/twitter-home.tsx:200-207 | an age of exactly 60 minutes is 1 hour, not 60 minutes |
| RelativeTime.ExactlyOneDay | twitter-clone/src/components/twitter-home.tsx:204-211 | an age of exactly 24 hours is 1 day, not 24 hours |
| RelativeTime.HoursRoundTwice | twitter-clone/src/components/twitter-home.tsx:198-204 | the double rounding turns 89 min 30 s into 2 hours where rounding the age directly gives 1 |
| Home.InitialTweets | twitter-clone/src/components/twitter-home.tsx:95-139 | three seeded tweets with ids "1", "2", "3", created before the module-load time they are stamped with, with every flag clear and no negative counter |
| Home.Init | twitter-clone/src/components/twitter-home.tsx:215-217 | the first render has the three seeded tweets with distinct ids, an empty draft that cannot be posted, and no post under way |
| Home.SeededAges | twitter-clone/src/components/twitter-home.tsx:95-139 | the seeded tweets, stamped at module load, read 25 minutes, 3 hours and 1 day at any render less than 30 seconds after the load |
| Home.CanPost | twitter-clone/src/components/twitter-home.tsx:219 | a white-space-only draft cannot be posted; a postable draft has 1 to 280 characters once trimmed; with no characters outside the Basic Multilingual Plane, that range is also sufficient |
| Home.CanPostPadded | twitter-clone/src/components/twitter-home.tsx:219 | however a text is padded with white space, it can be posted exactly when it has 1 to 280 UTF-16 code units |
| Home.CanPostRepeated | twitter-clone/src/components/twitter-home.tsx:219 | n copies of one non-space character can be posted exactly when n times its code-unit width is 1 to 280 |
| Home.CanPostBoundary | twitter-clone/src/components/twitter-home.tsx:219 | 280 letters can be posted and 281 cannot; 140 emoji can be posted and 141 cannot |
| Home.NewTweet | twitter-clone/src/components/twitter-home.tsx:251-258 | the new tweet has the given id, content and time, no media, the current user's name, handle and avatar with verified set, zero counters and no flags |
| Home.HandlePost | twitter-clone/src/components/twitter-home.tsx:245-263 | when the draft cannot be posted or a post is under way, nothing changes; otherwise the new head has the fresh id, the trimmed draft, the given time, no media, the current user's name/handle/avatar with verified set, zero counters and no flags; the tail is the old feed; the draft is cleared and isPosting is set |
| Home.PostingDone | twitter-clone/src/components/twitter-home.tsx:262 | the timer clears isPosting and changes nothing else |
| Home.Step | twitter-clone/src/components/twitter-home.tsx:214-263 | one input to the page: typing (line 387) replaces only the draft; a toggle (lines 489-504) changes only the tweets, keeping their number and ids; a submit (line 411) either changes no tweet or puts exactly one in front of the unchanged feed with a post under way; the timer (line 262) only ends the posting period |
| Home.NoDoublePost | twitter-clone/src/components/twitter-home.tsx:245-248 | a submit during the posting period is ignored, even with a new postable draft |
| Home.PostCycle | twitter-clone/src/components/twitter-home.tsx:245-262 | once the timer has fired, the next postable draft is posted in front of the earlier post, which is in front of the old feed |
| Home.PrependKeepsInvariant | twitter-clone/src/components/twitter-home.tsx:255-260 | a fresh tweet with zero counters and no flags, put in front, keeps counters on baseline and ids unique |
| Home.PostKeepsInvariant | twitter-clone/src/components/twitter-home.tsx:250-261 | a successful post keeps the invariant, with a zero baseline for the new tweet |
| Home.EngageKeepsInvariant | twitter-clone/src/components/twitter-home.tsx:224-243 | a toggle keeps the invariant with the same baselines |
| Home.InitialInvariant | twitter-clone/src/components/twitter-home.tsx:95-139 | the seeded feed has unique ids, non-negative counters, and every flag clear on its own counters as baseline |
| Home.StepKeepsInvariant | twitter-clone/src/components/twitter-home.tsx:224-263 | edits, toggles, posts and the timer each keep the invariant |
| Home.RunKeepsInvariant | twitter-clone/src/components/twitter-home.tsx:224-263 | any sequence of those events keeps the invariant |
| Home.ReachableStatesSound | twitter-clone/src/components/twitter-home.tsx:214-263 | from the first render, after any events, no counter is negative and no two tweets share an id |
| Home.LikeUnlikeSeeded | twitter-clone/src/components/twitter-home.tsx:107 | liking the first seeded tweet shows 643 likes; liking again restores the first render's state |

## Left out

- Rendering is not modelled: JSX layout, `EngagementButton`, the card, sheet and tooltip components, and the navigation. They only display state and call the operations above.
- The wording that `Intl.RelativeTimeFormat` produces ("25 minutes ago", "yesterday") is not modelled. It is a foreign library. The model stops at the (value, unit) pair; the source negates the value before formatting.
- Time is a parameter. Each `Date.now()` reading, ISO string formatting and parsing are replaced by millisecond numbers passed in. The seeded tweets take the module-load reading; ages take the render's reading.
- Home.HandlePost: the fresh id is a parameter that must not already be in the feed. The source relies on `crypto.randomUUID()` producing unused ids.
- Home.PostingDone: the 250 ms `setTimeout` is a `TimerFired` event that traces may place anywhere. This over-approximates the single timer each post starts.
- `draftProgress` is not modelled. It is a floating-point percentage used only for display.
- The static `navItems`, `trends` and `suggestions` are not modelled. They are read-only data; suggestion names only matter through `AvatarInitials`.
- Counters are unbounded integers. In the source they are JavaScript numbers, exact up to 2^53.
- RelativeTime.JsRound: floating-point division is modelled as exact division. For integer millisecond ages this changes no result.
- JsString.ToUpperAscii: only ASCII letters are upper-cased. Unicode case mappings, including ones that change length such as "ß" to "SS", are not modelled.
- Initials.AvatarInitials: `piece[0]` and `slice(0, 2)` work on UTF-16 code units in the source, but on whole characters here. The results differ only for names with characters outside the Basic Multilingual Plane.
- Strings are sequences of Unicode scalar values. A JavaScript string, such as a textarea's value, can hold an unpaired surrogate code unit; such drafts and names cannot be written down in this model.
- React's state batching is not modelled. Events are applied one at a time, in order.
