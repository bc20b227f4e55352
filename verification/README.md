# IsItStolen: a verified model of the reply bot's core

IsItStolen is a Twitter bot. It listens to its user stream and reads a bike serial
number out of each tweet that mentions it. It looks the serial up on the Bike Index
and replies with what it found. This project models the three deterministic parts of
`IsItStolen_stream.rb` in Dafny and proves properties about them.

- **The reply composer** (`build_bike_reply`, module `Reply`, file `reply.dfy`).
  It describes one bike in a reply that fits a 140-character tweet whenever the
  handle and the status word leave a non-negative budget; the bike's URL is
  counted at the length t.co gives every wrapped https link.
  The description is the first candidate that fits, from a chain of seven that runs
  from "colour manufacturer model" down to "colour bike". The fallback is an empty
  description.
  Silver frames are called "Gray", and a frame covered in stickers has no colour.
- **Search-term extraction** (module `SearchTerm`, file `search_term.dfy`).
  Each mention span and then each hashtag span is cut out of the tweet text. The
  spans are given in the coordinates of the original text, but each cut is made on
  the text the earlier cuts left behind. The rest is then stripped of surrounding
  whitespace.
  The model keeps this behaviour exactly. It also defines removal of all spans at
  once and proves that the two agree when the spans are listed right to left.
- **The per-tweet handler** (module `Stream`, file `stream.dfy`).
  - Tweets by the bot itself are ignored.
  - The term "absent", in any letter case, gets a fixed reply and no search.
  - Otherwise the bot runs the exact serial search. When that finds nothing, it also
    runs the close-serials search.
  - It then posts replies according to how many bikes matched: none, one to three,
    or more than three; and, when nothing matched exactly, none, one or several
    close serials.

Ruby's string operations are modelled in `text.dfy` (module `Text`):

- `strip` removes NUL and ASCII whitespace from both ends.
- `downcase` lowers ASCII letters only.
- `Integer#to_s` becomes `Decimal`.

`options.dfy` holds the `Option` type.

Exceptions in the source are modelled as values.

- `build_bike_reply` gives `None` when a bike record has no frame colour. The
  source fails there on `nil.start_with?`.
- A cut whose end lies past the end of the shrunk text gives `None`. Ruby's
  `slice(end..-1)` is `nil` there, and adding `nil` to a string raises.
- The handler's outcome records the posts made before the exception and a
  `crashed` flag.

The two Bike Index answers are inputs of the handler. So are the t.co URL length
and the bot's user id. The handler's output is the ordered list of posted texts
and the list of searches made.

A cut past the end of the shortened text raises (IsItStolen_stream.rb:106, 110),
and so does a bike without a frame colour (IsItStolen_stream.rb:48-49). The source
has no fallback reply for either case, and neither has the model.

## Model

| member | source | states |
|---|---|---|
| Text.Strip | IsItStolen_stream.rb:113 | the result is the middle of the input once the maximal runs of whitespace/NUL at both ends are dropped; it neither starts nor ends with whitespace, and it is empty exactly when the input is all whitespace |
| Text.StripIdempotent | IsItStolen_stream.rb:113 | stripping a stripped term changes nothing |
| Text.Downcase | IsItStolen_stream.rb:123 | same length, and every character is the lower-case form of the input's character at that position |
| Text.Decimal | IsItStolen_stream.rb:169 | `bikes.length` printed in decimal is a non-empty string of digits with no leading zero except for 0 itself |
| Text.DecimalRoundTrip | IsItStolen_stream.rb:169 | reading the printed digits back gives the number that was printed |
| Reply.StolenMarker | IsItStolen_stream.rb:44 | the marker is "STOLEN" exactly when the bike is stolen and "NOT stolen" exactly when it is not |
| Reply.Budget | IsItStolen_stream.rb:43-46 | the budget, the handle, the three spaces, the marker and the t.co length add up to exactly 140 |
| Reply.NormalizeColor | IsItStolen_stream.rb:48-53 | a colour starting with "Silver" becomes "Gray"; otherwise one starting with "Stickers" becomes ""; any other colour is kept; the result never starts with either prefix |
| Reply.NormalizeColorIdempotent | IsItStolen_stream.rb:48-53 | normalising twice is normalising once; a colour with neither prefix is left unchanged |
| Reply.SlugBranch | IsItStolen_stream.rb:58-75 | the branch taken by the source's length arithmetic is the first candidate whose actual length is within the budget: every earlier candidate is too long (7 when none fits) |
| Reply.FirstFit | IsItStolen_stream.rb:59-75 | reference definition: the first index of a list of strings whose length is within the budget, with every earlier string too long |
| Reply.SlugBranchIsFirstFit | IsItStolen_stream.rb:59-75 | the if/elsif chain equals the first-fit search over the seven candidates in source order |
| Reply.FallbackOrder | IsItStolen_stream.rb:59-75 | whenever a candidate fits, no later branch is taken; when the full description fits it is always chosen |
| Reply.Candidates | IsItStolen_stream.rb:58-72 | the seven descriptions in source order, each exactly as long as the quantity its branch compares with the budget |
| Reply.ChosenSlug | IsItStolen_stream.rb:58-75 | the description is the candidate of the branch the chain takes, so it is within the budget; it is empty exactly when no candidate fits |
| Reply.BuildBikeReply | IsItStolen_stream.rb:42-78 | a reply is produced exactly when the bike record has a frame colour |
| Reply.ReplyFitsTweet | IsItStolen_stream.rb:43-77 | the reply, with the URL charged at the t.co length, is at most 140 characters exactly when the budget is not negative |
| Reply.ReplyLayout | IsItStolen_stream.rb:77 | the reply is handle, description, marker and URL joined by single spaces, the description being chosen from the normalised first colour |
| Reply.EmptySlugKeepsBothSpaces | IsItStolen_stream.rb:73-77 | with a budget below 1 the description is empty and the reply still holds both spaces around it |
| SearchTerm.Splice | IsItStolen_stream.rb:106 | one cut fails exactly when the span ends past the text; otherwise it shortens the text by the span's length, and putting the cut-out text back at `start` restores the text |
| SearchTerm.SpliceAll | IsItStolen_stream.rb:105-111 | the cuts in list order; no spans leave the text unchanged, and with well-formed spans every successful run removes exactly the spans' total width |
| SearchTerm.Extract | IsItStolen_stream.rb:101-113 | the search term exists exactly when every cut succeeds, and it neither starts nor ends with whitespace |
| SearchTerm.SpliceAllAppend | IsItStolen_stream.rb:105-111 | cutting the mention spans and then the hashtag spans is cutting the concatenated list; a failure stops the rest |
| SearchTerm.ExtractSearchTerm | IsItStolen_stream.rb:101-113 | the two loops and the final strip compute `Extract` on the text, the mentions and the hashtags |
| SearchTerm.NoSpansStripsText | IsItStolen_stream.rb:102-113 | a tweet with no entities gives its stripped text |
| SearchTerm.LeadingSpanStripsRest | IsItStolen_stream.rb:105-113 | a single mention or a single hashtag at offset 0 gives the stripped text after it |
| SearchTerm.RemoveSpansOrderFree | IsItStolen_stream.rb:104-111 | removal of all spans at once in original coordinates does not depend on the order of the spans |
| SearchTerm.DescendingSpliceIsRemoval | IsItStolen_stream.rb:104-111 | cutting spans one after the other removes exactly the spans when they are listed right to left and lie inside the text |
| SearchTerm.RightToLeftRemovesBoth | IsItStolen_stream.rb:105-107 | two spans in the text, cut right one first, leave what removing both at once leaves |
| SearchTerm.AscendingMentionsMisfire | IsItStolen_stream.rb:105-107 | "@a @b 123" with its two mentions cut left to right gives "@b23": the second cut uses stale offsets |
| SearchTerm.RemovingBothMentionsLeavesSerial | IsItStolen_stream.rb:104-107 | removing both mentions of "@a @b 123" at once leaves "  123" |
| SearchTerm.MentionThenHashtagFails | IsItStolen_stream.rb:105-111 | "@bot 123 #bike" fails: after the mention is cut, the hashtag's end lies past the end of the shrunk text |
| Stream.IsAbsent | IsItStolen_stream.rb:123 | the `downcase == "absent"` test; only a six-character term passes it |
| Stream.AbsentReply | IsItStolen_stream.rb:124 | the fixed reply: addressed to the sender, ending with the search link for ABSENT |
| Stream.NotFoundReply | IsItStolen_stream.rb:150 | an apology to the sender, ending with the Bike Index home page |
| Stream.InexactHandle | IsItStolen_stream.rb:155 | the handle for a single close match: the sender's handle first, the matched serial last |
| Stream.SimilarSerialsReply | IsItStolen_stream.rb:160 | an apology to the sender, ending with the search link for the term |
| Stream.CountNotice | IsItStolen_stream.rb:169 | addressed to the sender with the number of matches in decimal, ending with the search link for the term |
| Stream.TooManyReply | IsItStolen_stream.rb:183 | opens with "Whoa, ", the sender's handle and the number of matches, and ends with the search link for the term |
| Stream.ComposeAll | IsItStolen_stream.rb:174-176 | one composed reply per bike, present exactly when that bike has a frame colour |
| Stream.ReplyEach | IsItStolen_stream.rb:174-180 | the `bikes.each` loop posts at most one reply per bike and raises exactly when some bike has no frame colour |
| Stream.AbsentIgnoresCase | IsItStolen_stream.rb:123 | a term is the "absent" sentinel exactly when it has six letters, each of them that letter of "absent" in lower or upper case |
| Stream.PostUntilFailure | IsItStolen_stream.rb:174-180 | at most one post per composed reply, and posting stops early exactly when fewer posts than replies were made |
| Stream.PostUntilFailureInOrder | IsItStolen_stream.rb:174-180 | each post is the composed reply at that position, and an early stop happens at a reply whose composition failed |
| Stream.PostUntilFailureCrashes | IsItStolen_stream.rb:174-180 | posting stops early exactly when some composed reply failed |
| Stream.ReplyEachAllColoured | IsItStolen_stream.rb:174-180 | when every bike has a frame colour, one reply per bike is posted, in the order the search returned them, and the loop finishes |
| Stream.Route | IsItStolen_stream.rb:137-187 | the routing by match counts: the exact search comes first, every search is for the term, at most two searches and four posts |
| Stream.RouteBounded | IsItStolen_stream.rb:137-187 | the exact search always comes first, and the close-serials search is made exactly when nothing matched exactly; at most four tweets are posted, and never more than one above the number of exact matches |
| Stream.RouteNoExactMatch | IsItStolen_stream.rb:139-163 | with no exact match: no close serial gives the "couldn't find" reply; several give the similar-serials link; a single one is described under the handle "at Inexact match: serial=..." and raises when it has no colour |
| Stream.RouteFewMatches | IsItStolen_stream.rb:167-180 | with one to three coloured exact matches: a count notice first when there are two or three, then one composed reply per bike in order (n+1 tweets; one tweet for a single match), and no close-serials search |
| Stream.RouteTooMany | IsItStolen_stream.rb:182-186 | with more than three exact matches: only the "too many" reply with the count and the search link |
| Stream.RouteCrashes | IsItStolen_stream.rb:139-180 | routing raises exactly when it composes a reply for a bike without a frame colour: the single close match, or one of one to three exact matches |
| Stream.HandleTweet | IsItStolen_stream.rb:92-188 | the per-tweet handler: every search is for the extracted term, the bot's own tweets lead to no search, and at most four posts follow |
| Stream.OwnTweetIgnored | IsItStolen_stream.rb:96-99 | a tweet by the bot itself leads to no search and no post |
| Stream.FailedCutCrashes | IsItStolen_stream.rb:105-111 | when a cut fails, the handler raises before any search or post |
| Stream.AbsentAnsweredWithoutSearch | IsItStolen_stream.rb:123-128 | "absent" in any letter case gets exactly the one fixed reply, and no search is made |
| Stream.OtherTermSearched | IsItStolen_stream.rb:130-187 | any other term is searched exactly as extracted, the close-serials search only when nothing matched exactly, and at most four tweets follow |
| Stream.PostEach | IsItStolen_stream.rb:174-180 | the `bikes.each` loop posts what `PostUntilFailure` of the composed replies gives, and stops where it stops |
| Stream.RouteTerm | IsItStolen_stream.rb:137-187 | the branching over the match counts makes the searches and posts the routing function describes |
| Stream.Respond | IsItStolen_stream.rb:92-188 | the `userstream` block, step by step, makes the searches and posts and raises as the handler function describes |

## Left out

- Dotenv, the TweetStream and Twitter REST client setup, OAuth credentials and `verify_credentials` (IsItStolen_stream.rb:12-38) are external I/O. The t.co URL length is a parameter. The bot's identity is a parameter too, a user id compared with the tweet author's id.
- The connect, error and reconnect callbacks of the stream (IsItStolen_stream.rb:81-89) only log.
- The Faraday HTTP requests and JSON parsing (IsItStolen_stream.rb:131-133, 142-144) are network I/O. Their results are the handler's `exact` and `close` inputs. The searches made are recorded as `Lookup` values. A failing request or malformed JSON is not modelled.
- `rest_client.update` with its `in_reply_to_status` linkage is not modelled. The posts are an ordered sequence of texts; whether a post call itself fails is not modelled.
- The `$DEBUG` logging is left out: it does not affect behaviour.
- The in-place `color.replace` also changes the caller's bike record (IsItStolen_stream.rb:50, 52). No reply depends on that, so normalisation returns a new string.
- `nil` manufacturer, model or URL fields are not modelled, because Dafny strings cannot be `nil`. In Ruby the first two raise on `.length`, and a `nil` URL prints as "". Only a missing frame colour is modelled as the failure of `build_bike_reply`.
- Text.Downcase: lowers ASCII letters only. No non-ASCII character lower-cases into a letter of "absent", so the sentinel test is unaffected.
- Text.Strip: removes NUL, tab, newline, vertical tab, form feed, carriage return and space from both ends. Ruby versions before 2.6 keep a leading NUL; that difference is not modelled.
