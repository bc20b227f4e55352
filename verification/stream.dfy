/**
 * The per-tweet handler of the bot's user stream: ignore the bot's own tweets,
 * extract the search term, answer "absent" without searching, look the serial up
 * on the Bike Index (and its close serials when nothing matches exactly), and post
 * the replies the number of matches calls for, in order.
 *
 * The Bike Index answers are inputs: `exact` is what the exact search returns for
 * the search term and `close` what the close-serials search returns. The outcome
 * records which of the two searches were made, the posted texts in posting order,
 * and whether handling stopped on an exception.
 */
module Stream {
  import opened Options
  import opened Text
  import opened Reply
  import opened SearchTerm

  /** An incoming tweet, reduced to what the handler reads. */
  datatype Tweet = Tweet(
    authorId: nat,
    screenName: string,
    fullText: string,
    mentions: seq<Span>,
    hashtags: seq<Span>)

  datatype Endpoint = ExactSearch | CloseSerials

  /** A Bike Index search made with `serial=<serial>`. */
  datatype Lookup = Lookup(endpoint: Endpoint, serial: string)

  /** What handling one tweet did: the posted replies, the searches made, and
      whether an exception ended the handling (the posts made before it stay sent). */
  datatype Outcome = Outcome(posts: seq<string>, lookups: seq<Lookup>, crashed: bool)

  /** Replies posted by the `bikes.each` loop, and whether it stopped on a bike
      without a frame colour. */
  datatype Sent = Sent(posts: seq<string>, crashed: bool)

  const SearchUrl: string := "https://BikeIndex.org/bikes?serial="

  /** The search term is the "absent" sentinel, in any letter case; only a
      six-character term can be. */
  predicate IsAbsent(term: string): (b: bool)
    ensures b ==> |term| == 6
  {
    Downcase(term) == "absent"
  }

  /** "absent" in any mixture of upper and lower case, and nothing else, is the sentinel. */
  lemma AbsentIgnoresCase(term: string)
    ensures IsAbsent(term) <==>
      |term| == 6 && forall i :: 0 <= i < 6 ==> term[i] == "absent"[i] || term[i] == "ABSENT"[i]
  {
    if |term| == 6 {
      forall i | 0 <= i < 6
        ensures ToLower(term[i]) == "absent"[i] <==> term[i] == "absent"[i] || term[i] == "ABSENT"[i]
      {
      }
      if forall i :: 0 <= i < 6 ==> term[i] == "absent"[i] || term[i] == "ABSENT"[i] {
        assert Downcase(term) == "absent";
      }
    }
  }

  const HomeUrl: string := "https://BikeIndex.org"

  const AbsentText: string :=
    " There are way too many bikes without serial numbers for me to tweet. Search here: "

  /** Addressed to the sender, ending with the link to the bikes registered as ABSENT. */
  function AbsentReply(at: string): (r: string)
    ensures StartsWith(r, at) && EndsWith(r, SearchUrl + "ABSENT")
  {
    Framed(at, AbsentText, SearchUrl + "ABSENT");
    at + AbsentText + (SearchUrl + "ABSENT")
  }

  const NotFoundText: string := ", I couldn't find that bike on the Bike Index "

  /** An apology to the sender, ending with the Bike Index home page. */
  function NotFoundReply(at: string): (r: string)
    ensures StartsWith(r, "Sorry " + at) && EndsWith(r, HomeUrl)
  {
    Framed("Sorry " + at, NotFoundText, HomeUrl);
    ("Sorry " + at) + NotFoundText + HomeUrl
  }

  const SimilarText: string := ", I couldn't find that bike on the Bike Index, but here are some similar serials "

  /** An apology to the sender, ending with the search link for the term. */
  function SimilarSerialsReply(at: string, term: string): (r: string)
    ensures StartsWith(r, "Sorry " + at) && EndsWith(r, SearchUrl + term)
  {
    Framed("Sorry " + at, SimilarText, SearchUrl + term);
    ("Sorry " + at) + SimilarText + (SearchUrl + term)
  }

  const CountText: string := " bikes with that serial number. I'll tweet them to you. "

  /** Addressed to the sender, giving the count in decimal and ending with the
      search link for the term. */
  function CountNotice(at: string, n: nat, term: string): (r: string)
    ensures StartsWith(r, at + " There are " + Decimal(n)) && EndsWith(r, SearchUrl + term)
  {
    Framed(at + " There are " + Decimal(n), CountText, SearchUrl + term);
    (at + " There are " + Decimal(n)) + CountText + (SearchUrl + term)
  }

  const TooManyText: string := " bikes with that serial! Too many to tweet. Check here: "

  /** Opens with "Whoa, ", the sender's handle and the count in decimal, and ends
      with the search link for the term. */
  function TooManyReply(at: string, n: nat, term: string): (r: string)
    ensures StartsWith(r, "Whoa, " + at + " there are " + Decimal(n)) && EndsWith(r, SearchUrl + term)
  {
    Framed("Whoa, " + at + " there are " + Decimal(n), TooManyText, SearchUrl + term);
    ("Whoa, " + at + " there are " + Decimal(n)) + TooManyText + (SearchUrl + term)
  }

  /** The handle part of the reply about a single close match: the sender's handle,
      then the matched serial. */
  function InexactHandle(at: string, serial: string): (h: string)
    ensures StartsWith(h, at) && EndsWith(h, serial)
  {
    Framed(at, " Inexact match: serial=", serial);
    at + " Inexact match: serial=" + serial
  }

  /** The composer's answer for each bike, in order. */
  function ComposeAll(httpsLength: nat, at: string, bikes: seq<Bike>): (rs: seq<Option<string>>)
    ensures |rs| == |bikes|
    ensures forall i :: 0 <= i < |bikes| ==> (rs[i].Some? <==> |bikes[i].frameColors| > 0)
  {
    seq(|bikes|, i requires 0 <= i < |bikes| => BuildBikeReply(httpsLength, at, bikes[i]))
  }

  /** Posting composed replies in order until the first one whose composition
      raised: every post made is the corresponding reply, and handling stops
      exactly at the first failure. */
  function PostUntilFailure(rs: seq<Option<string>>): (s: Sent)
    ensures |s.posts| <= |rs|
    ensures s.crashed <==> |s.posts| < |rs|
    decreases |rs|
  {
    if rs == [] then Sent([], false)
    else match rs[0]
      case None => Sent([], true)
      case Some(r) =>
        var rest := PostUntilFailure(rs[1..]);
        Sent([r] + rest.posts, rest.crashed)
  }

  /** Every post made is the corresponding composed reply, and posting stops exactly
      at the first reply whose composition failed. */
  lemma {:induction false} PostUntilFailureInOrder(rs: seq<Option<string>>)
    ensures var s := PostUntilFailure(rs);
      && (forall i :: 0 <= i < |s.posts| ==> rs[i] == Some(s.posts[i]))
      && (s.crashed ==> rs[|s.posts|].None?)
    decreases |rs|
  {
    if rs != [] && rs[0].Some? {
      PostUntilFailureInOrder(rs[1..]);
    }
  }

  /** Posting stops early exactly when some composed reply failed. */
  lemma {:induction false} PostUntilFailureCrashes(rs: seq<Option<string>>)
    ensures PostUntilFailure(rs).crashed <==> exists i :: 0 <= i < |rs| && rs[i].None?
    decreases |rs|
  {
    if rs != [] && rs[0].Some? {
      var rest := rs[1..];
      PostUntilFailureCrashes(rest);
      if exists i :: 0 <= i < |rs| && rs[i].None? {
        var i :| 0 <= i < |rs| && rs[i].None?;
        assert rest[i - 1].None?;
      }
      if exists j :: 0 <= j < |rest| && rest[j].None? {
        var j :| 0 <= j < |rest| && rest[j].None?;
        assert rs[j + 1].None?;
      }
    }
  }

  /** `bikes.each { post(build_bike_reply(at, bike)) }`. */
  function ReplyEach(httpsLength: nat, at: string, bikes: seq<Bike>): (s: Sent)
    ensures |s.posts| <= |bikes|
    ensures s.crashed <==> exists i :: 0 <= i < |bikes| && |bikes[i].frameColors| == 0
  {
    var rs := ComposeAll(httpsLength, at, bikes);
    PostUntilFailureCrashes(rs);
    PostUntilFailure(rs)
  }

  /** When every bike has a frame colour the loop posts one composed reply per
      bike, in bike order, and finishes. */
  lemma ReplyEachAllColoured(httpsLength: nat, at: string, bikes: seq<Bike>)
    requires forall i :: 0 <= i < |bikes| ==> |bikes[i].frameColors| > 0
    ensures !ReplyEach(httpsLength, at, bikes).crashed
    ensures |ReplyEach(httpsLength, at, bikes).posts| == |bikes|
    ensures forall i :: 0 <= i < |bikes| ==>
      BuildBikeReply(httpsLength, at, bikes[i]) == Some(ReplyEach(httpsLength, at, bikes).posts[i])
  {
    PostUntilFailureInOrder(ComposeAll(httpsLength, at, bikes));
  }

  /** The routing of the source once the search term is known and is not "absent":
      the exact search, then by the number of exact matches (0, 1 to 3, more than 3),
      and with no exact match the close-serials search and its count (0, 1, more).
      The exact search always comes first, both searches are for the term, and at
      most four tweets are posted. */
  function Route(httpsLength: nat, at: string, term: string, exact: seq<Bike>, close: seq<Bike>): (o: Outcome)
    ensures 1 <= |o.lookups| <= 2 && o.lookups[0] == Lookup(ExactSearch, term)
    ensures forall k :: 0 <= k < |o.lookups| ==> o.lookups[k].serial == term
    ensures |o.posts| <= 4
  {
    var searched := [Lookup(ExactSearch, term)];
    if |exact| == 0 then
      var both := searched + [Lookup(CloseSerials, term)];
      if |close| == 0 then Outcome([NotFoundReply(at)], both, false)
      else if |close| == 1 then
        match BuildBikeReply(httpsLength, InexactHandle(at, close[0].serial), close[0])
        case None => Outcome([], both, true)
        case Some(r) => Outcome([r], both, false)
      else Outcome([SimilarSerialsReply(at, term)], both, false)
    else if |exact| <= 3 then
      var notice := if |exact| > 1 then [CountNotice(at, |exact|, term)] else [];
      var each := ReplyEach(httpsLength, at, exact);
      Outcome(notice + each.posts, searched, each.crashed)
    else Outcome([TooManyReply(at, |exact|, term)], searched, false)
  }

  /** Every routing makes the exact search first, makes the close-serials search
      exactly when nothing matched exactly, and posts at most one tweet more than
      there are exact matches, so never more than four. */
  lemma RouteBounded(httpsLength: nat, at: string, term: string, exact: seq<Bike>, close: seq<Bike>)
    ensures var o := Route(httpsLength, at, term, exact, close);
      && o.lookups == (if |exact| == 0 then [Lookup(ExactSearch, term), Lookup(CloseSerials, term)]
                       else [Lookup(ExactSearch, term)])
      && |o.posts| <= 4
      && (|exact| > 0 ==> |o.posts| <= |exact| + 1)
  {
    var o := Route(httpsLength, at, term, exact, close);
    var searched := [Lookup(ExactSearch, term)];
    if |exact| == 0 {
      assert o.lookups == searched + [Lookup(CloseSerials, term)];
    } else if |exact| <= 3 {
      var each := ReplyEach(httpsLength, at, exact);
      assert |each.posts| <= |exact|;
      assert o.lookups == searched;
    } else {
      assert o.lookups == searched;
    }
  }

  /** Nothing matched exactly: one reply, chosen by the number of close serials. No
      close serial gives the "couldn't find" reply, several give the link to the
      similar serials, and a single one is described by the composer under the handle
      "at Inexact match: serial=..." (raising when it has no frame colour). */
  lemma RouteNoExactMatch(httpsLength: nat, at: string, term: string, exact: seq<Bike>, close: seq<Bike>)
    requires |exact| == 0
    ensures var o := Route(httpsLength, at, term, exact, close);
      && (|close| == 0 ==> o.posts == [NotFoundReply(at)] && !o.crashed)
      && (|close| > 1 ==> o.posts == [SimilarSerialsReply(at, term)] && !o.crashed)
      && (|close| == 1 && |close[0].frameColors| > 0 ==>
            o.posts == [BuildBikeReply(httpsLength, InexactHandle(at, close[0].serial), close[0]).value] && !o.crashed)
      && (|close| == 1 && |close[0].frameColors| == 0 ==> o.posts == [] && o.crashed)
  {
  }

  /** More than three exact matches: only the "too many" reply with the count and the
      search link, and no bike is described. */
  lemma RouteTooMany(httpsLength: nat, at: string, term: string, exact: seq<Bike>, close: seq<Bike>)
    requires |exact| > 3
    ensures Route(httpsLength, at, term, exact, close)
         == Outcome([TooManyReply(at, |exact|, term)], [Lookup(ExactSearch, term)], false)
  {
  }

  /** With one to three exact matches that all have a frame colour, the bot posts the
      count notice first when there are several, then one reply per bike in the order
      the search returned them, and finishes. */
  lemma RouteFewMatches(httpsLength: nat, at: string, term: string, exact: seq<Bike>, close: seq<Bike>)
    requires 1 <= |exact| <= 3
    requires forall i :: 0 <= i < |exact| ==> |exact[i].frameColors| > 0
    ensures var o := Route(httpsLength, at, term, exact, close);
      && !o.crashed && o.lookups == [Lookup(ExactSearch, term)]
      && |o.posts| == |exact| + (if |exact| > 1 then 1 else 0)
      && (|exact| > 1 ==> o.posts[0] == CountNotice(at, |exact|, term))
      && forall i :: 0 <= i < |exact| ==>
           BuildBikeReply(httpsLength, at, exact[i]) == Some(o.posts[|o.posts| - |exact| + i])
  {
    ReplyEachAllColoured(httpsLength, at, exact);
  }

  /** Routing ends on an exception exactly when the reply it composes is about a bike
      without a frame colour: the single close match, or one of one to three exact
      matches. */
  lemma RouteCrashes(httpsLength: nat, at: string, term: string, exact: seq<Bike>, close: seq<Bike>)
    ensures Route(httpsLength, at, term, exact, close).crashed <==>
      if |exact| == 0 then |close| == 1 && |close[0].frameColors| == 0
      else |exact| <= 3 && exists i :: 0 <= i < |exact| && |exact[i].frameColors| == 0
  {
    if 0 < |exact| <= 3 {
      var rs := ComposeAll(httpsLength, at, exact);
      PostUntilFailureCrashes(rs);
      assert forall i :: 0 <= i < |exact| ==> (rs[i].None? <==> |exact[i].frameColors| == 0);
    }
  }

  /** The whole per-tweet handler: every search it makes is for the extracted term,
      the bot's own tweets lead to none, and no tweet gets more than four posts. */
  function HandleTweet(httpsLength: nat, me: nat, tweet: Tweet, exact: seq<Bike>, close: seq<Bike>): (o: Outcome)
    ensures forall k :: 0 <= k < |o.lookups| ==>
      Some(o.lookups[k].serial) == Extract(tweet.fullText, tweet.mentions, tweet.hashtags)
    ensures o.lookups != [] ==> tweet.authorId != me
    ensures |o.posts| <= 4
  {
    if tweet.authorId == me then Outcome([], [], false)
    else match Extract(tweet.fullText, tweet.mentions, tweet.hashtags)
      case None => Outcome([], [], true)
      case Some(term) =>
        var at := "@" + tweet.screenName;
        if IsAbsent(term) then Outcome([AbsentReply(at)], [], false)
        else Route(httpsLength, at, term, exact, close)
  }

  /** The bot never answers its own tweets: nothing is searched or posted. */
  lemma OwnTweetIgnored(httpsLength: nat, me: nat, tweet: Tweet, exact: seq<Bike>, close: seq<Bike>)
    requires tweet.authorId == me
    ensures HandleTweet(httpsLength, me, tweet, exact, close) == Outcome([], [], false)
  {
  }

  /** A tweet whose mention or hashtag span runs past the end of its text raises
      before anything is searched or posted. */
  lemma FailedCutCrashes(httpsLength: nat, me: nat, tweet: Tweet, exact: seq<Bike>, close: seq<Bike>)
    requires tweet.authorId != me
    requires Extract(tweet.fullText, tweet.mentions, tweet.hashtags).None?
    ensures HandleTweet(httpsLength, me, tweet, exact, close) == Outcome([], [], true)
  {
  }

  /** "absent", in any letter case, is answered with the one fixed reply and no search. */
  lemma AbsentAnsweredWithoutSearch(httpsLength: nat, me: nat, tweet: Tweet, exact: seq<Bike>, close: seq<Bike>, term: string)
    requires tweet.authorId != me
    requires Extract(tweet.fullText, tweet.mentions, tweet.hashtags) == Some(term)
    requires |term| == 6 && forall i :: 0 <= i < 6 ==> term[i] == "absent"[i] || term[i] == "ABSENT"[i]
    ensures HandleTweet(httpsLength, me, tweet, exact, close) == Outcome([AbsentReply("@" + tweet.screenName)], [], false)
  {
    assert IsAbsent(term) by { AbsentIgnoresCase(term); }
  }

  /** Any other term is searched for exactly as extracted: the exact search first, and
      the close-serials search only when nothing matched exactly. */
  lemma OtherTermSearched(httpsLength: nat, me: nat, tweet: Tweet, exact: seq<Bike>, close: seq<Bike>, term: string)
    requires tweet.authorId != me
    requires Extract(tweet.fullText, tweet.mentions, tweet.hashtags) == Some(term)
    requires !IsAbsent(term)
    ensures var o := HandleTweet(httpsLength, me, tweet, exact, close);
      && o.lookups == (if |exact| == 0 then [Lookup(ExactSearch, term), Lookup(CloseSerials, term)]
                       else [Lookup(ExactSearch, term)])
      && |o.posts| <= 4
  {
    var at := "@" + tweet.screenName;
    assert HandleTweet(httpsLength, me, tweet, exact, close) == Route(httpsLength, at, term, exact, close);
    RouteBounded(httpsLength, at, term, exact, close);
  }

  /** Loop invariant of `PostEach`: `posts` were made for the first `i` replies and
      posting the rest from reply `i` on completes `total`, what posting them all does. */
  ghost predicate PostedSoFar(rs: seq<Option<string>>, i: nat, posts: seq<string>, total: Sent) {
    && i <= |rs| && |posts| == i
    && total.posts == posts + PostUntilFailure(rs[i..]).posts
    && total.crashed == PostUntilFailure(rs[i..]).crashed
  }

  /** Posting from reply `i` on: reply `i` first, then the replies after it. */
  lemma PostFrom(rs: seq<Option<string>>, i: nat)
    requires i < |rs|
    ensures rs[i].None? ==> PostUntilFailure(rs[i..]) == Sent([], true)
    ensures rs[i].Some? ==>
      PostUntilFailure(rs[i..]) == Sent([rs[i].value] + PostUntilFailure(rs[i + 1..]).posts,
                                        PostUntilFailure(rs[i + 1..]).crashed)
  {
    var tail := rs[i..];
    assert tail[0] == rs[i] && tail[1..] == rs[i + 1..];
  }

  /** One turn of the loop: reply `i` is posted, or posting stops with the exception. */
  lemma PostedStep(rs: seq<Option<string>>, i: nat, posts: seq<string>, total: Sent)
    requires PostedSoFar(rs, i, posts, total) && i < |rs|
    ensures rs[i].None? ==> total == Sent(posts, true)
    ensures rs[i].Some? ==> PostedSoFar(rs, i + 1, posts + [rs[i].value], total)
  {
    PostFrom(rs, i);
    var here := PostUntilFailure(rs[i..]);
    if rs[i].Some? {
      var next := PostUntilFailure(rs[i + 1..]);
      assert here.posts == [rs[i].value] + next.posts;
      assert posts + here.posts == (posts + [rs[i].value]) + next.posts;
    } else {
      assert here.posts == [];
      assert posts + here.posts == posts;
    }
  }

  /** The `bikes.each` loop: posts one composed reply per bike, in order, and stops
      on the exception of the first bike without a frame colour. */
  method PostEach(httpsLength: nat, at: string, bikes: seq<Bike>) returns (posts: seq<string>, crashed: bool)
    ensures Sent(posts, crashed) == ReplyEach(httpsLength, at, bikes)
  {
    ghost var rs := ComposeAll(httpsLength, at, bikes);
    ghost var total := PostUntilFailure(rs);
    posts, crashed := [], false;
    var i := 0;
    assert rs[0..] == rs;
    while i < |bikes|
      invariant PostedSoFar(rs, i, posts, total)
    {
      var reply := BuildBikeReply(httpsLength, at, bikes[i]);
      assert reply == rs[i];
      PostedStep(rs, i, posts, total);
      if reply.None? {
        crashed := true;
        return;
      }
      posts := posts + [reply.value];
      i := i + 1;
    }
    assert rs[i..] == [];
  }

  /** The searches and replies once the search term is known and is not "absent". */
  method RouteTerm(httpsLength: nat, at: string, term: string, exact: seq<Bike>, close: seq<Bike>)
    returns (posts: seq<string>, lookups: seq<Lookup>, crashed: bool)
    ensures Outcome(posts, lookups, crashed) == Route(httpsLength, at, term, exact, close)
  {
    posts, crashed := [], false;
    lookups := [Lookup(ExactSearch, term)];
    if |exact| == 0 {
      lookups := lookups + [Lookup(CloseSerials, term)];
      if |close| == 0 {
        posts := [NotFoundReply(at)];
      } else if |close| == 1 {
        var reply := BuildBikeReply(httpsLength, InexactHandle(at, close[0].serial), close[0]);
        if reply.None? {
          crashed := true;
          return;
        }
        posts := [reply.value];
      } else {
        posts := [SimilarSerialsReply(at, term)];
      }
    } else if |exact| <= 3 {
      if |exact| > 1 {
        posts := [CountNotice(at, |exact|, term)];
      }
      var each, stopped := PostEach(httpsLength, at, exact);
      posts, crashed := posts + each, stopped;
    } else {
      posts := [TooManyReply(at, |exact|, term)];
    }
  }

  /** The `userstream` block as the source runs it, step by step. */
  method Respond(httpsLength: nat, me: nat, tweet: Tweet, exact: seq<Bike>, close: seq<Bike>)
    returns (posts: seq<string>, lookups: seq<Lookup>, crashed: bool)
    ensures Outcome(posts, lookups, crashed) == HandleTweet(httpsLength, me, tweet, exact, close)
  {
    posts, lookups, crashed := [], [], false;
    if tweet.authorId == me {
      return;
    }
    var extracted := ExtractSearchTerm(tweet.fullText, tweet.mentions, tweet.hashtags);
    if extracted.None? {
      crashed := true;
      return;
    }
    var term := extracted.value;
    var at := "@" + tweet.screenName;
    if IsAbsent(term) {
      posts := [AbsentReply(at)];
      return;
    }
    posts, lookups, crashed := RouteTerm(httpsLength, at, term, exact, close);
  }
}
