/**
 * The reply composer (`build_bike_reply`): a tweet about one bike record that fits
 * Twitter's 140-character limit, with the bike's URL counted at the length t.co
 * gives every wrapped https link.
 */
module Reply {
  import opened Options
  import opened Text

  /** Twitter's tweet length limit. */
  const TweetLength: int := 140

  /** A bike record as the Bike Index returns it (only the fields the bot reads). */
  datatype Bike = Bike(
    stolen: bool,
    frameColors: seq<string>,
    manufacturer: string,
    model: string,
    url: string,
    serial: string)

  /** The status word of the reply. */
  function StolenMarker(stolen: bool): (m: string)
    ensures stolen <==> m == "STOLEN"
    ensures !stolen <==> m == "NOT stolen"
  {
    if stolen then "STOLEN" else "NOT stolen"
  }

  /** Characters left for the bike description once the handle, the status word,
      the three separating spaces and the wrapped URL are accounted for. */
  function Budget(httpsLength: nat, at: string, stolen: bool): (b: int)
    ensures b + |at| + 3 + |StolenMarker(stolen)| + httpsLength == TweetLength
  {
    TweetLength - httpsLength - |at| - 3 - |StolenMarker(stolen)|
  }

  /** The first frame colour as the reply names it: any silver is "Gray" and a
      sticker-covered frame has no colour worth naming. */
  function NormalizeColor(color: string): (r: string)
    ensures !StartsWith(r, "Silver") && !StartsWith(r, "Stickers")
    ensures r == color || r == "Gray" || r == ""
    ensures StartsWith(color, "Silver") ==> r == "Gray"
    ensures !StartsWith(color, "Silver") && StartsWith(color, "Stickers") ==> r == ""
  {
    if StartsWith(color, "Silver") then "Gray"
    else if StartsWith(color, "Stickers") then ""
    else color
  }

  /** Normalising a normalised colour changes nothing; a colour with neither prefix
      is already normal. */
  lemma NormalizeColorIdempotent(color: string)
    ensures NormalizeColor(NormalizeColor(color)) == NormalizeColor(color)
    ensures !StartsWith(color, "Silver") && !StartsWith(color, "Stickers") ==> NormalizeColor(color) == color
  {
  }

  /** The seven descriptions the composer tries, most informative first. Each one's
      length is exactly the quantity the source compares with the budget. */
  function Candidates(color: string, make: string, model: string): (c: seq<string>)
    ensures |c| == 7
    ensures |c[0]| == |color| + |model| + |make| + 2
    ensures |c[1]| == |color| + |model| + |make| + 2 - |color| - 1
    ensures |c[2]| == |color| + |model| + |make| + 2 - |make| - 1
    ensures |c[3]| == |color| + |model| + |make| + 2 - |model| - 1
    ensures |c[4]| == |model| + 2 && |c[5]| == |make| + 2 && |c[6]| == |color| + 5
  {
    [ color + " " + make + " " + model,
      make + " " + model,
      color + " " + model,
      color + " " + make,
      "a " + model,
      "a " + make,
      color + " bike" ]
  }

  /** The branch of the composer's if/elsif chain that is taken (7: the empty slug).
      Each test is the source's own arithmetic on the three lengths; the contract
      says that this is the first candidate whose real length fits. */
  function SlugBranch(color: string, make: string, model: string, maxChar: int): (k: nat)
    ensures k <= 7
    ensures forall j :: 0 <= j < k ==> |Candidates(color, make, model)[j]| > maxChar
    ensures k < 7 ==> |Candidates(color, make, model)[k]| <= maxChar
  {
    var fullLength := |color| + |model| + |make| + 2;
    if fullLength <= maxChar then 0
    else if fullLength - |color| - 1 <= maxChar then 1
    else if fullLength - |make| - 1 <= maxChar then 2
    else if fullLength - |model| - 1 <= maxChar then 3
    else if |model| + 2 <= maxChar then 4
    else if |make| + 2 <= maxChar then 5
    else if |color| + 5 <= maxChar then 6
    else 7
  }

  /** Reference definition: the index of the first string of `cands` no longer than
      `maxChar`, or `|cands|` when none is. */
  function FirstFit(cands: seq<string>, maxChar: int): (k: nat)
    ensures k <= |cands|
    ensures forall j :: 0 <= j < k ==> |cands[j]| > maxChar
    ensures k < |cands| ==> |cands[k]| <= maxChar
  {
    if |cands| == 0 || |cands[0]| <= maxChar then 0 else 1 + FirstFit(cands[1..], maxChar)
  }

  /** The source's length arithmetic picks exactly the first candidate that fits. */
  lemma SlugBranchIsFirstFit(color: string, make: string, model: string, maxChar: int)
    ensures SlugBranch(color, make, model, maxChar) == FirstFit(Candidates(color, make, model), maxChar)
  {
  }

  /** The chain is ordered: whenever a candidate fits, no later branch is taken;
      in particular the full description always wins when it fits, and when
      "manufacturer model" fits, "a model" and the shorter ones are never used. */
  lemma FallbackOrder(color: string, make: string, model: string, maxChar: int, i: nat)
    requires i < 7 && |Candidates(color, make, model)[i]| <= maxChar
    ensures SlugBranch(color, make, model, maxChar) <= i
    ensures i == 0 ==> SlugBranch(color, make, model, maxChar) == 0
  {
  }

  /** The description put into the reply. */
  function ChosenSlug(color: string, make: string, model: string, maxChar: int): (slug: string)
    ensures slug != "" ==> |slug| <= maxChar
    ensures slug == "" <==> SlugBranch(color, make, model, maxChar) == 7
    ensures slug == "" || slug in Candidates(color, make, model)
    ensures SlugBranch(color, make, model, maxChar) < 7 ==>
      slug == Candidates(color, make, model)[SlugBranch(color, make, model, maxChar)]
  {
    var k := SlugBranch(color, make, model, maxChar);
    if k < 7 then Candidates(color, make, model)[k] else ""
  }

  /** The length Twitter charges for `reply` when its trailing `url` is wrapped by t.co. */
  function ChargedLength(reply: string, url: string, httpsLength: nat): int {
    |reply| - |url| + httpsLength
  }

  /** `build_bike_reply(at, bike)`: `None` when the record has no frame colour (the
      source then fails on `nil.start_with?`). */
  function BuildBikeReply(httpsLength: nat, at: string, bike: Bike): (r: Option<string>)
    ensures r.Some? <==> |bike.frameColors| > 0
  {
    if |bike.frameColors| == 0 then None
    else
      var color := NormalizeColor(bike.frameColors[0]);
      var slug := ChosenSlug(color, bike.manufacturer, bike.model, Budget(httpsLength, at, bike.stolen));
      Some(at + " " + slug + " " + StolenMarker(bike.stolen) + " " + bike.url)
  }

  /** The reply fits the tweet, with the URL charged at its t.co length, exactly
      when the budget is not negative: a negative budget leaves the slug empty and
      the reply over the limit. */
  lemma ReplyFitsTweet(httpsLength: nat, at: string, bike: Bike)
    requires |bike.frameColors| > 0
    ensures ChargedLength(BuildBikeReply(httpsLength, at, bike).value, bike.url, httpsLength) <= TweetLength
        <==> Budget(httpsLength, at, bike.stolen) >= 0
  {
    var budget := Budget(httpsLength, at, bike.stolen);
    var slug := ChosenSlug(NormalizeColor(bike.frameColors[0]), bike.manufacturer, bike.model, budget);
    var marker := StolenMarker(bike.stolen);
    ReplyLayout(httpsLength, at, bike);
    assert |BuildBikeReply(httpsLength, at, bike).value| == |at| + |slug| + |marker| + |bike.url| + 3;
  }

  /** The reply is handle, slug, status word and URL joined by single spaces, the
      slug being the first candidate built from the normalised colour that fits. */
  lemma ReplyLayout(httpsLength: nat, at: string, bike: Bike)
    requires |bike.frameColors| > 0
    ensures BuildBikeReply(httpsLength, at, bike)
         == Some(at + " " + ChosenSlug(NormalizeColor(bike.frameColors[0]), bike.manufacturer, bike.model,
                                       Budget(httpsLength, at, bike.stolen))
                 + " " + StolenMarker(bike.stolen) + " " + bike.url)
  {
  }

  /** With no room for any description the slug is empty and both of its separating
      spaces are still emitted. */
  lemma EmptySlugKeepsBothSpaces(httpsLength: nat, at: string, bike: Bike)
    requires |bike.frameColors| > 0
    requires Budget(httpsLength, at, bike.stolen) < 1
    ensures BuildBikeReply(httpsLength, at, bike)
         == Some(at + "  " + StolenMarker(bike.stolen) + " " + bike.url)
  {
    var color := NormalizeColor(bike.frameColors[0]);
    var slug := ChosenSlug(color, bike.manufacturer, bike.model, Budget(httpsLength, at, bike.stolen));
    assert slug == "";
    assert at + " " + slug + " " == at + "  ";
  }
}
