/** The candidate selector (`get_top_rated_image`): the filters each listing
    entry must pass, the running best score, and the entry picked. */
module Selector {
  import opened Wrappers
  import opened Text
  import opened Listing
  import opened Resolution
  import opened Config
  import opened Urls

  /** `PICTURE_EXTENSIONS`, in the order the program lists them. */
  const PictureExtensions: seq<string> := [".jpg", ".png", ".bmp", ".jpeg", ".gif"]

  /** `string.lower(url).endswith(PICTURE_EXTENSIONS)`. */
  predicate HasPictureExtension(url: string)
  {
    exists k :: 0 <= k < |PictureExtensions| && EndsWith(Lower(url), PictureExtensions[k])
  }

  /** The extension is matched without regard to case:
      `http://x/img.JPG` is an `http` URL to a picture. */
  lemma UpperCaseExtensionQualifies()
    ensures IsHttp("http://x/img.JPG") && HasPictureExtension("http://x/img.JPG")
  {
    HttpSchemeMeans("http://x/img.JPG");
    var low := Lower("http://x/img.JPG");
    assert low[|low| - 4..] == ".jpg";
    assert EndsWith(low, PictureExtensions[0]);
  }

  /** The scheme must be exactly `http`: `https://x/a.jpg` is not one. */
  lemma HttpsDoesNotQualify()
    ensures !IsHttp("https://x/a.jpg")
  {
    var url := "https://x/a.jpg";
    assert IndexFrom(url, ':', 0) == 5;
    assert url[..5] == "https";
    assert forall m :: 0 <= m < 5 ==> IsSchemeChar(url[m]);
    assert !AllDigits(url[6..]) by { assert url[6] == '/'; }
    assert Lower(url[..5]) == "https";
  }

  /** Only the five extensions count: `http://x/a.webp` is not a picture. */
  lemma WebpDoesNotQualify()
    ensures !HasPictureExtension("http://x/a.webp")
  {
    var low := Lower("http://x/a.webp");
    assert low[|low| - 1] == 'p' && low[|low| - 4] == 'w';
    forall k | 0 <= k < |PictureExtensions|
      ensures !EndsWith(low, PictureExtensions[k])
    {
      var ext := PictureExtensions[k];
      if k == 2 {
        assert low[|low| - 4..][0] != ext[0];
      } else {
        assert low[|low| - |ext|..][|ext| - 1] != ext[|ext| - 1];
      }
    }
  }

  // ---------------------------------------------------------------------
  // The filters.

  /** Why an entry is passed over, one reason per `continue` of the loop. */
  datatype SkipReason =
    | SelfPost
    | NotHttp
    | NoPictureExtension
    | LowVoteRatio
    | LowScore
    | NoResolutionTag
    | TooNarrow
    | TooShort

  /** At least three up-votes per down-vote. */
  predicate VoteRatioOk(e: Entry) { e.ups >= e.downs * 3 }

  /** The title's resolution tag meets both minimums. */
  predicate ResolutionOk(e: Entry, s: Settings)
  {
    FindTag(e.title).Some? && FindTag(e.title).value.width >= s.minResX
    && FindTag(e.title).value.height >= s.minResY
  }

  /** Every filter but the score: a link post, over `http`, to a picture,
      well enough voted and tagged with a large enough resolution when the
      settings ask for it. */
  predicate PassesFilters(e: Entry, s: Settings)
  {
    && !e.isSelf && IsHttp(e.url) && HasPictureExtension(e.url)
    && (s.qualityEnforced ==> VoteRatioOk(e))
    && (s.resolutionEnforced ==> ResolutionOk(e, s))
  }

  /** The first filter, in the loop's order, that `e` fails when the best
      score so far is `maxScore`. `NotHttp` stands for a URL that parses to
      another scheme: a URL that `urlparse` rejects stops the selection
      before any filter is applied (`FirstRaising`). */
  function Skip(e: Entry, s: Settings, maxScore: int): (r: Option<SkipReason>)
    ensures r.None? <==> PassesFilters(e, s) && e.score >= maxScore
    ensures r == Some(LowScore) <==>
              && !e.isSelf && IsHttp(e.url) && HasPictureExtension(e.url)
              && (s.qualityEnforced ==> VoteRatioOk(e)) && e.score < maxScore
    ensures r == Some(LowVoteRatio) ==> s.qualityEnforced && !VoteRatioOk(e)
    ensures r.Some? && r.value in {NoResolutionTag, TooNarrow, TooShort} ==>
              s.resolutionEnforced && !ResolutionOk(e, s) && e.score >= maxScore
  {
    if e.isSelf then Some(SelfPost)
    else if !IsHttp(e.url) then Some(NotHttp)
    else if !HasPictureExtension(e.url) then Some(NoPictureExtension)
    else if s.qualityEnforced && e.ups < e.downs * 3 then Some(LowVoteRatio)
    else if e.score < maxScore then Some(LowScore)
    else if s.resolutionEnforced then
      match FindTag(e.title)
      case None => Some(NoResolutionTag)
      case Some(res) =>
        if res.width < s.minResX then Some(TooNarrow)
        else if res.height < s.minResY then Some(TooShort)
        else None
    else None
  }

  /** With quality enforced, nine up-votes against three down-votes are
      enough and eight are not. */
  lemma VoteRatioBoundary(e: Entry, s: Settings)
    requires s.qualityEnforced && e.downs == 3
    requires !e.isSelf && IsHttp(e.url) && HasPictureExtension(e.url)
    ensures e.ups == 9 ==> Skip(e, s, e.score) != Some(LowVoteRatio)
    ensures e.ups == 8 ==> Skip(e, s, e.score) == Some(LowVoteRatio)
  {
  }

  // ---------------------------------------------------------------------
  // The scan.

  /** An entry the loop can pick: it passes the filters and its score is not
      below the initial best score, 0. */
  predicate Eligible(e: Entry, s: Settings) { PassesFilters(e, s) && e.score >= 0 }

  /** The loop's state: `max_score` and the entry whose title and URL are
      held (`None` while they are still empty). */
  datatype Pick = Pick(maxScore: int, index: Option<nat>)

  /** One iteration: the entry at `i` replaces the pick when it passes every
      filter against the current best score. */
  function Step(p: Pick, e: Entry, i: nat, s: Settings): Pick
  {
    if Skip(e, s, p.maxScore).None? then Pick(e.score, Some(i)) else p
  }

  /** The state after the loop has seen `entries`. */
  function Scan(entries: seq<Entry>, s: Settings): (p: Pick)
    ensures p.index.Some? ==> p.index.value < |entries|
  {
    if entries == [] then Pick(0, None)
    else Step(Scan(entries[..|entries| - 1], s), entries[|entries| - 1], |entries| - 1, s)
  }

  /** The pick is sound: `max_score` is never negative; nothing is picked
      exactly when no entry is eligible, and `max_score` then stays 0;
      otherwise the entry picked is eligible and `max_score` is its score. */
  ghost predicate PickIsSound(entries: seq<Entry>, s: Settings, p: Pick)
  {
    && p.maxScore >= 0
    && (p.index.None? <==> forall j :: 0 <= j < |entries| ==> !Eligible(entries[j], s))
    && (p.index.None? ==> p.maxScore == 0)
    && (p.index.Some? ==>
          p.index.value < |entries| && Eligible(entries[p.index.value], s)
          && p.maxScore == entries[p.index.value].score)
  }

  /** No eligible entry scores above `max_score`. */
  ghost predicate PickIsBest(entries: seq<Entry>, s: Settings, p: Pick)
  {
    forall j :: 0 <= j < |entries| && Eligible(entries[j], s) ==> entries[j].score <= p.maxScore
  }

  /** Every eligible entry after the pick scores strictly less, so of the
      entries with the best score the last one is held. */
  ghost predicate PickIsLast(entries: seq<Entry>, s: Settings, p: Pick)
  {
    p.index.Some? ==>
      forall j :: p.index.value < j < |entries| && Eligible(entries[j], s) ==> entries[j].score < p.maxScore
  }

  /** One iteration either takes the entry, which then passes the filters
      and scores at least the best so far, or keeps the pick, and the entry
      is then not eligible or scores below the best so far. */
  lemma StepCases(p: Pick, e: Entry, i: nat, s: Settings)
    requires p.maxScore >= 0
    ensures Eligible(e, s) && e.score >= p.maxScore ==> Step(p, e, i, s) == Pick(e.score, Some(i))
    ensures !(Eligible(e, s) && e.score >= p.maxScore) ==> Step(p, e, i, s) == p
  {
  }

  lemma StepKeepsSound(init: seq<Entry>, e: Entry, s: Settings)
    requires PickIsSound(init, s, Scan(init, s))
    ensures PickIsSound(init + [e], s, Step(Scan(init, s), e, |init|, s))
  {
    var entries := init + [e];
    StepCases(Scan(init, s), e, |init|, s);
    assert forall j :: 0 <= j < |init| ==> entries[j] == init[j];
    assert entries[|init|] == e;
  }

  lemma StepKeepsBest(init: seq<Entry>, e: Entry, s: Settings)
    requires PickIsSound(init, s, Scan(init, s)) && PickIsBest(init, s, Scan(init, s))
    ensures PickIsBest(init + [e], s, Step(Scan(init, s), e, |init|, s))
  {
    var entries := init + [e];
    StepCases(Scan(init, s), e, |init|, s);
    assert forall j :: 0 <= j < |init| ==> entries[j] == init[j];
    assert entries[|init|] == e;
  }

  lemma StepKeepsLast(init: seq<Entry>, e: Entry, s: Settings)
    requires PickIsSound(init, s, Scan(init, s)) && PickIsLast(init, s, Scan(init, s))
    ensures PickIsLast(init + [e], s, Step(Scan(init, s), e, |init|, s))
  {
    var entries := init + [e];
    StepCases(Scan(init, s), e, |init|, s);
    assert forall j :: 0 <= j < |init| ==> entries[j] == init[j];
    assert entries[|init|] == e;
  }

  /** What the loop picks: nothing exactly when no entry is eligible, and
      otherwise the last eligible entry with the best score. */
  lemma {:induction false} ScanPicksLastBest(entries: seq<Entry>, s: Settings)
    ensures PickIsSound(entries, s, Scan(entries, s))
    ensures PickIsBest(entries, s, Scan(entries, s))
    ensures PickIsLast(entries, s, Scan(entries, s))
  {
    if entries != [] {
      var n := |entries| - 1;
      ScanPicksLastBest(entries[..n], s);
      StepKeepsSound(entries[..n], entries[n], s);
      StepKeepsBest(entries[..n], entries[n], s);
      StepKeepsLast(entries[..n], entries[n], s);
      assert entries[..n] + [entries[n]] == entries;
    }
  }

  /** `max_score` never goes down as the loop advances. */
  lemma {:induction false} MaxScoreNeverDecreases(entries: seq<Entry>, s: Settings, i: nat)
    requires i <= |entries|
    ensures Scan(entries[..i], s).maxScore <= Scan(entries, s).maxScore
    decreases |entries| - i
  {
    if i < |entries| {
      MaxScoreNeverDecreases(entries, s, i + 1);
      assert entries[..i + 1][..i] == entries[..i];
    } else {
      assert entries[..i] == entries;
    }
  }

  /** An eligible entry that ties the best score so far replaces the pick. */
  lemma LaterTieWins(entries: seq<Entry>, e: Entry, s: Settings)
    requires Eligible(e, s) && e.score == Scan(entries, s).maxScore
    ensures Scan(entries + [e], s).index == Some(|entries|)
  {
    assert (entries + [e])[..|entries|] == entries;
  }

  /** No entry with a negative score is ever picked. */
  lemma NegativeScoreNeverPicked(entries: seq<Entry>, s: Settings)
    ensures Scan(entries, s).index.Some? ==> entries[Scan(entries, s).index.value].score >= 0
  {
    ScanPicksLastBest(entries, s);
  }

  // ---------------------------------------------------------------------
  // The URL parse that raises.

  /** The loop parses the URL of every entry that is not a self post, before
      any other filter, and `urlparse` raises ValueError on a host with an
      unbalanced `[` or `]`: the whole selection then fails. */
  predicate UrlRaises(e: Entry) { !e.isSelf && UrlParse(e.url).None? }

  /** The first entry whose URL makes `urlparse` raise, found as the loop
      finds it, one entry after the other. */
  function FirstRaising(entries: seq<Entry>): (r: Option<nat>)
    ensures r.Some? ==> r.value < |entries|
  {
    if entries == [] then None
    else match FirstRaising(entries[..|entries| - 1])
      case Some(k) => Some(k)
      case None => if UrlRaises(entries[|entries| - 1]) then Some(|entries| - 1) else None
  }

  /** Nothing raises exactly when no entry's URL does; otherwise the entry
      found raises and none before it does. */
  lemma {:induction false} FirstRaisingIsFirst(entries: seq<Entry>)
    ensures FirstRaising(entries).None? <==> forall j :: 0 <= j < |entries| ==> !UrlRaises(entries[j])
    ensures FirstRaising(entries).Some? ==>
              UrlRaises(entries[FirstRaising(entries).value])
              && forall j :: 0 <= j < FirstRaising(entries).value ==> !UrlRaises(entries[j])
  {
    if entries != [] {
      var n := |entries| - 1;
      FirstRaisingIsFirst(entries[..n]);
      assert forall j :: 0 <= j < n ==> entries[..n][j] == entries[j];
    }
  }

  /** Once an entry raised, the entries after it change nothing. */
  lemma {:induction false} FirstRaisingOfPrefix(entries: seq<Entry>, k: nat)
    requires k <= |entries| && FirstRaising(entries[..k]).Some?
    ensures FirstRaising(entries) == FirstRaising(entries[..k])
    decreases |entries| - k
  {
    if k < |entries| {
      assert entries[..k + 1][..k] == entries[..k];
      FirstRaisingOfPrefix(entries, k + 1);
    } else {
      assert entries[..k] == entries;
    }
  }

  /** One more entry seen: the scan takes one step, and the entry raises
      unless an earlier one did. */
  lemma ScanOneMore(entries: seq<Entry>, i: nat, s: Settings)
    requires i < |entries|
    ensures Scan(entries[..i + 1], s) == Step(Scan(entries[..i], s), entries[i], i, s)
    ensures FirstRaising(entries[..i]).None? ==>
              FirstRaising(entries[..i + 1]) == if UrlRaises(entries[i]) then Some(i) else None
  {
    assert entries[..i + 1][..i] == entries[..i];
  }

  /** An entry whose URL cannot be parsed fails the selection even when an
      eligible entry came before it: `http://[x/page` after any listing. */
  lemma UnparsableUrlAfterPick(entries: seq<Entry>, e: Entry)
    requires !e.isSelf && e.url == "http://[x/page"
    ensures FirstRaising(entries + [e]).Some?
  {
    UnclosedBracketRaises();
    FirstRaisingIsFirst(entries + [e]);
    assert (entries + [e])[|entries|] == e;
  }

  /** The title and URL of the pick, or two empty strings. */
  function Picked(entries: seq<Entry>, s: Settings): (string, string)
  {
    match Scan(entries, s).index
    case Some(k) => (entries[k].title, entries[k].url)
    case None => ("", "")
  }

  /** Whatever is picked passes every filter the loop applies and has a
      score of at least 0. */
  lemma PickPassesFilters(entries: seq<Entry>, s: Settings)
    ensures Scan(entries, s).index.Some? ==>
              var e := entries[Scan(entries, s).index.value];
              && !e.isSelf && IsHttp(e.url) && HasPictureExtension(e.url)
              && (s.qualityEnforced ==> e.ups >= e.downs * 3)
              && (s.resolutionEnforced ==> FindTag(e.title).Some? && FindTag(e.title).value.width >= s.minResX
                                           && FindTag(e.title).value.height >= s.minResY)
              && e.score >= 0
  {
    ScanPicksLastBest(entries, s);
  }

  /** `get_top_rated_image`: the loop over the entries with the program's
      `continue`s; returns the title and URL of the pick, or two empty
      strings, or fails with the index of the first entry whose URL
      `urlparse` rejects. */
  method GetTopRatedImage(entries: seq<Entry>, s: Settings) returns (r: Result<(string, string), nat>)
    ensures r.Failure? ==> FirstRaising(entries) == Some(r.error)
    ensures r.Success? ==> FirstRaising(entries).None? && r.value == Picked(entries, s)
  {
    var maxScore := 0;
    var url, title := "", "";
    ghost var picked: Option<nat> := None;
    for i := 0 to |entries|
      invariant Scan(entries[..i], s) == Pick(maxScore, picked)
      invariant picked.Some? ==> picked.value < i && title == entries[picked.value].title
                                 && url == entries[picked.value].url
      invariant picked.None? ==> title == "" && url == ""
      invariant FirstRaising(entries[..i]).None?
    {
      var e := entries[i];
      ScanOneMore(entries, i, s);
      if e.isSelf {
        continue;
      }
      var parsed := UrlParse(e.url);
      if parsed.None? {
        FirstRaisingOfPrefix(entries, i + 1);
        return Failure(i);
      }
      if parsed.value.scheme != "http" {
        continue;
      }
      if !HasPictureExtension(e.url) {
        continue;
      }
      if s.qualityEnforced {
        if e.ups < e.downs * 3 {
          continue;
        }
      }
      if e.score < maxScore {
        continue;
      }
      if s.resolutionEnforced {
        var tag := FindTag(e.title);
        if tag.None? {
          continue;
        }
        if tag.value.width < s.minResX {
          continue;
        }
        if tag.value.height < s.minResY {
          continue;
        }
      }
      maxScore := e.score;
      url := e.url;
      title := e.title;
      picked := Some(i);
    }
    assert entries[..|entries|] == entries;
    return Success((title, url));
  }

  /** The URL returned is empty exactly when nothing was picked: a picked
      URL starts with `http:`. */
  lemma EmptyUrlMeansNoPick(entries: seq<Entry>, s: Settings)
    ensures Scan(entries, s).index.None? <==> Picked(entries, s).1 == ""
  {
    ScanPicksLastBest(entries, s);
    if Scan(entries, s).index.Some? {
      HttpSchemeMeans(entries[Scan(entries, s).index.value].url);
    }
  }
}
