/**
 * Searching (`search`, the query built in `search_keywords_in_location`,
 * and the stall check inside `scroll`). What the browser shows after a search
 * is given as an `Observation`; the links the results feed holds once it has
 * been scrolled are given as a function of the query.
 */
module Search {
  import opened Wrappers
  import opened Text

  /** What the page shows after the query was submitted. */
  datatype Observation = Observation(
    captchaForms: nat,          // count of captcha form elements
    singleBusinessTitle: bool,  // the business title heading appeared within its wait
    content: string,            // the page markup
    resultsFeed: bool)          // the results feed appeared within its wait

  /** How a search ends. `CaptchaDetected` and `FeedTimeout` are raised as
      exceptions; `SingleBusiness` and `NoResults` make the caller skip the query. */
  datatype SearchOutcome = CaptchaDetected | SingleBusiness | NoResults | ResultsFound | FeedTimeout

  const NoResultsText: string := "Google Maps can't find"

  /** `search`: the checks in the order the code makes them. */
  function Classify(obs: Observation): SearchOutcome {
    if obs.captchaForms > 0 then CaptchaDetected
    else if obs.singleBusinessTitle then SingleBusiness
    else if Contains(obs.content, NoResultsText) then NoResults
    else if obs.resultsFeed then ResultsFound
    else FeedTimeout
  }

  /** The outcomes that leave `search` as an exception and end the whole run. */
  predicate Raises(o: SearchOutcome) {
    o == CaptchaDetected || o == FeedTimeout
  }

  /** The exceptions that end `search_keywords_in_location`. */
  datatype SearchFailure = Captcha | Timeout

  /** One query: the keyword, " in ", and the location's values joined by ", ". */
  function SearchQuery(keyword: string, location: seq<string>): string {
    keyword + " in " + Join(location, ", ")
  }

  /** The links collected over the keywords, in keyword order, stopping at the
      first search that raises. */
  function CollectLinks(keywords: seq<string>, location: seq<string>,
                        observe: string -> Observation, linksOf: string -> seq<string>)
    : Result<seq<string>, SearchFailure>
  {
    if keywords == [] then Ok([])
    else
      var n := |keywords| - 1;
      match CollectLinks(keywords[..n], location, observe, linksOf)
      case Err(e) => Err(e)
      case Ok(links) =>
        var query := SearchQuery(keywords[n], location);
        match Classify(observe(query))
        case CaptchaDetected => Err(Captcha)
        case FeedTimeout => Err(Timeout)
        case ResultsFound => Ok(links + linksOf(query))
        case _ => Ok(links)
  }

  /** `search_keywords_in_location`, with one location string used for every
      keyword (see `AsWrittenQueries` for the code as written). */
  method SearchKeywordsInLocation(keywords: seq<string>, location: seq<string>,
                                  observe: string -> Observation, linksOf: string -> seq<string>)
    returns (r: Result<seq<string>, SearchFailure>)
    ensures r == CollectLinks(keywords, location, observe, linksOf)
  {
    var links: seq<string> := [];
    var place := Join(location, ", ");
    for i := 0 to |keywords|
      invariant CollectLinks(keywords[..i], location, observe, linksOf) == Ok(links)
    {
      assert keywords[..i + 1][..i] == keywords[..i];
      var query := keywords[i] + " in " + place;
      var outcome := Classify(observe(query));
      if outcome == CaptchaDetected {
        CollectLinksStops(keywords, location, observe, linksOf, i + 1);
        return Err(Captcha);
      } else if outcome == FeedTimeout {
        CollectLinksStops(keywords, location, observe, linksOf, i + 1);
        return Err(Timeout);
      } else if outcome != ResultsFound {
        continue;
      }
      links := links + linksOf(query);
    }
    assert keywords[..|keywords|] == keywords;
    r := Ok(links);
  }

  // ---------------------------------------------------------------------
  // Lemmas

  /** The checks run in a fixed order: a captcha decides before anything else,
      then the single-business title, then the no-results text, then the feed. */
  lemma ClassifyOrder(obs: Observation)
    ensures Classify(obs) == CaptchaDetected <==> obs.captchaForms > 0
    ensures Classify(obs) == SingleBusiness <==> obs.captchaForms == 0 && obs.singleBusinessTitle
    ensures Classify(obs) == NoResults <==>
      obs.captchaForms == 0 && !obs.singleBusinessTitle && Contains(obs.content, NoResultsText)
    ensures Classify(obs) == ResultsFound <==>
      obs.captchaForms == 0 && !obs.singleBusinessTitle && !Contains(obs.content, NoResultsText)
      && obs.resultsFeed
  {
  }

  /** Once a check has decided, the observations the later checks would look
      at do not matter: a captcha hides the rest of the page, the title hides
      the content and the feed, and the no-results text hides the feed. */
  lemma ClassifyIgnoresLaterChecks(a: Observation, b: Observation)
    ensures a.captchaForms > 0 && b.captchaForms > 0 ==> Classify(a) == Classify(b)
    ensures a.captchaForms == 0 && b.captchaForms == 0 && a.singleBusinessTitle && b.singleBusinessTitle
      ==> Classify(a) == Classify(b)
    ensures a.captchaForms == 0 && b.captchaForms == 0
      && !a.singleBusinessTitle && !b.singleBusinessTitle
      && Contains(a.content, NoResultsText) && Contains(b.content, NoResultsText)
      ==> Classify(a) == Classify(b)
  {
  }

  /** A query for one keyword and one location. */
  lemma SearchQueryExample()
    ensures SearchQuery("coffee shop", ["Austin", "TX", "USA"]) == "coffee shop in Austin, TX, USA"
  {
  }

  /** The query starts with the keyword and " in "; when no location value
      contains a comma, splitting the rest on ", " gives back the values in
      their field order. */
  lemma SearchQueryLocation(keyword: string, location: seq<string>)
    requires forall i :: 0 <= i < |location| ==> ',' !in location[i]
    ensures var q := SearchQuery(keyword, location);
      && |keyword| + 4 <= |q|
      && q[..|keyword| + 4] == keyword + " in "
      && (location == [] ==> q == keyword + " in ")
      && (location != [] ==> SplitOn(q[|keyword| + 4..], ", ") == location)
  {
    var q := SearchQuery(keyword, location);
    assert q[|keyword| + 4..] == Join(location, ", ");
    if location != [] {
      SplitJoin(location, ", ");
    }
  }

  lemma {:induction false} CollectLinksStops(keywords: seq<string>, location: seq<string>,
      observe: string -> Observation, linksOf: string -> seq<string>, i: nat)
    requires 0 < i <= |keywords| && CollectLinks(keywords[..i], location, observe, linksOf).Err?
    ensures CollectLinks(keywords, location, observe, linksOf)
         == CollectLinks(keywords[..i], location, observe, linksOf)
    decreases |keywords| - i
  {
    if i < |keywords| {
      assert keywords[..i + 1][..i] == keywords[..i];
      CollectLinksStops(keywords, location, observe, linksOf, i + 1);
    } else {
      assert keywords[..i] == keywords;
    }
  }

  /** The collection fails exactly when some keyword's search raises, and then
      with the failure of the first such search. */
  lemma {:induction false} CollectLinksFailure(keywords: seq<string>, location: seq<string>,
      observe: string -> Observation, linksOf: string -> seq<string>)
    ensures var r := CollectLinks(keywords, location, observe, linksOf);
      r.Err? <==> exists i :: 0 <= i < |keywords| && Raises(Classify(observe(SearchQuery(keywords[i], location))))
    ensures var r := CollectLinks(keywords, location, observe, linksOf);
      r.Err? ==>
        exists i ::
          && 0 <= i < |keywords|
          && Raises(Classify(observe(SearchQuery(keywords[i], location))))
          && (forall j :: 0 <= j < i ==> !Raises(Classify(observe(SearchQuery(keywords[j], location)))))
          && r.error == (if Classify(observe(SearchQuery(keywords[i], location))) == CaptchaDetected
                         then Captcha else Timeout)
  {
    if keywords != [] {
      var n := |keywords| - 1;
      var front := keywords[..n];
      CollectLinksFailure(front, location, observe, linksOf);
      forall j | 0 <= j < n ensures front[j] == keywords[j] { }
    }
  }

  /** On success, a link is collected exactly when some search that found
      results has it among its links. Order and repetition are stated by
      `CollectLinksAppend` and `CollectLinksSingle`. */
  lemma {:induction false} CollectLinksSuccess(keywords: seq<string>, location: seq<string>,
      observe: string -> Observation, linksOf: string -> seq<string>, link: string)
    requires CollectLinks(keywords, location, observe, linksOf).Ok?
    ensures link in CollectLinks(keywords, location, observe, linksOf).value <==>
      exists i :: 0 <= i < |keywords|
        && Classify(observe(SearchQuery(keywords[i], location))) == ResultsFound
        && link in linksOf(SearchQuery(keywords[i], location))
  {
    if keywords != [] {
      var n := |keywords| - 1;
      var front := keywords[..n];
      CollectLinksSuccess(front, location, observe, linksOf, link);
      forall j | 0 <= j < n ensures front[j] == keywords[j] { }
    }
  }

  /** One keyword: its feed's links, in feed order, when results were found;
      nothing for a skipped search; otherwise the exception it raised. */
  lemma CollectLinksSingle(keyword: string, location: seq<string>,
      observe: string -> Observation, linksOf: string -> seq<string>)
    ensures var query := SearchQuery(keyword, location);
      CollectLinks([keyword], location, observe, linksOf) ==
        match Classify(observe(query))
        case CaptchaDetected => Err(Captcha)
        case FeedTimeout => Err(Timeout)
        case ResultsFound => Ok(linksOf(query))
        case _ => Ok([])
  {
    var query := SearchQuery(keyword, location);
    assert [keyword][..0] == [];
    assert CollectLinks([], location, observe, linksOf) == Ok([]);
    assert [] + linksOf(query) == linksOf(query);
  }

  /** Keywords searched one after the other: on success the links of the first
      group come first, followed by those of the second, every link kept even
      when both groups found it (`extend` never drops one); otherwise the
      first exception raised. */
  lemma {:induction false} CollectLinksAppend(a: seq<string>, b: seq<string>, location: seq<string>,
      observe: string -> Observation, linksOf: string -> seq<string>)
    ensures CollectLinks(a + b, location, observe, linksOf) ==
      match CollectLinks(a, location, observe, linksOf)
      case Err(e) => Err(e)
      case Ok(x) =>
        match CollectLinks(b, location, observe, linksOf)
        case Err(e) => Err(e)
        case Ok(y) => Ok(x + y)
    decreases |b|
  {
    if b == [] {
      assert a + b == a;
      if CollectLinks(a, location, observe, linksOf).Ok? {
        var x := CollectLinks(a, location, observe, linksOf).value;
        assert x + [] == x;
      }
    } else {
      var n := |b| - 1;
      CollectLinksAppend(a, b[..n], location, observe, linksOf);
      assert (a + b)[..|a + b| - 1] == a + b[..n];
      assert (a + b)[|a + b| - 1] == b[n];
      var rx := CollectLinks(a, location, observe, linksOf);
      var ry := CollectLinks(b[..n], location, observe, linksOf);
      if rx.Ok? && ry.Ok? {
        var x, y := rx.value, ry.value;
        var query := SearchQuery(b[n], location);
        assert x + (y + linksOf(query)) == (x + y) + linksOf(query);
      }
    }
  }

  // ---------------------------------------------------------------------
  // The loop as written rebinds `location` to the joined string on its first
  // pass, so on the second pass `location.values()` raises AttributeError.

  /** The value bound to `location`: the location's mapping, or a string once rebound. */
  datatype LocationValue = LocationMapping(values: seq<string>) | LocationString(text: string)

  datatype AttributeError = NoValuesOnString

  /** The queries the code as written reaches, keyword by keyword. */
  function AsWrittenQueries(keywords: seq<string>, location: LocationValue)
    : Result<seq<string>, AttributeError>
  {
    if keywords == [] then Ok([])
    else match location
      case LocationString(_) => Err(NoValuesOnString)
      case LocationMapping(values) =>
        var place := Join(values, ", ");
        match AsWrittenQueries(keywords[1..], LocationString(place))
        case Err(e) => Err(e)
        case Ok(rest) => Ok([keywords[0] + " in " + place] + rest)
  }

  /** With two or more keywords the code as written fails before the second search. */
  lemma AsWrittenSecondKeywordFails(keywords: seq<string>, values: seq<string>)
    requires |keywords| >= 2
    ensures AsWrittenQueries(keywords, LocationMapping(values)) == Err(NoValuesOnString)
  {
  }

  /** The intended queries: one per keyword, every one with the same location. */
  function Queries(keywords: seq<string>, location: seq<string>): (qs: seq<string>)
    ensures |qs| == |keywords|
    ensures forall i :: 0 <= i < |keywords| ==> qs[i] == SearchQuery(keywords[i], location)
  {
    if keywords == [] then [] else [SearchQuery(keywords[0], location)] + Queries(keywords[1..], location)
  }

  /** The code as written agrees with the intended queries on a single keyword. */
  lemma AsWrittenAgreesOnOneKeyword(keyword: string, values: seq<string>)
    ensures AsWrittenQueries([keyword], LocationMapping(values)) == Ok(Queries([keyword], values))
  {
  }

  // ---------------------------------------------------------------------
  // The stall check of the scroll loop

  /** The part of `scroll` that notices a feed that stopped growing. Times are
      whole milliseconds. */
  class StallMonitor {
    const CheckIntervalMs: int := 3000
    var previousBusinesses: nat
    var lastCheckTime: int

    constructor (count: nat, now: int)
      ensures previousBusinesses == count && lastCheckTime == now
    {
      previousBusinesses := count;
      lastCheckTime := now;
    }

    /** One pass of the check at time `now`, where `count` is the number of
        result links rendered. Returns whether the recovery click fires. */
    method Check(now: int, count: nat) returns (recover: bool)
      modifies this
      ensures recover <==> now - old(lastCheckTime) >= CheckIntervalMs && count == old(previousBusinesses)
      ensures now - old(lastCheckTime) >= CheckIntervalMs ==>
        previousBusinesses == count && lastCheckTime == now
      ensures now - old(lastCheckTime) < CheckIntervalMs ==>
        previousBusinesses == old(previousBusinesses) && lastCheckTime == old(lastCheckTime)
    {
      recover := false;
      if now - lastCheckTime >= CheckIntervalMs {
        if count == previousBusinesses {
          recover := true;
        }
        previousBusinesses := count;
        lastCheckTime := now;
      }
    }
  }
}
