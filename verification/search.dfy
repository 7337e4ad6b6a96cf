/** `main` of src/search.py: read the input, fetch the search page, extract
    the result URLs and attach each repository's extra information. The
    command line, the JSON files and the page transport are parameters:
    whether the input file exists, the decoded input, the text each fetch
    returns, the HTML parser, and the extra-information lookup (the unit
    the test suite replaces by a stub). */
module Search {
  import opened Wrappers
  import opened Errors
  import opened OrderedMaps
  import opened Query
  import opened HtmlTree
  import opened Extractors
  import Strings

  /** The decoded input file: a key missing from the JSON object is `None`. */
  datatype InputData = InputData(keywords: Option<seq<string>>, proxies: Option<seq<string>>, searchType: Option<string>)

  /** `RequestParams(keywords=input_data["keywords"], proxies=…, type=…)`:
      the subscripts run left to right, so the first missing key is the one
      reported. */
  function ParamsOf(input: InputData): (r: Result<RequestParams, Error>)
    ensures r.Success? <==> input.keywords.Some? && input.proxies.Some? && input.searchType.Some?
    ensures input.keywords.None? ==> r == Failure(KeyError("keywords"))
    ensures input.keywords.Some? && input.proxies.None? ==> r == Failure(KeyError("proxies"))
    ensures input.keywords.Some? && input.proxies.Some? && input.searchType.None? ==> r == Failure(KeyError("type"))
  {
    if input.keywords.None? then Failure(KeyError("keywords"))
    else if input.proxies.None? then Failure(KeyError("proxies"))
    else if input.searchType.None? then Failure(KeyError("type"))
    else Success(RequestParams(input.keywords.value, input.proxies.value, input.searchType.value))
  }

  /** The input always names the type, so the dataclass default never
      applies: the parameters are those of the constructor given all three. */
  lemma ParamsOfIsConstructor(input: InputData)
    requires ParamsOf(input).Success?
    ensures ParamsOf(input).value
      == NewRequestParams(input.keywords.value, input.proxies.value, Some(input.searchType.value))
  {
  }

  // ---------------------------------------------------------------------
  // Output records

  /** The JSON values the output holds. */
  datatype Json = JStr(s: string) | JObj(fields: OrderedMap<string, Json>)

  /** Python truthiness: an empty string or dict is false. */
  predicate Truthy(j: Json) {
    match j
    case JStr(s) => |s| > 0
    case JObj(fields) => |fields| > 0
  }

  /** `if extra_info:` — `None` and falsy values are not attached. */
  function Kept(info: Option<Json>): (r: Option<Json>)
    ensures r.Some? <==> info.Some? && Truthy(info.value)
    ensures r.Some? ==> r == info
  {
    if info.Some? && Truthy(info.value) then info else None
  }

  /** The language statistics as a JSON object, order kept. */
  function StatsJson(stats: OrderedMap<string, string>): (j: OrderedMap<string, Json>)
    ensures Keys(j) == Keys(stats)
    ensures forall i :: 0 <= i < |stats| ==> j[i].1 == JStr(stats[i].1)
  {
    if |stats| == 0 then [] else [(stats[0].0, JStr(stats[0].1))] + StatsJson(stats[1..])
  }

  /** The dict `extract_extra_info` returns. */
  function ExtraJson(e: Extra): (j: Json)
    ensures j.JObj? && Keys(j.fields) == ["owner", "language_stats"]
    ensures Get(j.fields, "owner") == Some(JStr(e.owner))
  {
    JObj([("owner", JStr(e.owner)), ("language_stats", JObj(StatsJson(e.languageStats)))])
  }

  /** One element of the output list: `{"url": …}` with `"extra"` when a
      truthy extra was found. */
  datatype Record = Record(url: string, extra: Option<Json>)

  /** The page requests `main` makes, in order. */
  datatype Call =
    | SearchPageCall(url: string, proxies: seq<string>, params: OrderedMap<string, string>)
    | ExtraInfoCall(url: string, proxies: seq<string>)

  /** The requests made and the list written out, or the exception raised. */
  datatype Run = Run(calls: seq<Call>, outcome: Result<seq<Record>, Error>)

  /** `f"{github.base_url}/search"`. */
  const SearchUrl := BaseUrl + "/search"

  // ---------------------------------------------------------------------
  // The loop over the URLs

  /** `for url in urls: extra_info = github.extract_extra_info(…)`: one
      lookup per URL in order, stopping at the first that raises.
      `AttachExtrasSucceeds`, `AttachExtrasRecords` and
      `AttachExtrasStopsAtFailure` state what the loop yields. */
  function AttachExtras(urls: seq<string>, proxies: seq<string>, extraInfo: (string, seq<string>) -> Result<Option<Json>, Error>): (run: Run)
    ensures |run.calls| <= |urls|
    ensures forall i :: 0 <= i < |run.calls| ==> run.calls[i] == ExtraInfoCall(urls[i], proxies)
    ensures run.outcome.Success? ==> |run.calls| == |urls| && |run.outcome.value| == |urls|
  {
    if |urls| == 0 then Run([], Success([]))
    else
      var call := ExtraInfoCall(urls[0], proxies);
      match extraInfo(urls[0], proxies)
      case Failure(e) => Run([call], Failure(e))
      case Success(info) =>
        var rest := AttachExtras(urls[1..], proxies, extraInfo);
        CallsOfCons(urls, proxies, rest.calls);
        Run([call] + rest.calls, if rest.outcome.Failure? then rest.outcome else Success([Record(urls[0], Kept(info))] + rest.outcome.value))
  }

  /** The lookups of the first URL and then of the following ones are the
      lookups of the URLs in order. */
  lemma CallsOfCons(urls: seq<string>, proxies: seq<string>, rest: seq<Call>)
    requires |urls| > 0 && |rest| < |urls|
    requires forall i :: 0 <= i < |rest| ==> rest[i] == ExtraInfoCall(urls[1..][i], proxies)
    ensures var calls := [ExtraInfoCall(urls[0], proxies)] + rest;
      forall i :: 0 <= i < |calls| ==> calls[i] == ExtraInfoCall(urls[i], proxies)
  {
    var calls := [ExtraInfoCall(urls[0], proxies)] + rest;
    assert forall i :: 1 <= i < |calls| ==> calls[i] == rest[i - 1] && urls[i] == urls[1..][i - 1];
  }

  /** The loop completes exactly when no lookup raises. */
  lemma {:induction false} AttachExtrasSucceeds(urls: seq<string>, proxies: seq<string>, extraInfo: (string, seq<string>) -> Result<Option<Json>, Error>)
    ensures AttachExtras(urls, proxies, extraInfo).outcome.Success?
      <==> forall i :: 0 <= i < |urls| ==> extraInfo(urls[i], proxies).Success?
  {
    if |urls| > 0 {
      AttachExtrasSucceeds(urls[1..], proxies, extraInfo);
      assert forall i :: 1 <= i < |urls| ==> urls[i] == urls[1..][i - 1];
    }
  }

  /** A completed loop gives one record per URL, in order, carrying the
      lookup's result when it is truthy. */
  lemma {:induction false} AttachExtrasRecords(urls: seq<string>, proxies: seq<string>, extraInfo: (string, seq<string>) -> Result<Option<Json>, Error>)
    requires AttachExtras(urls, proxies, extraInfo).outcome.Success?
    ensures var records := AttachExtras(urls, proxies, extraInfo).outcome.value;
      forall i :: 0 <= i < |urls| ==>
        extraInfo(urls[i], proxies).Success? && records[i] == Record(urls[i], Kept(extraInfo(urls[i], proxies).value))
  {
    if |urls| > 0 {
      AttachExtrasRecords(urls[1..], proxies, extraInfo);
      var records := AttachExtras(urls, proxies, extraInfo).outcome.value;
      var rest := AttachExtras(urls[1..], proxies, extraInfo).outcome.value;
      assert records == [Record(urls[0], Kept(extraInfo(urls[0], proxies).value))] + rest;
      assert forall i :: 1 <= i < |urls| ==> urls[i] == urls[1..][i - 1] && records[i] == rest[i - 1];
    }
  }

  /** A loop that raises does so at its last lookup, the first one to
      raise: every earlier lookup returned. */
  lemma {:induction false} AttachExtrasStopsAtFailure(urls: seq<string>, proxies: seq<string>, extraInfo: (string, seq<string>) -> Result<Option<Json>, Error>)
    requires AttachExtras(urls, proxies, extraInfo).outcome.Failure?
    ensures var run := AttachExtras(urls, proxies, extraInfo);
      && |run.calls| > 0
      && extraInfo(urls[|run.calls| - 1], proxies) == Failure(run.outcome.error)
      && forall i :: 0 <= i < |run.calls| - 1 ==> extraInfo(urls[i], proxies).Success?
  {
    if extraInfo(urls[0], proxies).Success? {
      AttachExtrasStopsAtFailure(urls[1..], proxies, extraInfo);
      var run := AttachExtras(urls, proxies, extraInfo);
      var rest := AttachExtras(urls[1..], proxies, extraInfo);
      assert |run.calls| == |rest.calls| + 1;
      assert forall i :: 1 <= i < |urls| ==> urls[i] == urls[1..][i - 1];
    }
  }

  // ---------------------------------------------------------------------
  // main

  /** What follows the search request: the extracted URLs, or the error of
      `extract_urls`, then the loop over them. */
  function AfterSearch(
    search: Call, urls: Result<seq<string>, Error>, proxies: seq<string>,
    extraInfo: (string, seq<string>) -> Result<Option<Json>, Error>): (run: Run)
    ensures |run.calls| >= 1 && run.calls[0] == search
    ensures urls.Failure? ==> run == Run([search], Failure(urls.error))
    ensures urls.Success? ==> |run.calls| <= |urls.value| + 1
    ensures run.outcome.Success? <==>
      urls.Success? && forall i :: 0 <= i < |urls.value| ==> extraInfo(urls.value[i], proxies).Success?
    ensures forall i :: 1 <= i < |run.calls| ==>
      urls.Success? && run.calls[i] == ExtraInfoCall(urls.value[i - 1], proxies)
    ensures run.outcome.Success? ==>
      && urls.Success?
      && |run.outcome.value| == |urls.value| == |run.calls| - 1
      && forall i :: 0 <= i < |urls.value| ==>
        && extraInfo(urls.value[i], proxies).Success?
        && run.outcome.value[i] == Record(urls.value[i], Kept(extraInfo(urls.value[i], proxies).value))
  {
    if urls.Failure? then Run([search], Failure(urls.error))
    else
      var loop := AttachExtras(urls.value, proxies, extraInfo);
      AttachExtrasSucceeds(urls.value, proxies, extraInfo);
      var run := Run([search] + loop.calls, loop.outcome);
      assert forall i :: 1 <= i < |run.calls| ==> run.calls[i] == loop.calls[i - 1];
      if loop.outcome.Success? then
        AttachExtrasRecords(urls.value, proxies, extraInfo);
        run
      else run
  }

  /** `main` with every call bound to the scraper's signatures: the input
      file must exist; the search page is fetched with the encoded
      parameters and the input's proxies; the result URLs are extracted; and
      each is looked up with the same proxies. `fetch` gives the text a
      request returns and `parse` the document an HTML text parses to. */
  function SearchRun(
    inputExists: bool, input: InputData, fetch: Call -> string, parse: string -> seq<Node>,
    extraInfo: (string, seq<string>) -> Result<Option<Json>, Error>): (run: Run)
    ensures !inputExists ==> run == Run([], Failure(NoInputFileFound))
    ensures inputExists && ParamsOf(input).Failure? ==> run == Run([], Failure(ParamsOf(input).error))
    ensures inputExists && ParamsOf(input).Success? ==>
      && |run.calls| >= 1
      && run.calls[0] == SearchPageCall(SearchUrl, input.proxies.value, ToDict(ParamsOf(input).value))
      && forall i :: 1 <= i < |run.calls| ==> run.calls[i].ExtraInfoCall? && run.calls[i].proxies == input.proxies.value
    ensures run.outcome.Success? ==>
      forall i :: 0 <= i < |run.outcome.value| ==> Strings.StartsWith(run.outcome.value[i].url, BaseUrl)
  {
    if !inputExists then Run([], Failure(NoInputFileFound))
    else
      match ParamsOf(input)
      case Failure(e) => Run([], Failure(e))
      case Success(params) =>
        var search := SearchPageCall(SearchUrl, params.proxies, ToDict(params));
        AfterSearch(search, ExtractUrls(parse(fetch(search))), params.proxies, extraInfo)
  }

  /** A successful run writes one record per extracted URL, in page order,
      each carrying its truthy extra; one lookup per URL follows the search
      request. */
  lemma SearchRunRecords(
    input: InputData, fetch: Call -> string, parse: string -> seq<Node>,
    extraInfo: (string, seq<string>) -> Result<Option<Json>, Error>)
    requires SearchRun(true, input, fetch, parse, extraInfo).outcome.Success?
    ensures var run := SearchRun(true, input, fetch, parse, extraInfo);
      var params := ParamsOf(input).value;
      var urls := ExtractUrls(parse(fetch(run.calls[0])));
      && urls.Success?
      && |run.outcome.value| == |urls.value| == |run.calls| - 1
      && forall i :: 0 <= i < |urls.value| ==>
        && run.outcome.value[i] == Record(urls.value[i], Kept(extraInfo(urls.value[i], params.proxies).value))
        && run.calls[i + 1] == ExtraInfoCall(urls.value[i], params.proxies)
  {
    var run := SearchRun(true, input, fetch, parse, extraInfo);
    var params := ParamsOf(input).value;
    var search := SearchPageCall(SearchUrl, params.proxies, ToDict(params));
    var urls := ExtractUrls(parse(fetch(search)));
    assert run == AfterSearch(search, urls, params.proxies, extraInfo);
    RecordsOfAfterSearch(search, urls, params.proxies, extraInfo, run);
  }

  lemma RecordsOfAfterSearch(
    search: Call, urls: Result<seq<string>, Error>, proxies: seq<string>,
    extraInfo: (string, seq<string>) -> Result<Option<Json>, Error>, run: Run)
    requires run == AfterSearch(search, urls, proxies, extraInfo) && run.outcome.Success?
    ensures run.calls[0] == search && urls.Success?
    ensures |run.outcome.value| == |urls.value| == |run.calls| - 1
    ensures forall i :: 0 <= i < |urls.value| ==>
      && run.outcome.value[i] == Record(urls.value[i], Kept(extraInfo(urls.value[i], proxies).value))
      && run.calls[i + 1] == ExtraInfoCall(urls.value[i], proxies)
  {
  }

  /** With the lookup replaced by a stub that always returns the same truthy
      dict, as the test of `main` does, every record carries that dict. */
  lemma StubbedLookupAttachesToAll(
    input: InputData, fetch: Call -> string, parse: string -> seq<Node>,
    extraInfo: (string, seq<string>) -> Result<Option<Json>, Error>, stub: Json)
    requires Truthy(stub)
    requires forall url, proxies :: extraInfo(url, proxies) == Success(Some(stub))
    requires ParamsOf(input).Success?
    ensures var run := SearchRun(true, input, fetch, parse, extraInfo);
      var urls := ExtractUrls(parse(fetch(run.calls[0])));
      && (run.outcome.Success? <==> urls.Success?)
      && (run.outcome.Success? ==> forall i :: 0 <= i < |run.outcome.value| ==>
            run.outcome.value[i] == Record(urls.value[i], Some(stub)))
  {
    var run := SearchRun(true, input, fetch, parse, extraInfo);
    var params := ParamsOf(input).value;
    var search := SearchPageCall(SearchUrl, params.proxies, ToDict(params));
    assert run == AfterSearch(search, ExtractUrls(parse(fetch(search))), params.proxies, extraInfo);
  }

  /** The lookup `main` relies on, built from the scraper: fetch the
      repository page, parse it and run `extract_extra_info` on it. */
  function ScraperLookup(fetchPage: (string, seq<string>) -> string, parse: string -> seq<Node>)
    : (lookup: (string, seq<string>) -> Result<Option<Json>, Error>)
    ensures forall url, proxies {:trigger fetchPage(url, proxies)} ::
      var info := ExtractExtraInfo(url, parse(fetchPage(url, proxies)));
      && (lookup(url, proxies).Success? <==> info.Success?)
      && (info.Failure? ==> lookup(url, proxies).error == info.error)
      && (info.Success? ==> (lookup(url, proxies).value.Some? <==> info.value.Some?))
      && (info.Success? && info.value.Some? ==> lookup(url, proxies).value.value == ExtraJson(info.value.value))
  {
    (url: string, proxies: seq<string>) => AsJson(ExtractExtraInfo(url, parse(fetchPage(url, proxies))))
  }

  /** The lookup's result as `main` sees it: the extra as a dict. */
  function AsJson(info: Result<Option<Extra>, Error>): Result<Option<Json>, Error> {
    match info
    case Failure(e) => Failure(e)
    case Success(None) => Success(None)
    case Success(Some(e)) => Success(Some(ExtraJson(e)))
  }

  /** The dict of a found extra is truthy and names the owner from the URL,
      so it is kept exactly when the page has the "Languages" string. */
  lemma KeptOfPage(url: string, page: seq<Node>)
    requires ExtractExtraInfo(url, page).Success?
    ensures var extra := Kept(AsJson(ExtractExtraInfo(url, page)).value);
      && (extra.Some? <==> Find(Strain(page, Sidebar), [], LanguagesHeading).Some?)
      && (extra.Some? ==> NamesOwnerOf(extra.value, url))
  {
    assert OwnerOf(url).Success?;
    ExtraInfoMissingIffNoLanguages(url, page);
  }

  /** `j` is a dict whose `owner` is the owner taken from `url`. */
  predicate NamesOwnerOf(j: Json, url: string) {
    OwnerOf(url).Success? && j.JObj? && Get(j.fields, "owner") == Some(JStr(OwnerOf(url).value))
  }

  /** With the scraper's own lookup, a URL gets an extra exactly when its
      repository page has a "Languages" string in the sidebar, and that
      extra names the owner taken from the URL. */
  lemma ScraperLookupKept(url: string, proxies: seq<string>, fetchPage: (string, seq<string>) -> string, parse: string -> seq<Node>)
    requires ScraperLookup(fetchPage, parse)(url, proxies).Success?
    ensures var extra := Kept(ScraperLookup(fetchPage, parse)(url, proxies).value);
      var page := parse(fetchPage(url, proxies));
      && (extra.Some? <==> Find(Strain(page, Sidebar), [], LanguagesHeading).Some?)
      && (extra.Some? ==> NamesOwnerOf(extra.value, url))
  {
    var page := parse(fetchPage(url, proxies));
    assert ScraperLookup(fetchPage, parse)(url, proxies) == AsJson(ExtractExtraInfo(url, page));
    KeptOfPage(url, page);
  }

  /** A successful run with the scraper's own lookup: each record has an
      extra exactly when its page has the "Languages" string, naming the
      owner from the record's URL. */
  lemma ScraperLookupRecords(
    input: InputData, fetch: Call -> string, parse: string -> seq<Node>,
    fetchPage: (string, seq<string>) -> string, i: nat)
    requires SearchRun(true, input, fetch, parse, ScraperLookup(fetchPage, parse)).outcome.Success?
    requires i < |SearchRun(true, input, fetch, parse, ScraperLookup(fetchPage, parse)).outcome.value|
    ensures var record := SearchRun(true, input, fetch, parse, ScraperLookup(fetchPage, parse)).outcome.value[i];
      var page := parse(fetchPage(record.url, ParamsOf(input).value.proxies));
      && (record.extra.Some? <==> Find(Strain(page, Sidebar), [], LanguagesHeading).Some?)
      && (record.extra.Some? ==> NamesOwnerOf(record.extra.value, record.url))
  {
    var lookup := ScraperLookup(fetchPage, parse);
    SearchRunRecords(input, fetch, parse, lookup);
    var record := SearchRun(true, input, fetch, parse, lookup).outcome.value[i];
    var proxies := ParamsOf(input).value.proxies;
    assert lookup(record.url, proxies).Success? && record.extra == Kept(lookup(record.url, proxies).value) by {
      var run := SearchRun(true, input, fetch, parse, lookup);
      var urls := ExtractUrls(parse(fetch(run.calls[0]))).value;
      assert record == Record(urls[i], Kept(lookup(urls[i], proxies).value));
    }
    ScraperLookupKept(record.url, proxies, fetchPage, parse);
  }

  // ---------------------------------------------------------------------
  // main as written

  /** A call site of `main`: the keyword names it passes (a positional
      argument counts as the parameter it binds), and the parameters the
      callee requires and accepts. */
  datatype CallSite = CallSite(callee: string, passed: set<string>, required: set<string>, accepted: set<string>)

  /** Whether the arguments bind; otherwise Python raises `TypeError`. */
  predicate Binds(site: CallSite) {
    site.required <= site.passed <= site.accepted
  }

  /** `GitHub(proxies=…)`, `request_page_html(url=…, params=…)` and
      `extract_extra_info(url)` against `GitHub.__init__(self)`,
      `request_page_html(self, url, proxies, params=None)` and
      `extract_extra_info(self, url, proxies)`. */
  const AsWrittenSites := [
    CallSite("GitHub", {"proxies"}, {}, {}),
    CallSite("request_page_html", {"url", "params"}, {"url", "proxies"}, {"url", "proxies", "params"}),
    CallSite("extract_extra_info", {"url"}, {"url", "proxies"}, {"url", "proxies"})]

  /** The same sites passing what the signatures ask for, as `SearchRun`
      does. */
  const CorrectedSites := [
    CallSite("GitHub", {}, {}, {}),
    CallSite("request_page_html", {"url", "proxies", "params"}, {"url", "proxies"}, {"url", "proxies", "params"}),
    CallSite("extract_extra_info", {"url", "proxies"}, {"url", "proxies"}, {"url", "proxies"})]

  /** None of the three call sites of `main` binds as written. This and
      `CorrectedSitesBind` document the call-site table above: they check
      the signatures written into it, not code. */
  lemma AsWrittenSitesNeverBind()
    ensures forall i :: 0 <= i < |AsWrittenSites| ==> !Binds(AsWrittenSites[i])
  {
    assert "proxies" in AsWrittenSites[0].passed;
    assert "proxies" !in AsWrittenSites[1].passed;
    assert "proxies" !in AsWrittenSites[2].passed;
  }

  /** Every corrected call site binds, and each differs from the one as
      written only in passing `proxies`. */
  lemma CorrectedSitesBind()
    ensures |CorrectedSites| == |AsWrittenSites|
    ensures forall i :: 0 <= i < |CorrectedSites| ==> Binds(CorrectedSites[i])
    ensures forall i :: 0 <= i < |CorrectedSites| ==>
      CorrectedSites[i].passed - {"proxies"} == AsWrittenSites[i].passed - {"proxies"}
  {
  }

  /** `main` as written: after the input checks, the first call site is
      `GitHub(proxies=params.proxies)`, which raises before any request. */
  function MainAsWritten(
    inputExists: bool, input: InputData, fetch: Call -> string, parse: string -> seq<Node>,
    extraInfo: (string, seq<string>) -> Result<Option<Json>, Error>): (run: Run)
    ensures run.calls == []
  {
    if !inputExists then Run([], Failure(NoInputFileFound))
    else
      match ParamsOf(input)
      case Failure(e) => Run([], Failure(e))
      case Success(params) =>
        // The `else` branch would follow a `GitHub(…)` call that binds;
        // `AsWrittenSitesNeverBind` shows it is never taken.
        if !Binds(AsWrittenSites[0]) then Run([], Failure(TypeError(AsWrittenSites[0].callee)))
        else SearchRun(inputExists, input, fetch, parse, extraInfo)
  }

  /** For every well-formed input, `main` as written raises `TypeError`
      and makes no request, where the corrected flow fetches the search
      page. */
  lemma MainAsWrittenAlwaysRaises(
    input: InputData, fetch: Call -> string, parse: string -> seq<Node>,
    extraInfo: (string, seq<string>) -> Result<Option<Json>, Error>)
    requires ParamsOf(input).Success?
    ensures MainAsWritten(true, input, fetch, parse, extraInfo) == Run([], Failure(TypeError("GitHub")))
    ensures |SearchRun(true, input, fetch, parse, extraInfo).calls| >= 1
  {
    AsWrittenSitesNeverBind();
  }
}
