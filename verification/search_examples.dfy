/** The run of tests/test_search.py: one keyword, no proxies, the search
    request answered with a stand-in search page and the lookup replaced by
    a stub returning `{"owner": ""}`. */
module SearchExamples {
  import opened Wrappers
  import opened Errors
  import opened Query
  import opened HtmlTree
  import opened Extractors
  import opened Search
  import ScraperExamples

  const TestInput := InputData(Some(["python"]), Some([]), Some("repositories"))

  /** The stub's return value. */
  const OwnerStub := JObj([("owner", JStr(""))])

  const DropBoxUrl := BaseUrl + "/atuldjadhav/DropBox-Cloud-Storage"
  const HorizonUrl := BaseUrl + "/michealbalogun/Horizon-dashboard"

  /** The loop over the two result URLs with the stub. */
  lemma StubOverTwoUrls(extraInfo: (string, seq<string>) -> Result<Option<Json>, Error>, u: string, v: string)
    requires forall url, proxies :: extraInfo(url, proxies) == Success(Some(OwnerStub))
    ensures AttachExtras([u, v], [], extraInfo)
      == Run([ExtraInfoCall(u, []), ExtraInfoCall(v, [])], Success([Record(u, Some(OwnerStub)), Record(v, Some(OwnerStub))]))
  {
    assert Kept(Some(OwnerStub)) == Some(OwnerStub);
    var none: seq<string> := [];
    assert AttachExtras(none, [], extraInfo) == Run([], Success([]));
    assert [v][1..] == none;
    assert AttachExtras([v], [], extraInfo).calls == [ExtraInfoCall(v, [])] + [];
    assert AttachExtras([v], [], extraInfo).outcome == Success([Record(v, Some(OwnerStub))] + []);
    assert [u, v][1..] == [v];
    var one := AttachExtras([v], [], extraInfo);
    assert AttachExtras([u, v], [], extraInfo).calls == [ExtraInfoCall(u, [])] + one.calls;
    assert AttachExtras([u, v], [], extraInfo).outcome == Success([Record(u, Some(OwnerStub))] + one.outcome.value);
    assert [ExtraInfoCall(u, [])] + ([ExtraInfoCall(v, [])] + []) == [ExtraInfoCall(u, []), ExtraInfoCall(v, [])];
    assert [Record(u, Some(OwnerStub))] + ([Record(v, Some(OwnerStub))] + []) == [Record(u, Some(OwnerStub)), Record(v, Some(OwnerStub))];
  }

  /** The run once the parameters are known: the search request, then what
      follows it. */
  lemma SearchRunSteps(input: InputData, params: RequestParams, fetch: Call -> string, parse: string -> seq<Node>,
    extraInfo: (string, seq<string>) -> Result<Option<Json>, Error>)
    requires ParamsOf(input) == Success(params)
    ensures var search := SearchPageCall(SearchUrl, params.proxies, ToDict(params));
      SearchRun(true, input, fetch, parse, extraInfo)
        == AfterSearch(search, ExtractUrls(parse(fetch(search))), params.proxies, extraInfo)
  {
  }

  /** After a search request whose page yields `urls`, the lookups follow
      it. */
  lemma AfterSearchSteps(search: Call, urls: seq<string>, proxies: seq<string>,
    extraInfo: (string, seq<string>) -> Result<Option<Json>, Error>)
    ensures var loop := AttachExtras(urls, proxies, extraInfo);
      AfterSearch(search, Success(urls), proxies, extraInfo) == Run([search] + loop.calls, loop.outcome)
  {
  }

  /** A run whose search page yields two URLs, with the stub as lookup. */
  lemma RunOfTwoResults(input: InputData, params: RequestParams, fetch: Call -> string, parse: string -> seq<Node>,
    extraInfo: (string, seq<string>) -> Result<Option<Json>, Error>, u: string, v: string)
    requires ParamsOf(input) == Success(params) && params.proxies == []
    requires ExtractUrls(parse(fetch(SearchPageCall(SearchUrl, [], ToDict(params))))) == Success([u, v])
    requires forall url, proxies :: extraInfo(url, proxies) == Success(Some(OwnerStub))
    ensures SearchRun(true, input, fetch, parse, extraInfo) == Run(
      [SearchPageCall(SearchUrl, [], ToDict(params)), ExtraInfoCall(u, []), ExtraInfoCall(v, [])],
      Success([Record(u, Some(OwnerStub)), Record(v, Some(OwnerStub))]))
  {
    var search := SearchPageCall(SearchUrl, [], ToDict(params));
    SearchRunSteps(input, params, fetch, parse, extraInfo);
    AfterSearchSteps(search, [u, v], [], extraInfo);
    StubOverTwoUrls(extraInfo, u, v);
  }

  /** The corrected `main` on the test's input: the search request with the
      encoded keyword, one lookup per result URL, and both records carrying
      the stub's dict. */
  lemma SearchRunOfTest(fetch: Call -> string, parse: string -> seq<Node>, extraInfo: (string, seq<string>) -> Result<Option<Json>, Error>)
    requires forall c :: parse(fetch(c)) == ScraperExamples.SearchPage
    requires forall url, proxies :: extraInfo(url, proxies) == Success(Some(OwnerStub))
    ensures SearchRun(true, TestInput, fetch, parse, extraInfo) == Run(
      [SearchPageCall(SearchUrl, [], ToDict(RequestParams(["python"], [], "repositories"))),
       ExtraInfoCall(DropBoxUrl, []), ExtraInfoCall(HorizonUrl, [])],
      Success([Record(DropBoxUrl, Some(OwnerStub)), Record(HorizonUrl, Some(OwnerStub))]))
  {
    var params := RequestParams(["python"], [], "repositories");
    ScraperExamples.ExtractUrlsOfSearchPage();
    RunOfTwoResults(TestInput, params, fetch, parse, extraInfo, DropBoxUrl, HorizonUrl);
  }

  /** `main` as written raises `TypeError` on the same input before any
      request, so the log line the test looks for is never written. */
  lemma MainAsWrittenOfTest(fetch: Call -> string, parse: string -> seq<Node>, extraInfo: (string, seq<string>) -> Result<Option<Json>, Error>)
    ensures MainAsWritten(true, TestInput, fetch, parse, extraInfo) == Run([], Failure(TypeError("GitHub")))
  {
    MainAsWrittenAlwaysRaises(TestInput, fetch, parse, extraInfo);
  }
}
