/** `GitHub.extract_urls` and `GitHub.extract_extra_info` of src/scraper.py
    over the parsed document. The page fetch inside `extract_extra_info` is
    its `page` parameter. */
module Extractors {
  import opened Wrappers
  import opened Errors
  import opened OrderedMaps
  import opened HtmlTree
  import Strings
  import UrlParse

  /** `GitHub.base_url`. */
  const BaseUrl := "https://github.com"

  /** `SoupStrainer("div", attrs={"data-testid": "results-list"})`. */
  const ResultsList := Strainer("div", "data-testid", "results-list")

  /** `find_all("span", attrs={"class": "search-match"})`. */
  const SearchMatch := TagWithClass("span", "search-match")

  /** `SoupStrainer("div", attrs={"class": "Layout-sidebar"})`. */
  const Sidebar := Strainer("div", "class", "Layout-sidebar")

  /** `find(string="Languages")`. */
  const LanguagesHeading := StringEquals("Languages")

  const ListItem := TagNamed("li")
  const Span := TagNamed("span")

  // ---------------------------------------------------------------------
  // extract_urls

  /** `item.parent and item.parent.name == "a"`. */
  predicate ParentIsAnchor(v: Visit) {
    var p := ParentOf(v);
    p.ParentElement? && p.element.Element? && p.element.name == "a"
  }

  /** The `href` of a marker's parent, if it has one. */
  function HrefOfParent(v: Visit): Option<string> {
    var p := ParentOf(v);
    if p.ParentElement? && p.element.Element? then Get(p.element.attrs, "href") else None
  }

  /** The markers whose parent is a link, order kept. */
  function AnchoredMarkers(markers: seq<Visit>): (r: seq<Visit>)
    ensures |markers| == 1 ==> r == if ParentIsAnchor(markers[0]) then markers else []
    ensures |r| <= |markers|
    ensures forall i :: 0 <= i < |r| ==> ParentIsAnchor(r[i])
    ensures forall v :: v in r <==> v in markers && ParentIsAnchor(v)
  {
    if |markers| == 0 then []
    else
      var rest := AnchoredMarkers(markers[1..]);
      assert forall v :: v in markers <==> v == markers[0] || v in markers[1..];
      if ParentIsAnchor(markers[0]) then [markers[0]] + rest else rest
  }

  /** Filtering runs of markers one after the other keeps each run's
      anchored markers, runs in order: with the one-marker case, this pins
      `AnchoredMarkers` down as the order-keeping filter. */
  lemma {:induction false} AnchoredMarkersAppend(a: seq<Visit>, b: seq<Visit>)
    ensures AnchoredMarkers(a + b) == AnchoredMarkers(a) + AnchoredMarkers(b)
  {
    if |a| > 0 {
      assert (a + b)[0] == a[0];
      assert (a + b)[1..] == a[1..] + b;
      AnchoredMarkersAppend(a[1..], b);
    } else {
      assert a + b == b;
    }
  }

  /** The URL a link points to: the base URL followed by the link's `href`;
      a link without `href` raises `KeyError`. */
  function UrlOfLink(v: Visit): (r: Result<string, Error>)
    ensures r.Success? <==> HrefOfParent(v).Some?
    ensures r.Failure? ==> r.error == KeyError("href")
    ensures r.Success? ==> r.value == BaseUrl + HrefOfParent(v).value
  {
    match HrefOfParent(v)
    case None => Failure(KeyError("href"))
    case Some(href) => Success(BaseUrl + href)
  }

  /** The list comprehension of `extract_urls`: one URL per marker whose
      parent is a link, in the markers' order. */
  function UrlsOfMarkers(markers: seq<Visit>): (r: Result<seq<string>, Error>)
    ensures r.Success? <==> forall i :: 0 <= i < |markers| && ParentIsAnchor(markers[i]) ==> HrefOfParent(markers[i]).Some?
    ensures r.Failure? ==> r.error == KeyError("href")
    ensures r.Success? ==> |r.value| == |AnchoredMarkers(markers)|
    ensures r.Success? ==> forall i :: 0 <= i < |r.value| ==> r.value[i] == BaseUrl + HrefOfParent(AnchoredMarkers(markers)[i]).value
  {
    var links := AnchoredMarkers(markers);
    assert (forall i :: 0 <= i < |links| ==> UrlOfLink(links[i]).Success?)
      <==> (forall i :: 0 <= i < |markers| && ParentIsAnchor(markers[i]) ==> HrefOfParent(markers[i]).Some?) by {
      assert forall v :: v in links <==> v in markers && ParentIsAnchor(v);
    }
    MapAll(links, UrlOfLink)
  }

  /** The search-match markers of a page, in document order: the
      `search-match` spans of the walk of the kept results lists. */
  function Markers(page: seq<Node>): seq<Visit> {
    FindAll(Strain(page, ResultsList), [], SearchMatch)
  }

  /** The markers are the `search-match` spans met on the walk of the kept
      results lists, and the kept results lists are the outermost
      `results-list` containers of the page, in document order. */
  lemma MarkersOfPage(page: seq<Node>)
    ensures forall v :: v in Markers(page) <==> v in Descendants(Strain(page, ResultsList), []) && Selects(SearchMatch, v.node)
    ensures Strain(page, ResultsList) == Outermost(Descendants(page, []), ResultsList, 0)
  {
    FindAllMembers(Strain(page, ResultsList), [], SearchMatch);
    StrainIsOutermost(page, ResultsList, []);
  }

  /** `extract_urls`: the result URLs of a search page, as the `url` values
      of the records it returns. Every URL is on the site, and there are
      never more URLs than markers; `ExtractUrlsOfMarkers` says which they
      are. */
  function ExtractUrls(page: seq<Node>): (r: Result<seq<string>, Error>)
    ensures r.Success? ==> |r.value| <= |Markers(page)|
    ensures r.Success? ==> forall i :: 0 <= i < |r.value| ==> Strings.StartsWith(r.value[i], BaseUrl)
    ensures |Markers(page)| == 0 ==> r == Success([])
  {
    var markers := Markers(page);
    var r := UrlsOfMarkers(markers);
    if r.Success? then
      assert |AnchoredMarkers(markers)| <= |markers|;
      forall i | 0 <= i < |r.value|
        ensures Strings.StartsWith(r.value[i], BaseUrl)
      {
        var href := HrefOfParent(AnchoredMarkers(markers)[i]).value;
        assert (BaseUrl + href)[..|BaseUrl|] == BaseUrl;
      }
      r
    else r
  }

  /** The URLs `extract_urls` returns: one per marker inside a link, in page
      order, each the base URL followed by the link's `href`; a marker link
      without `href` raises `KeyError`. */
  lemma ExtractUrlsOfMarkers(page: seq<Node>)
    ensures var r := ExtractUrls(page);
      var markers := Markers(page);
      && (r.Success? <==> forall i :: 0 <= i < |markers| && ParentIsAnchor(markers[i]) ==> HrefOfParent(markers[i]).Some?)
      && (r.Failure? ==> r.error == KeyError("href"))
      && (r.Success? ==> |r.value| == |AnchoredMarkers(markers)|)
      && (r.Success? ==> forall i :: 0 <= i < |r.value| ==>
            r.value[i] == BaseUrl + HrefOfParent(AnchoredMarkers(markers)[i]).value)
  {
    assert ExtractUrls(page) == UrlsOfMarkers(Markers(page));
  }

  // ---------------------------------------------------------------------
  // extract_extra_info

  /** The owner handle and the language breakdown of a repository page. */
  datatype Extra = Extra(owner: string, languageStats: OrderedMap<string, string>)

  /** `urlparse(url).path.split("/")[1]`: the first path segment, or
      `IndexError` when the path has no `/`. */
  function OwnerOf(url: string): (r: Result<string, Error>)
    ensures r.Success? ==> '/' !in r.value
    ensures r.Success? <==> UrlParse.UrlPath(url).Success? && '/' in UrlParse.UrlPath(url).value
    ensures UrlParse.UrlPath(url).Failure? ==> r == Failure(UrlParse.UrlPath(url).error)
    ensures UrlParse.UrlPath(url).Success? && r.Failure? ==> r.error.IndexError?
  {
    var path :- UrlParse.UrlPath(url);
    SecondPart(path)
  }

  /** `path.split("/")[1]`. */
  function SecondPart(path: string): (r: Result<string, Error>)
    ensures r.Success? <==> '/' in path
    ensures r.Success? ==> '/' !in r.value
    ensures r.Failure? ==> r.error.IndexError?
  {
    var parts := Strings.Split(path, '/');
    Strings.SplitParts(path, '/');
    if |parts| < 2 then Failure(IndexError("split(\"/\")[1]")) else Success(parts[1])
  }

  /** One list item: the text of its first span and of its second, or
      `IndexError` when it has fewer than two spans. */
  function RowOf(li: Visit): (r: Result<(string, string), Error>)
    ensures var spans := FindAll(ChildrenOf(li.node), li.ancestors + [li.node], Span);
      && (r.Success? <==> |spans| >= 2)
      && (r.Success? ==> r.value == (TextOf(spans[0].node), TextOf(spans[1].node)))
    ensures r.Failure? ==> r.error.IndexError?
  {
    var spans := FindAll(ChildrenOf(li.node), li.ancestors + [li.node], Span);
    if |spans| == 0 then Failure(IndexError("spans[0]"))
    else if |spans| == 1 then Failure(IndexError("spans[1]"))
    else Success((TextOf(spans[0].node), TextOf(spans[1].node)))
  }

  /** The rows of all list items, or the error of the first one short of
      spans. */
  function Rows(lis: seq<Visit>): Result<seq<(string, string)>, Error> {
    MapAll(lis, RowOf)
  }

  /** The loop filling `language_stats`: each row assigns its language. */
  function LanguageStats(lis: seq<Visit>): (r: Result<OrderedMap<string, string>, Error>)
    ensures r.Success? <==> forall i :: 0 <= i < |lis| ==> RowOf(lis[i]).Success?
    ensures r.Failure? ==> r.error.IndexError?
  {
    var rows :- Rows(lis);
    Success(FromPairs(rows))
  }

  /** The statistics gathered from every `li` under the grandparent of the
      "Languages" string. The grandparent is the soup object itself when the
      string sits in a top-level element. */
  function StatsUnderHeading(soup: seq<Node>, languages: Visit): (r: Result<OrderedMap<string, string>, Error>)
    requires |languages.ancestors| >= 1
    ensures r.Success? <==> forall li :: li in LanguageItems(soup, languages) ==> RowOf(li).Success?
    ensures r.Failure? ==> r.error.IndexError?
  {
    // `find_all("li")` yields only tags, and a tag is always true, so the
    // `continue` of the loop is never taken.
    var lis := LanguageItems(soup, languages);
    assert forall li :: li in lis <==> exists i :: 0 <= i < |lis| && lis[i] == li;
    LanguageStats(lis)
  }

  /** The `li` elements under the grandparent of the "Languages" string, in
      document order. */
  function LanguageItems(soup: seq<Node>, languages: Visit): (lis: seq<Visit>)
    requires |languages.ancestors| >= 1
    ensures forall i :: 0 <= i < |lis| ==> lis[i].node.Element? && lis[i].node.name == "li"
  {
    var chain := languages.ancestors[..|languages.ancestors| - 1];
    var scope := if |chain| == 0 then soup else ChildrenOf(chain[|chain| - 1]);
    FindAll(scope, chain, ListItem)
  }

  /** `extract_extra_info` once the page is fetched. `None` when the sidebar
      has no "Languages" string or that string lacks a parent and a
      grandparent `Tag`; otherwise the owner and the statistics gathered
      from every `li` under the grandparent. */
  function ExtractExtraInfo(url: string, page: seq<Node>): (r: Result<Option<Extra>, Error>)
    ensures OwnerOf(url).Failure? ==> r == Failure(OwnerOf(url).error)
    ensures OwnerOf(url).Success? && r.Failure? ==> r.error.IndexError?
    ensures r.Success? && r.value.Some? ==> r.value.value.owner == OwnerOf(url).value
  {
    var owner :- OwnerOf(url);
    var soup := Strain(page, Sidebar);
    // `not languages` never holds for a found string: "Languages" is not empty.
    match Find(soup, [], LanguagesHeading)
    case None => Success(None)
    case Some(languages) =>
      if !IsTag(ParentOf(languages)) || !IsTag(GrandparentOf(languages)) then Success(None)
      else
        var stats :- StatsUnderHeading(soup, languages);
        Success(Some(Extra(owner, stats)))
  }

  // ---------------------------------------------------------------------
  // Properties

  /** A page without a results-list container yields no URLs. */
  lemma NoResultsListNoUrls(page: seq<Node>)
    requires forall v :: v in Descendants(page, []) ==> !Matches(ResultsList, v.node)
    ensures ExtractUrls(page) == Success([])
  {
    StrainNothing(page, ResultsList, []);
  }

  /** The owner is the text between the first `/` of the path and the next
      `/` (or the end of the path). */
  lemma OwnerIsFirstSegment(url: string)
    requires OwnerOf(url).Success?
    ensures var path := UrlParse.UrlPath(url).value;
      var tail := path[Strings.Find(path, '/') + 1..];
      OwnerOf(url).value == if '/' in tail then tail[..Strings.Find(tail, '/')] else tail
  {
    var path := UrlParse.UrlPath(url).value;
    assert OwnerOf(url) == SecondPart(path);
    SecondPartIsFirstSegment(path);
  }

  lemma SecondPartIsFirstSegment(path: string)
    requires '/' in path
    ensures var tail := path[Strings.Find(path, '/') + 1..];
      SecondPart(path).value == if '/' in tail then tail[..Strings.Find(tail, '/')] else tail
  {
    Strings.SecondPart(path, '/');
  }

  /** The characters a path segment of a repository URL is made of here:
      none of `/`, `?`, `#`, `;`, tab, CR or LF. */
  predicate IsSegment(w: string) {
    forall i :: 0 <= i < |w| ==> w[i] !in "/?#;\t\r\n"
  }

  /** The owner of a repository URL `https://github.com/<owner>/<repo>` is
      `<owner>`. */
  lemma OwnerOfRepositoryUrl(owner: string, repo: string)
    requires IsSegment(owner) && IsSegment(repo)
    ensures OwnerOf(BaseUrl + "/" + owner + "/" + repo) == Success(owner)
  {
    RepositoryPath(owner, repo);
    SplitRepositoryPath(owner, repo);
  }

  lemma RepositoryPath(owner: string, repo: string)
    requires IsSegment(owner) && IsSegment(repo)
    ensures UrlParse.UrlPath(BaseUrl + "/" + owner + "/" + repo) == Success("/" + (owner + "/" + repo))
  {
    var path := "/" + (owner + "/" + repo);
    assert BaseUrl + "/" + owner + "/" + repo == "https" + "://" + "github.com" + path by {
      BaseUrlParts();
    }
    SegmentsJoin(owner, repo);
    UrlParse.PathOfAbsoluteUrl("https", "github.com", path);
  }

  lemma SplitRepositoryPath(owner: string, repo: string)
    requires '/' !in owner
    ensures Strings.Split("/" + (owner + "/" + repo), '/') == [""] + ([owner] + Strings.Split(repo, '/'))
  {
    var rest := owner + "/" + repo;
    var path := "/" + rest;
    Strings.SplitFirst(path, '/');
    assert path[1..] == rest;
    Strings.SplitAfterWord(owner, '/', repo);
  }

  lemma BaseUrlParts()
    ensures BaseUrl == "https" + "://" + "github.com"
  {
  }

  lemma SegmentsJoin(owner: string, repo: string)
    requires IsSegment(owner) && IsSegment(repo)
    ensures var path := "/" + (owner + "/" + repo);
      forall i :: 0 <= i < |path| ==> path[i] !in "?#;\t\r\n"
  {
    var path := "/" + (owner + "/" + repo);
    forall i | 0 <= i < |path|
      ensures path[i] !in "?#;\t\r\n"
    {
      if 1 <= i < 1 + |owner| {
        assert path[i] == owner[i - 1];
      } else if i > 1 + |owner| {
        assert path[i] == repo[i - 2 - |owner|];
      }
    }
  }

  /** `extract_extra_info` gives `None` exactly when the sidebar has no
      "Languages" string: the parent and grandparent guards can never fail
      on a strained soup, whose text always sits inside an element. */
  lemma ExtraInfoMissingIffNoLanguages(url: string, page: seq<Node>)
    requires OwnerOf(url).Success?
    ensures ExtractExtraInfo(url, page) == Success(None)
      <==> Find(Strain(page, Sidebar), [], LanguagesHeading).None?
  {
    var soup := Strain(page, Sidebar);
    var found := Find(soup, [], LanguagesHeading);
    if found.Some? {
      var v := found.value;
      HeadingHasTagAncestors(page, v);
      var stats := StatsUnderHeading(soup, v);
      assert ExtractExtraInfo(url, page)
        == if stats.Failure? then Failure(stats.error) else Success(Some(Extra(OwnerOf(url).value, stats.value)));
    }
  }

  /** Once the "Languages" string is found, `extract_extra_info` gives the
      owner with the statistics of the `li` items under the string's
      grandparent, or the `IndexError` of the first item short of spans. */
  lemma ExtraInfoOfHeading(url: string, page: seq<Node>)
    requires OwnerOf(url).Success?
    requires Find(Strain(page, Sidebar), [], LanguagesHeading).Some?
    ensures var v := Find(Strain(page, Sidebar), [], LanguagesHeading).value;
      && |v.ancestors| >= 1
      && var stats := LanguageStats(LanguageItems(Strain(page, Sidebar), v));
      && (stats.Success? ==> ExtractExtraInfo(url, page) == Success(Some(Extra(OwnerOf(url).value, stats.value))))
      && (stats.Failure? ==> ExtractExtraInfo(url, page) == Failure(stats.error) && stats.error.IndexError?)
  {
    var v := Find(Strain(page, Sidebar), [], LanguagesHeading).value;
    HeadingHasTagAncestors(page, v);
  }

  /** The statistics `extract_extra_info` reports are the rows of the `li`
      items under the heading, in document order, each mapping the first
      span's text to the second span's: one entry per distinct language in
      first-seen order, the last row of a language giving its value. */
  lemma ExtraInfoStats(url: string, page: seq<Node>)
    requires OwnerOf(url).Success?
    requires ExtractExtraInfo(url, page).Success? && ExtractExtraInfo(url, page).value.Some?
    ensures Find(Strain(page, Sidebar), [], LanguagesHeading).Some?
    ensures var v := Find(Strain(page, Sidebar), [], LanguagesHeading).value;
      && |v.ancestors| >= 1
      && var lis := LanguageItems(Strain(page, Sidebar), v);
      && Rows(lis).Success?
      && (forall i :: 0 <= i < |lis| ==> Rows(lis).value[i] == RowOf(lis[i]).value)
      && var stats := ExtractExtraInfo(url, page).value.value.languageStats;
      && var rows := Rows(lis).value;
      && Distinct(Keys(stats))
      && (forall name :: name in Keys(stats) <==> name in Keys(rows))
      && (forall name :: Get(stats, name) == LastValue(rows, name))
      && InFirstSeenOrder(Keys(stats), Keys(rows))
  {
    var soup := Strain(page, Sidebar);
    var v := Find(soup, [], LanguagesHeading).value;
    ExtraInfoOfHeading(url, page);
    var lis := LanguageItems(soup, v);
    LanguageStatsSpec(lis);
  }

  /** A "Languages" string found in the strained sidebar sits inside an
      element, so both `Tag` guards of `extract_extra_info` pass. */
  lemma HeadingHasTagAncestors(page: seq<Node>, v: Visit)
    requires Find(Strain(page, Sidebar), [], LanguagesHeading) == Some(v)
    ensures |v.ancestors| >= 1 && IsTag(ParentOf(v)) && IsTag(GrandparentOf(v))
  {
    var soup := Strain(page, Sidebar);
    assert v in Descendants(soup, []) && v.node.Text? by {
      var all := FindAll(soup, [], LanguagesHeading);
      assert v == all[0];
      SelectMembers(Descendants(soup, []), LanguagesHeading);
    }
    TextInStrainedSoupHasTagAncestors(page, Sidebar, v);
  }

  /** A page without a sidebar yields no extra information. */
  lemma NoSidebarNoExtra(url: string, page: seq<Node>)
    requires OwnerOf(url).Success?
    requires forall v :: v in Descendants(page, []) ==> !Matches(Sidebar, v.node)
    ensures ExtractExtraInfo(url, page) == Success(None)
  {
    StrainNothing(page, Sidebar, []);
    ExtraInfoMissingIffNoLanguages(url, page);
  }

  /** The statistics hold one entry per distinct language, in the order the
      languages first appear; a repeated language keeps its first position
      and takes the percentage of its last row. */
  lemma LanguageStatsSpec(lis: seq<Visit>)
    requires LanguageStats(lis).Success?
    ensures var rows := Rows(lis).value;
      var stats := LanguageStats(lis).value;
      && Distinct(Keys(stats))
      && (forall name :: name in Keys(stats) <==> name in Keys(rows))
      && (forall name :: Get(stats, name) == LastValue(rows, name))
      && InFirstSeenOrder(Keys(stats), Keys(rows))
  {
    var rows := Rows(lis).value;
    FromPairsOrder(rows);
    forall name
      ensures Get(FromPairs(rows), name) == LastValue(rows, name)
    {
      FromPairsValues(rows, name);
    }
  }
}
