/** Stand-in parsed documents shaped like the pages tests/test_scraper.py
    reads, built to give that test's expected results, and run through the
    model: a search page for `test_extract_urls`, and the repository URL
    and a sidebar for `test_extract_extra_info`. The proxy cases of
    `test_update_session_proxy` are in the `Proxies` module. */
module ScraperExamples {
  import opened Wrappers
  import opened OrderedMaps
  import opened HtmlTree
  import opened Extractors

  // ---------------------------------------------------------------------
  // Building blocks

  function Link(href: string, children: seq<Node>): Node {
    Element("a", [("href", href)], [], children)
  }

  function Marker(text: string): Node {
    Element("span", [("class", "search-match")], ["search-match"], [Text(text)])
  }

  /** A node that is not selected and has no children contributes nothing
      to `find_all`. */
  lemma LeafFindsNothing(n: Node, ancestors: seq<Node>, sel: Selector)
    requires !Selects(sel, n) && ChildrenOf(n) == []
    ensures FindAll([n], ancestors, sel) == []
  {
    FindAllOfOne(n, ancestors, sel);
    var none: seq<Node> := [];
    assert FindAll(none, ancestors + [n], sel) == [];
  }

  /** A marker finds itself and nothing below it. */
  lemma MarkerFindsItself(t: string, ancestors: seq<Node>)
    ensures FindAll([Marker(t)], ancestors, SearchMatch) == [Visit(Marker(t), ancestors)]
  {
    FindAllOfOne(Marker(t), ancestors, SearchMatch);
    LeafFindsNothing(Text(t), ancestors + [Marker(t)], SearchMatch);
  }

  /** A search-result title: a div holding a link whose children are a
      marker and a text. Its only marker sits inside the link. */
  lemma TitleMarkers(d: Node, a: Node, t: string, tail: Node, ancestors: seq<Node>)
    requires tail.Text?
    requires a.Element? && a.children == [Marker(t)] + [tail] && !Selects(SearchMatch, a)
    requires d.Element? && d.children == [a] && !Selects(SearchMatch, d)
    ensures FindAll([d], ancestors, SearchMatch) == [Visit(Marker(t), ancestors + [d, a])]
  {
    var inner := ancestors + [d] + [a];
    assert inner == ancestors + [d, a];
    MarkerFindsItself(t, inner);
    LeafFindsNothing(tail, inner, SearchMatch);
    FindAllAppend([Marker(t)], [tail], inner, SearchMatch);
    FindAllOfOne(a, ancestors + [d], SearchMatch);
    FindAllOfOne(d, ancestors, SearchMatch);
  }

  /** A code match: a div holding a marker directly. */
  lemma CodeMatchMarkers(d: Node, t: string, ancestors: seq<Node>)
    requires d.Element? && d.children == [Marker(t)] && !Selects(SearchMatch, d)
    ensures FindAll([d], ancestors, SearchMatch) == [Visit(Marker(t), ancestors + [d])]
  {
    MarkerFindsItself(t, ancestors + [d]);
    FindAllOfOne(d, ancestors, SearchMatch);
  }

  /** A container of three items whose markers are known. */
  lemma ThreeItemMarkers(r: Node, d1: Node, d2: Node, d3: Node, x: Visit, y: Visit, z: Visit)
    requires r.Element? && r.children == [d1] + [d2, d3] && !Selects(SearchMatch, r)
    requires FindAll([d1], [r], SearchMatch) == [x]
    requires FindAll([d2], [r], SearchMatch) == [y]
    requires FindAll([d3], [r], SearchMatch) == [z]
    ensures FindAll([r], [], SearchMatch) == [x, y, z]
  {
    FindAllAppend([d2], [d3], [r], SearchMatch);
    FindAllAppend([d1], [d2, d3], [r], SearchMatch);
    var none: seq<Node> := [];
    assert none + [r] == [r];
    FindAllOfOne(r, none, SearchMatch);
  }

  /** Three markers, the middle one outside any link. */
  lemma UrlsOfThree(x: Visit, y: Visit, z: Visit, ux: string, uz: string)
    requires ParentIsAnchor(x) && UrlOfLink(x) == Success(ux)
    requires !ParentIsAnchor(y)
    requires ParentIsAnchor(z) && UrlOfLink(z) == Success(uz)
    ensures UrlsOfMarkers([x, y, z]) == Success([ux, uz])
  {
    AnchoredOfThree(x, y, z);
    UrlsOfTwoLinks(x, z, ux, uz);
  }

  lemma AnchoredOfThree(x: Visit, y: Visit, z: Visit)
    requires ParentIsAnchor(x) && !ParentIsAnchor(y) && ParentIsAnchor(z)
    ensures AnchoredMarkers([x, y, z]) == [x, z]
  {
    var none: seq<Visit> := [];
    assert AnchoredMarkers(none) == [];
    assert [z][1..] == none;
    assert [y, z][1..] == [z];
    assert [x, y, z][1..] == [y, z];
  }

  lemma UrlsOfTwoLinks(x: Visit, z: Visit, ux: string, uz: string)
    requires UrlOfLink(x) == Success(ux) && UrlOfLink(z) == Success(uz)
    ensures MapAll([x, z], UrlOfLink) == Success([ux, uz])
  {
    MapAllOfTwo(x, z, UrlOfLink, ux, uz);
  }

  lemma MapAllOfTwo<X, T, E>(x: X, y: X, f: X -> Result<T, E>, a: T, b: T)
    requires f(x) == Success(a) && f(y) == Success(b)
    ensures MapAll([x, y], f) == Success([a, b])
  {
    var xs := [x, y];
    var r := MapAll(xs, f);
    assert xs[0] == x && xs[1] == y;
    assert r.Success? && |r.value| == 2;
    assert r.value[0] == a && r.value[1] == b;
    assert r.value == [a, b];
  }

  lemma MapAllOfThree<X, T, E>(x: X, y: X, z: X, f: X -> Result<T, E>, a: T, b: T, c: T)
    requires f(x) == Success(a) && f(y) == Success(b) && f(z) == Success(c)
    ensures MapAll([x, y, z], f) == Success([a, b, c])
  {
    var xs := [x, y, z];
    var r := MapAll(xs, f);
    assert xs[0] == x && xs[1] == y && xs[2] == z;
    assert r.Success? && |r.value| == 3;
    assert r.value[0] == a && r.value[1] == b && r.value[2] == c;
    assert r.value == [a, b, c];
  }

  // ---------------------------------------------------------------------
  // The search page of test_extract_urls

  /** Two repository titles around a code match, inside the results list,
      and a marker in the page header outside it. */
  const Title1 := Element("div", [("class", "search-title")], ["search-title"], [Title1Link])
  const Title1Link := Link("/atuldjadhav/DropBox-Cloud-Storage", [Marker("DropBox")] + [Text("-Cloud-Storage")])
  const CodeMatch := Element("div", [("class", "code-match")], ["code-match"], [Marker("dropbox")])
  const Title2 := Element("div", [("class", "search-title")], ["search-title"], [Title2Link])
  const Title2Link := Link("/michealbalogun/Horizon-dashboard", [Marker("Horizon")] + [Text("-dashboard")])
  const ResultsDiv := Element("div", [("data-testid", "results-list")], [], [Title1] + [CodeMatch, Title2])
  const Header := Element("header", [], [], [Link("/features", [Marker("Features")])])
  const Body := Element("body", [], [], [Header, ResultsDiv])
  const SearchPage := [Element("html", [], [], [Body])]

  lemma SearchPageStrained()
    ensures Strain(SearchPage, ResultsList) == [ResultsDiv]
  {
    var span := Marker("Features");
    var anchor := Link("/features", [span]);
    assert Strain([Text("Features")], ResultsList) == [];
    assert !Matches(ResultsList, span);
    assert Strain([span], ResultsList) == Strain(span.children, ResultsList) + Strain([], ResultsList);
    assert Strain([span], ResultsList) == [];
    assert Get(anchor.attrs, "data-testid") == None;
    assert !Matches(ResultsList, anchor);
    assert Strain([anchor], ResultsList) == [];
    assert !Matches(ResultsList, Header);
    assert Strain([Header], ResultsList) == [];
    assert Get(ResultsDiv.attrs, "data-testid") == Some("results-list");
    assert Matches(ResultsList, ResultsDiv);
    assert Strain([ResultsDiv], ResultsList) == [ResultsDiv];
    assert [Header, ResultsDiv][1..] == [ResultsDiv];
    assert Strain([Header, ResultsDiv], ResultsList) == [ResultsDiv];
    assert Strain([Body], ResultsList) == Strain(Body.children, ResultsList) + Strain([], ResultsList);
    assert Strain(SearchPage, ResultsList) == Strain([Body], ResultsList) + Strain([], ResultsList);
  }

  const Marker1 := Visit(Marker("DropBox"), [ResultsDiv, Title1, Title1Link])
  const Marker2 := Visit(Marker("dropbox"), [ResultsDiv, CodeMatch])
  const Marker3 := Visit(Marker("Horizon"), [ResultsDiv, Title2, Title2Link])

  lemma SearchPageMarkers()
    ensures Markers(SearchPage) == [Marker1, Marker2, Marker3]
  {
    SearchPageStrained();
    var r := [ResultsDiv];
    TitleMarkers(Title1, Title1Link, "DropBox", Text("-Cloud-Storage"), r);
    CodeMatchMarkers(CodeMatch, "dropbox", r);
    TitleMarkers(Title2, Title2Link, "Horizon", Text("-dashboard"), r);
    assert r + [Title1, Title1Link] == Marker1.ancestors;
    assert r + [CodeMatch] == Marker2.ancestors;
    assert r + [Title2, Title2Link] == Marker3.ancestors;
    ThreeItemMarkers(ResultsDiv, Title1, CodeMatch, Title2, Marker1, Marker2, Marker3);
  }

  /** `test_extract_urls`: the two repository links of the results list, in
      page order; the code match (not inside a link) and the header marker
      (outside the results list) give nothing. */
  lemma ExtractUrlsOfSearchPage()
    ensures ExtractUrls(SearchPage) == Success([
      BaseUrl + "/atuldjadhav/DropBox-Cloud-Storage",
      BaseUrl + "/michealbalogun/Horizon-dashboard"])
  {
    SearchPageMarkers();
    assert HrefOfParent(Marker1) == Some("/atuldjadhav/DropBox-Cloud-Storage");
    assert HrefOfParent(Marker3) == Some("/michealbalogun/Horizon-dashboard");
    assert !ParentIsAnchor(Marker2);
    UrlsOfThree(Marker1, Marker2, Marker3,
      BaseUrl + "/atuldjadhav/DropBox-Cloud-Storage", BaseUrl + "/michealbalogun/Horizon-dashboard");
  }
  // ---------------------------------------------------------------------
  // The repository page of test_extract_extra_info

  /** A span holding one string. */
  function LabelSpan(t: string): Node {
    Element("span", [], [], [Text(t)])
  }

  /** A language entry of the sidebar: a list item holding a link whose two
      spans give the language and its share. */
  function LanguageLink(lang: string, share: string): Node {
    Element("a", [], [], [LabelSpan(lang)] + [LabelSpan(share)])
  }

  function LanguageItem(lang: string, share: string): Node {
    Element("li", [("class", "d-inline")], ["d-inline"], [LanguageLink(lang, share)])
  }

  lemma SpanFinds(t: string, ancestors: seq<Node>, sel: Selector)
    ensures FindAll([LabelSpan(t)], ancestors, sel)
      == (if Selects(sel, LabelSpan(t)) then [Visit(LabelSpan(t), ancestors)] else [])
       + (if Selects(sel, Text(t)) then [Visit(Text(t), ancestors + [LabelSpan(t)])] else [])
  {
    FindAllOfOne(LabelSpan(t), ancestors, sel);
    FindAllOfOne(Text(t), ancestors + [LabelSpan(t)], sel);
    var none: seq<Node> := [];
    assert FindAll(none, ancestors + [LabelSpan(t)] + [Text(t)], sel) == [];
  }

  lemma LinkFinds(lang: string, share: string, ancestors: seq<Node>, sel: Selector)
    requires !Selects(sel, LanguageLink(lang, share))
    ensures var inner := ancestors + [LanguageLink(lang, share)];
      FindAll([LanguageLink(lang, share)], ancestors, sel)
        == FindAll([LabelSpan(lang)], inner, sel) + FindAll([LabelSpan(share)], inner, sel)
  {
    var link := LanguageLink(lang, share);
    FindAllOfOne(link, ancestors, sel);
    FindAllAppend([LabelSpan(lang)], [LabelSpan(share)], ancestors + [link], sel);
  }

  /** The `.text` of a span holding one string is that string. */
  lemma TextOfLabel(t: string)
    ensures TextOf(LabelSpan(t)) == t
  {
    DescendantsOfOne(Text(t), [LabelSpan(t)]);
    var none: seq<Node> := [];
    assert Descendants(none, [LabelSpan(t), Text(t)]) == [];
    var vs := [Visit(Text(t), [LabelSpan(t)])];
    assert Descendants([Text(t)], [LabelSpan(t)]) == vs;
    assert HtmlTree.Strings(vs) == t + HtmlTree.Strings(vs[1..]);
  }

  /** A language entry gives the row (language, share). */
  lemma RowOfItem(lang: string, share: string, ancestors: seq<Node>)
    ensures RowOf(Visit(LanguageItem(lang, share), ancestors)) == Success((lang, share))
  {
    var li := LanguageItem(lang, share);
    var link := LanguageLink(lang, share);
    var inner := ancestors + [li] + [link];
    LinkFinds(lang, share, ancestors + [li], Span);
    SpanFinds(lang, inner, Span);
    SpanFinds(share, inner, Span);
    TextOfLabel(lang);
    TextOfLabel(share);
  }

  /** A language entry is the only list item in itself. */
  lemma ItemFindsItself(lang: string, share: string, ancestors: seq<Node>)
    ensures FindAll([LanguageItem(lang, share)], ancestors, ListItem) == [Visit(LanguageItem(lang, share), ancestors)]
  {
    var li := LanguageItem(lang, share);
    var link := LanguageLink(lang, share);
    var inner := ancestors + [li] + [link];
    FindAllOfOne(li, ancestors, ListItem);
    LinkFinds(lang, share, ancestors + [li], ListItem);
    SpanFinds(lang, inner, ListItem);
    SpanFinds(share, inner, ListItem);
  }

  const CssItem := LanguageItem("CSS", "52.0%")
  const JsItem := LanguageItem("JavaScript", "47.2%")
  const HtmlItem := LanguageItem("HTML", "0.8%")
  const LanguageList := Element("ul", [("class", "list-style-none")], ["list-style-none"], [CssItem] + [JsItem, HtmlItem])
  const Heading := Element("h2", [("class", "h4 mb-3")], ["h4", "mb-3"], [Text("Languages")])
  const LanguagesCell := Element("div", [("class", "BorderGrid-cell")], ["BorderGrid-cell"], [Heading] + [LanguageList])
  const SidebarDiv := Element("div", [("class", "Layout-sidebar")], ["Layout-sidebar"], [LanguagesCell])
  const MainDiv := Element("div", [("class", "Layout-main")], ["Layout-main"], [Text("README")])
  const RepositoryPage := [Element("html", [], [], [Element("body", [], [], [MainDiv, SidebarDiv])])]

  /** The chain of elements above the cell's children. */
  const CellChain := [SidebarDiv, LanguagesCell]

  lemma RepositoryPageStrained()
    ensures Strain(RepositoryPage, Sidebar) == [SidebarDiv]
  {
    var body := Element("body", [], [], [MainDiv, SidebarDiv]);
    assert Strain([Text("README")], Sidebar) == [];
    assert !Matches(Sidebar, MainDiv);
    assert Strain([MainDiv], Sidebar) == Strain(MainDiv.children, Sidebar) + Strain([], Sidebar);
    assert Strain([MainDiv], Sidebar) == [];
    assert Matches(Sidebar, SidebarDiv);
    assert Strain([SidebarDiv], Sidebar) == [SidebarDiv];
    assert [MainDiv, SidebarDiv][1..] == [SidebarDiv];
    assert Strain([MainDiv, SidebarDiv], Sidebar) == [SidebarDiv];
    assert Strain([body], Sidebar) == Strain(body.children, Sidebar) + Strain([], Sidebar);
    assert Strain(RepositoryPage, Sidebar) == Strain([body], Sidebar) + Strain([], Sidebar);
  }

  /** The "Languages" string is the first match of `find(string=…)`. */
  lemma HeadingFound()
    ensures Find([SidebarDiv], [], LanguagesHeading) == Some(Visit(Text("Languages"), CellChain + [Heading]))
  {
    var none: seq<Node> := [];
    assert none + [SidebarDiv] == [SidebarDiv];
    assert [SidebarDiv] + [LanguagesCell] == CellChain;
    FindAllOfOne(SidebarDiv, none, LanguagesHeading);
    FindAllOfOne(LanguagesCell, [SidebarDiv], LanguagesHeading);
    FindAllAppend([Heading], [LanguageList], CellChain, LanguagesHeading);
    FindAllOfOne(Heading, CellChain, LanguagesHeading);
    FindAllOfOne(Text("Languages"), CellChain + [Heading], LanguagesHeading);
    assert FindAll(none, CellChain + [Heading] + [Text("Languages")], LanguagesHeading) == [];
  }

  /** The list items under the heading's grandparent, in page order. */
  lemma ItemsUnderHeading()
    ensures FindAll(ChildrenOf(LanguagesCell), CellChain, ListItem)
      == [Visit(CssItem, CellChain + [LanguageList]), Visit(JsItem, CellChain + [LanguageList]), Visit(HtmlItem, CellChain + [LanguageList])]
  {
    var inner := CellChain + [LanguageList];
    FindAllAppend([Heading], [LanguageList], CellChain, ListItem);
    FindAllOfOne(Heading, CellChain, ListItem);
    LeafFindsNothing(Text("Languages"), CellChain + [Heading], ListItem);
    FindAllOfOne(LanguageList, CellChain, ListItem);
    FindAllAppend([CssItem], [JsItem, HtmlItem], inner, ListItem);
    FindAllAppend([JsItem], [HtmlItem], inner, ListItem);
    ItemFindsItself("CSS", "52.0%", inner);
    ItemFindsItself("JavaScript", "47.2%", inner);
    ItemFindsItself("HTML", "0.8%", inner);
  }

  /** Three rows with distinct languages build the dict listing them in
      page order. */
  lemma StatsOfThreeItems(x: Visit, y: Visit, z: Visit, rx: (string, string), ry: (string, string), rz: (string, string))
    requires RowOf(x) == Success(rx) && RowOf(y) == Success(ry) && RowOf(z) == Success(rz)
    requires rx.0 != ry.0 && rx.0 != rz.0 && ry.0 != rz.0
    ensures LanguageStats([x, y, z]) == Success([rx, ry, rz])
  {
    MapAllOfThree(x, y, z, RowOf, rx, ry, rz);
    assert Keys([rx, ry, rz]) == [rx.0, ry.0, rz.0];
    FromPairsDistinct([rx, ry, rz]);
  }

  /** The statistics gathered under the grandparent of the heading. */
  lemma StatsOfRepositoryPage()
    ensures StatsUnderHeading([SidebarDiv], Visit(Text("Languages"), CellChain + [Heading]))
      == Success([("CSS", "52.0%"), ("JavaScript", "47.2%"), ("HTML", "0.8%")])
  {
    var v := Visit(Text("Languages"), CellChain + [Heading]);
    assert v.ancestors[..|v.ancestors| - 1] == CellChain;
    ItemsUnderHeading();
    var inner := CellChain + [LanguageList];
    RowOfItem("CSS", "52.0%", inner);
    RowOfItem("JavaScript", "47.2%", inner);
    RowOfItem("HTML", "0.8%", inner);
    StatsOfThreeItems(Visit(CssItem, inner), Visit(JsItem, inner), Visit(HtmlItem, inner),
      ("CSS", "52.0%"), ("JavaScript", "47.2%"), ("HTML", "0.8%"));
  }

  const RepositoryUrl := BaseUrl + "/" + "AKrekhovetskyi" + "/" + "github-search"

  lemma OwnerOfExample()
    ensures OwnerOf(RepositoryUrl) == Success("AKrekhovetskyi")
  {
    OwnerOfRepositoryUrl("AKrekhovetskyi", "github-search");
  }

  /** The result of `extract_extra_info` once its steps are known: an owner,
      a heading with an element for a grandparent, and the statistics. */
  lemma ExtraInfoOfSteps(url: string, page: seq<Node>, owner: string, v: Visit, stats: OrderedMap<string, string>)
    requires OwnerOf(url) == Success(owner)
    requires Find(Strain(page, Sidebar), [], LanguagesHeading) == Some(v)
    requires |v.ancestors| >= 2
    requires StatsUnderHeading(Strain(page, Sidebar), v) == Success(stats)
    ensures ExtractExtraInfo(url, page) == Success(Some(Extra(owner, stats)))
  {
  }

  /** `test_extract_extra_info`: the owner from the URL and the three
      languages of the sidebar with their shares, in page order. */
  lemma ExtractExtraInfoOfRepositoryPage()
    ensures ExtractExtraInfo(RepositoryUrl, RepositoryPage)
      == Success(Some(Extra("AKrekhovetskyi", [("CSS", "52.0%"), ("JavaScript", "47.2%"), ("HTML", "0.8%")])))
  {
    OwnerOfExample();
    RepositoryPageStrained();
    HeadingFound();
    StatsOfRepositoryPage();
    ExtraInfoOfSteps(RepositoryUrl, RepositoryPage, "AKrekhovetskyi", Visit(Text("Languages"), CellChain + [Heading]),
      [("CSS", "52.0%"), ("JavaScript", "47.2%"), ("HTML", "0.8%")]);
  }

  /** A sidebar carrying a second class: the strainer compares the whole
      `class` string, so the sidebar is dropped and no extra information is
      found, though the `Tag` it would become has `Layout-sidebar` among its
      classes. */
  const WideSidebarDiv := Element("div", [("class", "Layout-sidebar wide")], ["Layout-sidebar", "wide"], [Heading])

  lemma WideSidebarIsNotKept()
    ensures "Layout-sidebar" in WideSidebarDiv.classes
    ensures ExtractExtraInfo(RepositoryUrl, [WideSidebarDiv]) == Success(None)
  {
    assert !Matches(Sidebar, WideSidebarDiv);
    assert Strain([Text("Languages")], Sidebar) == [];
    assert Strain([Heading], Sidebar) == Strain(Heading.children, Sidebar) + Strain([], Sidebar);
    assert Strain([WideSidebarDiv], Sidebar) == Strain(WideSidebarDiv.children, Sidebar) + Strain([], Sidebar);
    assert Strain([WideSidebarDiv], Sidebar) == [];
    OwnerOfExample();
    var none: seq<Node> := [];
    assert FindAll(none, [], LanguagesHeading) == [];
  }
}
