/** The proxy branch of `GitHub.request_page_html` (src/scraper.py): pick one
    proxy from the list, give it an `http://` scheme unless it already starts
    with `http`, and install it for both the `http` and the `https` transport. */
module Proxies {
  import opened Wrappers
  import opened OrderedMaps
  import opened Strings

  const DefaultScheme := "http://"

  /** The scheme fix-up. The test is a plain prefix test on `http`, so
      `https://…` is kept as it is, and so is a host name that merely begins
      with those four letters. */
  function Normalise(proxy: string): (r: string)
    ensures StartsWith(r, "http")
    ensures r == proxy <==> StartsWith(proxy, "http")
    ensures r != proxy ==> r == DefaultScheme + proxy
  {
    if StartsWith(proxy, "http") then proxy else DefaultScheme + proxy
  }

  /** Normalising twice is normalising once. */
  lemma NormaliseIdempotent(proxy: string)
    ensures Normalise(Normalise(proxy)) == Normalise(proxy)
  {
  }

  /** The proxies dict handed to the session: both slots carry the same
      normalised address. */
  function ProxyConfig(proxy: string): (cfg: OrderedMap<string, string>)
    ensures Keys(cfg) == ["http", "https"]
    ensures Get(cfg, "http") == Get(cfg, "https") == Some(Normalise(proxy))
  {
    [("http", Normalise(proxy)), ("https", Normalise(proxy))]
  }

  /** `choice(proxies)` followed by the fix-up, or no proxy at all for an
      empty list. `pick` stands for the random draw: any natural number
      selects the member at `pick % |proxies|`, so every member can be
      chosen and nothing else can. */
  function SelectProxy(proxies: seq<string>, pick: nat): (cfg: Option<OrderedMap<string, string>>)
    ensures cfg.None? <==> |proxies| == 0
    ensures cfg.Some? ==> exists i :: 0 <= i < |proxies| && cfg.value == ProxyConfig(proxies[i])
  {
    if |proxies| == 0 then None
    else
      var i := pick % |proxies|;
      Some(ProxyConfig(proxies[i]))
  }

  /** Each member of a non-empty list is the one chosen for some draw. */
  lemma EveryProxyCanBeChosen(proxies: seq<string>, i: nat)
    requires i < |proxies|
    ensures SelectProxy(proxies, i) == Some(ProxyConfig(proxies[i]))
  {
  }

  /** The three proxy cases of the test suite: a bare address gains the
      `http://` scheme, and scheme-prefixed addresses are kept as given. */
  lemma NormaliseExamples()
    ensures Normalise("194.126.37.94:8080") == DefaultScheme + "194.126.37.94:8080"
    ensures Normalise("http://194.126.37.94:8080") == "http://194.126.37.94:8080"
    ensures Normalise("https://194.126.37.94:8080") == "https://194.126.37.94:8080"
  {
    assert !StartsWith("194.126.37.94:8080", "http") by {
      assert "194.126.37.94:8080"[0] == '1';
    }
    assert StartsWith("http://194.126.37.94:8080", "http") by {
      assert "http://194.126.37.94:8080"[..4] == "http";
    }
    assert StartsWith("https://194.126.37.94:8080", "http") by {
      assert "https://194.126.37.94:8080"[..4] == "http";
    }
  }

  /** A host name beginning with `http` receives no scheme. */
  lemma HttpNamedHostKeepsNoScheme()
    ensures Normalise("httpbin.local:3128") == "httpbin.local:3128"
  {
    assert StartsWith("httpbin.local:3128", "http");
  }

  /** The proxies dict the test suite expects (tests/test_scraper.py): one
      slot only, `https` for an `https` address and `http` otherwise. This is
      not what the code installs. */
  function TestExpectedConfig(proxy: string): (cfg: OrderedMap<string, string>)
    ensures |cfg| == 1
    ensures StartsWith(Normalise(proxy), "https") <==> Keys(cfg) == ["https"]
  {
    var n := Normalise(proxy);
    if StartsWith(n, "https") then [("https", n)] else [("http", n)]
  }

  /** The code's two-slot dict never equals the one-slot dict the tests
      expect. */
  lemma InstalledConfigDiffersFromTests(proxy: string)
    ensures ProxyConfig(proxy) != TestExpectedConfig(proxy)
  {
    assert |ProxyConfig(proxy)| == 2;
  }
}
