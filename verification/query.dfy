/** `RequestParams` of src/scraper.py: the search keywords, the proxy list and
    the search type, and the query-parameter dict sent to the search page. */
module Query {
  import opened Wrappers
  import opened OrderedMaps
  import Strings
  import UrlEncoding

  /** The dataclass. `searchType` is the field `type`; its `Literal`
      annotation is not enforced at run time, so any string passes through. */
  datatype RequestParams = RequestParams(keywords: seq<string>, proxies: seq<string>, searchType: string)

  /** The default of the `type` field. */
  const DefaultSearchType := "repositories"

  /** Constructing the dataclass with `type` given or left to its default. */
  function NewRequestParams(keywords: seq<string>, proxies: seq<string>, searchType: Option<string>): (p: RequestParams)
    ensures p.keywords == keywords && p.proxies == proxies
    ensures searchType.None? ==> p.searchType == "repositories"
    ensures searchType.Some? ==> p.searchType == searchType.value
  {
    match searchType
    case None => RequestParams(keywords, proxies, DefaultSearchType)
    case Some(t) => RequestParams(keywords, proxies, t)
  }

  /** `RequestParams.to_dict`: exactly the keys `q` and `type`, in that
      order; `q` is the keywords joined by single spaces and form-encoded,
      so it holds no space and decodes back to the joined keywords. */
  function ToDict(p: RequestParams): (d: OrderedMap<string, string>)
    ensures Keys(d) == ["q", "type"]
    ensures Get(d, "type") == Some(p.searchType)
    ensures Get(d, "q").Some?
    ensures ' ' !in Get(d, "q").value
    ensures UrlEncoding.UnquotePlus(Get(d, "q").value) == Some(Strings.Join(p.keywords, ' '))
  {
    var joined := Strings.Join(p.keywords, ' ');
    UrlEncoding.QuotePlusRoundTrip(joined);
    [("q", UrlEncoding.QuotePlus(joined)), ("type", p.searchType)]
  }

  /** The encoded query: the value of `q`. */
  function QueryOf(p: RequestParams): string {
    Get(ToDict(p), "q").value
  }

  /** When every keyword is made only of unreserved characters, `q` is the
      keywords joined by `+`. */
  lemma {:induction false} QueryOfUnreservedKeywords(p: RequestParams)
    requires forall i, j :: 0 <= i < |p.keywords| && 0 <= j < |p.keywords[i]| ==>
      UrlEncoding.IsUnreserved(p.keywords[i][j])
    ensures QueryOf(p) == Strings.Join(p.keywords, '+')
  {
    var joined := Strings.Join(p.keywords, ' ');
    JoinOfUnreserved(p.keywords);
    UrlEncoding.QuotePlusOfUnreserved(joined);
    ReplaceInJoin(p.keywords);
  }

  /** A join by spaces of unreserved words holds only unreserved characters
      and spaces. */
  lemma {:induction false} JoinOfUnreserved(words: seq<string>)
    requires forall i, j :: 0 <= i < |words| && 0 <= j < |words[i]| ==> UrlEncoding.IsUnreserved(words[i][j])
    ensures forall k :: 0 <= k < |Strings.Join(words, ' ')| ==>
      UrlEncoding.IsUnreserved(Strings.Join(words, ' ')[k]) || Strings.Join(words, ' ')[k] == ' '
  {
    if |words| > 1 {
      JoinOfUnreserved(words[1..]);
      var s := Strings.Join(words, ' ');
      var tail := Strings.Join(words[1..], ' ');
      assert s == words[0] + [' '] + tail;
      forall k | 0 <= k < |s|
        ensures UrlEncoding.IsUnreserved(s[k]) || s[k] == ' '
      {
        if k < |words[0]| {
          assert s[k] == words[0][k];
        } else if k > |words[0]| {
          assert s[k] == tail[k - |words[0]| - 1];
        }
      }
    }
  }

  /** Replacing the separator of a join of space-free words re-joins them
      with the new separator. */
  lemma {:induction false} ReplaceInJoin(words: seq<string>)
    requires forall i, j :: 0 <= i < |words| && 0 <= j < |words[i]| ==> words[i][j] != ' '
    ensures Strings.ReplaceChar(Strings.Join(words, ' '), ' ', '+') == Strings.Join(words, '+')
  {
    if |words| == 1 {
      assert Strings.ReplaceChar(words[0], ' ', '+') == words[0];
    } else if |words| > 1 {
      ReplaceInJoin(words[1..]);
      var s := Strings.Join(words, ' ');
      var tail := Strings.Join(words[1..], ' ');
      assert s == words[0] + [' '] + tail;
      var r := Strings.ReplaceChar(s, ' ', '+');
      var expected := words[0] + ['+'] + Strings.ReplaceChar(tail, ' ', '+');
      assert |r| == |expected|;
      forall k | 0 <= k < |r|
        ensures r[k] == expected[k]
      {
        if k < |words[0]| {
          assert s[k] == words[0][k];
        } else if k > |words[0]| {
          assert s[k] == tail[k - |words[0]| - 1];
        }
      }
    }
  }

  /** When no keyword holds a space and there is at least one, decoding `q`
      and splitting it on spaces recovers the keyword list. */
  lemma QueryRecoversKeywords(p: RequestParams)
    requires |p.keywords| > 0
    requires forall i :: 0 <= i < |p.keywords| ==> ' ' !in p.keywords[i]
    ensures UrlEncoding.UnquotePlus(QueryOf(p)).Some?
    ensures Strings.Split(UrlEncoding.UnquotePlus(QueryOf(p)).value, ' ') == p.keywords
  {
    Strings.SplitJoin(p.keywords, ' ');
  }

  /** The search parameters of the test suite: three keywords and the
      default type. */
  lemma ToDictExample(p: RequestParams)
    requires p == NewRequestParams(["python", "django-rest-framework", "jwt"], [], None)
    ensures QueryOf(p) == "python" + "+" + "django-rest-framework" + "+" + "jwt"
    ensures Get(ToDict(p), "type") == Some("repositories")
  {
    ExampleQueryIsPlusJoin(p);
    ExampleJoin(p.keywords);
  }

  lemma ExampleQueryIsPlusJoin(p: RequestParams)
    requires p == NewRequestParams(["python", "django-rest-framework", "jwt"], [], None)
    ensures QueryOf(p) == Strings.Join(p.keywords, '+')
  {
    var words := p.keywords;
    assert forall j :: 0 <= j < |words[0]| ==> UrlEncoding.IsUnreserved(words[0][j]);
    assert forall j :: 0 <= j < |words[1]| ==> UrlEncoding.IsUnreserved(words[1][j]);
    assert forall j :: 0 <= j < |words[2]| ==> UrlEncoding.IsUnreserved(words[2][j]);
    QueryOfUnreservedKeywords(p);
  }

  lemma ExampleJoin(words: seq<string>)
    requires words == ["python", "django-rest-framework", "jwt"]
    ensures Strings.Join(words, '+') == "python" + "+" + "django-rest-framework" + "+" + "jwt"
  {
    assert words[2..] == ["jwt"];
    assert words[1..] == ["django-rest-framework", "jwt"];
    assert Strings.Join(words[1..], '+') == "django-rest-framework" + "+" + "jwt";
  }
}
