/** `GitHub.request_page_html` (src/scraper.py) without the pacing loop, the
    header bundle and the HTTP transport: the request it sends, the warning
    it logs and the body it returns. The cached session is the parameter
    `send`, a function from request to response. */
module Fetcher {
  import opened Wrappers
  import opened OrderedMaps
  import Proxies

  /** `HTTPStatus.BAD_REQUEST`. */
  const BadRequest := 400

  datatype Request = Request(
    url: string,
    params: Option<OrderedMap<string, string>>,
    proxies: Option<OrderedMap<string, string>>)

  /** What the session returns: the status, the body and the URL the request
      finally went to (`response.request.url`). */
  datatype Response = Response(statusCode: int, text: string, finalUrl: string)

  /** The warning-level log record of an error status. */
  datatype Warning = Warning(url: string, statusCode: int, params: Option<OrderedMap<string, string>>)

  datatype Fetched = Fetched(request: Request, text: string, warning: Option<Warning>)

  /** The status test of the code: strictly above 400. */
  predicate IsFlagged(statusCode: int) {
    statusCode > BadRequest
  }

  /** One call: the proxy is chosen by `pick`, the request goes out with the
      given URL and parameters, a warning is logged exactly when the status
      is above 400, and the body is returned whatever the status. The
      transport errors `requests` can raise are outside the model: `send`
      always answers. */
  function RequestPageHtml(
    url: string, proxies: seq<string>, params: Option<OrderedMap<string, string>>,
    pick: nat, send: Request -> Response): (f: Fetched)
    ensures f.request.url == url && f.request.params == params
    ensures f.request.proxies.None? <==> |proxies| == 0
    ensures f.request.proxies.Some? ==>
      exists i :: 0 <= i < |proxies| && f.request.proxies.value == Proxies.ProxyConfig(proxies[i])
    ensures f.text == send(f.request).text
    ensures f.warning.Some? <==> send(f.request).statusCode > 400
    ensures f.warning.Some? ==>
      f.warning.value == Warning(send(f.request).finalUrl, send(f.request).statusCode, params)
  {
    var request := Request(url, params, Proxies.SelectProxy(proxies, pick));
    var response := send(request);
    var warning := if IsFlagged(response.statusCode)
      then Some(Warning(response.finalUrl, response.statusCode, params))
      else None;
    Fetched(request, response.text, warning)
  }
}
