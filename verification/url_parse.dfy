/** The part of Python's `urllib.parse.urlparse` that `extract_extra_info`
    uses: the path of a URL. Follows `urlsplit` step by step (leading C0
    control and space characters stripped, tab/CR/LF removed, scheme,
    `//netloc`, `#fragment`, `?query`) and then `urlparse`'s `;params`
    split of the last path segment. */
module UrlParse {
  import opened Wrappers
  import opened Errors
  import opened Strings

  /** `_WHATWG_C0_CONTROL_OR_SPACE`. */
  predicate IsC0OrSpace(c: char) {
    c as int <= 0x20
  }

  /** `url.lstrip(_WHATWG_C0_CONTROL_OR_SPACE)`. */
  function StripLeading(s: string): (r: string)
    ensures |r| <= |s| && r == s[|s| - |r|..]
    ensures |r| > 0 ==> !IsC0OrSpace(r[0])
  {
    if |s| > 0 && IsC0OrSpace(s[0]) then StripLeading(s[1..]) else s
  }

  /** Removal of `_UNSAFE_URL_BYTES_TO_REMOVE`: tab, CR and LF. */
  function RemoveUnsafe(s: string): (r: string)
    ensures forall i :: 0 <= i < |r| ==> r[i] !in "\t\r\n"
  {
    if |s| == 0 then ""
    else (if s[0] in "\t\r\n" then "" else [s[0]]) + RemoveUnsafe(s[1..])
  }

  predicate IsAsciiLetter(c: char) {
    'a' <= c <= 'z' || 'A' <= c <= 'Z'
  }

  /** `scheme_chars`. */
  predicate IsSchemeChar(c: char) {
    IsAsciiLetter(c) || '0' <= c <= '9' || c == '+' || c == '-' || c == '.'
  }

  function LowerAscii(s: string): (r: string)
    ensures |r| == |s|
  {
    seq(|s|, i requires 0 <= i < |s| => if 'A' <= s[i] <= 'Z' then (s[i] as int + 32) as char else s[i])
  }

  /** The scheme and what follows its colon, or no scheme and the whole
      text when the part before the first colon is not a valid scheme. */
  function SplitScheme(url: string): (r: (string, string))
    ensures r.0 == "" ==> r.1 == url
  {
    var i := Find(url, ':');
    if i > 0 && IsAsciiLetter(url[0]) && forall k :: 0 <= k < i ==> IsSchemeChar(url[k])
    then (LowerAscii(url[..i]), url[i + 1..])
    else ("", url)
  }

  /** The first index at or after `start` of any of `/`, `?`, `#`, or the
      length of the text. */
  function NetlocEnd(url: string, start: nat): (e: nat)
    requires start <= |url|
    ensures start <= e <= |url|
    ensures forall k :: start <= k < e ==> url[k] !in "/?#"
    ensures e < |url| ==> url[e] in "/?#"
    decreases |url| - start
  {
    if start == |url| || url[start] in "/?#" then start else NetlocEnd(url, start + 1)
  }

  /** `s.split(c, 1)[0]`: the text before the first `c`. */
  function Before(s: string, c: char): (r: string)
    ensures |r| <= |s| && r == s[..|r|]
    ensures c !in r
    ensures c !in s ==> r == s
  {
    var i := Find(s, c);
    if i == -1 then s else s[..i]
  }

  /** The schemes of `uses_params`. */
  const UsesParams: seq<string> := ["", "ftp", "hdl", "prospero", "http", "imap", "https", "shttp",
    "rtsp", "rtsps", "rtspu", "sip", "sips", "mms", "sftp", "tel"]

  /** `_splitparams(path)[0]`: the path without a `;params` part of its last
      segment, or, when the path has no `/`, without everything from the
      first `;`. */
  function DropParams(path: string): (r: string)
    ensures |r| <= |path| && r == path[..|r|]
  {
    var slash := LastIndex(path, '/');
    if slash == -1 then Before(path, ';')
    else
      var semi := Find(path[slash..], ';');
      if semi == -1 then path else path[..slash + semi]
  }

  /** `str.rfind` for one character. */
  function LastIndex(s: string, c: char): (i: int)
    ensures -1 <= i < |s|
    ensures i == -1 <==> c !in s
    ensures 0 <= i ==> s[i] == c && c !in s[i + 1..]
  {
    if |s| == 0 then -1
    else if s[|s| - 1] == c then |s| - 1
    else
      assert s[..|s| - 1] + [s[|s| - 1]] == s;
      LastIndex(s[..|s| - 1], c)
  }

  /** The leading clean-up of `urlsplit`. */
  function Clean(url: string): string {
    RemoveUnsafe(StripLeading(url))
  }

  /** `_splitnetloc(url, 2)` when the text starts with `//`: the network
      location up to the first `/`, `?` or `#`, and what follows it. */
  function SplitNetloc(s: string): (r: (string, string))
  {
    if |s| >= 2 && s[..2] == "//" then
      var e := NetlocEnd(s, 2);
      (s[2..e], s[e..])
    else ("", s)
  }

  /** The path once fragment and query are cut off, and the `;params` split
      applied for the schemes that use it. */
  function PathPart(scheme: string, rest: string): (path: string)
    ensures '#' !in path && '?' !in path
  {
    var path := Before(Before(rest, '#'), '?');
    var kept := if scheme in UsesParams && ';' in path then DropParams(path) else path;
    assert forall c :: c in kept ==> c in path;
    kept
  }

  /** `urlparse(url).path`, or the `ValueError` raised for a netloc with
      exactly one of `[` and `]`. */
  function UrlPath(url: string): (r: Result<string, Error>)
    ensures r.Success? ==> '#' !in r.value && '?' !in r.value
  {
    var (scheme, afterScheme) := SplitScheme(Clean(url));
    var (netloc, rest) := SplitNetloc(afterScheme);
    if ('[' in netloc) != (']' in netloc) then Failure(ValueError("Invalid IPv6 URL"))
    else Success(PathPart(scheme, rest))
  }

  /** Text with no tab, CR or LF loses nothing to the removal. */
  lemma {:induction false} RemoveUnsafeKeeps(s: string)
    requires forall i :: 0 <= i < |s| ==> s[i] !in "\t\r\n"
    ensures RemoveUnsafe(s) == s
  {
    if |s| > 0 {
      RemoveUnsafeKeeps(s[1..]);
      assert s == [s[0]] + s[1..];
    }
  }

  /** The path of `scheme://host` followed by an absolute path free of
      `?`, `#`, `;`, tab, CR and LF is that path, for a lower-case scheme
      and a host free of `/?#[]:` and of those control characters. */
  lemma PathOfAbsoluteUrl(scheme: string, host: string, path: string)
    requires |scheme| > 0 && IsAsciiLetter(scheme[0])
    requires forall i :: 0 <= i < |scheme| ==> IsSchemeChar(scheme[i]) && !('A' <= scheme[i] <= 'Z')
    requires forall i :: 0 <= i < |host| ==> host[i] !in "/?#[]:\t\r\n"
    requires |path| > 0 && path[0] == '/'
    requires forall i :: 0 <= i < |path| ==> path[i] !in "?#;\t\r\n"
    ensures UrlPath(scheme + "://" + host + path) == Success(path)
  {
    var rest := "//" + host + path;
    var url := scheme + ":" + rest;
    assert url == scheme + "://" + host + path;
    assert Clean(url) == url by {
      NoControlChars(scheme, host, path);
      CleanKeeps(url);
    }
    assert SplitScheme(url) == (scheme, rest) by {
      SchemeOf(scheme, rest);
    }
    assert SplitNetloc(rest) == (host, path) by {
      NetlocOf(host, path);
    }
    assert '[' !in host && ']' !in host;
    PathPartKeeps(scheme, path);
  }

  lemma NoControlChars(scheme: string, host: string, path: string)
    requires forall i :: 0 <= i < |scheme| ==> IsSchemeChar(scheme[i])
    requires forall i :: 0 <= i < |host| ==> host[i] !in "\t\r\n"
    requires forall i :: 0 <= i < |path| ==> path[i] !in "\t\r\n"
    ensures var url := scheme + ":" + ("//" + host + path);
      forall i :: 0 <= i < |url| ==> url[i] !in "\t\r\n"
  {
    var url := scheme + ":" + ("//" + host + path);
    forall i | 0 <= i < |url|
      ensures url[i] !in "\t\r\n"
    {
      if i < |scheme| {
        assert url[i] == scheme[i];
      } else if i < |scheme| + 3 {
      } else if i < |scheme| + 3 + |host| {
        assert url[i] == host[i - |scheme| - 3];
      } else {
        assert url[i] == path[i - |scheme| - 3 - |host|];
      }
    }
  }

  lemma PathPartKeeps(scheme: string, path: string)
    requires forall i :: 0 <= i < |path| ==> path[i] !in "?#;"
    ensures PathPart(scheme, path) == path
  {
    assert '#' !in path && '?' !in path && ';' !in path;
  }

  lemma CleanKeeps(url: string)
    requires |url| > 0 && IsAsciiLetter(url[0])
    requires forall i :: 0 <= i < |url| ==> url[i] !in "\t\r\n"
    ensures Clean(url) == url
  {
    RemoveUnsafeKeeps(url);
  }

  lemma SchemeOf(scheme: string, rest: string)
    requires |scheme| > 0 && IsAsciiLetter(scheme[0])
    requires forall i :: 0 <= i < |scheme| ==> IsSchemeChar(scheme[i]) && !('A' <= scheme[i] <= 'Z')
    ensures SplitScheme(scheme + ":" + rest) == (scheme, rest)
  {
    var url := scheme + ":" + rest;
    assert url[..|scheme|] == scheme;
    assert Find(url, ':') == |scheme| by {
      assert url[|scheme|] == ':';
      assert forall k :: 0 <= k < |scheme| ==> url[k] != ':';
    }
    assert LowerAscii(scheme) == scheme;
    assert url[|scheme| + 1..] == rest;
  }

  lemma NetlocOf(host: string, path: string)
    requires forall i :: 0 <= i < |host| ==> host[i] !in "/?#"
    requires |path| > 0 && path[0] == '/'
    ensures SplitNetloc("//" + host + path) == (host, path)
  {
    var s := "//" + host + path;
    assert s[..2] == "//";
    var e := NetlocEnd(s, 2);
    assert s[2 + |host|] == '/';
    assert e == 2 + |host|;
    assert s[2..e] == host;
    assert s[e..] == path;
  }
}
