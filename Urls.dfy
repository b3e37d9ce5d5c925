/** Python 2.7's `urlparse`, as far as the program relies on it: the scheme
    tested by the selector, and the host and path `download_image` asks
    for, with the file name taken from the path. */
module Urls {
  import opened Wrappers
  import opened Text

  /** `scheme_chars`: letters, digits, `+`, `-` and `.`. */
  predicate IsSchemeChar(c: char)
  {
    'a' <= c <= 'z' || 'A' <= c <= 'Z' || IsDigit(c) || c == '+' || c == '-' || c == '.'
  }

  /** The scheme `urlsplit` splits off, and the text after it: the text
      before the first `:`, taken as it is when it reads `http`, and
      otherwise lower-cased when it is made of scheme characters and what
      follows is not a port number (empty or holding a non-digit); no
      scheme, and the whole URL, in every other case. */
  function SplitScheme(url: string): (r: (string, string))
    ensures r.0 == "" ==> r.1 == url
    ensures r.0 != "" ==>
              var i := |url| - |r.1| - 1;
              && 0 < i && IndexFrom(url, ':', 0) == i
              && r.1 == url[i + 1..] && r.0 == Lower(url[..i])
  {
    var i := IndexFrom(url, ':', 0);
    if i == |url| || i == 0 then ("", url)
    else if url[..i] == "http" then
      assert Lower(url[..i]) == "http";
      ("http", url[i + 1..])
    else if (forall m :: 0 <= m < i ==> IsSchemeChar(url[m])) && (i + 1 == |url| || !AllDigits(url[i + 1..]))
    then (Lower(url[..i]), url[i + 1..])
    else ("", url)
  }

  function Scheme(url: string): string { SplitScheme(url).0 }

  predicate IsHttp(url: string) { Scheme(url) == "http" }

  /** An `http` URL starts with `http:` in any mix of cases. Conversely, a
      URL that starts so is `http`, unless its scheme is not written `http`
      exactly and what follows the `:` is a non-empty run of digits, which
      `urlsplit` takes for a port. */
  lemma HttpSchemeMeans(url: string)
    ensures IsHttp(url) ==> |url| >= 5 && Lower(url[..5]) == "http:"
    ensures StartsWith(url, "http:") ==> IsHttp(url)
    ensures (|url| >= 5 && Lower(url[..5]) == "http:"
             && (url[..4] == "http" || |url| == 5 || !AllDigits(url[5..]))) ==> IsHttp(url)
  {
    if |url| >= 5 && Lower(url[..5]) == "http:" {
      var low := Lower(url[..5]);
      forall m | 0 <= m < 4 ensures url[m] != ':' && IsSchemeChar(url[m]) {
        assert low[m] == LowerChar(url[m]) && low[m] == "http:"[m];
      }
      assert url[4] == ':' by { assert low[4] == LowerChar(url[4]); }
      assert IndexFrom(url, ':', 0) == 4;
      assert Lower(url[..4]) == low[..4];
    }
    if IsHttp(url) {
      var i := IndexFrom(url, ':', 0);
      var low := Lower(url[..i]);
      assert |low| == i == 4;
      assert Lower(url[..5]) == low + [':'];
    }
    if StartsWith(url, "http:") {
      assert url[4] == ':';
      assert IndexFrom(url, ':', 0) == 4 by {
        assert forall m :: 0 <= m < 4 ==> url[m] == "http:"[m];
      }
      assert url[..4] == "http";
    }
  }

  /** `s.split(c, 1)` read as a pair: the text before the first `c` and the
      text after it, or `s` and `""` when `s` holds no `c`. */
  function SplitAt(s: string, c: char): (r: (string, string))
    ensures c !in r.0
    ensures c in s ==> s == r.0 + [c] + r.1
    ensures c !in s ==> r == (s, "")
  {
    var i := IndexFrom(s, c, 0);
    if i < |s| then
      assert s == s[..i] + [c] + s[i + 1..];
      (s[..i], s[i + 1..])
    else (s, "")
  }

  /** `_splitnetloc(url, 2)`: after `//`, the host runs up to the first of
      `/`, `?` or `#`, and the rest is what follows. */
  function SplitNetloc(rest: string): (r: (string, string))
    requires StartsWith(rest, "//")
    ensures rest == "//" + r.0 + r.1
    ensures '/' !in r.0 && '?' !in r.0 && '#' !in r.0
    ensures r.1 != "" ==> r.1[0] == '/' || r.1[0] == '?' || r.1[0] == '#'
  {
    var d := Min(IndexFrom(rest, '/', 2), Min(IndexFrom(rest, '?', 2), IndexFrom(rest, '#', 2)));
    assert rest == "//" + rest[2..d] + rest[d..];
    (rest[2..d], rest[d..])
  }

  function Min(a: nat, b: nat): nat { if a <= b then a else b }

  /** Where the text after the last `/` starts: one past that `/`, or 0. */
  function LastSlashEnd(path: string): (i: nat)
    ensures i <= |path|
    ensures forall m :: i <= m < |path| ==> path[m] != '/'
    ensures i > 0 ==> path[i - 1] == '/'
    decreases |path|
  {
    if path == [] then 0
    else if path[|path| - 1] == '/' then |path|
    else LastSlashEnd(path[..|path| - 1])
  }

  /** Any position that follows a `/` (or is 0) and sees no `/` after it is
      where the last segment starts. */
  lemma LastSlashEndUnique(path: string, i: nat)
    requires i <= |path|
    requires i > 0 ==> path[i - 1] == '/'
    requires forall m :: i <= m < |path| ==> path[m] != '/'
    ensures LastSlashEnd(path) == i
  {
  }

  /** `path.split('/')[-1]`. */
  function FileName(path: string): string
  {
    path[LastSlashEnd(path)..]
  }

  /** The file name is the last `/`-separated segment of the path: it holds
      no `/`, and the path is the name preceded by nothing or by a `/`. */
  lemma FileNameIsLastSegment(path: string)
    ensures '/' !in FileName(path)
    ensures EndsWith(path, FileName(path))
    ensures |FileName(path)| < |path| ==> path[|path| - |FileName(path)| - 1] == '/'
  {
    assert path[|path| - |FileName(path)|..] == FileName(path);
  }

  /** The schemes `urlparse` splits `;params` off for (`uses_params`). */
  const UsesParams: seq<string> :=
    ["", "ftp", "hdl", "prospero", "http", "imap", "https", "shttp", "rtsp", "rtspu",
     "sip", "sips", "mms", "sftp", "tel"]

  /** `_splitparams(path)`: the parameters start at the first `;` after the
      last `/` (or at the first `;` when there is no `/`); a path whose last
      segment holds no `;` has none. */
  function SplitParams(path: string): (r: (string, string))
    ensures ';' in FileName(path) ==> path == r.0 + ";" + r.1
    ensures ';' !in FileName(path) ==> r == (path, "")
    ensures ';' !in FileName(r.0)
    ensures '/' !in r.1
  {
    var l := LastSlashEnd(path);
    var i := IndexFrom(path, ';', l);
    if i < |path| then
      assert path == path[..i] + ";" + path[i + 1..];
      LastSlashEndUnique(path[..i], l);
      assert FileName(path[..i]) == path[l..i];
      (path[..i], path[i + 1..])
    else
      (path, "")
  }

  /** The six fields of a `ParseResult`. */
  datatype Url = Url(scheme: string, netloc: string, path: string, params: string, query: string, fragment: string)

  /** A host with a `[` and no `]`, or the other way round: `urlsplit`
      raises ValueError ("Invalid IPv6 URL"). */
  predicate Unbalanced(netloc: string) { ('[' in netloc) != (']' in netloc) }

  /** What `urlparse` makes of the text after the host: `#fragment` first,
      then `?query`, then `;params` for the schemes that have them. The
      fields are the path, the parameters, the query and the fragment. */
  function SplitPath(scheme: string, tail: string): (r: (string, string, string, string))
    ensures '?' !in r.0 && '#' !in r.0
    ensures scheme in UsesParams ==> ';' !in FileName(r.0)
  {
    var (beforeFragment, fragment) := SplitAt(tail, '#');
    var (path, query) := SplitAt(beforeFragment, '?');
    if scheme in UsesParams && ';' in path then
      var (p, params) := SplitParams(path);
      (p, params, query, fragment)
    else
      FileNameIsLastSegment(path);
      (path, "", query, fragment)
  }

  /** `urlparse(url)`: the scheme, then `//host`, then the rest of the path;
      `None` where `urlsplit` raises. */
  function UrlParse(url: string): (r: Option<Url>)
    ensures r.None? <==> StartsWith(SplitScheme(url).1, "//") && Unbalanced(SplitNetloc(SplitScheme(url).1).0)
    ensures r.Some? ==> r.value.scheme == Scheme(url)
    ensures r.Some? ==> '/' !in r.value.netloc && '?' !in r.value.netloc && '#' !in r.value.netloc
    ensures r.Some? ==> '?' !in r.value.path && '#' !in r.value.path
    ensures r.Some? && Scheme(url) in UsesParams ==> ';' !in FileName(r.value.path)
  {
    var (scheme, rest) := SplitScheme(url);
    var (netloc, tail) := if StartsWith(rest, "//") then SplitNetloc(rest) else ("", rest);
    if Unbalanced(netloc) then None
    else
      var (path, params, query, fragment) := SplitPath(scheme, tail);
      Some(Url(scheme, netloc, path, params, query, fragment))
  }

  /** `http:` as written splits off the scheme `http`. */
  lemma HttpPrefixSplits(rest: string)
    ensures SplitScheme("http:" + rest) == ("http", rest)
  {
    var url := "http:" + rest;
    assert url[..4] == "http" && url[4] == ':';
    assert IndexFrom(url, ':', 0) == 4;
    assert url[5..] == rest;
  }

  /** After `//`, a plain host is split off up to the `/` that starts the path. */
  lemma PlainHostSplits(host: string, path: string)
    requires '/' !in host && '?' !in host && '#' !in host
    requires path == "" || path[0] == '/'
    ensures SplitNetloc("//" + host + path) == (host, path)
  {
    var rest := "//" + host + path;
    var d := |host| + 2;
    assert rest[2..d] == host && rest[d..] == path;
    assert IndexFrom(rest, '/', 2) == d by {
      assert forall m :: 2 <= m < d ==> rest[m] == host[m - 2];
    }
    assert IndexFrom(rest, '?', 2) >= d && IndexFrom(rest, '#', 2) >= d;
  }

  /** The file name of a parsed `http` URL's path holds no `/`, `?`, `#`
      or `;`. */
  lemma HttpFileNameIsPlain(url: string)
    requires IsHttp(url) && UrlParse(url).Some?
    ensures var name := FileName(UrlParse(url).value.path);
            '/' !in name && '?' !in name && '#' !in name && ';' !in name
  {
    var path := UrlParse(url).value.path;
    assert "http" in UsesParams;
    FileNameIsLastSegment(path);
    assert FileName(path) == path[|path| - |FileName(path)|..];
  }

  /** `urlparse` of a URL with a host, from what each of its steps gives. */
  lemma UrlParseOfParts(url: string, rest: string, host: string, tail: string, parts: (string, string, string, string))
    requires SplitScheme(url).1 == rest && StartsWith(rest, "//")
    requires SplitNetloc(rest) == (host, tail) && !Unbalanced(host)
    requires SplitPath(Scheme(url), tail) == parts
    ensures UrlParse(url) == Some(Url(Scheme(url), host, parts.0, parts.1, parts.2, parts.3))
  {
  }

  /** `http://host/path` with a plain host and path parses into that host
      and that path, with no parameters, query or fragment. */
  lemma PlainHttpUrl(host: string, path: string)
    requires '/' !in host && '?' !in host && '#' !in host && '[' !in host && ']' !in host
    requires path == "" || path[0] == '/'
    requires '?' !in path && '#' !in path && ';' !in path
    ensures UrlParse("http://" + host + path) == Some(Url("http", host, path, "", "", ""))
  {
    var rest := "//" + host + path;
    var url := "http:" + rest;
    assert "http://" + host + path == url;
    HttpPrefixSplits(rest);
    PlainHostSplits(host, path);
    assert SplitAt(path, '#') == (path, "") && SplitAt(path, '?') == (path, "");
    assert SplitPath("http", path) == (path, "", "", "");
    UrlParseOfParts(url, rest, host, path, (path, "", "", ""));
  }

  /** `http://host/path` whose host has a `[` without a `]`, or the other
      way round, makes `urlparse` raise, whatever the path. */
  lemma UnbalancedHttpHostRaises(host: string, path: string)
    requires '/' !in host && '?' !in host && '#' !in host && Unbalanced(host)
    requires path == "" || path[0] == '/'
    ensures UrlParse("http://" + host + path).None?
  {
    var rest := "//" + host + path;
    assert "http://" + host + path == "http:" + rest;
    HttpPrefixSplits(rest);
    PlainHostSplits(host, path);
  }

  /** For instance `http://[x/page` cannot be parsed. */
  lemma UnclosedBracketRaises()
    ensures UrlParse("http://[x/page").None?
  {
    assert "http://[x/page" == "http://" + "[x" + "/page";
    assert "[x"[0] == '[' && "[x"[1] == 'x';
    UnbalancedHttpHostRaises("[x", "/page");
  }

  /** A URL whose scheme is written in capitals is `http` too. */
  lemma UpperCaseSchemeIsHttp()
    ensures IsHttp("HTTP://x/a.jpg")
  {
    var url := "HTTP://x/a.jpg";
    assert Lower(url[..5]) == "http:";
    assert url[5] == '/';
    HttpSchemeMeans(url);
  }
}
