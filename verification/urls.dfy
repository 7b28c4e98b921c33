/** The parts of `urllib.parse` and `os.path` the resolver uses: `urlparse`
    (scheme, network location, path with `;params` split off, query,
    fragment), `os.path.basename` and `os.path.join` on POSIX paths. */
module Urls {
  import opened Results
  import Text

  datatype UrlParts = UrlParts(
    scheme: string, netloc: string, path: string, params: string, query: string, fragment: string)

  /** Characters allowed in a scheme (`urllib.parse.scheme_chars`). */
  predicate IsSchemeChar(c: char) {
    ('a' <= c <= 'z') || ('A' <= c <= 'Z') || ('0' <= c <= '9') || c == '+' || c == '-' || c == '.'
  }

  predicate IsAsciiLetter(c: char) {
    ('a' <= c <= 'z') || ('A' <= c <= 'Z')
  }

  /** Schemes whose last path segment may carry `;params` (`uses_params`). */
  const ParamSchemes: set<string> :=
    {"", "ftp", "hdl", "prospero", "http", "imap", "https", "shttp", "rtsp", "rtspu",
     "sip", "sips", "mms", "sftp", "tel"}

  /** The index of the first character of `s` in `cs`, or `|s|` when there is none. */
  function FirstOf(s: string, cs: set<char>): (i: nat)
    ensures i <= |s|
    ensures forall j | 0 <= j < i :: s[j] !in cs
    ensures i < |s| ==> s[i] in cs
  {
    if |s| == 0 || s[0] in cs then 0 else 1 + FirstOf(s[1..], cs)
  }

  /** The index of the last occurrence of `c` in `s`, or -1. */
  function LastIndex(s: string, c: char): (i: int)
    ensures -1 <= i < |s|
    ensures i >= 0 ==> s[i] == c
  {
    if |s| == 0 then -1
    else if s[|s| - 1] == c then |s| - 1
    else LastIndex(s[..|s| - 1], c)
  }

  /** `s.split(c, 1)`: the text before the first `c`, and what follows it when
      there is one. */
  function CutFirst(s: string, c: char): (r: (string, Option<string>))
    ensures c !in r.0
    ensures r.1.None? <==> c !in s
    ensures r.1.None? ==> r.0 == s
    ensures r.1.Some? ==> s == r.0 + [c] + r.1.value
  {
    if |s| == 0 then ([], None)
    else if s[0] == c then
      assert s == [] + [c] + s[1..];
      ([], Some(s[1..]))
    else
      var (before, after) := CutFirst(s[1..], c);
      assert s == [s[0]] + s[1..];
      ([s[0]] + before, after)
  }

  lemma {:induction false} CutFirstAt(a: string, c: char, b: string)
    requires c !in a
    ensures CutFirst(a + [c] + b, c) == (a, Some(b))
  {
    if |a| > 0 {
      assert (a + [c] + b)[1..] == a[1..] + [c] + b;
      CutFirstAt(a[1..], c, b);
      assert [a[0]] + a[1..] == a;
    } else {
      assert (a + [c] + b)[1..] == b;
    }
  }

  lemma {:induction false} CutFirstAbsent(a: string, c: char)
    requires c !in a
    ensures CutFirst(a, c) == (a, None)
  {
    if |a| > 0 {
      CutFirstAbsent(a[1..], c);
      assert [a[0]] + a[1..] == a;
    }
  }

  /** `s.lstrip()` over the C0 controls and space, as `urlsplit` does first. */
  function DropLeadingControls(s: string): (r: string)
    ensures |r| <= |s| && r == s[|s| - |r|..]
    ensures r == [] || r[0] > ' '
  {
    if |s| > 0 && s[0] <= ' ' then DropLeadingControls(s[1..]) else s
  }

  /** The scheme, when the text before the first `:` is a valid scheme, and
      the rest after that colon. */
  function SplitScheme(url: string): (r: (string, string))
  {
    var i := FirstOf(url, {':'});
    if 0 < i < |url| && IsAsciiLetter(url[0]) && forall j | 0 <= j < i :: IsSchemeChar(url[j])
    then (Text.AsciiLower(url[..i]), url[i + 1..])
    else ("", url)
  }

  /** `_splitnetloc`: the network location runs up to the first `/`, `?` or `#`. */
  function SplitNetloc(rest: string): (r: (string, string))
    ensures r.0 + r.1 == rest
    ensures forall j | 0 <= j < |r.0| :: r.0[j] !in {'/', '?', '#'}
  {
    var d := FirstOf(rest, {'/', '?', '#'});
    assert rest[..d] + rest[d..] == rest;
    (rest[..d], rest[d..])
  }

  /** `_splitparams`: the params start at the first `;` after the last `/`. */
  function SplitParams(path: string): (r: (string, string))
  {
    var slash := LastIndex(path, '/');
    var start := if slash < 0 then 0 else slash;
    var i := FirstOf(path[start..], {';'});
    if start + i < |path| then (path[..start + i], path[start + i + 1..])
    else (path, "")
  }

  /** A network location with unbalanced brackets: `urlsplit` raises `ValueError`. */
  predicate UnbalancedBrackets(netloc: string) {
    ('[' in netloc) != (']' in netloc)
  }

  /** `urlparse(url)`; `None` stands for the `ValueError` it raises. */
  function UrlParse(url: string): (r: Option<UrlParts>)
    ensures r.Some? ==> forall j | 0 <= j < |r.value.netloc| :: r.value.netloc[j] !in {'/', '?', '#'}
  {
    var (scheme, rest) := SplitScheme(Clean(url));
    ParseAfterScheme(scheme, rest)
  }

  /** What `urlparse` does once the scheme is split off: a network location
      follows `//`. */
  function ParseAfterScheme(scheme: string, rest: string): (r: Option<UrlParts>)
    ensures r.Some? ==> forall j | 0 <= j < |r.value.netloc| :: r.value.netloc[j] !in {'/', '?', '#'}
  {
    if Text.StartsWith(rest, "//") then ParseNetloc(scheme, rest[2..])
    else ParseTail(scheme, "", rest)
  }

  /** The network location, then the rest of the URL. */
  function ParseNetloc(scheme: string, rest: string): (r: Option<UrlParts>)
    ensures r.Some? ==> forall j | 0 <= j < |r.value.netloc| :: r.value.netloc[j] !in {'/', '?', '#'}
  {
    var (netloc, rest') := SplitNetloc(rest);
    ParseTail(scheme, netloc, rest')
  }

  /** Leading controls and spaces are dropped, and tabs and line breaks removed. */
  function Clean(url: string): string {
    Text.Without(DropLeadingControls(url), {'\t', '\r', '\n'})
  }

  /** What follows the network location: path, params, query and fragment. */
  function ParseTail(scheme: string, netloc: string, rest: string): (r: Option<UrlParts>)
    ensures r.Some? ==> r.value.netloc == netloc
  {
    if UnbalancedBrackets(netloc) then None
    else
      var (beforeHash, fragment) := CutFirst(rest, '#');
      var (beforeQuery, query) := CutFirst(beforeHash, '?');
      var (path, params) :=
        if scheme in ParamSchemes && ';' in beforeQuery then SplitParams(beforeQuery) else (beforeQuery, "");
      Some(UrlParts(scheme, netloc, path, params, query.GetOr(""), fragment.GetOr("")))
  }

  /** The characters of a plain host: nothing `urlparse` splits on or drops. */
  predicate PlainHost(host: string) {
    forall j | 0 <= j < |host| :: host[j] > ' ' && host[j] !in {'/', '?', '#', '[', ']'}
  }

  /** The characters of a plain path: nothing `urlparse` splits on or drops. */
  predicate PlainPath(path: string) {
    forall j | 0 <= j < |path| :: path[j] > ' ' && path[j] !in {'?', '#', ';'}
  }

  /** The text of an absolute URL with the given scheme, host, path and query. */
  function AbsoluteUrl(scheme: string, host: string, path: string, query: string): string {
    scheme + ":" + ("//" + host + PathQuery(path, query))
  }

  /** A path followed by `?query` when the query is not empty. */
  function PathQuery(path: string, query: string): string {
    path + (if query == "" then "" else "?" + query)
  }

  /** The text of an absolute URL with a query, piece by piece. */
  lemma AbsoluteUrlText(scheme: string, host: string, path: string, query: string)
    requires query != ""
    ensures AbsoluteUrl(scheme, host, path, query) == scheme + "://" + host + path + "?" + query
  {
    assert "://" == ":" + "//";
  }

  /** The text of an absolute URL without a query, piece by piece. */
  lemma AbsoluteUrlNoQuery(scheme: string, host: string, path: string)
    ensures AbsoluteUrl(scheme, host, path, "") == (scheme + "://" + host) + path
  {
    assert PathQuery(path, "") == path;
    assert "://" == ":" + "//";
  }

  /** An absolute URL starts with its scheme and `://`. */
  lemma AbsoluteUrlPrefix(scheme: string, host: string, path: string, query: string)
    ensures Text.StartsWith(AbsoluteUrl(scheme, host, path, query), scheme + "://")
  {
    var url := AbsoluteUrl(scheme, host, path, query);
    assert url == (scheme + "://") + (host + PathQuery(path, query));
  }

  /** The URL starts with `http://` or `https://`. */
  predicate HasHttpPrefix(url: string) {
    Text.StartsWith(url, "http://") || Text.StartsWith(url, "https://")
  }

  /** An absolute URL that does not end in whitespace is its own `strip()`. */
  lemma StripAbsolute(scheme: string, host: string, path: string, query: string)
    requires scheme == "http" || scheme == "https"
    requires |path| > 0
    requires var tail := PathQuery(path, query); !Text.IsSpace(tail[|tail| - 1])
    ensures Text.Strip(AbsoluteUrl(scheme, host, path, query)) == AbsoluteUrl(scheme, host, path, query)
  {
    var url := AbsoluteUrl(scheme, host, path, query);
    var tail := PathQuery(path, query);
    assert url == (scheme + "://" + host) + tail;
    assert url[0] == 'h' && url[|url| - 1] == tail[|tail| - 1];
    Text.StripUnchanged(url);
  }

  /** An absolute http(s) URL has the prefix the extractors check for. */
  lemma AbsoluteHasHttpPrefix(scheme: string, host: string, path: string, query: string)
    requires scheme == "http" || scheme == "https"
    ensures HasHttpPrefix(AbsoluteUrl(scheme, host, path, query))
  {
    var url := AbsoluteUrl(scheme, host, path, query);
    AbsoluteUrlPrefix(scheme, host, path, query);
    var p := scheme + "://";
    assert url[..|p|] == p;
    if scheme == "http" {
      assert p == "http://";
    } else {
      assert p == "https://";
    }
  }

  /** An absolute http(s) URL made of a host, a path and an optional query is
      taken apart into exactly those pieces. */
  lemma ParseAbsolute(scheme: string, host: string, path: string, query: string)
    requires scheme == "http" || scheme == "https"
    requires PlainHost(host)
    requires |path| > 0 && path[0] == '/' && PlainPath(path)
    requires forall j | 0 <= j < |query| :: query[j] > ' ' && query[j] != '#'
    ensures UrlParse(AbsoluteUrl(scheme, host, path, query)) == Some(UrlParts(scheme, host, path, "", query, ""))
  {
    var tail := PathQuery(path, query);
    var rest := "//" + host + tail;
    var url := AbsoluteUrl(scheme, host, path, query);
    assert url == scheme + ":" + rest;
    CleanAbsolute(scheme, host, path, query);
    SchemeOf(scheme, rest);
    SchemeStep(url, scheme, rest);
    NetlocOf(host, tail);
    NetlocStep(scheme, host, tail);
    TailOf(scheme, host, path, query);
  }

  /** `urlparse` once the scheme is split off. */
  lemma SchemeStep(url: string, scheme: string, rest: string)
    requires SplitScheme(Clean(url)) == (scheme, rest)
    ensures UrlParse(url) == ParseAfterScheme(scheme, rest)
  {
  }

  /** After `//`, the network location is the host and the rest is the tail. */
  lemma NetlocStep(scheme: string, host: string, tail: string)
    requires SplitNetloc(host + tail) == (host, tail)
    ensures ParseAfterScheme(scheme, "//" + host + tail) == ParseTail(scheme, host, tail)
  {
    var rest := "//" + host + tail;
    assert rest[..2] == "//";
    assert rest[2..] == host + tail;
  }

  lemma CleanAbsolute(scheme: string, host: string, path: string, query: string)
    requires scheme == "http" || scheme == "https"
    requires PlainHost(host) && PlainPath(path)
    requires forall j | 0 <= j < |query| :: query[j] > ' '
    ensures Clean(AbsoluteUrl(scheme, host, path, query)) == AbsoluteUrl(scheme, host, path, query)
  {
    var tail := PathQuery(path, query);
    assert forall j | 0 <= j < |tail| :: tail[j] > ' ';
    var url := AbsoluteUrl(scheme, host, path, query);
    assert url == scheme + "://" + host + tail;
    assert forall j | 0 <= j < |url| :: url[j] > ' ';
    CleanUrl(url);
  }

  lemma TailOf(scheme: string, host: string, path: string, query: string)
    requires scheme == "http" || scheme == "https"
    requires PlainHost(host) && PlainPath(path)
    requires forall j | 0 <= j < |query| :: query[j] != '#'
    ensures ParseTail(scheme, host, PathQuery(path, query)) == Some(UrlParts(scheme, host, path, "", query, ""))
  {
    var tail := PathQuery(path, query);
    assert '[' !in host && ']' !in host by {
      assert forall j | 0 <= j < |host| :: host[j] != '[' && host[j] != ']';
    }
    assert '#' !in tail by {
      assert forall j | 0 <= j < |tail| :: tail[j] != '#';
    }
    CutFirstAbsent(tail, '#');
    assert '?' !in path && ';' !in path by {
      assert forall j | 0 <= j < |path| :: path[j] != '?' && path[j] != ';';
    }
    var q: Option<string> := if query == "" then None else Some(query);
    if query == "" {
      assert tail == path;
      CutFirstAbsent(path, '?');
    } else {
      assert tail == path + ['?'] + query;
      CutFirstAt(path, '?', query);
    }
    assert CutFirst(tail, '#') == (tail, None);
    assert !(scheme in ParamSchemes && ';' in path);
    assert q.GetOr("") == query;
  }

  lemma CleanUrl(url: string)
    requires forall j | 0 <= j < |url| :: url[j] > ' '
    ensures Clean(url) == url
  {
    assert DropLeadingControls(url) == url;
    Text.WithoutNothingToDrop(url, {'\t', '\r', '\n'});
  }

  lemma SchemeOf(scheme: string, rest: string)
    requires scheme == "http" || scheme == "https"
    ensures SplitScheme(scheme + ":" + rest) == (scheme, rest)
  {
    var url := scheme + ":" + rest;
    FirstOfIs(url, {':'}, |scheme|);
    assert url[..|scheme|] == scheme;
    assert url[|scheme| + 1..] == rest;
    assert IsAsciiLetter(url[0]);
    assert forall j | 0 <= j < |scheme| :: IsSchemeChar(url[j]);
    assert Text.AsciiLower(scheme) == scheme;
  }

  lemma NetlocOf(host: string, tail: string)
    requires PlainHost(host)
    requires |tail| > 0 && tail[0] == '/'
    ensures SplitNetloc(host + tail) == (host, tail)
  {
    var s := host + tail;
    FirstOfIs(s, {'/', '?', '#'}, |host|);
    assert s[..|host|] == host && s[|host|..] == tail;
  }

  lemma {:induction false} FirstOfIs(s: string, cs: set<char>, i: nat)
    requires i <= |s|
    requires forall j | 0 <= j < i :: s[j] !in cs
    requires i < |s| ==> s[i] in cs
    ensures FirstOf(s, cs) == i
  {
    if i > 0 {
      assert s[0] !in cs;
      FirstOfIs(s[1..], cs, i - 1);
    }
  }

  /** `os.path.basename`: the longest suffix without a `/`. */
  function Basename(p: string): (r: string)
    ensures '/' !in r
    ensures |r| <= |p| && r == p[|p| - |r|..]
    ensures |r| < |p| ==> p[|p| - |r| - 1] == '/'
  {
    if |p| == 0 || p[|p| - 1] == '/' then []
    else
      var r := Basename(p[..|p| - 1]) + [p[|p| - 1]];
      assert p[..|p| - 1][|p| - |r|..] + [p[|p| - 1]] == p[|p| - |r|..];
      r
  }

  /** `os.path.join(a, b)` on POSIX: an absolute `b` replaces `a`, otherwise a
      `/` is put between them unless `a` is empty or already ends with one. */
  function PathJoin(a: string, b: string): (r: string)
    ensures Text.StartsWith(b, "/") ==> r == b
    ensures !Text.StartsWith(b, "/") ==> |r| >= |b| && r[|r| - |b|..] == b
  {
    if Text.StartsWith(b, "/") then b
    else if a == [] || a[|a| - 1] == '/' then a + b
    else a + "/" + b
  }
}
