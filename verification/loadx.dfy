/** The LoadX extractor (`get_direct_link_from_loadx`): the embed URL is
    checked, the redirect target is taken apart into an id and a host, and a
    POST to the player endpoint answers with a JSON document holding the
    video source. The two HTTP requests are parameters. */
module LoadX {
  import opened Results
  import opened Codecs
  import Text
  import Urls

  /** `_validate_loadx_url`: blank input, a missing `http(s)://` prefix and a
      URL without a network location are refused; an accepted URL is
      returned stripped. */
  function ValidateUrl(url: string): (r: Result<string>)
    ensures r == Err(EmptyUrl) <==> Text.AllSpace(url)
    ensures r == Err(BadScheme) <==> !Text.AllSpace(url) && !Urls.HasHttpPrefix(Text.Strip(url))
    ensures r.Ok? ==> r.value == Text.Strip(url) && Urls.HasHttpPrefix(r.value)
    ensures r.Ok? ==> Urls.UrlParse(r.value).Some? && Urls.UrlParse(r.value).value.netloc != ""
    ensures r == Err(MissingDomain) <==>
              && !Text.AllSpace(url) && Urls.HasHttpPrefix(Text.Strip(url))
              && Urls.UrlParse(Text.Strip(url)).Some? && Urls.UrlParse(Text.Strip(url)).value.netloc == ""
    ensures r == Err(InvalidUrl) <==>
              !Text.AllSpace(url) && Urls.HasHttpPrefix(Text.Strip(url)) && Urls.UrlParse(Text.Strip(url)).None?
  {
    Text.StripEmptyIffAllSpace(url);
    CheckStripped(Text.Strip(url))
  }

  /** The checks `_validate_loadx_url` makes once the URL is stripped. */
  function CheckStripped(u: string): (r: Result<string>)
    ensures r == Err(EmptyUrl) <==> u == ""
    ensures r == Err(BadScheme) <==> u != "" && !Urls.HasHttpPrefix(u)
    ensures r.Ok? ==> r.value == u && Urls.HasHttpPrefix(u)
    ensures r.Ok? ==> Urls.UrlParse(u).Some? && Urls.UrlParse(u).value.netloc != ""
    ensures r == Err(MissingDomain) <==>
              u != "" && Urls.HasHttpPrefix(u) && Urls.UrlParse(u).Some? && Urls.UrlParse(u).value.netloc == ""
    ensures r == Err(InvalidUrl) <==> u != "" && Urls.HasHttpPrefix(u) && Urls.UrlParse(u).None?
  {
    if u == "" then Err(EmptyUrl)
    else if !Urls.HasHttpPrefix(u) then Err(BadScheme)
    else
      match Urls.UrlParse(u)
      case None => Err(InvalidUrl)
      case Some(p) => if p.netloc == "" then Err(MissingDomain) else Ok(u)
  }

  /** An absolute http(s) URL with a non-empty host and nothing to strip at
      either end is accepted as it is. */
  lemma ValidateAbsolute(scheme: string, host: string, path: string, query: string)
    requires scheme == "http" || scheme == "https"
    requires Urls.PlainHost(host) && host != ""
    requires |path| > 0 && path[0] == '/' && Urls.PlainPath(path)
    requires forall j | 0 <= j < |query| :: query[j] > ' ' && query[j] != '#'
    requires var tail := Urls.PathQuery(path, query); !Text.IsSpace(tail[|tail| - 1])
    ensures ValidateUrl(Urls.AbsoluteUrl(scheme, host, path, query)) == Ok(Urls.AbsoluteUrl(scheme, host, path, query))
  {
    var url := Urls.AbsoluteUrl(scheme, host, path, query);
    assert Text.Strip(url) == url by {
      Urls.StripAbsolute(scheme, host, path, query);
    }
    assert Urls.HasHttpPrefix(url) by {
      Urls.AbsoluteHasHttpPrefix(scheme, host, path, query);
    }
    assert Urls.UrlParse(url) == Some(Urls.UrlParts(scheme, host, path, "", query, "")) by {
      Urls.ParseAbsolute(scheme, host, path, query);
    }
    ValidateAccepts(url, Urls.UrlParts(scheme, host, path, "", query, ""));
  }

  /** A stripped http(s) URL with a network location is accepted unchanged. */
  lemma ValidateAccepts(url: string, parts: Urls.UrlParts)
    requires Text.Strip(url) == url && Urls.HasHttpPrefix(url)
    requires Urls.UrlParse(url) == Some(parts) && parts.netloc != ""
    ensures ValidateUrl(url) == Ok(url)
  {
    assert |url| >= 7;
    assert CheckStripped(url) == Ok(url);
  }

  /** `_extract_id_hash_from_url`: the id is the third piece of the path split
      at `/`, the host is the network location; both must be non-empty. */
  function ExtractIdHash(url: string): (r: Result<(string, string)>)
    ensures r.Ok? ==> r.value.0 != "" && '/' !in r.value.0 && r.value.1 != ""
    ensures r.Ok? ==> var p := Urls.UrlParse(url);
                      && p.Some? && r.value.1 == p.value.netloc
                      && |Text.Split(p.value.path, '/')| >= 3 && Text.Split(p.value.path, '/')[2] == r.value.0
    ensures r == Err(BadStructure) <==> Urls.UrlParse(url).Some? && |Text.Split(Urls.UrlParse(url).value.path, '/')| < 3
    ensures var p := Urls.UrlParse(url);
            p.Some? && |Text.Split(p.value.path, '/')| >= 3 && Text.Split(p.value.path, '/')[2] != "" && p.value.netloc != ""
            ==> r == Ok((Text.Split(p.value.path, '/')[2], p.value.netloc))
  {
    var p :- Urls.UrlParse(url).ToResult(InvalidUrl);
    var parts := Text.Split(p.path, '/');
    if |parts| < 3 then Err(BadStructure)
    else if parts[2] == "" || p.netloc == "" then Err(MissingId)
    else Ok((parts[2], p.netloc))
  }

  /** A LoadX address `scheme://host/kind/id...` yields that id and host. */
  lemma ExtractFromAbsolute(scheme: string, host: string, kind: string, id: string, more: string, query: string)
    requires scheme == "http" || scheme == "https"
    requires Urls.PlainHost(host) && host != ""
    requires '/' !in kind && '/' !in id && id != ""
    requires more == "" || more[0] == '/'
    requires Urls.PlainPath("/" + kind + "/" + id + more)
    requires forall j | 0 <= j < |query| :: query[j] > ' ' && query[j] != '#'
    ensures ExtractIdHash(Urls.AbsoluteUrl(scheme, host, "/" + kind + "/" + id + more, query)) == Ok((id, host))
  {
    var path := "/" + kind + "/" + id + more;
    var url := Urls.AbsoluteUrl(scheme, host, path, query);
    assert Urls.UrlParse(url) == Some(Urls.UrlParts(scheme, host, path, "", query, "")) by {
      Urls.ParseAbsolute(scheme, host, path, query);
    }
    assert |Text.Split(path, '/')| >= 3 && Text.Split(path, '/')[2] == id by {
      ThirdPiece(kind, id, more);
    }
  }

  /** The third piece of `/kind/id...` split at `/` is the id. */
  lemma ThirdPiece(kind: string, id: string, more: string)
    requires '/' !in kind && '/' !in id
    requires more == "" || more[0] == '/'
    ensures var parts := Text.Split("/" + kind + "/" + id + more, '/');
            |parts| >= 3 && parts[2] == id
  {
    var rest := id + more;
    SlashPath(kind, id, more);
    SplitSlashPath(kind, rest);
    FirstPiece(id, more);
  }

  /** `/kind/id...` regrouped around its first two slashes. */
  lemma SlashPath(kind: string, id: string, more: string)
    ensures "/" + kind + "/" + id + more == ['/'] + (kind + ['/'] + (id + more))
  {
  }

  /** Splitting `/kind/rest` gives an empty piece, `kind`, then the pieces of `rest`. */
  lemma SplitSlashPath(kind: string, rest: string)
    requires '/' !in kind
    ensures Text.Split(['/'] + (kind + ['/'] + rest), '/') == [[], kind] + Text.Split(rest, '/')
  {
    var inner := kind + ['/'] + rest;
    var s := ['/'] + inner;
    assert s[0] == '/' && s[1..] == inner;
    assert Text.Split(s, '/') == [[]] + Text.Split(inner, '/');
    Text.SplitAppend(kind, rest, '/');
  }

  /** The first piece of `id/...` split at `/` is the id. */
  lemma FirstPiece(id: string, more: string)
    requires '/' !in id
    requires more == "" || more[0] == '/'
    ensures Text.Split(id + more, '/')[0] == id
  {
    if more == "" {
      assert id + more == id;
      Text.SplitNoSep(id, '/');
    } else {
      assert id + more == id + ['/'] + more[1..];
      Text.SplitAppend(id, more[1..], '/');
    }
  }

  /** The POST URL of the player endpoint for an id on a host. */
  function PostUrl(id: string, host: string): (r: string)
    ensures Text.StartsWith(r, "https://" + host + "/player/index.php?data=")
  {
    "https://" + host + "/player/index.php?data=" + id + "&do=getVideo"
  }

  /** The POST URL is an https address on the given host whose path is the
      player endpoint and whose query carries the id. */
  lemma PostUrlParses(id: string, host: string)
    requires Urls.PlainHost(host)
    requires forall j | 0 <= j < |id| :: id[j] > ' ' && id[j] != '#'
    ensures Urls.UrlParse(PostUrl(id, host))
            == Some(Urls.UrlParts("https", host, "/player/index.php", "", "data=" + id + "&do=getVideo", ""))
  {
    var query := "data=" + id + "&do=getVideo";
    PostUrlAbsolute(id, host);
    PostQueryClean(id);
    assert Urls.PlainPath("/player/index.php");
    Urls.ParseAbsolute("https", host, "/player/index.php", query);
  }

  /** The POST URL is the absolute URL of the player endpoint with the id's query. */
  lemma PostUrlAbsolute(id: string, host: string)
    ensures PostUrl(id, host) == Urls.AbsoluteUrl("https", host, "/player/index.php", "data=" + id + "&do=getVideo")
  {
    Urls.AbsoluteUrlText("https", host, "/player/index.php", "data=" + id + "&do=getVideo");
    Concat5("https", "://", host, "/player/index.php", "?", "data=", id, "&do=getVideo");
  }

  /** The query carrying a clean id holds neither whitespace nor `#`. */
  lemma PostQueryClean(id: string)
    requires forall j | 0 <= j < |id| :: id[j] > ' ' && id[j] != '#'
    ensures var query := "data=" + id + "&do=getVideo";
            forall j | 0 <= j < |query| :: query[j] > ' ' && query[j] != '#'
  {
    var query := "data=" + id + "&do=getVideo";
    forall j | 0 <= j < |query|
      ensures query[j] > ' ' && query[j] != '#'
    {
      if 5 <= j < 5 + |id| {
        assert query[j] == id[j - 5];
      }
    }
  }

  /** Regrouping the pieces of a URL template. */
  lemma Concat5(a: string, b: string, h: string, c: string, d: string, e: string, id: string, f: string)
    ensures a + b + h + c + d + (e + id + f) == (a + b) + h + (c + d + e) + id + f
  {
  }

  /** Different ids on the same host give different POST URLs. */
  lemma PostUrlInjective(id1: string, id2: string, host: string)
    requires PostUrl(id1, host) == PostUrl(id2, host)
    ensures id1 == id2
  {
    var pre := "https://" + host + "/player/index.php?data=";
    var post := "&do=getVideo";
    assert PostUrl(id1, host) == pre + id1 + post;
    assert PostUrl(id2, host) == pre + id2 + post;
    assert |id1| == |id2|;
    assert id1 == PostUrl(id1, host)[|pre|..|pre| + |id1|];
    assert id2 == PostUrl(id2, host)[|pre|..|pre| + |id2|];
  }

  /** `_parse_video_response`: the `videoSource` field of the JSON answer,
      stripped; any failure becomes one error. */
  function ParseVideoResponse(c: Codecs, text: string): (r: Result<string>)
    ensures c.parseJson(text).None? ==> r == Err(Decode(JsonParse))
    ensures r.Ok? <==> c.parseJson(text).Some? && NonEmptyField(c.parseJson(text).value, "videoSource").Some?
    ensures r.Ok? ==> r.value == Text.Strip(c.parseJson(text).value.fields["videoSource"])
  {
    var data :- c.parseJson(text).ToResult(Decode(JsonParse));
    var source :- NonEmptyField(data, "videoSource").ToResult(NotFound("videoSource"));
    Ok(Text.Strip(source))
  }

  /** The whole extractor: validate, follow redirects (`head` answers the final
      URL), take id and host apart, POST to the player (`post` answers the
      response text) and read the source. */
  function Resolve(c: Codecs, embed: string, head: string -> Result<string>, post: string -> Result<string>): (r: Result<string>)
    ensures ValidateUrl(embed).Err? ==> r == Err(ValidateUrl(embed).error)
    ensures r.Ok? ==> && ValidateUrl(embed).Ok?
                      && head(ValidateUrl(embed).value).Ok?
                      && ExtractIdHash(head(ValidateUrl(embed).value).value).Ok?
                      && var (id, host) := ExtractIdHash(head(ValidateUrl(embed).value).value).value;
                         && post(PostUrl(id, host)).Ok?
                         && r == ParseVideoResponse(c, post(PostUrl(id, host)).value)
  {
    var validated :- ValidateUrl(embed);
    var final :- head(validated);
    var idHost :- ExtractIdHash(final);
    var text :- post(PostUrl(idHost.0, idHost.1));
    ParseVideoResponse(c, text)
  }

  /** When the redirect lands on a LoadX address `scheme://host/kind/id...`,
      the only URL posted to is the player endpoint `PostUrl(id, host)`: its
      answer alone decides the outcome. */
  lemma ResolvePostsToPlayer(
    c: Codecs, embed: string, head: string -> Result<string>,
    post: string -> Result<string>, other: string -> Result<string>,
    scheme: string, host: string, kind: string, id: string, more: string, query: string)
    requires ValidateUrl(embed).Ok?
    requires head(ValidateUrl(embed).value) == Ok(Urls.AbsoluteUrl(scheme, host, "/" + kind + "/" + id + more, query))
    requires scheme == "http" || scheme == "https"
    requires Urls.PlainHost(host) && host != ""
    requires '/' !in kind && '/' !in id && id != ""
    requires more == "" || more[0] == '/'
    requires Urls.PlainPath("/" + kind + "/" + id + more)
    requires forall j | 0 <= j < |query| :: query[j] > ' ' && query[j] != '#'
    requires other(PostUrl(id, host)) == post(PostUrl(id, host))
    ensures Resolve(c, embed, head, other) == Resolve(c, embed, head, post)
    ensures post(PostUrl(id, host)).Err? ==> Resolve(c, embed, head, post) == Err(post(PostUrl(id, host)).error)
    ensures post(PostUrl(id, host)).Ok? ==> Resolve(c, embed, head, post) == ParseVideoResponse(c, post(PostUrl(id, host)).value)
  {
    ExtractFromAbsolute(scheme, host, kind, id, more, query);
  }
}
