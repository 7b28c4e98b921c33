/** The Luluvdo extractor (`get_direct_link_from_luluvdo`): the embed URL must
    be an http(s) address on luluvdo.com; its last path segment, cut at the
    query, is the file code; the embed endpoint for that code is fetched and
    its `file:` entry is the video URL. The request is a parameter. */
module Luluvdo {
  import opened Results
  import Text
  import Urls

  /** `"luluvdo.com" in netloc.lower()`. Lowering is modelled on ASCII
      letters only, which decides this test exactly: no other character
      lowers to one of the letters of `luluvdo.com`. */
  predicate OnLuluvdo(netloc: string) {
    Text.Contains(Text.AsciiLower(netloc), "luluvdo.com")
  }

  /** `_validate_luluvdo_url`: blank input and a missing `http(s)://` prefix
      are refused, and so is a host that does not mention luluvdo.com (an
      empty host among them); an accepted URL is returned stripped. */
  function ValidateUrl(url: string): (r: Result<string>)
    ensures r == Err(EmptyUrl) <==> Text.AllSpace(url)
    ensures r == Err(BadScheme) <==> !Text.AllSpace(url) && !Urls.HasHttpPrefix(Text.Strip(url))
    ensures r.Ok? ==> r.value == Text.Strip(url) && Urls.HasHttpPrefix(r.value)
    ensures r.Ok? ==> Urls.UrlParse(r.value).Some? && OnLuluvdo(Urls.UrlParse(r.value).value.netloc)
    ensures r == Err(WrongHost) <==>
              && !Text.AllSpace(url) && Urls.HasHttpPrefix(Text.Strip(url))
              && Urls.UrlParse(Text.Strip(url)).Some? && !OnLuluvdo(Urls.UrlParse(Text.Strip(url)).value.netloc)
    ensures r == Err(InvalidUrl) <==>
              !Text.AllSpace(url) && Urls.HasHttpPrefix(Text.Strip(url)) && Urls.UrlParse(Text.Strip(url)).None?
  {
    Text.StripEmptyIffAllSpace(url);
    var u := Text.Strip(url);
    if u == "" then Err(EmptyUrl)
    else if !Urls.HasHttpPrefix(u) then Err(BadScheme)
    else
      match Urls.UrlParse(u)
      case None => Err(InvalidUrl)
      case Some(p) =>
        // an empty network location fails the containment test as well
        if !OnLuluvdo(p.netloc) then Err(WrongHost) else Ok(u)
  }

  /** The host `luluvdo.com` itself passes the host test. */
  lemma LuluvdoHostAccepted()
    ensures OnLuluvdo("luluvdo.com")
  {
    var h := "luluvdo.com";
    assert Text.AsciiLower(h) == h;
    assert Text.OccursAt(Text.AsciiLower(h), h, 0);
  }

  /** `_extract_luluvdo_id`: the last piece of the URL split at `/`, cut at
      its first `?`; neither piece may be empty. */
  function ExtractId(url: string): (r: Result<string>)
    ensures r.Ok? ==> r.value != "" && '/' !in r.value && '?' !in r.value
    ensures r.Err? ==> r.error == MissingId || r.error == EmptyIdAfterQuery
  {
    var parts := Text.Split(url, '/');
    // `url.split("/")` is never empty, so the "Invalid URL structure" error cannot occur
    var code := parts[|parts| - 1];
    if code == "" then Err(MissingId)
    else
      var id := if '?' in code then Text.Split(code, '?')[0] else code;
      assert '/' !in id by {
        Text.SplitFirstIsPrefix(code, '?');
        assert forall j | 0 <= j < |id| :: id[j] == code[j];
      }
      if id == "" then Err(EmptyIdAfterQuery) else Ok(id)
  }

  /** The file code is read back from `base/id` and from `base/id?query`. */
  lemma ExtractIdOf(base: string, id: string, query: Option<string>)
    requires id != "" && '/' !in id && '?' !in id
    requires query.Some? ==> '/' !in query.value
    ensures ExtractId(base + "/" + id + (if query.Some? then "?" + query.value else "")) == Ok(id)
  {
    if query.Some? {
      ExtractIdWithQuery(base, id, query.value);
    } else {
      assert base + "/" + id + "" == base + ['/'] + id;
      Text.SplitLast(base, id, '/');
    }
  }

  lemma ExtractIdWithQuery(base: string, id: string, query: string)
    requires id != "" && '/' !in id && '?' !in id && '/' !in query
    ensures ExtractId(base + "/" + id + ("?" + query)) == Ok(id)
  {
    var code := id + ['?'] + query;
    var url := base + "/" + id + ("?" + query);
    assert url == base + ['/'] + code;
    assert '/' !in code by {
      assert forall k | 0 <= k < |code| :: code[k] == if k < |id| then id[k] else if k == |id| then '?' else query[k - |id| - 1];
    }
    assert Text.Split(url, '/')[|Text.Split(url, '/')| - 1] == code by {
      Text.SplitLast(base, code, '/');
    }
    assert '?' in code by {
      assert code[|id|] == '?';
    }
    assert Text.Split(code, '?')[0] == id by {
      Text.SplitAppend(id, query, '?');
    }
  }

  /** A URL ending in `/` has no file code. */
  lemma ExtractIdTrailingSlash(base: string)
    ensures ExtractId(base + "/") == Err(MissingId)
  {
    assert base + "/" == base + ['/'] + [];
    Text.SplitLast(base, [], '/');
  }

  /** A last segment that starts with `?` leaves an empty file code. */
  lemma ExtractIdOnlyQuery(base: string, query: string)
    requires '/' !in query
    ensures ExtractId(base + "/?" + query) == Err(EmptyIdAfterQuery)
  {
    var tail := "?" + query;
    assert base + "/?" + query == base + ['/'] + tail;
    Text.SplitLast(base, tail, '/');
    assert tail == [] + ['?'] + query;
    Text.SplitAppend([], query, '?');
  }

  /** `_build_embed_url`: the embed endpoint for a file code. */
  function EmbedUrl(id: string): (r: string)
    ensures Text.StartsWith(r, "https://luluvdo.com/dl?op=embed&file_code=")
  {
    "https://luluvdo.com/dl?" + EmbedQuery(id)
  }

  /** Different file codes give different embed URLs. */
  lemma EmbedUrlInjective(id1: string, id2: string)
    requires EmbedUrl(id1) == EmbedUrl(id2)
    ensures id1 == id2
  {
    var pre := "https://luluvdo.com/dl?op=embed&file_code=";
    assert EmbedUrl(id1) == pre + id1 + "&embed=1&referer=luluvdo.com&adb=0";
    assert EmbedUrl(id2) == pre + id2 + "&embed=1&referer=luluvdo.com&adb=0";
    assert |id1| == |id2|;
    assert id1 == EmbedUrl(id1)[|pre|..|pre| + |id1|];
    assert id2 == EmbedUrl(id2)[|pre|..|pre| + |id2|];
  }

  /** The embed URL is an https address on luluvdo.com whose path is `/dl`
      and whose query carries the file code. */
  lemma EmbedUrlParses(id: string)
    requires forall j | 0 <= j < |id| :: id[j] > ' ' && id[j] != '#'
    ensures Urls.UrlParse(EmbedUrl(id))
            == Some(Urls.UrlParts("https", "luluvdo.com", "/dl", "", EmbedQuery(id), ""))
  {
    var abs := Urls.AbsoluteUrl("https", "luluvdo.com", "/dl", EmbedQuery(id));
    assert EmbedUrl(id) == abs by {
      EmbedUrlText(id);
    }
    assert Urls.UrlParse(abs) == Some(Urls.UrlParts("https", "luluvdo.com", "/dl", "", EmbedQuery(id), "")) by {
      EmbedParts(id);
    }
  }

  /** The query of the embed URL. */
  function EmbedQuery(id: string): string {
    "op=embed&file_code=" + id + "&embed=1&referer=luluvdo.com&adb=0"
  }

  lemma EmbedUrlText(id: string)
    ensures EmbedUrl(id) == Urls.AbsoluteUrl("https", "luluvdo.com", "/dl", EmbedQuery(id))
  {
    Urls.AbsoluteUrlText("https", "luluvdo.com", "/dl", EmbedQuery(id));
    assert "https://luluvdo.com/dl?" == "https" + "://" + "luluvdo.com" + "/dl" + "?";
  }

  lemma EmbedParts(id: string)
    requires forall j | 0 <= j < |id| :: id[j] > ' ' && id[j] != '#'
    ensures Urls.UrlParse(Urls.AbsoluteUrl("https", "luluvdo.com", "/dl", EmbedQuery(id)))
            == Some(Urls.UrlParts("https", "luluvdo.com", "/dl", "", EmbedQuery(id), ""))
  {
    var q := EmbedQuery(id);
    assert forall j | 0 <= j < |q| :: q[j] > ' ' && q[j] != '#';
    assert Urls.PlainHost("luluvdo.com");
    assert Urls.PlainPath("/dl");
    Urls.ParseAbsolute("https", "luluvdo.com", "/dl", q);
  }

  /** `_extract_video_url`: the `file:` match of the embed page, stripped. */
  function VideoUrl(fileMatch: Option<string>): (r: Result<string>)
    ensures fileMatch.None? <==> r == Err(NotFound("file"))
    ensures r.Ok? ==> fileMatch.Some? && r.value == Text.Strip(fileMatch.value)
  {
    match fileMatch
    case None => Err(NotFound("file"))
    case Some(m) => Ok(Text.Strip(m))
  }

  /** The whole extractor: validate, read the file code, fetch the embed
      endpoint (`fetch` answers the `file:` match of the page) and read the
      video URL from it. */
  function Resolve(embed: string, fetch: string -> Result<Option<string>>): (r: Result<string>)
    ensures ValidateUrl(embed).Err? ==> r == Err(ValidateUrl(embed).error)
    ensures r.Ok? ==> && ValidateUrl(embed).Ok?
                      && ExtractId(ValidateUrl(embed).value).Ok?
                      && var id := ExtractId(ValidateUrl(embed).value).value;
                         && fetch(EmbedUrl(id)).Ok?
                         && r == VideoUrl(fetch(EmbedUrl(id)).value)
  {
    var validated :- ValidateUrl(embed);
    var id :- ExtractId(validated);
    var fileMatch :- fetch(EmbedUrl(id));
    VideoUrl(fileMatch)
  }

  /** For an embed link `https://luluvdo.com/e/<id>` the only page fetched
      is the embed endpoint of `id`: its answer alone decides the outcome. */
  lemma ResolveFetchesEmbedPage(id: string, fetch: string -> Result<Option<string>>, other: string -> Result<Option<string>>)
    requires id != "" && !Text.IsSpace(id[|id| - 1])
    requires forall j | 0 <= j < |id| :: id[j] > ' ' && id[j] !in {'/', '?', '#', ';'}
    requires other(EmbedUrl(id)) == fetch(EmbedUrl(id))
    ensures Resolve("https://luluvdo.com/e/" + id, other) == Resolve("https://luluvdo.com/e/" + id, fetch)
    ensures fetch(EmbedUrl(id)).Err? ==> Resolve("https://luluvdo.com/e/" + id, fetch) == Err(fetch(EmbedUrl(id)).error)
    ensures fetch(EmbedUrl(id)).Ok? ==> Resolve("https://luluvdo.com/e/" + id, fetch) == VideoUrl(fetch(EmbedUrl(id)).value)
  {
    var url := "https://luluvdo.com/e/" + id;
    assert ValidateUrl(url) == Ok(url) by {
      ValidateEmbedLink(id);
    }
    assert url == "https://luluvdo.com/e" + "/" + id + "";
    ExtractIdOf("https://luluvdo.com/e", id, None);
  }

  /** An embed link `https://luluvdo.com/e/<id>` is accepted as it is. */
  lemma ValidateEmbedLink(id: string)
    requires id != "" && !Text.IsSpace(id[|id| - 1])
    requires forall j | 0 <= j < |id| :: id[j] > ' ' && id[j] !in {'/', '?', '#', ';'}
    ensures ValidateUrl("https://luluvdo.com/e/" + id) == Ok("https://luluvdo.com/e/" + id)
  {
    var host := "luluvdo.com";
    var path := "/e/" + id;
    var url := Urls.AbsoluteUrl("https", host, path, "");
    assert url == "https://luluvdo.com/e/" + id by {
      Urls.AbsoluteUrlNoQuery("https", host, path);
    }
    assert Urls.PlainPath(path) by {
      forall j | 0 <= j < |path|
        ensures path[j] > ' ' && path[j] !in {'?', '#', ';'}
      {
        if j >= 3 {
          assert path[j] == id[j - 3];
        }
      }
    }
    assert Urls.PlainHost(host);
    assert path[|path| - 1] == id[|id| - 1];
    Urls.StripAbsolute("https", host, path, "");
    Urls.AbsoluteHasHttpPrefix("https", host, path, "");
    Urls.ParseAbsolute("https", host, path, "");
    LuluvdoHostAccepted();
  }
}
