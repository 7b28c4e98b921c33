/** The Filemoon extractor (`get_direct_link_from_filemoon`): an embed link
    `/e/…` is turned into the download page `/d/…`, whose iframe is fetched
    and whose `file:` entry is the video URL. Requests are parameters. */
module Filemoon {
  import opened Results
  import Text

  /** `link.replace("/e/", "/d/")` applied only when `/e/` occurs. */
  function DownloadUrl(link: string): (r: Result<string>)
    ensures r == Err(EmptyUrl) <==> link == ""
    ensures r.Ok? ==> |r.value| == |link|
    ensures r.Ok? ==> forall i | 0 <= i < |link| :: r.value[i] == link[i] || (link[i] == 'e' && r.value[i] == 'd')
    ensures r.Ok? && !Text.Contains(link, "/e/") ==> r.value == link
    ensures r.Ok? && Text.Contains(link, "/e/") ==> r.value != link
  {
    if link == "" then Err(EmptyUrl)
    else if Text.Contains(link, "/e/") then
      RewriteOnlyTurnsEIntoD(link);
      RewriteChanges(link);
      Ok(Text.Replace(link, "/e/", "/d/"))
    else Ok(link)
  }

  /** Replacing `/e/` by `/d/` keeps the length and changes nothing but some
      `e` into `d`. */
  lemma {:induction false} RewriteOnlyTurnsEIntoD(s: string)
    ensures |Text.Replace(s, "/e/", "/d/")| == |s|
    ensures var r := Text.Replace(s, "/e/", "/d/");
            forall i | 0 <= i < |s| :: r[i] == s[i] || (s[i] == 'e' && r[i] == 'd')
    decreases |s|
  {
    var r := Text.Replace(s, "/e/", "/d/");
    if |s| >= 3 {
      if s[..3] == "/e/" {
        RewriteOnlyTurnsEIntoD(s[3..]);
        var t := Text.Replace(s[3..], "/e/", "/d/");
        assert r == "/d/" + t;
        forall i | 0 <= i < |s|
          ensures r[i] == s[i] || (s[i] == 'e' && r[i] == 'd')
        {
          if i < 3 {
            assert s[i] == s[..3][i];
          } else {
            assert s[i] == s[3..][i - 3];
          }
        }
      } else {
        RewriteOnlyTurnsEIntoD(s[1..]);
        var t := Text.Replace(s[1..], "/e/", "/d/");
        assert r == [s[0]] + t;
        forall i | 1 <= i < |s|
          ensures r[i] == s[i] || (s[i] == 'e' && r[i] == 'd')
        {
          assert s[i] == s[1..][i - 1];
        }
      }
    }
  }

  /** A link holding `/e/` is changed by the rewrite. */
  lemma {:induction false} RewriteChanges(s: string)
    requires Text.Contains(s, "/e/")
    ensures Text.Replace(s, "/e/", "/d/") != s
    decreases |s|
  {
    var r := Text.Replace(s, "/e/", "/d/");
    var i :| 0 <= i <= |s| - 3 && Text.OccursAt(s, "/e/", i);
    if s[..3] == "/e/" {
      assert r[1] == 'd' && s[1] == s[..3][1];
    } else {
      assert i > 0;
      Text.OccursInTail(s, "/e/", i - 1);
      assert Text.OccursAt(s[1..], "/e/", i - 1);
      RewriteChanges(s[1..]);
      assert r == [s[0]] + Text.Replace(s[1..], "/e/", "/d/");
      assert r[1..] == Text.Replace(s[1..], "/e/", "/d/");
    }
  }

  /** The first `/e/` of a link reads `/d/` after the rewrite, and what
      precedes it is kept. */
  lemma FirstMarkRewritten(link: string, i: nat)
    requires Text.OccursAt(link, "/e/", i)
    requires forall j | 0 <= j < i :: !Text.OccursAt(link, "/e/", j)
    ensures DownloadUrl(link).Ok?
    ensures var r := DownloadUrl(link).value;
            Text.OccursAt(r, "/d/", i) && r[..i] == link[..i]
  {
    var a := link[..i];
    var b := link[i + 3..];
    assert link == a + "/e/" + b;
    Text.ReplaceAfter(link, a, "/e/", "/d/", b);
    var r := DownloadUrl(link).value;
    assert r == a + "/d/" + Text.Replace(b, "/e/", "/d/");
    assert r[i..i + 3] == "/d/";
  }

  /** An embed link `https://host/e/id` becomes `https://host/d/id`. */
  lemma EmbedToDownload(host: string, id: string)
    requires host != "" && '/' !in host && host != "e"
    requires '/' !in id
    ensures DownloadUrl("https://" + host + "/e/" + id) == Ok("https://" + host + "/d/" + id)
  {
    var a := "https://" + host;
    var s := a + "/e/" + id;
    assert s == "https://" + host + "/e/" + id;
    forall i | 0 <= i < |a|
      ensures !Text.OccursAt(s, "/e/", i)
    {
      NoEmbedMarkBefore(host, id, i);
    }
    Text.ReplaceAfter(s, a, "/e/", "/d/", id);
    assert !Text.Contains(id, "/e/") by {
      forall i | 0 <= i <= |id| - 3
        ensures !Text.OccursAt(id, "/e/", i)
      {
        assert id[i..i + 3][0] == id[i];
      }
    }
    Text.ReplaceAbsent(id, "/e/", "/d/");
    assert Text.OccursAt(s, "/e/", |a|);
    assert a + "/d/" + id == "https://" + host + "/d/" + id;
  }

  /** No `/e/` starts within `https://host` when the host holds no `/` and
      is not `e` itself. */
  lemma NoEmbedMarkBefore(host: string, id: string, i: nat)
    requires host != "" && '/' !in host && host != "e"
    requires i < |"https://" + host|
    ensures !Text.OccursAt("https://" + host + "/e/" + id, "/e/", i)
  {
    var s := "https://" + host + "/e/" + id;
    if i + 3 <= |s| {
      var w := s[i..i + 3];
      assert w[0] == s[i] && w[1] == s[i + 1];
      if i < 6 {
        assert s[i] != '/';
      } else if i == 6 {
        assert s[i + 1] == '/';
      } else if i == 7 {
        if |host| >= 2 {
          assert w[2] == s[i + 2] == host[1];
        } else {
          assert host == [host[0]];
          assert s[i + 1] == host[0];
        }
      } else {
        assert s[i] == host[i - 8];
      }
    }
  }

  /** What the download page yields: the iframe's `src`, when there is one. */
  datatype DownloadPage = DownloadPage(iframeSrc: Option<string>)

  /** The whole extractor: rewrite the link, fetch the download page
      (`fetchPage`), fetch its iframe (`fetchFile` answers the `file:` match
      of that page) and strip the match. */
  function Resolve(
    link: string,
    fetchPage: string -> Result<DownloadPage>,
    fetchFile: string -> Result<Option<string>>
  ): (r: Result<string>)
    ensures link == "" ==> r == Err(EmptyUrl)
    ensures r.Ok? ==> && DownloadUrl(link).Ok?
                      && fetchPage(DownloadUrl(link).value).Ok?
                      && var src := fetchPage(DownloadUrl(link).value).value.iframeSrc;
                         && src.Some? && src.value != ""
                         && fetchFile(src.value).Ok? && fetchFile(src.value).value.Some?
                         && r.value == Text.Strip(fetchFile(src.value).value.value)
    ensures DownloadUrl(link).Ok? && fetchPage(DownloadUrl(link).value).Ok? ==>
              var src := fetchPage(DownloadUrl(link).value).value.iframeSrc;
              (src.Some? && src.value != "" && fetchFile(src.value).Ok? && fetchFile(src.value).value.Some?
               ==> r == Ok(Text.Strip(fetchFile(src.value).value.value)))
  {
    var url :- DownloadUrl(link);
    var page :- fetchPage(url);
    if page.iframeSrc.None? || page.iframeSrc.value == "" then Err(NotFound("iframe"))
    else
      var fileMatch :- fetchFile(page.iframeSrc.value);
      if fileMatch.None? then Err(NotFound("file")) else Ok(Text.Strip(fileMatch.value))
  }

  /** For an embed link `https://host/e/id` the only page fetched is the
      download page `https://host/d/id`: its failure is the extractor's, and
      any other answers of the page fetcher change nothing. */
  lemma ResolveFetchesDownloadPage(
    host: string, id: string,
    fetchPage: string -> Result<DownloadPage>, otherPage: string -> Result<DownloadPage>,
    fetchFile: string -> Result<Option<string>>)
    requires host != "" && '/' !in host && host != "e" && '/' !in id
    requires otherPage("https://" + host + "/d/" + id) == fetchPage("https://" + host + "/d/" + id)
    ensures var link := "https://" + host + "/e/" + id;
            Resolve(link, otherPage, fetchFile) == Resolve(link, fetchPage, fetchFile)
    ensures var page := fetchPage("https://" + host + "/d/" + id);
            page.Err? ==> Resolve("https://" + host + "/e/" + id, fetchPage, fetchFile) == Err(page.error)
  {
    EmbedToDownload(host, id);
  }
}
