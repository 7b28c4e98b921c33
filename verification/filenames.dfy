/** File names of the downloader: `sanitize_filename` drops the characters a
    file system may refuse, and `derive_output_filename` turns an episode URL
    `…/<slug>/staffel-<s>/episode-<e>` into `<slug>_S<ss>E<ee>.mp4`, falling
    back to the last path segment when the URL does not have that shape. */
module Filenames {
  import opened Results
  import Text
  import Numbers
  import Urls

  /** The characters `sanitize_filename` removes: `<>:"/\|?*`. */
  const InvalidChars: set<char> := {'<', '>', ':', '"', '/', '\\', '|', '?', '*'}

  /** The extension every derived file name ends with. */
  const Extension: string := ".mp4"

  /** `sanitize_filename`: the name without the invalid characters. */
  function SanitizeFilename(name: string): (r: string)
    ensures |r| <= |name|
    ensures forall i | 0 <= i < |r| :: r[i] !in InvalidChars
  {
    Text.Without(name, InvalidChars)
  }

  /** Sanitising only deletes: the result is a subsequence of the name, and
      every valid character is kept as often as it occurs. */
  lemma SanitizeKeepsOthers(name: string)
    ensures Text.IsSubsequence(SanitizeFilename(name), name)
    ensures forall c | c !in InvalidChars :: multiset(SanitizeFilename(name))[c] == multiset(name)[c]
  {
    Text.WithoutIsSubsequence(name, InvalidChars);
    Text.WithoutKeepsCounts(name, InvalidChars);
  }

  /** A name without invalid characters is left as it is; in particular
      sanitising twice is sanitising once. */
  lemma SanitizeIdempotent(name: string)
    ensures (forall i | 0 <= i < |name| :: name[i] !in InvalidChars) ==> SanitizeFilename(name) == name
    ensures SanitizeFilename(SanitizeFilename(name)) == SanitizeFilename(name)
  {
    if forall i | 0 <= i < |name| :: name[i] !in InvalidChars {
      Text.WithoutNothingToDrop(name, InvalidChars);
    }
    Text.WithoutNothingToDrop(SanitizeFilename(name), InvalidChars);
  }

  /** `[p for p in parts if p]`. */
  function NonEmpty(parts: seq<string>): (r: seq<string>)
    ensures |r| <= |parts|
    ensures forall k | 0 <= k < |r| :: r[k] != "" && r[k] in parts
    ensures forall k | 0 <= k < |parts| :: parts[k] != "" ==> parts[k] in r
  {
    if |parts| == 0 then []
    else if parts[0] == "" then NonEmpty(parts[1..])
    else [parts[0]] + NonEmpty(parts[1..])
  }

  /** Filtering keeps a list of non-empty pieces as it is. */
  lemma {:induction false} NonEmptyKeepsAll(parts: seq<string>)
    requires forall k | 0 <= k < |parts| :: parts[k] != ""
    ensures NonEmpty(parts) == parts
  {
    if |parts| > 0 {
      NonEmptyKeepsAll(parts[1..]);
    }
  }

  /** A non-empty last piece is the last piece kept. */
  lemma {:induction false} NonEmptyLast(parts: seq<string>)
    requires |parts| > 0 && parts[|parts| - 1] != ""
    ensures var r := NonEmpty(parts); |r| > 0 && r[|r| - 1] == parts[|parts| - 1]
  {
    if |parts| > 1 {
      NonEmptyLast(parts[1..]);
      assert parts[1..][|parts| - 2] == parts[|parts| - 1];
    }
  }

  /** `int(part.split("-")[1])`: `None` stands for the `IndexError` of a part
      without `-` and for the `ValueError` of a piece that is no integer. */
  function NumberAfterDash(part: string): (r: Option<int>)
    ensures '-' !in part ==> r.None?
  {
    var pieces := Text.Split(part, '-');
    if |pieces| < 2 then None else Numbers.PyInt(pieces[1])
  }

  /** The number of `word-<n>` is `n`. */
  lemma NumberAfterDashOf(word: string, n: nat)
    requires '-' !in word
    ensures NumberAfterDash(word + "-" + Numbers.NatToDecimal(n)) == Some(n)
  {
    var d := Numbers.NatToDecimal(n);
    assert '-' !in d by {
      assert forall k | 0 <= k < |d| :: Numbers.IsDigit(d[k]);
    }
    assert word + "-" + d == word + ['-'] + d;
    Text.SplitAppend(word, d, '-');
    Text.SplitNoSep(d, '-');
    Numbers.PyIntOfDecimal(n);
  }

  /** The pieces of the primary form, `{slug}_S{season:02d}E{episode:02d}.mp4`,
      read from the last three non-empty segments of the URL's path; `None`
      stands for any exception raised on the way. */
  function EpisodeParts(url: string): Option<(string, int, int)> {
    var p :- Urls.UrlParse(url);
    EpisodeOfPath(p.path)
  }

  function EpisodeOfPath(path: string): Option<(string, int, int)> {
    var parts := NonEmpty(Text.Split(path, '/'));
    if |parts| < 3 then None
    else
      var season :- NumberAfterDash(parts[|parts| - 2]);
      var episode :- NumberAfterDash(parts[|parts| - 1]);
      Some((parts[|parts| - 3], season, episode))
  }

  function EpisodeFileName(slug: string, season: int, episode: int): string {
    SanitizeFilename(slug) + "_S" + Numbers.Pad2(season) + "E" + Numbers.Pad2(episode) + Extension
  }

  /** The fallback: the sanitised last segment of the URL, trailing slashes
      removed first. */
  function FallbackName(url: string): string {
    SanitizeFilename(Urls.Basename(Text.RStripChar(url, '/'))) + Extension
  }

  /** `derive_output_filename`: every name ends in `.mp4` and holds none of
      the invalid characters, so it never names another directory. */
  function DeriveOutputFilename(url: string): (r: string)
    ensures |r| >= |Extension| && r[|r| - |Extension|..] == Extension
    ensures forall i | 0 <= i < |r| :: r[i] !in InvalidChars
  {
    match EpisodeParts(url)
    case Some((slug, season, episode)) =>
      EpisodeNameValid(slug, season, episode);
      EpisodeFileName(slug, season, episode)
    case None =>
      FallbackNameValid(url);
      FallbackName(url)
  }

  lemma FallbackNameValid(url: string)
    ensures var r := FallbackName(url);
            && |r| >= |Extension| && r[|r| - |Extension|..] == Extension
            && forall i | 0 <= i < |r| :: r[i] !in InvalidChars
  {
    var stem := SanitizeFilename(Urls.Basename(Text.RStripChar(url, '/')));
    var r := stem + Extension;
    forall i | 0 <= i < |r|
      ensures r[i] !in InvalidChars
    {
      if i >= |stem| {
        assert r[i] == Extension[i - |stem|];
      }
    }
  }

  lemma EpisodeNameValid(slug: string, season: int, episode: int)
    ensures var r := EpisodeFileName(slug, season, episode);
            && |r| >= |Extension| && r[|r| - |Extension|..] == Extension
            && forall i | 0 <= i < |r| :: r[i] !in InvalidChars
  {
    var s := Numbers.Pad2(season);
    var e := Numbers.Pad2(episode);
    NumberTextValid(season);
    NumberTextValid(episode);
    var r := EpisodeFileName(slug, season, episode);
    var head := SanitizeFilename(slug) + "_S" + s + "E" + e;
    assert r == head + Extension;
    forall i | 0 <= i < |r|
      ensures r[i] !in InvalidChars
    {
      if i >= |head| {
        assert r[i] == Extension[i - |head|];
      }
    }
  }

  /** `{n:02d}` is digits, after a minus sign for a negative number. */
  lemma NumberTextValid(n: int)
    ensures forall i | 0 <= i < |Numbers.Pad2(n)| :: Numbers.Pad2(n)[i] !in InvalidChars
  {
    var t := Numbers.Pad2(n);
    forall i | 0 <= i < |t|
      ensures t[i] !in InvalidChars
    {
      if n >= 0 {
        assert Numbers.IsDigit(t[i]);
      } else if i > 0 {
        assert t[i] == t[1..][i - 1];
        assert Numbers.IsDigit(t[1..][i - 1]);
      }
    }
  }

  /** An episode URL `scheme://host/<dirs>/<slug>/<word>-<s>/<word>-<e>` is
      named `<slug>_S<ss>E<ee>.mp4`. */
  lemma DeriveEpisode(scheme: string, host: string, segs: seq<string>, query: string, season: nat, episode: nat)
    requires scheme == "http" || scheme == "https"
    requires Urls.PlainHost(host)
    requires |segs| >= 3
    requires forall k | 0 <= k < |segs| :: segs[k] != "" && '/' !in segs[k]
    requires Urls.PlainPath("/" + Text.Join(segs, '/'))
    requires forall j | 0 <= j < |query| :: query[j] > ' ' && query[j] != '#'
    requires exists word | '-' !in word :: segs[|segs| - 2] == word + "-" + Numbers.NatToDecimal(season)
    requires exists word | '-' !in word :: segs[|segs| - 1] == word + "-" + Numbers.NatToDecimal(episode)
    ensures DeriveOutputFilename(Urls.AbsoluteUrl(scheme, host, "/" + Text.Join(segs, '/'), query))
            == EpisodeFileName(segs[|segs| - 3], season, episode)
  {
    var path := "/" + Text.Join(segs, '/');
    var url := Urls.AbsoluteUrl(scheme, host, path, query);
    assert Urls.UrlParse(url) == Some(Urls.UrlParts(scheme, host, path, "", query, "")) by {
      Urls.ParseAbsolute(scheme, host, path, query);
    }
    assert NonEmpty(Text.Split(path, '/')) == segs by {
      PathSegments(segs);
    }
    var n := |segs|;
    var w1 :| '-' !in w1 && segs[n - 2] == w1 + "-" + Numbers.NatToDecimal(season);
    var w2 :| '-' !in w2 && segs[n - 1] == w2 + "-" + Numbers.NatToDecimal(episode);
    NumberAfterDashOf(w1, season);
    NumberAfterDashOf(w2, episode);
  }

  /** The non-empty pieces of `/a/b/c` are `a`, `b`, `c`. */
  lemma PathSegments(segs: seq<string>)
    requires |segs| >= 1
    requires forall k | 0 <= k < |segs| :: segs[k] != "" && '/' !in segs[k]
    ensures NonEmpty(Text.Split("/" + Text.Join(segs, '/'), '/')) == segs
  {
    var joined := Text.Join(segs, '/');
    assert "/" + joined == [] + ['/'] + joined;
    Text.SplitAppend([], joined, '/');
    Text.SplitJoin(segs, '/');
    assert Text.Split("/" + joined, '/') == [[]] + segs;
    assert ([[]] + segs)[1..] == segs;
    NonEmptyKeepsAll(segs);
  }

  /** A URL whose last segment carries no `-` is named after that segment. */
  lemma DeriveFallback(scheme: string, host: string, dir: string, last: string)
    requires scheme == "http" || scheme == "https"
    requires Urls.PlainHost(host)
    requires dir == "" || dir[0] == '/'
    requires last != "" && '/' !in last && '-' !in last
    requires Urls.PlainPath(dir + "/" + last)
    ensures DeriveOutputFilename(Urls.AbsoluteUrl(scheme, host, dir + "/" + last, ""))
            == SanitizeFilename(last) + Extension
  {
    var url := Urls.AbsoluteUrl(scheme, host, dir + "/" + last, "");
    ParseWithoutQuery(scheme, host, dir, last);
    NoEpisodeInPath(dir, last);
    assert EpisodeParts(url).None?;
    FallbackOfAbsolute(scheme, host, dir, last);
  }

  lemma ParseWithoutQuery(scheme: string, host: string, dir: string, last: string)
    requires scheme == "http" || scheme == "https"
    requires Urls.PlainHost(host)
    requires dir == "" || dir[0] == '/'
    requires Urls.PlainPath(dir + "/" + last)
    ensures Urls.UrlParse(Urls.AbsoluteUrl(scheme, host, dir + "/" + last, ""))
            == Some(Urls.UrlParts(scheme, host, dir + "/" + last, "", "", ""))
  {
    var path := dir + "/" + last;
    assert path[0] == '/';
    Urls.ParseAbsolute(scheme, host, path, "");
  }

  lemma FallbackOfAbsolute(scheme: string, host: string, dir: string, last: string)
    requires last != "" && '/' !in last
    ensures FallbackName(Urls.AbsoluteUrl(scheme, host, dir + "/" + last, "")) == SanitizeFilename(last) + Extension
  {
    var origin := scheme + "://" + host;
    Urls.AbsoluteUrlNoQuery(scheme, host, dir + "/" + last);
    assert origin + (dir + "/" + last) == (origin + dir) + "/" + last;
    FallbackOf(origin + dir, last);
  }

  /** A path ending in a segment without `-` has no episode number. */
  lemma NoEpisodeInPath(dir: string, last: string)
    requires last != "" && '/' !in last && '-' !in last
    ensures EpisodeOfPath(dir + "/" + last).None?
  {
    var path := dir + "/" + last;
    assert path == dir + ['/'] + last;
    Text.SplitLast(dir, last, '/');
    NonEmptyLast(Text.Split(path, '/'));
  }

  /** The fallback name of `a/b` is the sanitised `b`. */
  lemma FallbackOf(a: string, last: string)
    requires last != "" && '/' !in last
    ensures FallbackName(a + "/" + last) == SanitizeFilename(last) + Extension
  {
    var url := a + "/" + last;
    assert url[|url| - 1] == last[|last| - 1];
    assert Text.RStripChar(url, '/') == url;
    BasenameOf(a, last);
  }

  /** The base name of `a/b` is `b` when `b` holds no `/`. */
  lemma {:induction false} BasenameOf(a: string, b: string)
    requires '/' !in b
    ensures Urls.Basename(a + "/" + b) == b
    decreases |b|
  {
    if |b| > 0 {
      var p := a + "/" + b;
      assert p[..|p| - 1] == a + "/" + b[..|b| - 1];
      BasenameOf(a, b[..|b| - 1]);
      assert b == b[..|b| - 1] + [b[|b| - 1]];
    }
  }
}
