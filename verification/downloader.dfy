/** The command-line flow of the downloader (`main`): read the providers of
    the episode page, choose one, follow its redirect, look its extractor up
    in `extractor_map`, extract the direct link and assemble the yt-dlp
    command. Everything that talks to the network, to the HTML parser or to
    an extractor is a parameter. */
module Downloader {
  import opened Results
  import Assoc
  import Text
  import Urls
  import Providers
  import Filenames
  import YtDlp

  /** The name of the extractor function for a site, `get_direct_link_from_<site>`. */
  function ExtractorName(site: string): string {
    "get_direct_link_from_" + site
  }

  /** The dotted path `extractors.get_direct_link_from_<site>`. */
  function ExtractorPath(site: string): string {
    "extractors" + "." + ExtractorName(site)
  }

  /** `extractor_map`: the supported providers and the dotted path of the
      function that handles each. */
  const ExtractorMap: Assoc.Dict<string, string> := [
    ("Vidoza", ExtractorPath("vidoza")),
    ("LoadX", ExtractorPath("loadx")),
    ("Luluvdo", ExtractorPath("luluvdo")),
    ("Filemoon", ExtractorPath("filemoon")),
    ("Doodstream", ExtractorPath("doodstream")),
    ("VOE", ExtractorPath("voe")),
    ("Vidmoly", ExtractorPath("vidmoly")),
    ("SpeedFiles", ExtractorPath("speedfiles"))
  ]

  /** The sites of the map's entries, in its order. */
  const MapSites: seq<string> := ["vidoza", "loadx", "luluvdo", "filemoon", "doodstream", "voe", "vidmoly", "speedfiles"]

  /** The sites the extractor module defines a function for. */
  const DefinedSites: set<string> := {"vidoza", "vidmoly", "loadx", "luluvdo", "filemoon", "doodstream", "voe"}

  /** The providers whose extractor exists. */
  const SupportedProviders: set<string> := {"Vidoza", "LoadX", "Luluvdo", "Filemoon", "Doodstream", "VOE", "Vidmoly"}

  /** The extractor functions the extractor module defines. */
  predicate IsDefinedExtractor(f: string) {
    exists site | site in DefinedSites :: f == ExtractorName(site)
  }

  /** The site can be read back from the function name, so different sites
      have different functions. */
  lemma ExtractorNameSite(site: string)
    ensures |ExtractorName(site)| == 21 + |site| && ExtractorName(site)[21..] == site
  {
  }

  /** `path.split('.')[-1]`. */
  function FunctionName(path: string): (f: string)
    ensures '.' !in f
  {
    var parts := Text.Split(path, '.');
    parts[|parts| - 1]
  }

  /** The function name of `extractors.get_direct_link_from_<site>`. */
  lemma FunctionNameOfPath(site: string)
    requires '.' !in site
    ensures FunctionName(ExtractorPath(site)) == ExtractorName(site)
  {
    var f := ExtractorName(site);
    assert '.' !in f by {
      assert forall k | 0 <= k < |f| :: f[k] == if k < 21 then "get_direct_link_from_"[k] else site[k - 21];
    }
    assert ExtractorPath(site) == "extractors" + ['.'] + f;
    Text.SplitLast("extractors", f, '.');
  }

  /** The lookup as written: a provider missing from `extractor_map` is not
      supported, and otherwise `getattr` fetches the named function, which
      fails with an uncaught `AttributeError` (here `MissingExtractor`) when
      the extractor module does not define it. */
  function LookupAsWritten(provider: string): (r: Result<string>)
    ensures r == Err(NotSupported(provider)) <==> Assoc.Get(ExtractorMap, provider).None?
    ensures r.Ok? ==> IsDefinedExtractor(r.value)
  {
    match Assoc.Get(ExtractorMap, provider)
    case None => Err(NotSupported(provider))
    case Some(path) =>
      var f := FunctionName(path);
      if IsDefinedExtractor(f) then Ok(f) else Err(MissingExtractor(f))
  }

  /** SpeedFiles passes the membership test but has no extractor, so `main`
      stops with an `AttributeError` instead of reporting it unsupported. */
  lemma SpeedFilesHasNoExtractor()
    ensures Assoc.Get(ExtractorMap, "SpeedFiles").Some?
    ensures LookupAsWritten("SpeedFiles") == Err(MissingExtractor(ExtractorName("speedfiles")))
  {
    EntryLookup(7);
    assert !IsDefinedExtractor(ExtractorName("speedfiles")) by {
      MapSitesDefined();
      assert MapSites[7] == "speedfiles";
      forall site | site in DefinedSites
        ensures ExtractorName("speedfiles") != ExtractorName(site)
      {
        assert site != "speedfiles";
        ExtractorNameSite("speedfiles");
        ExtractorNameSite(site);
      }
    }
  }

  /** The corrected lookup: a provider without an extractor is reported as
      unsupported, like one missing from the map. */
  function Lookup(provider: string): (r: Result<string>)
    ensures r.Err? ==> r.error == NotSupported(provider)
    ensures r.Ok? ==> IsDefinedExtractor(r.value) && r == LookupAsWritten(provider)
  {
    match LookupAsWritten(provider)
    case Ok(f) => Ok(f)
    case Err(_) => Err(NotSupported(provider))
  }

  /** Exactly the seven providers with an extractor are supported, each by
      the function named after its site. */
  lemma LookupSupported(provider: string)
    ensures Lookup(provider).Ok? <==> provider in SupportedProviders
    ensures provider == "LoadX" ==> Lookup(provider) == Ok(ExtractorName("loadx"))
    ensures provider == "VOE" ==> Lookup(provider) == Ok(ExtractorName("voe"))
  {
    if provider in SupportedProviders {
      LookupSupportedOk(provider);
    } else {
      LookupUnsupported(provider);
    }
    if provider == "LoadX" {
      LookupEntry(1);
      assert ExtractorMap[1].0 == provider && MapSites[1] == "loadx";
    } else if provider == "VOE" {
      LookupEntry(5);
      assert ExtractorMap[5].0 == provider && MapSites[5] == "voe";
    }
  }

  /** The first seven entries of the map name defined extractors. */
  lemma LookupEntry(i: nat)
    requires i < 7
    ensures Lookup(ExtractorMap[i].0) == Ok(ExtractorName(MapSites[i]))
  {
    var site := MapSites[i];
    EntryLookup(i);
    assert IsDefinedExtractor(ExtractorName(site)) by {
      MapSitesDefined();
      assert site in DefinedSites;
    }
    assert LookupAsWritten(ExtractorMap[i].0) == Ok(ExtractorName(site));
  }

  lemma LookupSupportedOk(provider: string)
    requires provider in SupportedProviders
    ensures Lookup(provider).Ok?
  {
    if provider == "Vidoza" {
      LookupEntry(0);
    } else if provider == "LoadX" {
      LookupEntry(1);
    } else if provider == "Luluvdo" {
      LookupEntry(2);
    } else if provider == "Filemoon" {
      LookupEntry(3);
    } else if provider == "Doodstream" {
      LookupEntry(4);
    } else if provider == "VOE" {
      LookupEntry(5);
    } else {
      assert provider == "Vidmoly";
      LookupEntry(6);
    }
  }

  lemma LookupUnsupported(provider: string)
    requires provider !in SupportedProviders
    ensures Lookup(provider) == Err(NotSupported(provider))
  {
    if provider == "SpeedFiles" {
      SpeedFilesHasNoExtractor();
    } else {
      assert forall i | 0 <= i < |ExtractorMap| :: ExtractorMap[i].0 != provider;
    }
  }

  /** Entry `i` is found under its provider and names the function of its site. */
  lemma EntryLookup(i: nat)
    requires i < |ExtractorMap|
    ensures Assoc.Get(ExtractorMap, ExtractorMap[i].0) == Some(ExtractorPath(MapSites[i]))
    ensures FunctionName(ExtractorPath(MapSites[i])) == ExtractorName(MapSites[i])
  {
    ExtractorMapKeys();
    Assoc.GetAt(ExtractorMap, i);
    SitesHaveNoDot(i);
    FunctionNameOfPath(MapSites[i]);
  }

  /** The map's keys are the supported providers and SpeedFiles, each once,
      and entry `i` points at the site `MapSites[i]`. */
  lemma ExtractorMapKeys()
    ensures Assoc.KeysDistinct(ExtractorMap)
    ensures forall i | 0 <= i < |ExtractorMap| :: ExtractorMap[i].0 in SupportedProviders <==> i < 7
    ensures ExtractorMap[7].0 == "SpeedFiles"
    ensures forall p | p in SupportedProviders :: exists i | 0 <= i < 7 :: ExtractorMap[i].0 == p
    ensures |MapSites| == |ExtractorMap|
    ensures forall i | 0 <= i < |ExtractorMap| :: ExtractorMap[i].1 == ExtractorPath(MapSites[i])
    ensures forall i | 0 <= i < |ExtractorMap| :: MapSites[i] in DefinedSites <==> i < 7
  {
    MapKeysDistinct();
    MapProviders();
    MapPaths();
    MapSitesDefined();
  }

  lemma MapKeysDistinct()
    ensures Assoc.KeysDistinct(ExtractorMap)
  {
    forall i, j | 0 <= i < j < |ExtractorMap|
      ensures ExtractorMap[i].0 != ExtractorMap[j].0
    {
      var a := ExtractorMap[i].0;
      var b := ExtractorMap[j].0;
      assert a[0] != b[0] || |a| != |b|;
    }
  }

  lemma MapProviders()
    ensures forall i | 0 <= i < |ExtractorMap| :: ExtractorMap[i].0 in SupportedProviders <==> i < 7
    ensures ExtractorMap[7].0 == "SpeedFiles"
    ensures forall p | p in SupportedProviders :: exists i | 0 <= i < 7 :: ExtractorMap[i].0 == p
  {
    forall i | 0 <= i < |ExtractorMap|
      ensures ExtractorMap[i].0 in SupportedProviders <==> i < 7
    {
      if i == 7 {
        assert "SpeedFiles" !in SupportedProviders;
      }
    }
    forall p | p in SupportedProviders
      ensures exists i | 0 <= i < 7 :: ExtractorMap[i].0 == p
    {
      var i := if p == "Vidoza" then 0 else if p == "LoadX" then 1 else if p == "Luluvdo" then 2
               else if p == "Filemoon" then 3 else if p == "Doodstream" then 4 else if p == "VOE" then 5 else 6;
      assert ExtractorMap[i].0 == p;
    }
  }

  lemma MapPaths()
    ensures |MapSites| == |ExtractorMap|
    ensures forall i | 0 <= i < |ExtractorMap| :: ExtractorMap[i].1 == ExtractorPath(MapSites[i])
  {
  }

  lemma SitesHaveNoDot(i: nat)
    requires i < |MapSites|
    ensures '.' !in MapSites[i]
  {
    var site := MapSites[i];
    assert forall k | 0 <= k < |site| :: 'a' <= site[k] <= 'z';
  }

  lemma MapSitesDefined()
    ensures |MapSites| == 8
    ensures forall i | 0 <= i < 8 :: MapSites[i] in DefinedSites <==> i < 7
  {
    assert "speedfiles" !in DefinedSites;
  }

  /** What `main` depends on besides its argument: the episode page as a list
      of links (`fetchEpisode`, the GET and the HTML parsing), `urljoin`, the
      redirect resolution (`follow`), the extractors (`extract`, by function
      name) and the working directory. */
  datatype Environment = Environment(
    fetchEpisode: string -> Result<seq<Providers.EpisodeLink>>,
    urljoin: (string, string) -> string,
    follow: string -> Result<string>,
    extract: (string, string) -> Result<string>,
    cwd: string)

  /** `f"{parsed.scheme}://{parsed.netloc}"`. */
  function BaseUrl(episodeUrl: string): (r: Result<string>)
    ensures r.Ok? <==> Urls.UrlParse(episodeUrl).Some?
    ensures r.Ok? ==> var p := Urls.UrlParse(episodeUrl).value; r.value == p.scheme + "://" + p.netloc
  {
    var p :- Urls.UrlParse(episodeUrl).ToResult(InvalidUrl);
    Ok(p.scheme + "://" + p.netloc)
  }

  /** The base URL of an absolute episode URL keeps its scheme and host and
      drops its path and query. */
  lemma BaseUrlOfAbsolute(scheme: string, host: string, path: string, query: string)
    requires scheme == "http" || scheme == "https"
    requires Urls.PlainHost(host)
    requires |path| > 0 && path[0] == '/' && Urls.PlainPath(path)
    requires forall j | 0 <= j < |query| :: query[j] > ' ' && query[j] != '#'
    ensures BaseUrl(Urls.AbsoluteUrl(scheme, host, path, query)) == Ok(scheme + "://" + host)
  {
    Urls.ParseAbsolute(scheme, host, path, query);
  }

  /** `os.path.join(os.getcwd(), filename)`: the derived file name inside
      the working directory. */
  function OutputPath(cwd: string, episodeUrl: string): (path: string)
    ensures |path| >= 4 && path[|path| - 4..] == ".mp4"
    ensures var file := Filenames.DeriveOutputFilename(episodeUrl);
            |path| >= |file| && path[|path| - |file|..] == file
  {
    var file := Filenames.DeriveOutputFilename(episodeUrl);
    JoinDerived(cwd, episodeUrl);
    Urls.PathJoin(cwd, file)
  }

  /** The derived file name is relative and ends in `.mp4`, so joining it to
      a directory keeps both. */
  lemma JoinDerived(dir: string, episodeUrl: string)
    ensures var file := Filenames.DeriveOutputFilename(episodeUrl);
            var path := Urls.PathJoin(dir, file);
            |path| >= |file| && path[|path| - |file|..] == file && |path| >= 4 && path[|path| - 4..] == ".mp4"
  {
    var file := Filenames.DeriveOutputFilename(episodeUrl);
    assert |file| >= 4 && file[|file| - 4..] == ".mp4" by {
      assert Filenames.Extension == ".mp4";
    }
    assert file[0] != '/' by {
      assert file[0] !in Filenames.InvalidChars;
    }
    JoinRelative(dir, file);
  }

  /** Joining a relative name ending in `.mp4` keeps that ending. */
  lemma JoinRelative(dir: string, file: string)
    requires |file| >= 4 && file[|file| - 4..] == ".mp4" && file[0] != '/'
    ensures var path := Urls.PathJoin(dir, file);
            |path| >= |file| && path[|path| - |file|..] == file && path[|path| - 4..] == ".mp4"
  {
    assert !Text.StartsWith(file, "/");
    var path := Urls.PathJoin(dir, file);
    assert path[|path| - 4..] == path[|path| - |file|..][|file| - 4..];
  }

  /** `main` up to the choice of a provider: the episode page, its base URL,
      the providers it offers and the one chosen for the default language. */
  function Chosen(env: Environment, episodeUrl: string): (r: Result<(string, string)>)
    ensures r.Ok? ==>
              && env.fetchEpisode(episodeUrl).Ok? && BaseUrl(episodeUrl).Ok?
              && var providers := Providers.ParseProviders(env.fetchEpisode(episodeUrl).value, BaseUrl(episodeUrl).value, env.urljoin);
                 && providers.Ok?
                 && r == Providers.ChooseProvider(providers.value, Providers.DefaultLanguage)
  {
    var links :- env.fetchEpisode(episodeUrl);
    var base :- BaseUrl(episodeUrl);
    var providers :- Providers.ParseProviders(links, base, env.urljoin);
    Providers.ChooseProvider(providers, Providers.DefaultLanguage)
  }

  /** Whether `cmd` runs yt-dlp on `direct`, writing to `output` and
      sending the headers of `name`: the command read back gives them. */
  predicate Downloads(cmd: seq<string>, direct: string, output: string, name: string) {
    YtDlp.ReadCommand(cmd) == Some((direct, output, YtDlp.Headers(name)))
  }

  /** `main` after the choice, as written: follow the redirect, test
      membership in `extractor_map`, then fetch the named function, which
      may not exist. */
  function Finish(env: Environment, episodeUrl: string, name: string, redirect: string): (r: Result<seq<string>>)
    ensures r.Ok? ==>
              && name in SupportedProviders && env.follow(redirect).Ok? && LookupAsWritten(name).Ok?
              && var direct := env.extract(LookupAsWritten(name).value, env.follow(redirect).value);
                 direct.Ok? && Downloads(r.value, direct.value, OutputPath(env.cwd, episodeUrl), name)
    ensures env.follow(redirect).Ok? && LookupAsWritten(name).Err? ==> r == Err(LookupAsWritten(name).error)
    ensures env.follow(redirect).Ok? && LookupAsWritten(name).Ok?
            && env.extract(LookupAsWritten(name).value, env.follow(redirect).value).Ok?
            ==> r.Ok?
  {
    var embed :- env.follow(redirect);
    var extractor :- LookupAsWritten(name);
    LookupAsWrittenSupported(name);
    Run(env, episodeUrl, name, extractor, embed)
  }

  /** The lookup as written succeeds exactly for the supported providers. */
  lemma LookupAsWrittenSupported(provider: string)
    ensures LookupAsWritten(provider).Ok? <==> provider in SupportedProviders
  {
    LookupSupported(provider);
  }

  /** `main` after the lookup: extract the direct link and build the command. */
  function Run(env: Environment, episodeUrl: string, name: string, extractor: string, embed: string): (r: Result<seq<string>>)
    ensures r.Ok? <==> env.extract(extractor, embed).Ok?
    ensures r.Ok? ==> Downloads(r.value, env.extract(extractor, embed).value, OutputPath(env.cwd, episodeUrl), name)
  {
    var direct :- env.extract(extractor, embed);
    var output := OutputPath(env.cwd, episodeUrl);
    YtDlp.ReadCommandInverse(direct, output, name);
    Ok(YtDlp.Command(direct, output, name))
  }

  /** `main` up to the yt-dlp call: the command it would run. */
  function Main(env: Environment, episodeUrl: string): (r: Result<seq<string>>)
    ensures r.Ok? ==>
              && Chosen(env, episodeUrl).Ok?
              && var (name, redirect) := Chosen(env, episodeUrl).value;
                 && name in SupportedProviders && env.follow(redirect).Ok? && LookupAsWritten(name).Ok?
                 && var direct := env.extract(LookupAsWritten(name).value, env.follow(redirect).value);
                    direct.Ok? && Downloads(r.value, direct.value, OutputPath(env.cwd, episodeUrl), name)
    ensures Chosen(env, episodeUrl).Ok? ==>
              var (name, redirect) := Chosen(env, episodeUrl).value;
              env.follow(redirect).Ok? && LookupAsWritten(name).Ok?
              && env.extract(LookupAsWritten(name).value, env.follow(redirect).value).Ok?
              ==> r.Ok?
  {
    var choice :- Chosen(env, episodeUrl);
    Finish(env, episodeUrl, choice.0, choice.1)
  }

  /** The command `main` builds writes to the derived `.mp4` file inside the
      working directory and carries one header pair per header of the
      provider. */
  lemma MainCommandShape(env: Environment, episodeUrl: string)
    requires Main(env, episodeUrl).Ok?
    ensures var cmd := Main(env, episodeUrl).value;
            var name := Chosen(env, episodeUrl).value.0;
            && |cmd| == 11 + 2 * |YtDlp.Headers(name)|
            && cmd[7] == OutputPath(env.cwd, episodeUrl)
            && |cmd[7]| >= 4 && cmd[7][|cmd[7]| - 4..] == ".mp4"
  {
    var cmd := Main(env, episodeUrl).value;
    var (name, redirect) := Chosen(env, episodeUrl).value;
    var direct := env.extract(LookupAsWritten(name).value, env.follow(redirect).value).value;
    assert Downloads(cmd, direct, OutputPath(env.cwd, episodeUrl), name);
    DownloadsShape(cmd, direct, OutputPath(env.cwd, episodeUrl), name);
  }

  /** A command that reads back as a download has one header pair per
      header of the provider and the output path at position 7. */
  lemma DownloadsShape(cmd: seq<string>, direct: string, output: string, name: string)
    requires Downloads(cmd, direct, output, name)
    ensures |cmd| == 11 + 2 * |YtDlp.Headers(name)| && cmd[7] == output
  {
    var read := YtDlp.ReadCommand(cmd).value;
    assert |cmd| >= 11 && |cmd| % 2 == 1;
    assert |read.2| == (|cmd| - 11) / 2;
  }

  /** The corrected `main`: the same flow with the corrected lookup, so a
      provider without an extractor is reported as not supported. */
  function MainCorrected(env: Environment, episodeUrl: string): (r: Result<seq<string>>)
    ensures r.Ok? <==> Main(env, episodeUrl).Ok?
    ensures r.Ok? ==> r == Main(env, episodeUrl)
    ensures Chosen(env, episodeUrl).Ok? && env.follow(Chosen(env, episodeUrl).value.1).Ok?
            && Chosen(env, episodeUrl).value.0 !in SupportedProviders
            ==> r == Err(NotSupported(Chosen(env, episodeUrl).value.0))
  {
    var choice :- Chosen(env, episodeUrl);
    var embed :- env.follow(choice.1);
    LookupSupported(choice.0);
    var extractor :- Lookup(choice.0);
    Run(env, episodeUrl, choice.0, extractor, embed)
  }

  /** SpeedFiles as the chosen provider: `main` as written stops at the
      missing function, and the corrected `main` reports the provider as not
      supported; neither runs an extractor. */
  lemma SpeedFilesStopsMain(env: Environment, episodeUrl: string, other: (string, string) -> Result<string>)
    requires Chosen(env, episodeUrl).Ok? && Chosen(env, episodeUrl).value.0 == "SpeedFiles"
    requires env.follow(Chosen(env, episodeUrl).value.1).Ok?
    ensures Main(env, episodeUrl) == Err(MissingExtractor(ExtractorName("speedfiles")))
    ensures MainCorrected(env, episodeUrl) == Err(NotSupported("SpeedFiles"))
    ensures Main(env.(extract := other), episodeUrl) == Main(env, episodeUrl)
  {
    SpeedFilesHasNoExtractor();
    assert Chosen(env.(extract := other), episodeUrl) == Chosen(env, episodeUrl);
  }

  /** A provider missing from `extractor_map` stops `main` with "not
      supported" before any extractor runs: the outcome is the same whatever
      the extractors would do. */
  lemma UnsupportedStopsBeforeExtraction(env: Environment, episodeUrl: string, other: (string, string) -> Result<string>)
    requires Chosen(env, episodeUrl).Ok?
    requires var choice := Chosen(env, episodeUrl).value;
             env.follow(choice.1).Ok? && Assoc.Get(ExtractorMap, choice.0).None?
    ensures Main(env, episodeUrl) == Err(NotSupported(Chosen(env, episodeUrl).value.0))
    ensures Main(env.(extract := other), episodeUrl) == Main(env, episodeUrl)
  {
    assert Chosen(env.(extract := other), episodeUrl) == Chosen(env, episodeUrl);
  }
}
