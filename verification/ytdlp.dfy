/** The yt-dlp command line: a fixed prefix with the direct link and the
    output path, followed by one `--add-header` pair per header the chosen
    provider needs (`PROVIDER_HEADERS_D` and `build_ytdl_command`). */
module YtDlp {
  import opened Results
  import Assoc
  import Text

  const RandomUserAgent: string :=
    "Mozilla/5.0 (Windows NT 10.0; Win64; x64) AppleWebKit/537.36 (KHTML, like Gecko) Chrome/123.0.0.0 Safari/537.36"

  const LuluvdoUserAgent: string :=
    "Mozilla/5.0 (Android 15; Mobile; rv:132.0) Gecko/132.0 Firefox/132.0"

  /** `PROVIDER_HEADERS_D`: the extra HTTP headers per provider, in order. */
  const ProviderHeaders: Assoc.Dict<string, seq<string>> := [
    ("Vidmoly", ["Referer: \"https://vidmoly.to\""]),
    ("Doodstream", ["Referer: \"https://dood.li/\""]),
    ("VOE", ["User-Agent: " + RandomUserAgent]),
    ("LoadX", ["Accept: */*"]),
    ("Filemoon", ["User-Agent: " + RandomUserAgent, "Referer: \"https://filemoon.to\""]),
    ("Luluvdo", [
      "User-Agent: " + LuluvdoUserAgent,
      "Accept-Language: de-DE,de;q=0.9,en-US;q=0.8,en;q=0.7",
      "Origin: \"https://luluvdo.com\"",
      "Referer: \"https://luluvdo.com/\""
    ]),
    ("Vidoza", []),
    ("SpeedFiles", []),
    ("Streamtape", []),
    ("Hanime", [])
  ]

  /** The providers of the table, in its order. */
  const TableProviders: seq<string> :=
    ["Vidmoly", "Doodstream", "VOE", "LoadX", "Filemoon", "Luluvdo", "Vidoza", "SpeedFiles", "Streamtape", "Hanime"]

  /** The table names every provider once, in this order. */
  lemma HeaderTableShape()
    ensures Assoc.Keys(ProviderHeaders) == TableProviders
    ensures Assoc.KeysDistinct(ProviderHeaders)
  {
    TableKeys();
    TableProvidersDistinct();
    var ks := Assoc.Keys(ProviderHeaders);
    assert forall i | 0 <= i < |ProviderHeaders| :: ProviderHeaders[i].0 == ks[i];
  }

  lemma TableKeys()
    ensures Assoc.Keys(ProviderHeaders) == TableProviders
  {
    var ks := Assoc.Keys(ProviderHeaders);
    assert forall i | 0 <= i < |ks| :: ks[i] == TableProviders[i];
  }

  lemma TableProvidersDistinct()
    ensures forall i, j | 0 <= i < j < |TableProviders| :: TableProviders[i] != TableProviders[j]
  {
    forall i, j | 0 <= i < j < |TableProviders|
      ensures TableProviders[i] != TableProviders[j]
    {
      assert TableProviders[i][0] != TableProviders[j][0] || |TableProviders[i]| != |TableProviders[j]|
             || TableProviders[i][1] != TableProviders[j][1];
    }
  }

  /** `PROVIDER_HEADERS_D.get(provider, [])`. */
  function Headers(provider: string): seq<string> {
    Assoc.Get(ProviderHeaders, provider).GetOr([])
  }

  /** A provider the table does not name needs no extra headers. */
  lemma HeadersUnknown(provider: string)
    requires provider !in TableProviders
    ensures Headers(provider) == []
  {
    Assoc.GetKeys(ProviderHeaders, provider);
    HeaderTableShape();
  }

  /** What the table says for each provider. */
  lemma HeadersOfProviders()
    ensures Headers("Filemoon") == ["User-Agent: " + RandomUserAgent, "Referer: \"https://filemoon.to\""]
    ensures Headers("LoadX") == ["Accept: */*"]
    ensures |Headers("Luluvdo")| == 4 && Headers("Luluvdo")[0] == "User-Agent: " + LuluvdoUserAgent
    ensures Headers("Vidoza") == [] && Headers("SpeedFiles") == [] && Headers("Streamtape") == [] && Headers("Hanime") == []
  {
    HeaderTableShape();
    Assoc.GetAt(ProviderHeaders, 3);
    Assoc.GetAt(ProviderHeaders, 4);
    Assoc.GetAt(ProviderHeaders, 5);
    Assoc.GetAt(ProviderHeaders, 6);
    Assoc.GetAt(ProviderHeaders, 7);
    Assoc.GetAt(ProviderHeaders, 8);
    Assoc.GetAt(ProviderHeaders, 9);
  }

  /** The arguments before the headers: the link, the retry and concurrency
      options, `-o` with the output path, and the output options. */
  function Prefix(link: string, output: string): seq<string> {
    ["yt-dlp", link, "--fragment-retries", "infinite", "--concurrent-fragments", "4",
     "-o", output, "--quiet", "--no-warnings", "--progress"]
  }

  /** `cmd.extend(["--add-header", header])` for every header, in order. */
  function HeaderArgs(headers: seq<string>): (r: seq<string>)
    ensures |r| == 2 * |headers|
    ensures forall k | 0 <= k < |headers| :: r[2 * k] == "--add-header" && r[2 * k + 1] == headers[k]
  {
    if |headers| == 0 then []
    else
      var rest := HeaderArgs(headers[1..]);
      var r := ["--add-header", headers[0]] + rest;
      forall k | 1 <= k < |headers|
        ensures r[2 * k] == "--add-header" && r[2 * k + 1] == headers[k]
      {
        assert r[2 * k] == rest[2 * (k - 1)];
        assert r[2 * k + 1] == rest[2 * (k - 1) + 1] == headers[1..][k - 1];
      }
      r
  }

  /** The command line for a link, an output path and the headers to send. */
  function CommandLine(link: string, output: string, headers: seq<string>): (cmd: seq<string>)
    ensures |cmd| == 11 + 2 * |headers|
    ensures cmd[0] == "yt-dlp" && cmd[1] == link && cmd[6] == "-o" && cmd[7] == output
    ensures forall k | 0 <= k < |headers| :: cmd[11 + 2 * k] == "--add-header" && cmd[12 + 2 * k] == headers[k]
  {
    var cmd := Prefix(link, output) + HeaderArgs(headers);
    forall k | 0 <= k < |headers|
      ensures cmd[11 + 2 * k] == "--add-header" && cmd[12 + 2 * k] == headers[k]
    {
      assert cmd[11 + 2 * k] == HeaderArgs(headers)[2 * k];
      assert cmd[12 + 2 * k] == HeaderArgs(headers)[2 * k + 1];
    }
    cmd
  }

  /** `build_ytdl_command`: the command line with the headers the table gives
      the provider. */
  function Command(link: string, output: string, provider: string): (cmd: seq<string>)
    ensures |cmd| == 11 + 2 * |Headers(provider)|
    ensures cmd[0] == "yt-dlp" && cmd[1] == link && cmd[6] == "-o" && cmd[7] == output
    ensures forall k | 0 <= k < |Headers(provider)| ::
              cmd[11 + 2 * k] == "--add-header" && cmd[12 + 2 * k] == Headers(provider)[k]
  {
    CommandLine(link, output, Headers(provider))
  }

  /** A provider the table does not name gets the bare command line. */
  lemma CommandUnknown(link: string, output: string, provider: string)
    requires provider !in TableProviders
    ensures Command(link, output, provider) == Prefix(link, output)
  {
    HeadersUnknown(provider);
    assert HeaderArgs([]) == [];
    assert Prefix(link, output) + [] == Prefix(link, output);
  }

  /** Reads a command line back into the link, the output path and the
      headers; `None` when it does not have the shape of one. */
  function ReadCommand(cmd: seq<string>): Option<(string, string, seq<string>)> {
    if |cmd| < 11 || |cmd| % 2 == 0 || cmd[..11] != Prefix(cmd[1], cmd[7]) then None
    else if exists k | 0 <= k < (|cmd| - 11) / 2 :: cmd[11 + 2 * k] != "--add-header" then None
    else Some((cmd[1], cmd[7], seq((|cmd| - 11) / 2, k requires 0 <= k < (|cmd| - 11) / 2 => cmd[12 + 2 * k])))
  }

  /** The command line determines the link, the output path and the headers:
      reading it back gives them all. */
  lemma ReadCommandInverse(link: string, output: string, provider: string)
    ensures ReadCommand(Command(link, output, provider)) == Some((link, output, Headers(provider)))
  {
    ReadCommandLine(link, output, Headers(provider));
  }

  lemma ReadCommandLine(link: string, output: string, headers: seq<string>)
    ensures ReadCommand(CommandLine(link, output, headers)) == Some((link, output, headers))
  {
    var cmd := CommandLine(link, output, headers);
    assert cmd[..11] == Prefix(cmd[1], cmd[7]) by {
      assert cmd == Prefix(link, output) + HeaderArgs(headers);
    }
    assert (|cmd| - 11) / 2 == |headers| && |cmd| % 2 == 1;
    assert !exists k | 0 <= k < |headers| :: cmd[11 + 2 * k] != "--add-header";
    assert seq(|headers|, k requires 0 <= k < |headers| => cmd[12 + 2 * k]) == headers;
  }
}
