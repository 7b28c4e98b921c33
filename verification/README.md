# AniWorld episode resolver — a Dafny model

The downloader takes an AniWorld episode URL and works out which streaming
provider to use. It then resolves that provider's embed page to a direct
video link and hands the link to yt-dlp. This project models the logic
between the network calls:

- the extractors' string work in `extractors.py`:
  - VOE: ROT13, junk-token removal, code-point shift and the three-way fallback;
  - LoadX: URL validation, id and host extraction, and the POST URL;
  - Luluvdo: validation, id extraction and the embed URL;
  - Doodstream: the random suffix and the final link;
  - Filemoon: the `/e/` to `/d/` rewrite;
- the orchestration in `downloader.py`:
  - file-name sanitising and output-name derivation;
  - the provider map built from the episode page, and the choice of a provider by language;
  - the header table and the yt-dlp command line;
  - the `extractor_map` dispatch in `main`.

Every HTTP request, HTML query, regex match, `base64`/`json` call, the
clock and the random generator is a parameter. Functions return values and
never touch the world. A request that fails, or a regex that finds nothing,
is an input value such as `Err(...)` or `None`.

Python's exceptions become `Result` errors (`results.dfy`). Python's
ordered `dict` is an association list (`assoc.dfy`). `str.strip`, `split`,
`replace`, `rstrip`, `int()`, `isdigit` and `lower` are written out
concretely (`text.dfy`, `numbers.dfy`). `urlparse` is a concrete stand-in
(`urls.dfy`). It follows the splitting steps of `urllib.parse.urlsplit`:
the scheme, then `//netloc`, then `;params`, `?query` and `#fragment`.

Modules:

| file | module | models |
|---|---|---|
| results.dfy | Results | `Option`, `Result` and the error kinds raised by the source |
| numbers.dfy | Numbers | decimal text, `int()`, `:02d` padding |
| text.dfy | Text | `strip`, `split`/`join`, `replace`, `rstrip`, `lower`, filtering |
| assoc.dfy | Assoc | insertion-ordered dictionaries |
| urls.dfy | Urls | `urlparse`, `os.path.basename`, `os.path.join` |
| codecs.dfy | Codecs | base64 and JSON as given functions |
| voe.dfy | Voe | the VOE extractor |
| loadx.dfy | LoadX | the LoadX extractor |
| luluvdo.dfy | Luluvdo | the Luluvdo extractor |
| doodstream.dfy | Doodstream | the Doodstream extractor |
| filemoon.dfy | Filemoon | the Filemoon extractor |
| filenames.dfy | Filenames | `sanitize_filename`, `derive_output_filename` |
| providers.dfy | Providers | `parse_providers_from_html`'s loop, `choose_provider` |
| ytdlp.dfy | YtDlp | `PROVIDER_HEADERS_D`, `build_ytdl_command` |
| downloader.dfy | Downloader | `extractor_map` and the flow of `main` |

## Model

| member | source | states |
|---|---|---|
| Voe.Rot13 | extractors.py:298-303 | an upper-case letter becomes a different upper-case letter, a lower-case one a different lower-case letter, and anything else is kept |
| Voe.Rot13Twice | extractors.py:298-303 | shifting a character twice gives it back |
| Voe.ShiftLetters | extractors.py:295-304 | `shift_letters` keeps the length, keeps every non-letter in place and keeps each letter's case while changing it |
| Voe.ShiftLettersTwice | extractors.py:295-304 | `shift_letters` is its own inverse |
| Voe.ReplaceJunkRemovesJunk | extractors.py:306-310 | after `replace_junk` none of the seven junk tokens occurs, and the text is no longer than before |
| Voe.ReplaceEachRemoves | extractors.py:307-309 | replacing each pattern in list order by a character none of them contains leaves none of the patterns and never lengthens the text |
| Voe.ReplaceEachKeepsAbsent | extractors.py:307-309 | a later replacement does not bring back a token an earlier one removed |
| Voe.StripJunkShape | extractors.py:318 | the junk stage leaves no `_`, is no longer than its input and keeps the other characters in order |
| Voe.StripJunkKeepsBase64 | extractors.py:318 | text made only of base64 characters passes the junk stage unchanged |
| Voe.ShiftBack | extractors.py:312-313 | `shift_back` succeeds exactly when every shifted code point is a character; the result has the same length and each code point lowered by exactly `n` |
| Voe.ShiftBackUndoes | extractors.py:312-313 | shifting by `n` and then by `-n` (or the other way round) gives back the input whenever the first shift succeeds |
| Voe.DecodeVoeRoundTrip | extractors.py:315-324 | `decode_voe_string` undoes VOE's encoding: JSON text base64-encoded, reversed, raised by three code points, base64-encoded again and letter-rotated decodes back to that JSON (the proof goes through `DecodeVoeStringStages`, which follows the chain stage by stage) |
| Voe.ScriptPayload | extractors.py:356 | `text[2:-2]` drops two characters at each end, and is empty for text of four characters or fewer |
| Voe.FromScriptOfEncoded | extractors.py:352-361 | the script strategy (`FromScript`) decodes the VOE-encoded payload between two characters at each end and yields that document's non-empty `source` |
| Voe.FromA168cOf | extractors.py:363-371 | the `a168c` strategy (`FromA168c`) yields the non-empty `source` of the JSON whose reversed text the match base64-decodes to |
| Voe.FirstSome | extractors.py:352-380 | the first successful attempt is taken, and the result is nothing only when every attempt failed |
| Voe.VoeSourceOrder | extractors.py:352-380 | the script strategy wins, then `a168c`, then `hls` (`FromHls`: the decoded match, even when empty), and the page fails exactly when all three fail |
| Voe.ResolveVoeFollowsRedirect | extractors.py:336-380 | the only page fetched is the redirect URL: other answers of the fetcher change nothing, and the fetched page fails exactly when none of the three ways yields a source |
| LoadX.ValidateUrl | extractors.py:74-83 | blank input is `EmptyUrl`, no `http(s)://` prefix after stripping is `BadScheme`, a URL `urlparse` rejects is `InvalidUrl`, and an empty network location is `MissingDomain`; each holds in both directions, and an accepted URL is the stripped input |
| LoadX.CheckStripped | extractors.py:77-83 | the same checks on text that is already stripped |
| LoadX.ValidateAbsolute | extractors.py:74-83 | every well-formed `http(s)://host/path?query` URL is accepted unchanged |
| LoadX.ExtractIdHash | extractors.py:114-123 | the id is piece 2 of `path.split("/")` and the host is the network location; a parsed URL with a non-empty piece 2 and a non-empty host gives exactly that pair; fewer than three pieces is `BadStructure`, in both directions |
| LoadX.ExtractFromAbsolute | extractors.py:114-123 | for `scheme://host/kind/id...` the extractor returns exactly `(id, host)` |
| LoadX.PostUrl | extractors.py:138 | the POST URL starts with `https://host/player/index.php?data=` |
| LoadX.PostUrlParses | extractors.py:138 | parsing the POST URL gives back scheme `https`, the host, path `/player/index.php` and query `data=<id>&do=getVideo` |
| LoadX.PostUrlInjective | extractors.py:138 | different ids give different POST URLs |
| LoadX.ParseVideoResponse | extractors.py:125-133 | the response is accepted exactly when it parses and has a non-empty `videoSource`, and the result is that field stripped |
| LoadX.ResolvePostsToPlayer | extractors.py:134-139 | when the redirect lands on `scheme://host/kind/id...`, the only URL posted to is `https://host/player/index.php?data=id&do=getVideo`: its failure is the extractor's, its answer is parsed, and other answers change nothing |
| Luluvdo.ValidateUrl | extractors.py:144-153 | blank input, a missing `http(s)://` prefix, a URL `urlparse` rejects and a host that does not mention `luluvdo.com` are each refused with their own error, in both directions; an accepted URL is the stripped input |
| Luluvdo.LuluvdoHostAccepted | extractors.py:151 | the host `luluvdo.com` passes the host check |
| Luluvdo.ExtractId | extractors.py:155-166 | an extracted id is non-empty and holds neither `/` nor `?`; the only failures are a missing id and an empty id after the query is cut |
| Luluvdo.ExtractIdOf | extractors.py:155-166 | the id of `.../id?query` is exactly `id` |
| Luluvdo.ExtractIdTrailingSlash | extractors.py:159-161 | a URL ending in `/` has no id |
| Luluvdo.ExtractIdOnlyQuery | extractors.py:162-165 | a last segment that is only a query leaves an empty id |
| Luluvdo.EmbedUrl | extractors.py:168-169 | the embed URL starts with the fixed `https://luluvdo.com/dl?op=embed&file_code=` template |
| Luluvdo.EmbedUrlInjective | extractors.py:168-169 | different ids give different embed URLs |
| Luluvdo.EmbedUrlParses | extractors.py:168-169 | the embed URL parses into host `luluvdo.com`, path `/dl` and the template query with the id |
| Luluvdo.ResolveFetchesEmbedPage | extractors.py:188-198 | for `https://luluvdo.com/e/<id>` the only page fetched is the embed endpoint of `id`; its failure is the extractor's, and otherwise the result is its `file:` match stripped (`VideoUrl`) |
| Doodstream.AlphabetText | extractors.py:266 | the alphabet is `A`–`Z`, `a`–`z` and `0`–`9`, in that order |
| Doodstream.AlphabetLayout | extractors.py:266 | the alphabet has 62 characters in three consecutive runs |
| Doodstream.RandomString | extractors.py:265-267 | the suffix has one character per pick, each an ASCII letter or digit |
| Doodstream.RandomStringCovers | extractors.py:265-267 | every string of letters and digits is a possible suffix |
| Doodstream.AssembleLink | extractors.py:285-287 | a blank `pass_md5` answer is the only error |
| Doodstream.AssembleLinkStart | extractors.py:291 | the link starts with the stripped base followed by the suffix |
| Doodstream.AssembleLinkQuery | extractors.py:291 | for an alphanumeric token, the text after the link's last `?` is exactly `token=<token>&expiry=<expiry>` |
| Doodstream.AssembleLinkExpiry | extractors.py:290-291 | the text after the link's last `=` is the expiry in decimal, and `int()` of it gives the expiry back |
| Doodstream.ResolveLinkShape | extractors.py:269-291 | a returned link is exactly the stripped `pass_md5` answer, ten drawn letters and digits, `?`, and `token=<token>&expiry=<now>`, and `int()` of what follows its last `=` is the clock value |
| Doodstream.ResolveSucceeds | extractors.py:269-291 | a page with both matches and a non-blank `pass_md5` answer always gives the link `<stripped answer><suffix>?token=<token>&expiry=<now>` |
| Doodstream.ResolveFetchesPassMd5 | extractors.py:275-284 | besides the embed page, the only URL fetched is the `pass_md5` endpoint (`PassMd5Url`): an absolute match as it is, a relative one joined to `https://dood.li` |
| Filemoon.DownloadUrl | extractors.py:202-205 | an empty link is an error; the rewrite keeps the length and only turns some `e` into `d`; a link is changed exactly when it holds `/e/` |
| Filemoon.FirstMarkRewritten | extractors.py:205 | the first `/e/` of a link reads `/d/` after the rewrite, and everything before it is kept |
| Filemoon.RewriteOnlyTurnsEIntoD | extractors.py:205 | `replace("/e/", "/d/")` keeps the length and changes nothing but some `e` into `d` |
| Filemoon.EmbedToDownload | extractors.py:205 | `https://host/e/id` becomes `https://host/d/id` |
| Filemoon.Resolve | extractors.py:201-235 | the result is the stripped `file:` match of the iframe of the rewritten page, in both directions: every step succeeding gives exactly that link, and any result comes from it |
| Filemoon.ResolveFetchesDownloadPage | extractors.py:201-235 | for `https://host/e/id` the only page fetched is `https://host/d/id`: its failure is the extractor's, and other answers change nothing |
| Filenames.SanitizeFilename | downloader.py:49-51 | the output holds none of `<>:"/\|?*` and is no longer than the input |
| Filenames.SanitizeKeepsOthers | downloader.py:49-51 | the output is a subsequence of the input, and every other character keeps its number of occurrences |
| Filenames.SanitizeIdempotent | downloader.py:49-51 | a name without invalid characters is unchanged, so sanitising twice is sanitising once |
| Filenames.NumberAfterDash | downloader.py:146-147 | a segment without `-` yields no number |
| Filenames.NumberAfterDashOf | downloader.py:146-147 | `word-<n>` yields `n` |
| Filenames.DeriveOutputFilename | downloader.py:139-151 | every derived name ends in `.mp4` and holds none of the invalid characters |
| Filenames.DeriveEpisode | downloader.py:141-149 | an episode URL `/.../slug/word-S/word-E` gives `<sanitised slug>_S<SS>E<EE>.mp4` |
| Filenames.DeriveFallback | downloader.py:150-151 | a URL whose last segment has no `-` falls back to the sanitised last segment plus `.mp4` |
| Numbers.Pad2 | downloader.py:149 | `:02d` gives at least two digits with the same value, exactly two below 100, and a leading `-` for negative numbers |
| Providers.LanguageKey | downloader.py:72-73 | `data-lang-key` gives a key exactly when it is a digit string, and the key is `int()` of it |
| Providers.Contribution | downloader.py:66-75 | a link contributes exactly when its name, href and a non-zero key are all present, and then contributes those three |
| Providers.ParseProviders | downloader.py:62-82 | no links is `NoEpisodeLinks`; links that all fail to contribute are `NoProviders`, in both directions; a result is the accumulated map, well formed |
| Providers.AccumulateEmpty | downloader.py:65-80 | the map is empty exactly when no link contributes |
| Providers.AccumulateWellFormed | downloader.py:65-77 | providers are distinct, each has at least one language, and language keys are distinct and positive |
| Providers.AccumulateLastWins | downloader.py:75-77 | every map entry is the joined URL of the last contributing link for that provider and language |
| Providers.AccumulateOrder | downloader.py:77 | providers appear in the order in which they first contribute |
| Providers.FirstOffering | downloader.py:89-91 | finds nothing exactly when no provider offers the language; otherwise it returns the first provider in order that offers it, with that URL |
| Providers.MinKey | downloader.py:94 | the smallest language key of a non-empty map |
| Providers.ChooseProvider | downloader.py:85-95 | the first provider offering the language wins with its URL; failing that, the first provider with the URL of its smallest key; the result is always an entry of the map, and an empty map or an empty first language map is an error |
| Providers.ChooseAfterParse | downloader.py:177-182 | choosing from a parsed map never fails |
| YtDlp.HeaderTableShape | downloader.py:27-46 | the table names ten providers, each once, in its order |
| YtDlp.HeadersOfProviders | downloader.py:27-46 | Filemoon sends User-Agent then Referer, LoadX sends Accept, Luluvdo sends four headers, and Vidoza, SpeedFiles, Streamtape and Hanime send none |
| YtDlp.HeadersUnknown | downloader.py:126 | a provider missing from the table gets no headers |
| YtDlp.HeaderArgs | downloader.py:126-127 | one `--add-header`, value pair per header, in order |
| YtDlp.Command | downloader.py:109-129 | the command has `11 + 2·|headers|` arguments; `yt-dlp` and the link come first, `-o` and the output path at positions 6 and 7, then the header pairs in table order |
| YtDlp.CommandUnknown | downloader.py:109-129 | a provider missing from the table gets the bare 11-argument command |
| YtDlp.ReadCommandInverse | downloader.py:109-129 | reading the command back gives the link, the output path and the provider's headers |
| Downloader.FunctionNameOfPath | downloader.py:211 | `split('.')[-1]` of `extractors.get_direct_link_from_<site>` is the function name |
| Downloader.LookupAsWrittenSupported | downloader.py:193-211 | the lookup as written succeeds exactly for the seven providers with an extractor |
| Downloader.LookupAsWritten | downloader.py:204-211 | a provider missing from `extractor_map` is unsupported, in both directions; a function is returned only when the extractor module defines it |
| Downloader.SpeedFilesHasNoExtractor | downloader.py:201 | SpeedFiles passes the membership test, but its function does not exist |
| Downloader.Lookup | downloader.py:204-211 | the corrected dispatch reports every failure as unsupported, and otherwise agrees with the source |
| Downloader.LookupSupported | downloader.py:193-211 | exactly Vidoza, LoadX, Luluvdo, Filemoon, Doodstream, VOE and Vidmoly are supported, LoadX and VOE by their own functions |
| Downloader.BaseUrlOfAbsolute | downloader.py:173-174 | the base URL of `scheme://host/path?query` is `scheme://host` |
| Downloader.OutputPath | downloader.py:221-222 | the output path ends with the derived file name, and so with `.mp4` |
| Downloader.Main | downloader.py:154-225 | `main` builds a command exactly when a provider is chosen, its redirect is followed, its extractor exists and succeeds; the command is only for a supported provider, and it reads back as the extracted link, the output path for the episode and that provider's headers |
| Downloader.MainCommandShape | downloader.py:219-223 | the command writes to the derived `.mp4` file in the working directory and has one header pair per header of the provider |
| Downloader.MainCorrected | downloader.py:201-211 | the corrected `main` succeeds exactly when `main` does, with the same command, and reports every provider without an extractor as not supported |
| Downloader.SpeedFilesStopsMain | downloader.py:201-211 | with SpeedFiles chosen, `main` as written stops at the missing function whatever the extractors would do, and the corrected `main` reports SpeedFiles as not supported |
| Downloader.UnsupportedStopsBeforeExtraction | downloader.py:204-206 | a provider missing from `extractor_map` stops `main` with `NotSupported`, whatever the extractors would do |

## Left out

- Network I/O: every `requests` call, `raise_for_status`, timeouts and `verify=False`. Fetched bodies and final URLs are parameters, and a failed request is an `Err` value.
- HTML and regex: BeautifulSoup and the `re.search` calls. Their matches are inputs (`Option<string>` or sequences of episode links), because they are library calls.
- `base64.b64decode`, `.decode()` and `json.loads`: these are the given functions of `Codecs`, because they are library calls.
- `urljoin` is a parameter. `urlparse` is a stand-in: IPv6 hosts are only checked for balanced brackets, and port validation is not modelled.
- `random.choice` and `time.time()`: the picks and the current time are parameters.
- `run_download`, the yt-dlp subprocess, `main`'s argv check, logging, `print` and `sys.exit`: process I/O. `Downloader.Main` stops at the command line it would run.
- `importlib` and `getattr` are the `IsDefinedExtractor` predicate over the functions `extractors.py` defines.
- Vidoza and Vidmoly extractors: they are only an HTTP fetch and a regex search, so nothing is left to model once those are inputs.
- gui.py and main.py: the Qt interface, threads and progress parsing.
- Numbers.PyInt: reads ASCII digits only. Python's `int()` also accepts other Unicode decimal digits, which this model does not enumerate.
- Filenames.NumberAfterDash: reads the number with `Numbers.PyInt`, so a season or episode written in non-ASCII decimal digits gives no number here. The source would read it and name the file after it (downloader.py:146-149).
- Voe.FromScript: the JSON model keeps only string-valued fields, so a truthy `source` that is not a string (a number, a list) is skipped here. The source would return it (extractors.py:357-359).
- Voe.FromA168c: same as `Voe.FromScript`, for the `a168c` document (extractors.py:367-369).
- Urls.UrlParse: omits `urlsplit`'s NFKC check of non-ASCII network locations, which raises `ValueError` for some hosts.
- Providers.LanguageKey: follows `str.isdigit` for ASCII digits only, because Python also accepts other Unicode digits.
- Text.AsciiLower: lowers ASCII letters only. This is exact for the ASCII needle `luluvdo.com`.
- Voe.ShiftBack: fails when a code point would land on a surrogate. Python would build such a string, but the base64 decode that follows rejects it anyway.
- Voe.FromHls: returns the decoded text even when it is empty. The source does the same: the `hls` branch has no emptiness check.
- Providers.ChooseProvider: the source raises `StopIteration` or `IndexError` on an empty map or an empty first language map. Here these are the errors `NoProviders` and `NoLanguages`.

## Findings

| source | as written | input that shows it | evidently intended | confidence | as-written member | corrected member |
|---|---|---|---|---|---|---|
| downloader.py:201, downloader.py:211 | `extractor_map` lists SpeedFiles, but `extractors.py` defines no `get_direct_link_from_speedfiles`, so `getattr` raises an uncaught `AttributeError` | an episode whose chosen provider is `SpeedFiles` | report the provider as not supported and exit cleanly | high (not executed) | Downloader.SpeedFilesStopsMain | Downloader.MainCorrected |
