/** The Doodstream extractor (`get_direct_link_from_doodstream`): the embed
    page names a `pass_md5` endpoint and a token; the endpoint answers the
    base of the video URL, to which a random ten-character suffix, the token
    and an expiry time are appended. Requests, `urljoin`, the random draws and
    the clock are parameters. */
module Doodstream {
  import opened Results
  import Text
  import Numbers

  /** The characters `random.choice` draws the suffix from: the upper-case
      letters, the lower-case letters and the digits, each in order. */
  const Alphabet: string := CharRun('A', 26) + CharRun('a', 26) + CharRun('0', 10)

  /** `n` consecutive characters starting at `first`. */
  function CharRun(first: char, n: nat): (r: string)
    requires first as int + n <= 128
    ensures |r| == n
    ensures forall i | 0 <= i < n :: r[i] as int == first as int + i
  {
    seq(n, i requires 0 <= i < n => (first as int + i) as char)
  }

  /** The length of the random suffix. */
  const SuffixLength: nat := 10

  /** The base every relative `pass_md5` path is joined to. */
  const DoodBase: string := "https://dood.li"

  predicate IsAlnum(c: char) {
    ('A' <= c <= 'Z') || ('a' <= c <= 'z') || ('0' <= c <= '9')
  }

  /** The position of an ASCII letter or digit in the alphabet. */
  function AlphabetIndex(c: char): (i: nat)
    requires IsAlnum(c)
    ensures i < |Alphabet| && Alphabet[i] == c
  {
    AlphabetLayout();
    if 'A' <= c <= 'Z' then c as int - 'A' as int
    else if 'a' <= c <= 'z' then 26 + (c as int - 'a' as int)
    else 52 + (c as int - '0' as int)
  }

  /** The alphabet is the text `ABC…XYZabc…xyz012…789`. */
  lemma AlphabetText()
    ensures Alphabet == "ABCDEFGHIJKLMNOPQRSTUVWXYZ" + "abcdefghijklmnopqrstuvwxyz" + "0123456789"
  {
    UpperRun();
    LowerRun();
    DigitRun();
  }

  lemma UpperRun()
    ensures CharRun('A', 26) == "ABCDEFGHIJKLMNOPQRSTUVWXYZ"
  {
  }

  lemma LowerRun()
    ensures CharRun('a', 26) == "abcdefghijklmnopqrstuvwxyz"
  {
  }

  lemma DigitRun()
    ensures CharRun('0', 10) == "0123456789"
  {
  }

  lemma AlphabetLayout()
    ensures |Alphabet| == 62
    ensures forall i | 0 <= i < 26 :: Alphabet[i] as int == 'A' as int + i
    ensures forall i | 26 <= i < 52 :: Alphabet[i] as int == 'a' as int + (i - 26)
    ensures forall i | 52 <= i < 62 :: Alphabet[i] as int == '0' as int + (i - 52)
  {
  }

  /** `_generate_random_string`: `picks[k]` is the position `random.choice`
      drew in round `k`. */
  function RandomString(picks: seq<int>): (r: string)
    requires forall k | 0 <= k < |picks| :: 0 <= picks[k] < |Alphabet|
    ensures |r| == |picks|
    ensures forall k | 0 <= k < |r| :: IsAlnum(r[k])
  {
    AlphabetLayout();
    seq(|picks|, k requires 0 <= k < |picks| => Alphabet[picks[k]])
  }

  /** Every string of letters and digits can be drawn: the suffix ranges over
      exactly the alphanumeric strings of its length. */
  lemma RandomStringCovers(s: string)
    requires forall k | 0 <= k < |s| :: IsAlnum(s[k])
    ensures exists picks: seq<int> ::
              && (forall k | 0 <= k < |picks| :: 0 <= picks[k] < |Alphabet|)
              && RandomString(picks) == s
  {
    var picks := seq(|s|, k requires 0 <= k < |s| => AlphabetIndex(s[k]) as int);
    assert RandomString(picks) == s;
  }

  /** The `pass_md5` endpoint: absolute when the match starts with `http`,
      otherwise joined to `https://dood.li`. */
  function PassMd5Url(path: string, urljoin: (string, string) -> string): (r: string)
    ensures Text.StartsWith(path, "http") ==> r == path
    ensures !Text.StartsWith(path, "http") ==> r == urljoin(DoodBase, path)
  {
    if Text.StartsWith(path, "http") then path else urljoin(DoodBase, path)
  }

  /** The final link: the stripped answer of `pass_md5`, the suffix, and the
      token and expiry as query parameters; a blank answer is an error. */
  function AssembleLink(md5Text: string, suffix: string, token: string, expiry: int): (r: Result<string>)
    ensures r == Err(EmptyBaseUrl) <==> Text.AllSpace(md5Text)
    ensures r.Err? ==> r.error == EmptyBaseUrl
  {
    Text.StripEmptyIffAllSpace(md5Text);
    var base := Text.Strip(md5Text);
    if base == "" then Err(EmptyBaseUrl)
    else Ok(LinkText(base, suffix, token, Numbers.IntToDecimal(expiry)))
  }

  /** The text of the link for a base URL and the decimal expiry:
      `base + suffix + "?token=" + token + "&expiry=" + expiry`. */
  function LinkText(base: string, suffix: string, token: string, expiry: string): string {
    (base + suffix) + ['?'] + LinkQuery(token, expiry)
  }

  /** The query the link ends with. */
  function LinkQuery(token: string, expiry: string): string {
    ("token=" + token + "&expiry") + ['='] + expiry
  }

  /** A non-blank answer of `pass_md5` gives the link for its stripped text. */
  lemma AssembleLinkIs(md5Text: string, suffix: string, token: string, expiry: int)
    requires !Text.AllSpace(md5Text)
    ensures AssembleLink(md5Text, suffix, token, expiry)
            == Ok(LinkText(Text.Strip(md5Text), suffix, token, Numbers.IntToDecimal(expiry)))
  {
    Text.StripEmptyIffAllSpace(md5Text);
  }

  /** The link starts with the stripped answer of `pass_md5` and the suffix. */
  lemma AssembleLinkStart(md5Text: string, suffix: string, token: string, expiry: int)
    requires !Text.AllSpace(md5Text)
    ensures Text.StartsWith(AssembleLink(md5Text, suffix, token, expiry).value, Text.Strip(md5Text) + suffix)
  {
    AssembleLinkIs(md5Text, suffix, token, expiry);
    LinkTextStart(Text.Strip(md5Text) + suffix, LinkQuery(token, Numbers.IntToDecimal(expiry)));
  }

  lemma LinkTextStart(head: string, query: string)
    ensures Text.StartsWith(head + ['?'] + query, head)
  {
    assert (head + ['?'] + query)[..|head|] == head;
  }

  /** The query of the link reads back: what follows its last `?` is exactly
      `token=<token>&expiry=<expiry>`. */
  lemma AssembleLinkQuery(md5Text: string, suffix: string, token: string, expiry: int)
    requires !Text.AllSpace(md5Text)
    requires forall k | 0 <= k < |token| :: IsAlnum(token[k])
    ensures var queries := Text.Split(AssembleLink(md5Text, suffix, token, expiry).value, '?');
            queries[|queries| - 1] == LinkQuery(token, Numbers.IntToDecimal(expiry))
  {
    var digits := Numbers.IntToDecimal(expiry);
    AssembleLinkIs(md5Text, suffix, token, expiry);
    assert '?' !in token by {
      assert forall k | 0 <= k < |token| :: token[k] != '?';
    }
    assert '?' !in digits by {
      DecimalHasNoPunctuation(expiry);
    }
    LinkTextQuery(Text.Strip(md5Text), suffix, token, digits);
  }

  lemma LinkTextQuery(base: string, suffix: string, token: string, expiry: string)
    requires '?' !in token && '?' !in expiry
    ensures var queries := Text.Split(LinkText(base, suffix, token, expiry), '?');
            queries[|queries| - 1] == LinkQuery(token, expiry)
  {
    assert '?' !in LinkQuery(token, expiry) by {
      QueryHasNoMark(token, expiry);
    }
    Text.SplitLast(base + suffix, LinkQuery(token, expiry), '?');
  }

  lemma QueryHasNoMark(token: string, expiry: string)
    requires '?' !in token && '?' !in expiry
    ensures '?' !in LinkQuery(token, expiry)
  {
    var query := LinkQuery(token, expiry);
    forall k | 0 <= k < |query|
      ensures query[k] != '?'
    {
      if 6 <= k < 6 + |token| {
        assert query[k] == token[k - 6];
      } else if k >= 14 + |token| {
        assert query[k] == expiry[k - 14 - |token|];
      }
    }
  }

  /** The expiry reads back: what follows the last `=` of the link is the
      decimal expiry, which `int()` turns back into the clock value. */
  lemma AssembleLinkExpiry(md5Text: string, suffix: string, token: string, expiry: int)
    requires !Text.AllSpace(md5Text)
    ensures var fields := Text.Split(AssembleLink(md5Text, suffix, token, expiry).value, '=');
            && fields[|fields| - 1] == Numbers.IntToDecimal(expiry)
            && Numbers.PyInt(fields[|fields| - 1]) == Some(expiry)
  {
    AssembleLinkIs(md5Text, suffix, token, expiry);
    LinkTextExpiryValue(Text.Strip(md5Text), suffix, token, expiry);
  }

  /** The decimal expiry after the last `=` of the link text reads back. */
  lemma LinkTextExpiryValue(base: string, suffix: string, token: string, expiry: int)
    ensures var fields := Text.Split(LinkText(base, suffix, token, Numbers.IntToDecimal(expiry)), '=');
            && fields[|fields| - 1] == Numbers.IntToDecimal(expiry)
            && Numbers.PyInt(fields[|fields| - 1]) == Some(expiry)
  {
    var digits := Numbers.IntToDecimal(expiry);
    assert '=' !in digits by {
      DecimalHasNoPunctuation(expiry);
    }
    LinkTextExpiry(base, suffix, token, digits);
    Numbers.PyIntOfDecimal(expiry);
  }

  lemma LinkTextExpiry(base: string, suffix: string, token: string, expiry: string)
    requires '=' !in expiry
    ensures var fields := Text.Split(LinkText(base, suffix, token, expiry), '=');
            fields[|fields| - 1] == expiry
  {
    var front := (base + suffix) + ['?'] + ("token=" + token + "&expiry");
    assert LinkText(base, suffix, token, expiry) == front + ['='] + expiry;
    Text.SplitLast(front, expiry, '=');
  }

  /** Decimal text holds no query punctuation. */
  lemma DecimalHasNoPunctuation(i: int)
    ensures forall k | 0 <= k < |Numbers.IntToDecimal(i)| ::
              Numbers.IntToDecimal(i)[k] !in {'?', '=', '&'}
  {
    var d := Numbers.IntToDecimal(i);
    forall k | 0 <= k < |d|
      ensures d[k] !in {'?', '=', '&'}
    {
      if i < 0 && k > 0 {
        assert d[k] == d[1..][k - 1];
      }
    }
  }

  /** What the embed page yields: the `pass_md5` path and the token, each
      when its pattern matches. */
  datatype DoodPage = DoodPage(passMd5: Option<string>, token: Option<string>)

  /** The whole extractor. `fetchPage` answers the matches of the embed page,
      `fetchText` the body of a URL, `picks` the ten draws of the random
      suffix and `now` the clock, already truncated to whole seconds. */
  function Resolve(
    embed: string,
    fetchPage: string -> Result<DoodPage>,
    fetchText: string -> Result<string>,
    urljoin: (string, string) -> string,
    picks: seq<int>,
    now: int
  ): (r: Result<string>)
    requires |picks| == SuffixLength
    requires forall k | 0 <= k < |picks| :: 0 <= picks[k] < |Alphabet|
    ensures embed == "" ==> r == Err(EmptyUrl)
    ensures embed != "" && fetchPage(embed).Ok? && fetchPage(embed).value.passMd5 in {None, Some("")}
            ==> r == Err(NotFound("pass_md5"))
    ensures r.Ok? ==> && embed != "" && fetchPage(embed).Ok?
                      && var page := fetchPage(embed).value;
                         && page.passMd5.Some? && page.passMd5.value != ""
                         && page.token.Some? && page.token.value != ""
                         && var md5 := fetchText(PassMd5Url(page.passMd5.value, urljoin));
                            && md5.Ok?
                            && r == AssembleLink(md5.value, RandomString(picks), page.token.value, now)
  {
    if embed == "" then Err(EmptyUrl)
    else
      var page :- fetchPage(embed);
      if page.passMd5.None? || page.passMd5.value == "" then Err(NotFound("pass_md5"))
      else
        var md5Url := PassMd5Url(page.passMd5.value, urljoin);
        if page.token.None? || page.token.value == "" then Err(NotFound("token"))
        else
          var md5Text :- fetchText(md5Url);
          AssembleLink(md5Text, RandomString(picks), page.token.value, now)
  }

  /** What a link reads back as: it starts with `base` and `suffix`, its
      query is `token=<token>&expiry=<expiry>`, what follows its last `=` is
      the expiry as `int()` reads it, and nothing else lies between the
      suffix and the `?`. */
  predicate ReadsBack(link: string, base: string, suffix: string, token: string, expiry: int) {
    var queries := Text.Split(link, '?');
    var fields := Text.Split(link, '=');
    && |link| == |base| + |suffix| + 1 + |LinkQuery(token, Numbers.IntToDecimal(expiry))|
    && Text.StartsWith(link, base + suffix)
    && queries[|queries| - 1] == LinkQuery(token, Numbers.IntToDecimal(expiry))
    && Numbers.PyInt(fields[|fields| - 1]) == Some(expiry)
  }

  /** A link the extractor returns starts with the stripped answer of
      `pass_md5` followed by the ten drawn letters and digits, and its query
      reads back as the page's token and the clock value. The token pattern
      only matches letters and digits, which the requirement on the page
      states. */
  lemma ResolveLinkShape(
    embed: string,
    fetchPage: string -> Result<DoodPage>,
    fetchText: string -> Result<string>,
    urljoin: (string, string) -> string,
    picks: seq<int>,
    now: int)
    requires |picks| == SuffixLength
    requires forall k | 0 <= k < |picks| :: 0 <= picks[k] < |Alphabet|
    requires Resolve(embed, fetchPage, fetchText, urljoin, picks, now).Ok?
    requires var token := fetchPage(embed).value.token.value;
             forall k | 0 <= k < |token| :: IsAlnum(token[k])
    ensures var page := fetchPage(embed).value;
            var md5 := fetchText(PassMd5Url(page.passMd5.value, urljoin)).value;
            var suffix := RandomString(picks);
            && |suffix| == SuffixLength && (forall k | 0 <= k < |suffix| :: IsAlnum(suffix[k]))
            && ReadsBack(Resolve(embed, fetchPage, fetchText, urljoin, picks, now).value,
                         Text.Strip(md5), suffix, page.token.value, now)
  {
    var page := fetchPage(embed).value;
    var md5 := fetchText(PassMd5Url(page.passMd5.value, urljoin)).value;
    var suffix := RandomString(picks);
    var r := AssembleLink(md5, suffix, page.token.value, now);
    assert Resolve(embed, fetchPage, fetchText, urljoin, picks, now) == r;
    LinkShape(md5, suffix, page.token.value, now);
  }

  /** The three read-backs of an assembled link together. */
  lemma LinkShape(md5Text: string, suffix: string, token: string, expiry: int)
    requires AssembleLink(md5Text, suffix, token, expiry).Ok?
    requires forall k | 0 <= k < |token| :: IsAlnum(token[k])
    ensures ReadsBack(AssembleLink(md5Text, suffix, token, expiry).value, Text.Strip(md5Text), suffix, token, expiry)
  {
    AssembleLinkIs(md5Text, suffix, token, expiry);
    AssembleLinkStart(md5Text, suffix, token, expiry);
    AssembleLinkQuery(md5Text, suffix, token, expiry);
    AssembleLinkExpiry(md5Text, suffix, token, expiry);
  }

  /** The extractor produces a link whenever the page has both matches and
      the `pass_md5` answer arrives and is not blank: the stripped answer,
      the suffix drawn from the picks, the token and the clock value. */
  lemma ResolveSucceeds(
    embed: string,
    fetchPage: string -> Result<DoodPage>,
    fetchText: string -> Result<string>,
    urljoin: (string, string) -> string,
    picks: seq<int>,
    now: int)
    requires |picks| == SuffixLength
    requires forall k | 0 <= k < |picks| :: 0 <= picks[k] < |Alphabet|
    requires embed != "" && fetchPage(embed).Ok?
    requires var page := fetchPage(embed).value;
             && page.passMd5.Some? && page.passMd5.value != ""
             && page.token.Some? && page.token.value != ""
             && fetchText(PassMd5Url(page.passMd5.value, urljoin)).Ok?
             && !Text.AllSpace(fetchText(PassMd5Url(page.passMd5.value, urljoin)).value)
    ensures var page := fetchPage(embed).value;
            var md5 := fetchText(PassMd5Url(page.passMd5.value, urljoin)).value;
            Resolve(embed, fetchPage, fetchText, urljoin, picks, now)
            == Ok(LinkText(Text.Strip(md5), RandomString(picks), page.token.value, Numbers.IntToDecimal(now)))
  {
    var page := fetchPage(embed).value;
    var md5 := fetchText(PassMd5Url(page.passMd5.value, urljoin)).value;
    AssembleLinkIs(md5, RandomString(picks), page.token.value, now);
  }

  /** Besides the embed page, the only URL fetched is the `pass_md5`
      endpoint: an absolute match as it is, a relative one joined to
      `https://dood.li`. */
  lemma ResolveFetchesPassMd5(
    embed: string,
    fetchPage: string -> Result<DoodPage>,
    fetchText: string -> Result<string>,
    otherText: string -> Result<string>,
    urljoin: (string, string) -> string,
    picks: seq<int>,
    now: int)
    requires |picks| == SuffixLength
    requires forall k | 0 <= k < |picks| :: 0 <= picks[k] < |Alphabet|
    requires fetchPage(embed).Ok? && fetchPage(embed).value.passMd5.Some?
    requires var path := fetchPage(embed).value.passMd5.value;
             var endpoint := if Text.StartsWith(path, "http") then path else urljoin(DoodBase, path);
             otherText(endpoint) == fetchText(endpoint)
    ensures Resolve(embed, fetchPage, otherText, urljoin, picks, now) == Resolve(embed, fetchPage, fetchText, urljoin, picks, now)
  {
  }
}
