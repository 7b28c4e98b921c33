/** The VOE extractor: the letter shift, junk removal and code-point shift of
    the VOE decode chain, and the order in which the three ways of finding a
    video source on a VOE page are tried (`get_direct_link_from_voe`). */
module Voe {
  import opened Results
  import opened Codecs
  import Text

  predicate IsUpper(c: char) {
    'A' <= c <= 'Z'
  }

  predicate IsLower(c: char) {
    'a' <= c <= 'z'
  }

  /** ROT13 on one character: ASCII letters move 13 places round their own
      alphabet; every other character is kept. */
  function Rot13(c: char): (r: char)
    ensures IsUpper(c) ==> IsUpper(r) && r != c
    ensures IsLower(c) ==> IsLower(r) && r != c
    ensures !IsUpper(c) && !IsLower(c) ==> r == c
  {
    if IsUpper(c) then ((c as int - 65 + 13) % 26 + 65) as char
    else if IsLower(c) then ((c as int - 97 + 13) % 26 + 97) as char
    else c
  }

  /** Shifting a letter twice by 13 brings it back. */
  lemma Rot13Twice(c: char)
    ensures Rot13(Rot13(c)) == c
  {
    if IsUpper(c) {
      var x := c as int - 65;
      if x < 13 {
        assert Rot13(c) as int == x + 13 + 65;
      } else {
        assert Rot13(c) as int == x - 13 + 65;
      }
    } else if IsLower(c) {
      var x := c as int - 97;
      if x < 13 {
        assert Rot13(c) as int == x + 13 + 97;
      } else {
        assert Rot13(c) as int == x - 13 + 97;
      }
    }
  }

  /** `shift_letters`: ROT13 applied to every character. */
  function ShiftLetters(s: string): (r: string)
    ensures |r| == |s|
    ensures forall i | 0 <= i < |s| :: !IsUpper(s[i]) && !IsLower(s[i]) ==> r[i] == s[i]
    ensures forall i | 0 <= i < |s| :: IsUpper(s[i]) ==> IsUpper(r[i]) && r[i] != s[i]
    ensures forall i | 0 <= i < |s| :: IsLower(s[i]) ==> IsLower(r[i]) && r[i] != s[i]
  {
    seq(|s|, i requires 0 <= i < |s| => Rot13(s[i]))
  }

  /** `shift_letters` is its own inverse. */
  lemma ShiftLettersTwice(s: string)
    ensures ShiftLetters(ShiftLetters(s)) == s
  {
    var t := ShiftLetters(ShiftLetters(s));
    forall i | 0 <= i < |s|
      ensures t[i] == s[i]
    {
      Rot13Twice(s[i]);
    }
  }

  /** The seven junk tokens, in the order they are replaced. */
  const JunkParts: seq<string> := ["@$", "^^", "~@", "%?", "*~", "!!", "#&"]

  /** Replaces every pattern of `parts` by `rep`, one pattern after the other. */
  function ReplaceEach(s: string, parts: seq<string>, rep: string): string
    requires forall k | 0 <= k < |parts| :: |parts[k]| > 0
    decreases |parts|
  {
    if |parts| == 0 then s
    else ReplaceEach(Text.Replace(s, parts[0], rep), parts[1..], rep)
  }

  /** `replace_junk`: each junk token becomes `_`, token by token in list order. */
  function ReplaceJunk(s: string): string {
    ReplaceEach(s, JunkParts, "_")
  }

  /** A pattern that is absent stays absent while other patterns are replaced
      by a character it does not contain. */
  lemma {:induction false} ReplaceEachKeepsAbsent(s: string, parts: seq<string>, rep: char, q: string)
    requires forall k | 0 <= k < |parts| :: |parts[k]| > 0
    requires |q| > 0 && rep !in q && !Text.Contains(s, q)
    ensures !Text.Contains(ReplaceEach(s, parts, [rep]), q)
    decreases |parts|
  {
    if |parts| > 0 {
      Text.ReplaceKeepsAbsent(s, parts[0], rep, q);
      ReplaceEachKeepsAbsent(Text.Replace(s, parts[0], [rep]), parts[1..], rep, q);
    }
  }

  /** Replacing patterns one after the other by a character none of them
      contains leaves none of them behind and never lengthens the text. */
  lemma {:induction false} ReplaceEachRemoves(s: string, parts: seq<string>, rep: char)
    requires forall k | 0 <= k < |parts| :: |parts[k]| > 0 && rep !in parts[k]
    ensures forall k | 0 <= k < |parts| :: !Text.Contains(ReplaceEach(s, parts, [rep]), parts[k])
    ensures |ReplaceEach(s, parts, [rep])| <= |s|
    decreases |parts|
  {
    if |parts| > 0 {
      var t := Text.Replace(s, parts[0], [rep]);
      Text.ReplaceRemovesPattern(s, parts[0], rep);
      ReplaceEachRemoves(t, parts[1..], rep);
      ReplaceEachKeepsAbsent(t, parts[1..], rep, parts[0]);
      assert forall k | 1 <= k < |parts| :: parts[k] == parts[1..][k - 1];
    }
  }

  /** After `replace_junk` no junk token is left, and the text is no longer. */
  lemma ReplaceJunkRemovesJunk(s: string)
    ensures forall k | 0 <= k < |JunkParts| :: !Text.Contains(ReplaceJunk(s), JunkParts[k])
    ensures |ReplaceJunk(s)| <= |s|
  {
    ReplaceEachRemoves(s, JunkParts, '_');
  }

  /** The junk stage of the decode chain: `replace_junk(s).replace("_", "")`. */
  function StripJunk(s: string): string {
    Text.Without(ReplaceJunk(s), {'_'})
  }

  /** The junk stage leaves no `_`, is no longer than its input, and keeps
      every other character of the replaced text in order. */
  lemma StripJunkShape(s: string)
    ensures '_' !in StripJunk(s)
    ensures |StripJunk(s)| <= |s|
    ensures Text.IsSubsequence(StripJunk(s), ReplaceJunk(s))
  {
    ReplaceJunkRemovesJunk(s);
    Text.WithoutIsSubsequence(ReplaceJunk(s), {'_'});
    var r := StripJunk(s);
    assert forall i | 0 <= i < |r| :: r[i] != '_';
  }

  /** The characters of base64 text. */
  predicate IsBase64Char(c: char) {
    ('A' <= c <= 'Z') || ('a' <= c <= 'z') || ('0' <= c <= '9') || c == '+' || c == '/' || c == '='
  }

  /** Text whose first pattern character does not occur is left alone by `replace`. */
  lemma {:induction false} ReplaceUnmatched(s: string, pat: string, rep: string)
    requires |pat| > 0 && pat[0] !in s
    ensures Text.Replace(s, pat, rep) == s
    decreases |s|
  {
    if |s| >= |pat| {
      assert s[..|pat|][0] == s[0];
      ReplaceUnmatched(s[1..], pat, rep);
      assert [s[0]] + s[1..] == s;
    }
  }

  lemma {:induction false} ReplaceEachUnmatched(s: string, parts: seq<string>, rep: string)
    requires forall k | 0 <= k < |parts| :: |parts[k]| > 0 && parts[k][0] !in s
    ensures ReplaceEach(s, parts, rep) == s
  {
    if |parts| > 0 {
      ReplaceUnmatched(s, parts[0], rep);
      ReplaceEachUnmatched(s, parts[1..], rep);
    }
  }

  /** Base64 text passes the junk stage unchanged: no junk token and no `_`
      can occur in it. */
  lemma StripJunkKeepsBase64(s: string)
    requires forall i | 0 <= i < |s| :: IsBase64Char(s[i])
    ensures StripJunk(s) == s
  {
    forall k | 0 <= k < |JunkParts|
      ensures JunkParts[k][0] !in s
    {
      assert !IsBase64Char(JunkParts[k][0]);
    }
    ReplaceEachUnmatched(s, JunkParts, "_");
    assert forall i | 0 <= i < |s| :: s[i] !in {'_'};
    Text.WithoutNothingToDrop(s, {'_'});
  }

  /** The integers `chr` accepts that are also characters here: every code
      point except the surrogates. */
  predicate IsCharCode(x: int) {
    (0 <= x < 0xD800) || (0xE000 <= x < 0x11_0000)
  }

  /** `shift_back(s, n)`: every code point lowered by `n`; `None` when one of
      them falls outside the characters. */
  function ShiftBack(s: string, n: int): (r: Option<string>)
    ensures r.Some? <==> forall i | 0 <= i < |s| :: IsCharCode(s[i] as int - n)
    ensures r.Some? ==> |r.value| == |s|
    ensures r.Some? ==> forall i | 0 <= i < |s| :: r.value[i] as int == s[i] as int - n
  {
    if |s| == 0 then Some([])
    else if !IsCharCode(s[0] as int - n) then None
    else
      match ShiftBack(s[1..], n)
      case None => None
      case Some(t) => Some([(s[0] as int - n) as char] + t)
  }

  /** Shifting back by `n` undoes a shift forward by `n`, and the other way round. */
  lemma ShiftBackUndoes(s: string, n: int)
    ensures ShiftBack(s, -n).Some? ==> ShiftBack(ShiftBack(s, -n).value, n) == Some(s)
    ensures ShiftBack(s, n).Some? ==> ShiftBack(ShiftBack(s, n).value, -n) == Some(s)
  {
    if ShiftBack(s, -n).Some? {
      var t := ShiftBack(s, -n).value;
      var u := ShiftBack(t, n);
      assert forall i | 0 <= i < |t| :: t[i] as int - n == s[i] as int;
      assert u.value == s;
    }
    if ShiftBack(s, n).Some? {
      var t := ShiftBack(s, n).value;
      var u := ShiftBack(t, -n);
      assert forall i | 0 <= i < |t| :: t[i] as int + n == s[i] as int;
      assert u.value == s;
    }
  }

  /** `decode_voe_string`: letter shift, junk stage, base64, code points
      lowered by 3, reversal, base64 again, JSON; a failure names its stage. */
  function DecodeVoeString(c: Codecs, encoded: string): Result<Json> {
    var step2 := StripJunk(ShiftLetters(encoded));
    var step3 :- c.b64decode(step2).ToResult(Decode(OuterBase64));
    var step4 :- ShiftBack(step3, 3).ToResult(Decode(CodePointShift));
    var step5 :- c.b64decode(Text.Reverse(step4)).ToResult(Decode(InnerBase64));
    c.parseJson(step5).ToResult(Decode(JsonParse))
  }

  /** The decode chain succeeds exactly when every stage does, and then
      yields the parsed JSON of the innermost text. */
  lemma DecodeVoeStringStages(c: Codecs, encoded: string)
    ensures var step3 := c.b64decode(StripJunk(ShiftLetters(encoded)));
            var step4 := if step3.Some? then ShiftBack(step3.value, 3) else None;
            var step5 := if step4.Some? then c.b64decode(Text.Reverse(step4.value)) else None;
            var json := if step5.Some? then c.parseJson(step5.value) else None;
            && (step3.None? ==> DecodeVoeString(c, encoded) == Err(Decode(OuterBase64)))
            && (step3.Some? && step4.None? ==> DecodeVoeString(c, encoded) == Err(Decode(CodePointShift)))
            && (step4.Some? && step5.None? ==> DecodeVoeString(c, encoded) == Err(Decode(InnerBase64)))
            && (step5.Some? && json.None? ==> DecodeVoeString(c, encoded) == Err(Decode(JsonParse)))
            && (json.Some? ==> DecodeVoeString(c, encoded) == Ok(json.value))
  {
  }

  /** Decoding undoes VOE's encoding: the JSON text is base64-encoded
      (`inner`), reversed, raised by three code points and base64-encoded
      again (`outer`), and the letters are rotated. The base64 texts are
      given with the decoder's answers on them; the outer one holds only
      base64 characters, so the junk stage leaves it alone. */
  lemma DecodeVoeRoundTrip(c: Codecs, text: string, json: Json, inner: string, outer: string)
    requires c.parseJson(text) == Some(json)
    requires c.b64decode(inner) == Some(text)
    requires ShiftBack(Text.Reverse(inner), -3).Some?
    requires c.b64decode(outer) == Some(ShiftBack(Text.Reverse(inner), -3).value)
    requires forall k | 0 <= k < |outer| :: IsBase64Char(outer[k])
    ensures DecodeVoeString(c, ShiftLetters(outer)) == Ok(json)
  {
    var reversed := Text.Reverse(inner);
    var raised := ShiftBack(reversed, -3).value;
    assert StripJunk(ShiftLetters(ShiftLetters(outer))) == outer by {
      ShiftLettersTwice(outer);
      StripJunkKeepsBase64(outer);
    }
    assert ShiftBack(raised, 3) == Some(reversed) by {
      ShiftBackUndoes(reversed, 3);
    }
    assert Text.Reverse(reversed) == inner by {
      ReverseTwice(inner);
    }
  }

  lemma ReverseTwice(s: string)
    ensures Text.Reverse(Text.Reverse(s)) == s
  {
    var r := Text.Reverse(s);
    assert forall i | 0 <= i < |s| :: Text.Reverse(r)[i] == r[|s| - 1 - i] == s[i];
  }

  /** Python's `t[2:-2]`. */
  function ScriptPayload(t: string): (r: string)
    ensures |t| <= 4 ==> r == ""
    ensures |t| > 4 ==> |r| == |t| - 4 && t == t[..2] + r + t[|t| - 2..]
  {
    if |t| <= 4 then "" else t[2..|t| - 2]
  }

  /** What the fallbacks read from the page the redirect leads to: the text of
      the `application/json` script, and the `a168c` and `hls` matches. */
  datatype VoePage = VoePage(script: Option<string>, a168c: Option<string>, hls: Option<string>)

  /** First way: decode the JSON script and read its `source`. */
  function FromScript(c: Codecs, script: Option<string>): (r: Option<string>)
    ensures r.Some? ==> r.value != ""
  {
    if script.None? || script.value == "" then None
    else
      match DecodeVoeString(c, ScriptPayload(script.value))
      case Ok(j) => NonEmptyField(j, "source")
      case Err(_) => None
  }

  /** Second way: base64-decode `a168c`, reverse it, and read `source` from the JSON. */
  function FromA168c(c: Codecs, a168c: Option<string>): (r: Option<string>)
    ensures r.Some? ==> r.value != ""
  {
    if a168c.None? then None
    else
      match c.b64decode(a168c.value)
      case None => None
      case Some(text) =>
        match c.parseJson(Text.Reverse(text))
        case None => None
        case Some(j) => NonEmptyField(j, "source")
  }

  /** The script strategy reads `source` from the document a VOE-encoded
      payload decodes to, whatever two characters wrap it at each end. */
  lemma FromScriptOfEncoded(c: Codecs, text: string, json: Json, inner: string, outer: string, pre: string, post: string)
    requires c.parseJson(text) == Some(json)
    requires c.b64decode(inner) == Some(text)
    requires ShiftBack(Text.Reverse(inner), -3).Some?
    requires c.b64decode(outer) == Some(ShiftBack(Text.Reverse(inner), -3).value)
    requires forall k | 0 <= k < |outer| :: IsBase64Char(outer[k])
    requires |pre| == 2 && |post| == 2
    ensures FromScript(c, Some(pre + ShiftLetters(outer) + post)) == NonEmptyField(json, "source")
  {
    var payload := ShiftLetters(outer);
    var t := pre + payload + post;
    assert ScriptPayload(t) == payload by {
      if |t| > 4 {
        assert t[2..|t| - 2] == payload;
      }
    }
    DecodeVoeRoundTrip(c, text, json, inner, outer);
  }

  /** The `a168c` strategy reads `source` from the JSON whose reversed text
      the match base64-decodes to. */
  lemma FromA168cOf(c: Codecs, a: string, text: string, json: Json)
    requires c.b64decode(a) == Some(Text.Reverse(text))
    requires c.parseJson(text) == Some(json)
    ensures FromA168c(c, Some(a)) == NonEmptyField(json, "source")
  {
    ReverseTwice(text);
  }

  /** Third way: base64-decode `hls`; the decoded text is returned even when empty. */
  function FromHls(c: Codecs, hls: Option<string>): (r: Option<string>)
    ensures hls.None? ==> r.None?
    ensures hls.Some? ==> r == c.b64decode(hls.value)
  {
    if hls.None? then None else c.b64decode(hls.value)
  }

  /** The first present value of a list of tries. */
  function FirstSome<T>(xs: seq<Option<T>>): (r: Option<T>)
    ensures r.None? <==> forall i | 0 <= i < |xs| :: xs[i].None?
    ensures r.Some? ==> exists i | 0 <= i < |xs| :: xs[i] == r && forall j | 0 <= j < i :: xs[j].None?
  {
    if |xs| == 0 then None
    else if xs[0].Some? then xs[0]
    else
      var r := FirstSome(xs[1..]);
      assert forall i | 1 <= i < |xs| :: xs[i] == xs[1..][i - 1];
      r
  }

  /** The three ways, in the order they are tried. */
  function Tries(c: Codecs, page: VoePage): seq<Option<string>> {
    [FromScript(c, page.script), FromA168c(c, page.a168c), FromHls(c, page.hls)]
  }

  /** The source of a VOE page: the first way that succeeds wins, and the page
      fails only when all three fail. */
  function VoeSource(c: Codecs, page: VoePage): (r: Result<string>)
    ensures r.Err? ==> r.error == NoVideoSource
  {
    match FirstSome(Tries(c, page))
    case Some(v) => Ok(v)
    case None => Err(NoVideoSource)
  }

  /** The fallback order: the script wins when it yields a source, `a168c`
      only when the script does not, `hls` only when neither does, and the
      page fails exactly when none of them yields anything. */
  lemma VoeSourceOrder(c: Codecs, page: VoePage)
    ensures FromScript(c, page.script).Some? ==> VoeSource(c, page) == Ok(FromScript(c, page.script).value)
    ensures FromScript(c, page.script).None? && FromA168c(c, page.a168c).Some?
            ==> VoeSource(c, page) == Ok(FromA168c(c, page.a168c).value)
    ensures FromScript(c, page.script).None? && FromA168c(c, page.a168c).None? && FromHls(c, page.hls).Some?
            ==> VoeSource(c, page) == Ok(FromHls(c, page.hls).value)
    ensures VoeSource(c, page).Err?
            <==> FromScript(c, page.script).None? && FromA168c(c, page.a168c).None? && FromHls(c, page.hls).None?
  {
    var xs := Tries(c, page);
    if xs[0].None? {
      assert FirstSome(xs) == FirstSome(xs[1..]);
      if xs[1].None? {
        assert FirstSome(xs[1..]) == FirstSome(xs[2..]);
        assert FirstSome(xs[2..]) == xs[2];
      }
    }
  }

  /** `get_direct_link_from_voe` after the first fetch: the redirect match is
      followed (the fetch is a parameter) and the page it leads to is searched. */
  function ResolveVoe(c: Codecs, redirect: Option<string>, fetch: string -> Result<VoePage>): (r: Result<string>)
    ensures redirect.None? ==> r == Err(NotFound("redirect URL"))
    ensures redirect.Some? && fetch(redirect.value).Err? ==> r == Err(fetch(redirect.value).error)
    ensures redirect.Some? && fetch(redirect.value).Ok? ==> r == VoeSource(c, fetch(redirect.value).value)
  {
    if redirect.None? then Err(NotFound("redirect URL"))
    else
      var page :- fetch(redirect.value);
      VoeSource(c, page)
  }

  /** The only page fetched is the one the redirect match names: its answer
      alone decides the outcome, and a fetched page fails exactly when none
      of the three ways yields a source. */
  lemma ResolveVoeFollowsRedirect(c: Codecs, url: string, fetch: string -> Result<VoePage>, other: string -> Result<VoePage>)
    requires other(url) == fetch(url)
    ensures ResolveVoe(c, Some(url), other) == ResolveVoe(c, Some(url), fetch)
    ensures fetch(url).Ok? ==>
              var page := fetch(url).value;
              (ResolveVoe(c, Some(url), fetch) == Err(NoVideoSource)
               <==> FromScript(c, page.script).None? && FromA168c(c, page.a168c).None? && FromHls(c, page.hls).None?)
  {
    if fetch(url).Ok? {
      VoeSourceOrder(c, fetch(url).value);
    }
  }
}
