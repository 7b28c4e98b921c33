/** The providers of an episode page: `parse_providers_from_html` gathers a
    provider → language key → URL map from the page's episode links, and
    `choose_provider` picks one provider from it, preferring a language. Both
    maps keep Python's insertion order. The HTML parsing itself is not
    modelled: each link arrives with the three values read from it. */
module Providers {
  import opened Results
  import Assoc
  import Numbers

  type LanguageMap = Assoc.Dict<int, string>
  type ProviderMap = Assoc.Dict<string, LanguageMap>

  /** The language `choose_provider` prefers when called without one. */
  const DefaultLanguage: int := 3

  /** One `li.episodeLink` of the page: the text of its `h4`, the `href` of its
      `a.watchEpisode` and its `data-lang-key` attribute, each `None` when the
      element lacks it. */
  datatype EpisodeLink = EpisodeLink(name: Option<string>, href: Option<string>, langKey: Option<string>)

  /** `int(s) if s and s.isdigit() else None`. */
  function LanguageKey(attr: Option<string>): (r: Option<int>)
    ensures r.Some? <==> attr.Some? && Numbers.IsDigits(attr.value)
    ensures r.Some? ==> r.value >= 0 && Numbers.PyInt(attr.value) == Some(r.value)
  {
    match attr
    case None => None
    case Some(s) =>
      if Numbers.IsDigits(s) then
        Numbers.PyIntOfDigits(s);
        Some(Numbers.DecimalValue(s))
      else None
  }

  /** What a link adds to the map: its provider, language key and href, when
      all three are present and truthy (a key of `0` counts as missing). */
  function Contribution(link: EpisodeLink): (r: Option<(string, int, string)>)
    ensures r.Some? <==>
              && link.name.Some? && link.name.value != ""
              && link.href.Some? && link.href.value != ""
              && LanguageKey(link.langKey).Some? && LanguageKey(link.langKey).value != 0
    ensures r.Some? ==> r.value == (link.name.value, LanguageKey(link.langKey).value, link.href.value)
  {
    if link.name.None? || link.name.value == "" || link.href.None? || link.href.value == "" then None
    else
      match LanguageKey(link.langKey)
      case None => None
      case Some(key) => if key == 0 then None else Some((link.name.value, key, link.href.value))
  }

  /** `providers.setdefault(name, {})[key] = url`. */
  function Record(m: ProviderMap, name: string, key: int, url: string): ProviderMap {
    Assoc.Put(m, name, Assoc.Put(Assoc.Get(m, name).GetOr([]), key, url))
  }

  /** The loop over the links, in page order; `urljoin` resolves each href
      against the base URL. */
  function Accumulate(links: seq<EpisodeLink>, base: string, urljoin: (string, string) -> string): ProviderMap
    decreases |links|
  {
    if |links| == 0 then []
    else
      var m := Accumulate(links[..|links| - 1], base, urljoin);
      match Contribution(links[|links| - 1])
      case None => m
      case Some((name, key, href)) => Record(m, name, key, urljoin(base, href))
  }

  /** `parse_providers_from_html` after parsing: a page without episode links
      and a page none of whose links contributes are both errors. */
  function ParseProviders(links: seq<EpisodeLink>, base: string, urljoin: (string, string) -> string): (r: Result<ProviderMap>)
    ensures r == Err(NoEpisodeLinks) <==> |links| == 0
    ensures r == Err(NoProviders) <==> |links| > 0 && forall i | 0 <= i < |links| :: Contribution(links[i]).None?
    ensures r.Ok? ==> r.value == Accumulate(links, base, urljoin) && WellFormed(r.value)
  {
    AccumulateEmpty(links, base, urljoin);
    AccumulateWellFormed(links, base, urljoin);
    if |links| == 0 then Err(NoEpisodeLinks)
    else
      var m := Accumulate(links, base, urljoin);
      if |m| == 0 then Err(NoProviders) else Ok(m)
  }

  /** The shape every accumulated map has: distinct provider names, and for
      each a non-empty language map with distinct, positive keys. */
  ghost predicate WellFormed(m: ProviderMap) {
    && Assoc.KeysDistinct(m)
    && forall i | 0 <= i < |m| ::
         && |m[i].1| > 0
         && Assoc.KeysDistinct(m[i].1)
         && forall j | 0 <= j < |m[i].1| :: m[i].1[j].0 > 0
  }

  /** The map stays empty exactly as long as no link contributes. */
  lemma {:induction false} AccumulateEmpty(links: seq<EpisodeLink>, base: string, urljoin: (string, string) -> string)
    ensures |Accumulate(links, base, urljoin)| == 0 <==> forall i | 0 <= i < |links| :: Contribution(links[i]).None?
    decreases |links|
  {
    if |links| > 0 {
      var init := links[..|links| - 1];
      var link := links[|links| - 1];
      AccumulateEmpty(init, base, urljoin);
      assert links == init + [link];
      if Contribution(link).None? {
        assert Accumulate(links, base, urljoin) == Accumulate(init, base, urljoin);
      } else {
        var (name, key, href) := Contribution(link).value;
        assert |Accumulate(links, base, urljoin)| >= 1 by {
          assert Accumulate(links, base, urljoin) == Record(Accumulate(init, base, urljoin), name, key, urljoin(base, href));
        }
      }
    }
  }

  /** Every accumulated map is well formed. */
  lemma {:induction false} AccumulateWellFormed(links: seq<EpisodeLink>, base: string, urljoin: (string, string) -> string)
    ensures WellFormed(Accumulate(links, base, urljoin))
    decreases |links|
  {
    if |links| > 0 {
      var m := Accumulate(links[..|links| - 1], base, urljoin);
      AccumulateWellFormed(links[..|links| - 1], base, urljoin);
      match Contribution(links[|links| - 1])
      case None =>
      case Some((name, key, href)) =>
        RecordWellFormed(m, name, key, urljoin(base, href));
    }
  }

  /** Recording a positive key keeps a map well formed. */
  lemma RecordWellFormed(m: ProviderMap, name: string, key: int, url: string)
    requires WellFormed(m) && key > 0
    ensures WellFormed(Record(m, name, key, url))
  {
    var old_ := Assoc.Get(m, name).GetOr([]);
    var inner := Assoc.Put(old_, key, url);
    assert Assoc.KeysDistinct(old_) && forall j | 0 <= j < |old_| :: old_[j].0 > 0 by {
      if Assoc.Get(m, name).Some? {
        var i :| 0 <= i < |m| && m[i] == (name, Assoc.Get(m, name).value);
      }
    }
    Assoc.PutDistinct(old_, key, url);
    assert forall j | 0 <= j < |inner| :: inner[j].0 > 0;
    Assoc.PutDistinct(m, name, inner);
  }

  /** Reference definition: the URL of the last contributing link for this
      provider and language. */
  function LastUrl(links: seq<EpisodeLink>, base: string, urljoin: (string, string) -> string, name: string, key: int): Option<string>
    decreases |links|
  {
    if |links| == 0 then None
    else
      match Contribution(links[|links| - 1])
      case Some((n, k, href)) =>
        if n == name && k == key then Some(urljoin(base, href))
        else LastUrl(links[..|links| - 1], base, urljoin, name, key)
      case None => LastUrl(links[..|links| - 1], base, urljoin, name, key)
  }

  /** `providers[name][key]`, when both are present. */
  function Lookup(m: ProviderMap, name: string, key: int): Option<string> {
    match Assoc.Get(m, name)
    case None => None
    case Some(langs) => Assoc.Get(langs, key)
  }

  /** A later link for the same provider and language overwrites an earlier
      one, and skipped links leave no trace: every entry of the map is the
      URL of the last contributing link for it. */
  lemma {:induction false} AccumulateLastWins(links: seq<EpisodeLink>, base: string, urljoin: (string, string) -> string, name: string, key: int)
    ensures Lookup(Accumulate(links, base, urljoin), name, key) == LastUrl(links, base, urljoin, name, key)
    decreases |links|
  {
    if |links| > 0 {
      var init := links[..|links| - 1];
      var m := Accumulate(init, base, urljoin);
      AccumulateLastWins(init, base, urljoin, name, key);
      match Contribution(links[|links| - 1])
      case None =>
      case Some((n, k, href)) =>
        RecordLookup(m, n, k, urljoin(base, href), name, key);
    }
  }

  /** After recording `url` under `n` and `k`, exactly that entry changed. */
  lemma RecordLookup(m: ProviderMap, n: string, k: int, url: string, name: string, key: int)
    ensures Lookup(Record(m, n, k, url), name, key)
            == if name == n && key == k then Some(url) else Lookup(m, name, key)
  {
    var inner := Assoc.Get(m, n).GetOr([]);
    Assoc.PutGet(m, n, Assoc.Put(inner, k, url), name);
    Assoc.PutGet(inner, k, url, key);
  }

  /** The names of the contributing links, in page order. */
  function ContributingNames(links: seq<EpisodeLink>): (r: seq<string>)
    decreases |links|
  {
    if |links| == 0 then []
    else
      var init := ContributingNames(links[..|links| - 1]);
      match Contribution(links[|links| - 1])
      case None => init
      case Some((n, _, _)) => init + [n]
  }

  /** The first occurrence of every element, in order. */
  function FirstOccurrences(s: seq<string>): (r: seq<string>)
    ensures forall x :: x in r <==> x in s
  {
    if |s| == 0 then []
    else
      var init := FirstOccurrences(s[..|s| - 1]);
      assert s == s[..|s| - 1] + [s[|s| - 1]];
      if s[|s| - 1] in init then init else init + [s[|s| - 1]]
  }

  /** The providers appear in the order their first contributing link has on
      the page, which is the order `choose_provider` walks them in. */
  lemma {:induction false} AccumulateOrder(links: seq<EpisodeLink>, base: string, urljoin: (string, string) -> string)
    ensures Assoc.Keys(Accumulate(links, base, urljoin)) == FirstOccurrences(ContributingNames(links))
    decreases |links|
  {
    if |links| > 0 {
      var init := links[..|links| - 1];
      var m := Accumulate(init, base, urljoin);
      AccumulateOrder(init, base, urljoin);
      match Contribution(links[|links| - 1])
      case None =>
      case Some((n, k, href)) =>
        var names := ContributingNames(links);
        assert names[..|names| - 1] == ContributingNames(init);
        Assoc.GetKeys(m, n);
        Assoc.PutKeys(m, n, Assoc.Put(Assoc.Get(m, n).GetOr([]), k, urljoin(base, href)));
    }
  }

  /** The first provider, in order, whose language map holds `key`, with the
      URL stored there. */
  function FirstOffering(providers: ProviderMap, key: int): (r: Option<(string, string)>)
    ensures r.None? <==> forall i | 0 <= i < |providers| :: Assoc.Get(providers[i].1, key).None?
    ensures r.Some? ==> exists i | 0 <= i < |providers| ::
                          && providers[i].0 == r.value.0
                          && Assoc.Get(providers[i].1, key) == Some(r.value.1)
                          && forall j | 0 <= j < i :: Assoc.Get(providers[j].1, key).None?
  {
    if |providers| == 0 then None
    else
      match Assoc.Get(providers[0].1, key)
      case Some(url) => Some((providers[0].0, url))
      case None =>
        var r := FirstOffering(providers[1..], key);
        assert r.Some? ==> exists i | 1 <= i < |providers| ::
                              && providers[i].0 == r.value.0
                              && Assoc.Get(providers[i].1, key) == Some(r.value.1)
                              && forall j | 0 <= j < i :: Assoc.Get(providers[j].1, key).None? by {
          if r.Some? {
            var i :| 0 <= i < |providers| - 1
                     && providers[1..][i].0 == r.value.0
                     && Assoc.Get(providers[1..][i].1, key) == Some(r.value.1)
                     && forall j | 0 <= j < i :: Assoc.Get(providers[1..][j].1, key).None?;
            assert forall j | 1 <= j < i + 1 :: providers[j] == providers[1..][j - 1];
          }
        }
        r
  }

  /** The numerically smallest key (`sorted(keys)[0]`). */
  function MinKey(langs: LanguageMap): (k: int)
    requires |langs| > 0
    ensures exists j | 0 <= j < |langs| :: langs[j].0 == k
    ensures forall j | 0 <= j < |langs| :: k <= langs[j].0
  {
    if |langs| == 1 then langs[0].0
    else
      var rest := MinKey(langs[1..]);
      assert forall j | 1 <= j < |langs| :: langs[j] == langs[1..][j - 1];
      if langs[0].0 <= rest then langs[0].0 else rest
  }

  /** `choose_provider`: the first provider offering the language, otherwise
      the first provider with the URL of its smallest key. Python fails on an
      empty map (`StopIteration`) and on an empty first language map
      (`IndexError`); both are errors here. */
  function ChooseProvider(providers: ProviderMap, key: int): (r: Result<(string, string)>)
    ensures r == Err(NoProviders) <==> |providers| == 0
    ensures r == Err(NoLanguages) <==>
              && |providers| > 0 && |providers[0].1| == 0
              && forall i | 0 <= i < |providers| :: Assoc.Get(providers[i].1, key).None?
    ensures r.Ok? ==> exists i, j | 0 <= i < |providers| && 0 <= j < |providers[i].1| ::
                        providers[i].0 == r.value.0 && providers[i].1[j].1 == r.value.1
    ensures (exists i | 0 <= i < |providers| :: Assoc.Get(providers[i].1, key).Some?) ==>
              && r.Ok?
              && exists i | 0 <= i < |providers| ::
                   && providers[i].0 == r.value.0
                   && Assoc.Get(providers[i].1, key) == Some(r.value.1)
                   && forall j | 0 <= j < i :: Assoc.Get(providers[j].1, key).None?
    ensures && |providers| > 0 && |providers[0].1| > 0
            && (forall i | 0 <= i < |providers| :: Assoc.Get(providers[i].1, key).None?) ==>
              && r.Ok? && r.value.0 == providers[0].0
              && exists j | 0 <= j < |providers[0].1| ::
                   && providers[0].1[j].1 == r.value.1
                   && forall l | 0 <= l < |providers[0].1| :: providers[0].1[j].0 <= providers[0].1[l].0
  {
    if |providers| == 0 then Err(NoProviders)
    else
      match FirstOffering(providers, key)
      case Some(choice) =>
        assert exists i, j | 0 <= i < |providers| && 0 <= j < |providers[i].1| ::
                 providers[i].0 == choice.0 && providers[i].1[j].1 == choice.1 by {
          var i :| 0 <= i < |providers| && providers[i].0 == choice.0 && Assoc.Get(providers[i].1, key) == Some(choice.1);
          var j :| 0 <= j < |providers[i].1| && providers[i].1[j] == (key, choice.1);
        }
        Ok(choice)
      case None =>
        var (name, langs) := providers[0];
        if |langs| == 0 then Err(NoLanguages)
        else
          var url := Assoc.Get(langs, MinKey(langs)).value;
          Ok((name, url))
  }

  /** A map read from a page always yields a provider, whatever the language. */
  lemma ChooseAfterParse(links: seq<EpisodeLink>, base: string, urljoin: (string, string) -> string, key: int)
    requires ParseProviders(links, base, urljoin).Ok?
    ensures ChooseProvider(ParseProviders(links, base, urljoin).value, key).Ok?
  {
    var m := ParseProviders(links, base, urljoin).value;
    assert |m| > 0 && |m[0].1| > 0;
  }
}
