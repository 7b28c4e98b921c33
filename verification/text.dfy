/** The Python `str` operations the resolver relies on, over Dafny strings
    (`seq<char>`, one element per code point): `strip`, `rstrip`, `startswith`,
    `in`, `split` on a one-character separator, `replace`, reversal by slicing,
    and character filtering. */
module Text {

  /** Python's `str.isspace` for one code point: the characters `str.strip()`
      removes when called without arguments. */
  predicate IsSpace(c: char) {
    || ('\t' <= c <= '\r')
    || ('\U{1C}' <= c <= ' ')
    || c == '\U{85}' || c == '\U{A0}' || c == '\U{1680}'
    || ('\U{2000}' <= c <= '\U{200A}')
    || c == '\U{2028}' || c == '\U{2029}' || c == '\U{202F}' || c == '\U{205F}' || c == '\U{3000}'
  }

  predicate AllSpace(s: string) {
    forall i | 0 <= i < |s| :: IsSpace(s[i])
  }

  /** Where `s.lstrip()` starts when the scan begins at `b`: the first
      index from `b` on that is not whitespace, or `|s|`. */
  function FirstKept(s: string, b: nat): (r: nat)
    requires b <= |s|
    requires forall k | 0 <= k < b :: IsSpace(s[k])
    ensures b <= r <= |s|
    ensures forall k | 0 <= k < r :: IsSpace(s[k])
    ensures r < |s| ==> !IsSpace(s[r])
    decreases |s| - b
  {
    if b < |s| && IsSpace(s[b]) then FirstKept(s, b + 1) else b
  }

  /** Where `rstrip()` ends within `s[b..]` when the scan begins at `e`: the
      last index down to `b` that follows a character that is not
      whitespace, or `b`. */
  function LastKept(s: string, b: nat, e: nat): (r: nat)
    requires b <= e <= |s|
    requires forall k | e <= k < |s| :: IsSpace(s[k])
    ensures b <= r <= e
    ensures forall k | r <= k < |s| :: IsSpace(s[k])
    ensures r > b ==> !IsSpace(s[r - 1])
    decreases e
  {
    if e > b && IsSpace(s[e - 1]) then LastKept(s, b, e - 1) else e
  }

  /** `s.strip()`: `s` is whitespace, then `r`, then whitespace, and `r`
      neither starts nor ends with whitespace. */
  function Strip(s: string): (r: string)
    ensures |r| <= |s|
    ensures r == [] || (!IsSpace(r[0]) && !IsSpace(r[|r| - 1]))
  {
    var i := FirstKept(s, 0);
    var e := LastKept(s, i, |s|);
    StripEnds(s, i, e);
    s[i..e]
  }

  /** What `strip()` removes is whitespace on both sides: `s` is
      whitespace, then `Strip(s)`, then whitespace. */
  lemma StripShape(s: string)
    ensures var r := Strip(s);
            exists k | 0 <= k <= |s| - |r| :: s[k..k + |r|] == r && AllSpace(s[..k]) && AllSpace(s[k + |r|..])
  {
    var i := FirstKept(s, 0);
    var e := LastKept(s, i, |s|);
    StripBounds(s, i, e);
    var r := s[i..e];
    assert r == Strip(s);
    assert i + |r| == e;
    assert s[i..i + |r|] == r && AllSpace(s[..i]) && AllSpace(s[i + |r|..]);
  }

  /** `s[i..e]` neither starts nor ends with whitespace. */
  lemma StripEnds(s: string, i: nat, e: nat)
    requires i == FirstKept(s, 0) && e == LastKept(s, i, |s|)
    ensures var r := s[i..e]; r == [] || (!IsSpace(r[0]) && !IsSpace(r[|r| - 1]))
  {
    StripBounds(s, i, e);
    var r := s[i..e];
    if r != [] {
      assert r[0] == s[i] && r[|r| - 1] == s[e - 1];
    }
  }

  /** The facts behind `Strip`'s contract, for the cut points it chooses:
      leading whitespace, at least one other character unless all of `s` was
      whitespace, then trailing whitespace. */
  lemma StripBounds(s: string, i: nat, e: nat)
    requires i == FirstKept(s, 0) && e == LastKept(s, i, |s|)
    ensures i == |s| <==> i == e
    ensures AllSpace(s[..i]) && AllSpace(s[e..])
    ensures i < e ==> !IsSpace(s[i]) && !IsSpace(s[e - 1])
  {
    assert AllSpace(s[..i]) by {
      var u := s[..i];
      forall k | 0 <= k < |u|
        ensures IsSpace(u[k])
      {
        assert u[k] == s[k];
      }
    }
    assert AllSpace(s[e..]) by {
      var u := s[e..];
      forall k | 0 <= k < |u|
        ensures IsSpace(u[k])
      {
        assert u[k] == s[e + k];
      }
    }
  }

  /** A string that is empty after `strip()` is made of whitespace only. */
  lemma StripEmptyIffAllSpace(s: string)
    ensures Strip(s) == [] <==> AllSpace(s)
  {
    var i := FirstKept(s, 0);
    var e := LastKept(s, i, |s|);
    StripBounds(s, i, e);
    assert s[..|s|] == s;
  }

  /** Text that neither starts nor ends with whitespace is its own `strip()`. */
  lemma StripUnchanged(s: string)
    requires |s| > 0 && !IsSpace(s[0]) && !IsSpace(s[|s| - 1])
    ensures Strip(s) == s
  {
    assert FirstKept(s, 0) == 0;
    assert LastKept(s, 0, |s|) == |s|;
    assert s[0..|s|] == s;
  }

  /** `s.rstrip(c)` for one character `c`. */
  function RStripChar(s: string, c: char): (r: string)
    ensures |r| <= |s| && r == s[..|r|]
    ensures forall i | |r| <= i < |s| :: s[i] == c
    ensures r == [] || r[|r| - 1] != c
  {
    if |s| > 0 && s[|s| - 1] == c then RStripChar(s[..|s| - 1], c) else s
  }

  predicate StartsWith(s: string, prefix: string) {
    |prefix| <= |s| && s[..|prefix|] == prefix
  }

  predicate OccursAt(s: string, pat: string, i: int) {
    0 <= i && i + |pat| <= |s| && s[i..i + |pat|] == pat
  }

  /** Python's `pat in s`. */
  predicate Contains(s: string, pat: string) {
    exists i | 0 <= i <= |s| - |pat| :: OccursAt(s, pat, i)
  }

  /** `sep.join(parts)` for a one-character separator. */
  function Join(parts: seq<string>, sep: char): string {
    if |parts| == 0 then []
    else if |parts| == 1 then parts[0]
    else parts[0] + [sep] + Join(parts[1..], sep)
  }

  /** `s.split(sep)` for a one-character separator: never empty, the pieces
      contain no separator, and there is more than one piece exactly when
      the separator occurs. */
  function Split(s: string, sep: char): (parts: seq<string>)
    ensures |parts| >= 1
    ensures forall k | 0 <= k < |parts| :: sep !in parts[k]
    ensures |parts| == 1 <==> sep !in s
  {
    if |s| == 0 then [[]]
    else
      var rest := Split(s[1..], sep);
      if s[0] == sep then [[]] + rest
      else
        var r := [[s[0]] + rest[0]] + rest[1..];
        assert |r| == 1 ==> sep !in s by {
          if |r| == 1 {
            assert forall k | 0 <= k < |s| :: s[k] == if k == 0 then s[0] else s[1..][k - 1];
          }
        }
        r
  }

  /** The first piece is a prefix of the text. */
  lemma {:induction false} SplitFirstIsPrefix(s: string, sep: char)
    ensures var first := Split(s, sep)[0]; |first| <= |s| && first == s[..|first|]
  {
    if |s| > 0 {
      SplitFirstIsPrefix(s[1..], sep);
    }
  }

  /** Joining the pieces back with the separator gives the text that was split. */
  lemma {:induction false} JoinSplit(s: string, sep: char)
    ensures Join(Split(s, sep), sep) == s
  {
    if |s| > 0 {
      JoinSplit(s[1..], sep);
      JoinSplitStep(s, sep);
    }
  }

  /** One step of `JoinSplit`: from the tail of `s` to `s`. */
  lemma JoinSplitStep(s: string, sep: char)
    requires |s| > 0 && Join(Split(s[1..], sep), sep) == s[1..]
    ensures Join(Split(s, sep), sep) == s
  {
    var rest := Split(s[1..], sep);
    var r := Split(s, sep);
    assert s == [s[0]] + s[1..];
    if s[0] == sep {
      assert r == [[]] + rest;
      assert Join(r, sep) == [] + [sep] + Join(rest, sep);
    } else if |rest| == 1 {
      assert r == [[s[0]] + rest[0]];
    } else {
      assert r == [[s[0]] + rest[0]] + rest[1..];
      JoinConsFirst(s[0], rest, sep);
    }
  }

  /** Putting a character in front of the first part puts it in front of
      the joined text. */
  lemma JoinConsFirst(c: char, parts: seq<string>, sep: char)
    requires |parts| > 1
    ensures Join([[c] + parts[0]] + parts[1..], sep) == [c] + Join(parts, sep)
  {
    var q := [[c] + parts[0]] + parts[1..];
    assert q[0] == [c] + parts[0] && q[1..] == parts[1..];
  }

  /** Splitting undoes joining when no part holds the separator. */
  lemma {:induction false} SplitJoin(parts: seq<string>, sep: char)
    requires |parts| >= 1
    requires forall k | 0 <= k < |parts| :: sep !in parts[k]
    ensures Split(Join(parts, sep), sep) == parts
  {
    if |parts| == 1 {
      SplitNoSep(parts[0], sep);
    } else {
      SplitJoin(parts[1..], sep);
      SplitAppend(parts[0], Join(parts[1..], sep), sep);
    }
  }

  lemma {:induction false} SplitNoSep(s: string, sep: char)
    requires sep !in s
    ensures Split(s, sep) == [s]
  {
    if |s| > 0 {
      SplitNoSep(s[1..], sep);
      assert s[0] != sep;
      assert [s[0]] + s[1..] == s;
    }
  }

  /** Splitting `a + sep + b`, where `a` holds no separator, puts `a` in front
      of the pieces of `b`. */
  lemma {:induction false} SplitAppend(a: string, b: string, sep: char)
    requires sep !in a
    ensures Split(a + [sep] + b, sep) == [a] + Split(b, sep)
  {
    if |a| > 0 {
      assert (a + [sep] + b)[1..] == a[1..] + [sep] + b;
      SplitAppend(a[1..], b, sep);
      assert [a[0]] + a[1..] == a;
    } else {
      assert (a + [sep] + b)[1..] == b;
    }
  }

  /** The last piece of `a + sep + b`, where `b` holds no separator, is `b`. */
  lemma {:induction false} SplitLast(a: string, b: string, sep: char)
    requires sep !in b
    ensures var parts := Split(a + [sep] + b, sep); parts[|parts| - 1] == b
  {
    var s := a + [sep] + b;
    if |a| == 0 {
      assert s[1..] == b;
      SplitNoSep(b, sep);
    } else {
      assert s[1..] == a[1..] + [sep] + b;
      SplitLast(a[1..], b, sep);
      assert s[1..][|a| - 1] == sep;
    }
  }

  /** Python's `s.replace(pat, rep)`: occurrences of `pat` are replaced left
      to right and never overlap. */
  function Replace(s: string, pat: string, rep: string): (r: string)
    requires |pat| > 0
    decreases |s|
  {
    if |s| < |pat| then s
    else if s[..|pat|] == pat then rep + Replace(s[|pat|..], pat, rep)
    else [s[0]] + Replace(s[1..], pat, rep)
  }

  /** `replace` copies a prefix in which no occurrence starts and then
      replaces the occurrence that follows it. */
  lemma {:induction false} ReplaceAfter(s: string, a: string, pat: string, rep: string, b: string)
    requires |pat| > 0 && s == a + pat + b
    requires forall i | 0 <= i < |a| :: !OccursAt(s, pat, i)
    ensures Replace(s, pat, rep) == a + rep + Replace(b, pat, rep)
    decreases |a|
  {
    if |a| == 0 {
      assert s[..|pat|] == pat && s[|pat|..] == b;
    } else {
      var t := s[1..];
      assert t == a[1..] + pat + b;
      assert !OccursAt(s, pat, 0);
      assert Replace(s, pat, rep) == [s[0]] + Replace(t, pat, rep);
      forall i | 0 <= i < |a| - 1
        ensures !OccursAt(t, pat, i)
      {
        OccursInTail(s, pat, i);
      }
      ReplaceAfter(t, a[1..], pat, rep, b);
      assert [a[0]] + a[1..] == a;
    }
  }

  /** An occurrence in the tail of `s` is an occurrence in `s`, one place on. */
  lemma OccursInTail(s: string, pat: string, i: nat)
    requires |s| > 0
    ensures OccursAt(s[1..], pat, i) <==> OccursAt(s, pat, i + 1)
  {
    if i + |pat| <= |s| - 1 {
      assert s[1..][i..i + |pat|] == s[i + 1..i + 1 + |pat|];
    }
  }

  /** Text without an occurrence of the pattern is left alone. */
  lemma {:induction false} ReplaceAbsent(s: string, pat: string, rep: string)
    requires |pat| > 0 && !Contains(s, pat)
    ensures Replace(s, pat, rep) == s
    decreases |s|
  {
    if |s| >= |pat| {
      assert !OccursAt(s, pat, 0);
      NoOccurrenceInSuffix(s, pat, 1);
      ReplaceAbsent(s[1..], pat, rep);
      assert [s[0]] + s[1..] == s;
    }
  }

  /** Replacing a pattern by one character that the pattern does not contain
      leaves no occurrence of the pattern behind, and never lengthens `s`. */
  lemma {:induction false} ReplaceRemovesPattern(s: string, pat: string, rep: char)
    requires |pat| > 0 && rep !in pat
    ensures !Contains(Replace(s, pat, [rep]), pat)
    ensures |Replace(s, pat, [rep])| <= |s|
    decreases |s|
  {
    var r := Replace(s, pat, [rep]);
    if |s| >= |pat| {
      var hit := s[..|pat|] == pat;
      var n := if hit then |pat| else 1;
      var tail := s[n..];
      var rt := Replace(tail, pat, [rep]);
      ReplaceRemovesPattern(tail, pat, rep);
      assert r == r[..1] + rt;
      forall i | 0 <= i <= |r| - |pat|
        ensures !OccursAt(r, pat, i)
      {
        if i > 0 {
          assert r[i..i + |pat|] == rt[i - 1..i - 1 + |pat|];
          assert !OccursAt(rt, pat, i - 1);
        } else if hit {
          assert r[0] == rep;
        } else {
          var t := rt[..|pat| - 1];
          assert r[..|pat|] == [s[0]] + t;
          ReplacePrefix(tail, pat, rep, |pat| - 1);
          if rep in t {
            var j :| 0 <= j < |t| && t[j] == rep;
            assert r[..|pat|][j + 1] == rep;
          } else {
            assert s[..|pat|] == [s[0]] + tail[..|pat| - 1];
          }
        }
      }
    }
  }

  /** A prefix of the output either holds the replacement character or was
      copied unchanged from the input. */
  lemma {:induction false} ReplacePrefix(s: string, pat: string, rep: char, k: nat)
    requires |pat| > 0
    requires k <= |Replace(s, pat, [rep])|
    ensures var r := Replace(s, pat, [rep]);
            rep in r[..k] || (k <= |s| && r[..k] == s[..k])
    decreases |s|
  {
    var r := Replace(s, pat, [rep]);
    if k == 0 || |s| < |pat| {
    } else if s[..|pat|] == pat {
      assert r[..k][0] == rep;
    } else {
      var tail := s[1..];
      var t := Replace(tail, pat, [rep])[..k - 1];
      assert r[..k] == [s[0]] + t;
      ReplacePrefix(tail, pat, rep, k - 1);
      if rep in t {
        var j :| 0 <= j < |t| && t[j] == rep;
        assert r[..k][j + 1] == rep;
      } else {
        assert s[..k] == [s[0]] + tail[..k - 1];
      }
    }
  }

  /** Replacing with a character that another pattern `q` does not contain
      creates no new occurrence of `q`. */
  lemma {:induction false} ReplaceKeepsAbsent(s: string, pat: string, rep: char, q: string)
    requires |pat| > 0 && |q| > 0 && rep !in q
    requires !Contains(s, q)
    ensures !Contains(Replace(s, pat, [rep]), q)
    decreases |s|
  {
    var r := Replace(s, pat, [rep]);
    if |s| >= |pat| {
      var hit := s[..|pat|] == pat;
      var n := if hit then |pat| else 1;
      var tail := s[n..];
      var rt := Replace(tail, pat, [rep]);
      NoOccurrenceInSuffix(s, q, n);
      ReplaceKeepsAbsent(tail, pat, rep, q);
      assert r == r[..1] + rt;
      forall i | 0 <= i <= |r| - |q|
        ensures !OccursAt(r, q, i)
      {
        if i > 0 {
          assert r[i..i + |q|] == rt[i - 1..i - 1 + |q|];
          assert !OccursAt(rt, q, i - 1);
        } else if hit {
          assert r[0] == rep;
        } else {
          KeepsAbsentAtStart(s, pat, rep, q);
        }
      }
    }
  }

  /** Where the input does not start with `pat`, the output starts with `q`
      only if the input did. */
  lemma KeepsAbsentAtStart(s: string, pat: string, rep: char, q: string)
    requires |pat| > 0 && |q| > 0 && rep !in q
    requires |s| >= |pat| && s[..|pat|] != pat
    requires !OccursAt(s, q, 0)
    ensures !OccursAt(Replace(s, pat, [rep]), q, 0)
  {
    var r := Replace(s, pat, [rep]);
    if |q| <= |r| {
      var tail := s[1..];
      var rt := Replace(tail, pat, [rep]);
      assert r == [s[0]] + rt;
      ReplacePrefix(tail, pat, rep, |q| - 1);
      var t := rt[..|q| - 1];
      assert r[..|q|] == [s[0]] + t;
      if rep in t {
        var j :| 0 <= j < |t| && t[j] == rep;
        assert r[..|q|][j + 1] == rep;
      } else {
        assert s[..|q|] == [s[0]] + tail[..|q| - 1];
      }
    }
  }

  lemma NoOccurrenceInSuffix(s: string, q: string, k: nat)
    requires k <= |s| && !Contains(s, q)
    ensures !Contains(s[k..], q)
  {
    if Contains(s[k..], q) {
      var i :| 0 <= i <= |s[k..]| - |q| && OccursAt(s[k..], q, i);
      assert s[k..][i..i + |q|] == s[k + i..k + i + |q|];
      assert OccursAt(s, q, k + i);
    }
  }

  /** Keeps the characters of `s` that are not in `drop`, in order. */
  function Without(s: string, drop: set<char>): (r: string)
    ensures |r| <= |s|
    ensures forall i | 0 <= i < |r| :: r[i] !in drop
  {
    if |s| == 0 then []
    else if s[0] in drop then Without(s[1..], drop)
      else [s[0]] + Without(s[1..], drop)
  }

  /** `a` can be obtained from `b` by deleting characters. */
  ghost predicate IsSubsequence(a: string, b: string)
    decreases |b|
  {
    || |a| == 0
    || (&& |b| > 0
        && ((a[0] == b[0] && IsSubsequence(a[1..], b[1..])) || IsSubsequence(a, b[1..])))
  }

  /** What `Without` drops is exactly the characters in `drop`: the result is
      a subsequence of the input. */
  lemma {:induction false} WithoutIsSubsequence(s: string, drop: set<char>)
    ensures IsSubsequence(Without(s, drop), s)
  {
    if |s| > 0 {
      WithoutIsSubsequence(s[1..], drop);
      if s[0] !in drop {
        assert Without(s, drop)[1..] == Without(s[1..], drop);
      }
    }
  }

  /** Every character outside `drop` is kept as often as it occurs. */
  lemma {:induction false} WithoutKeepsCounts(s: string, drop: set<char>)
    ensures forall c | c !in drop :: multiset(Without(s, drop))[c] == multiset(s)[c]
  {
    if |s| > 0 {
      WithoutKeepsCounts(s[1..], drop);
      assert s == [s[0]] + s[1..];
    }
  }

  /** Filtering a string that holds none of the dropped characters changes nothing. */
  lemma {:induction false} WithoutNothingToDrop(s: string, drop: set<char>)
    requires forall i | 0 <= i < |s| :: s[i] !in drop
    ensures Without(s, drop) == s
  {
    if |s| > 0 {
      WithoutNothingToDrop(s[1..], drop);
    }
  }

  function Reverse(s: string): (r: string)
    ensures |r| == |s|
    ensures forall i | 0 <= i < |s| :: r[i] == s[|s| - 1 - i]
  {
    if |s| == 0 then [] else Reverse(s[1..]) + [s[0]]
  }

  function AsciiLowerChar(c: char): char {
    if 'A' <= c <= 'Z' then (c as int + 32) as char else c
  }

  /** `s.lower()` on ASCII letters; other characters are kept. */
  function AsciiLower(s: string): (r: string)
    ensures |r| == |s|
    ensures forall i | 0 <= i < |s| :: r[i] == AsciiLowerChar(s[i])
  {
    seq(|s|, i requires 0 <= i < |s| => AsciiLowerChar(s[i]))
  }
}
