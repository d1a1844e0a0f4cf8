/** The URL and identity helpers of `WikiService`: title and language
    extraction, URL validation and node creation. Each regular expression is
    restated as a search over `seq<char>`; the id generator is a parameter. */
module WikiService {
  import opened Wrappers
  import opened JsString
  import opened WikiTypes
  import UriDecode

  /** A title pattern: the literal `lit`, then a non-empty run of characters
      outside `stop`, which is the captured group. */
  datatype Pattern = Pattern(lit: string, stop: set<char>)

  /** `/\/wiki\/([^#?]+)/` */
  const StandardPattern := Pattern("/wiki/", {'#', '?'})
  /** `/\/wiki\/([^#?\/]+)/` */
  const StrictPattern := Pattern("/wiki/", {'#', '?', '/'})
  /** `/wikipedia\.org\/wiki\/([^#?]+)/` */
  const FullUrlPattern := Pattern("wikipedia.org/wiki/", {'#', '?'})
  /** The patterns `extractWikipediaTitle` tries, in order. */
  const TitlePatterns := [StandardPattern, StrictPattern, FullUrlPattern]

  /** The language `extractWikipediaLanguage` falls back to. */
  const DefaultLanguage := "ja"
  const LanguageSuffix := ".wikipedia.org"
  const ArticlePrefix := ".wikipedia.org/wiki/"

  // ---------------------------------------------------------------------
  // Title extraction
  // ---------------------------------------------------------------------

  /** The pattern matches `s` with the match starting at index `i`. */
  predicate MatchesAt(s: string, p: Pattern, i: nat) {
    IsAt(s, i, p.lit) && i + |p.lit| < |s| && s[i + |p.lit|] !in p.stop
  }

  /** The leftmost match at or after index `i`: a regex search tries start
      positions from left to right. */
  function LeftmostFrom(s: string, p: Pattern, i: nat): (r: Option<nat>)
    ensures r.Some? ==> i <= r.value && MatchesAt(s, p, r.value)
    ensures forall j: nat :: i <= j && (r.None? || j < r.value) ==> !MatchesAt(s, p, j)
    decreases |s| - i
  {
    if i >= |s| then None
    else if MatchesAt(s, p, i) then Some(i)
    else LeftmostFrom(s, p, i + 1)
  }

  /** End of the run of characters outside `stop` that starts at `k`: a greedy `[^...]+`. */
  function RunEnd(s: string, k: nat, stop: set<char>): (e: nat)
    requires k <= |s|
    ensures k <= e <= |s|
    ensures forall m :: k <= m < e ==> s[m] !in stop
    ensures e < |s| ==> s[e] in stop
    decreases |s| - k
  {
    if k < |s| && s[k] !in stop then RunEnd(s, k + 1, stop) else k
  }

  /** `cap` is the group captured by the leftmost match, which starts at `i`. */
  predicate CapturedAt(s: string, p: Pattern, i: nat, cap: string) {
    && MatchesAt(s, p, i)
    && (forall j: nat :: 0 <= j < i ==> !MatchesAt(s, p, j))
    && IsAt(s, i + |p.lit|, cap)
    && |cap| > 0
    && (forall c :: c in cap ==> c !in p.stop)
    && (i + |p.lit| + |cap| == |s| || s[i + |p.lit| + |cap|] in p.stop)
  }

  /** `s.match(p)?.[1]` */
  function Capture(s: string, p: Pattern): (r: Option<string>)
    ensures r.None? <==> forall i: nat :: !MatchesAt(s, p, i)
    ensures r.Some? ==> exists i: nat :: CapturedAt(s, p, i, r.value)
  {
    match LeftmostFrom(s, p, 0)
    case None => None
    case Some(i) =>
      var k := i + |p.lit|;
      var cap := s[k..RunEnd(s, k, p.stop)];
      assert CapturedAt(s, p, i, cap);
      Some(cap)
  }

  /** A title as `extractWikipediaTitle` returns it: no underscore, no slash,
      no whitespace at either end. */
  predicate IsCleanTitle(t: string) {
    && '_' !in t
    && '/' !in t
    && (|t| > 0 ==> !IsWhitespace(t[0]) && !IsWhitespace(t[|t| - 1]))
  }

  /** `.replace(/_/g, ' ')`, then `.split('/')[0]`, then `.trim()`. */
  function CleanTitle(decoded: string): (t: string)
    ensures IsCleanTitle(t)
    ensures IsCleanTitle(decoded) && |decoded| > 0 ==> t == decoded
    ensures exists i :: TrimmedAt(TakeUntil(ReplaceAll(decoded, '_', ' '), '/'), i, t)
  {
    var spaced := ReplaceAll(decoded, '_', ' ');
    var head := TakeUntil(spaced, '/');
    assert forall c :: c in head ==> c in spaced by {
      assert head == spaced[..|head|];
    }
    Trim(head)
  }

  /** A title with no `/` and nothing to trim keeps every character in place,
      except that each `_` becomes a space. */
  lemma CleanTitleSpaces(decoded: string)
    requires '/' !in decoded && |decoded| > 0
    requires decoded[0] != '_' && !IsWhitespace(decoded[0])
    requires decoded[|decoded| - 1] != '_' && !IsWhitespace(decoded[|decoded| - 1])
    ensures |CleanTitle(decoded)| == |decoded|
    ensures forall k :: 0 <= k < |decoded| ==>
      CleanTitle(decoded)[k] == (if decoded[k] == '_' then ' ' else decoded[k])
  {
    var spaced := ReplaceAll(decoded, '_', ' ');
    assert '/' !in spaced by {
      forall k | 0 <= k < |spaced| ensures spaced[k] != '/' {
        assert decoded[k] in decoded;
      }
    }
    assert TakeUntil(spaced, '/') == spaced;
  }

  /** What a matched capture turns into: decoded (which may throw), then cleaned. */
  function TitleFromCapture(cap: string): (r: Result<Option<string>, UriDecode.UriError>)
    ensures r.Success? ==> r.value.Some? && IsCleanTitle(r.value.value)
    ensures r.Failure? <==> UriDecode.DecodeUriComponent(cap).Failure?
    ensures r.Success? ==> r.value == Some(CleanTitle(UriDecode.DecodeUriComponent(cap).value))
  {
    var decoded :- UriDecode.DecodeUriComponent(cap);
    Success(Some(CleanTitle(decoded)))
  }

  /** The `for ... of patterns` loop: the first pattern that matches decides. */
  function TryPatterns(url: string, ps: seq<Pattern>): Result<Option<string>, UriDecode.UriError>
  {
    if |ps| == 0 then Success(None)
    else
      match Capture(url, ps[0])
      case Some(cap) => TitleFromCapture(cap)
      case None => TryPatterns(url, ps[1..])
  }

  /** A strict match is also a standard match. */
  lemma StrictMatchIsStandard(s: string, i: nat)
    requires MatchesAt(s, StrictPattern, i)
    ensures MatchesAt(s, StandardPattern, i)
  {
  }

  /** A full-URL match carries a standard match thirteen characters later,
      where its `/wiki/` begins. */
  lemma FullUrlMatchIsStandard(s: string, i: nat)
    requires MatchesAt(s, FullUrlPattern, i)
    ensures MatchesAt(s, StandardPattern, i + 13)
  {
    assert s[i..i + 19] == "wikipedia.org/wiki/";
    assert s[i + 13..i + 19] == s[i..i + 19][13..19];
    assert "wikipedia.org/wiki/"[13..19] == "/wiki/";
  }

  /** `extractWikipediaTitle(url)`: `Success(None)` is `null`, `Failure` the
      `URIError` of a malformed escape. Only the standard pattern ever decides:
      when it does not match, neither of the other two can. */
  function ExtractTitle(url: string): (r: Result<Option<string>, UriDecode.UriError>)
    ensures Capture(url, StandardPattern).Some? ==> r == TitleFromCapture(Capture(url, StandardPattern).value)
    ensures r == Success(None) <==> forall i: nat :: !MatchesAt(url, StandardPattern, i)
    ensures r.Success? && r.value.Some? ==> IsCleanTitle(r.value.value)
  {
    OnlyStandardPatternDecides(url);
    TryPatterns(url, TitlePatterns)
  }

  /** The second and third patterns are never reached with a match of their own. */
  lemma OnlyStandardPatternDecides(url: string)
    ensures TryPatterns(url, TitlePatterns) ==
      match Capture(url, StandardPattern)
      case Some(cap) => TitleFromCapture(cap)
      case None => Success(None)
  {
    if Capture(url, StandardPattern).None? {
      assert Capture(url, StrictPattern).None? by {
        forall i: nat ensures !MatchesAt(url, StrictPattern, i) {
          if MatchesAt(url, StrictPattern, i) {
            StrictMatchIsStandard(url, i);
          }
        }
      }
      assert Capture(url, FullUrlPattern).None? by {
        forall i: nat ensures !MatchesAt(url, FullUrlPattern, i) {
          if MatchesAt(url, FullUrlPattern, i) {
            FullUrlMatchIsStandard(url, i);
          }
        }
      }
      var ps := TitlePatterns;
      assert ps[1..][1..][1..] == [];
      assert TryPatterns(url, ps[1..][1..]) == TryPatterns(url, ps[1..][1..][1..]);
      assert TryPatterns(url, ps[1..]) == TryPatterns(url, ps[1..][1..]);
      assert TryPatterns(url, ps) == TryPatterns(url, ps[1..]);
    } else {
      assert TitlePatterns[0] == StandardPattern;
    }
  }

  // ---------------------------------------------------------------------
  // Language extraction and validation
  // ---------------------------------------------------------------------

  predicate IsLowerWord(w: string) {
    |w| > 0 && forall c :: c in w ==> IsLowerAscii(c)
  }

  /** `/https?:\/\/([a-z]+)\.wikipedia\.org/` matches at index `i` capturing
      `lang`: the scheme, then the lower-case label, then `.wikipedia.org`. */
  predicate LanguageMatch(s: string, i: nat, lang: string) {
    && IsLowerWord(lang)
    && SchemeAt(s, i).Some?
    && IsAt(s, i + SchemeAt(s, i).value, lang)
    && IsAt(s, i + SchemeAt(s, i).value + |lang|, LanguageSuffix)
  }

  /** The leftmost language match starts at `i` and captures `lang`. */
  ghost predicate LeftmostLanguageMatch(s: string, i: nat, lang: string) {
    FirstLanguageMatchFrom(s, 0, i, lang)
  }

  /** Scanning from index `from`, the first language match starts at `i` and captures `lang`. */
  ghost predicate FirstLanguageMatchFrom(s: string, from: nat, i: nat, lang: string) {
    from <= i && LanguageMatch(s, i, lang) && forall j: nat, l :: from <= j < i ==> !LanguageMatch(s, j, l)
  }

  /** Length of the `https?://` at index `i`, if there is one there. */
  function SchemeAt(s: string, i: nat): (r: Option<nat>)
    ensures r.Some? ==> r.value == 7 || r.value == 8
    ensures r == Some(8) <==> IsAt(s, i, "https://")
    ensures r == Some(7) <==> IsAt(s, i, "http://")
  {
    if IsAt(s, i, "https://") then
      assert s[i + 4] == 's';
      Some(8)
    else if IsAt(s, i, "http://") then Some(7)
    else None
  }

  /** End of the run of lower-case ASCII letters starting at `k`: a greedy `[a-z]+`. */
  function LowerRunEnd(s: string, k: nat): (e: nat)
    requires k <= |s|
    ensures k <= e <= |s|
    ensures forall m :: k <= m < e ==> IsLowerAscii(s[m])
    ensures e < |s| ==> !IsLowerAscii(s[e])
    decreases |s| - k
  {
    if k < |s| && IsLowerAscii(s[k]) then LowerRunEnd(s, k + 1) else k
  }

  /** A run of `n` lower-case letters at `k` ended by a non-letter is exactly the greedy run. */
  lemma LowerRunEndExact(s: string, k: nat, n: nat)
    requires k + n < |s|
    requires forall m :: k <= m < k + n ==> IsLowerAscii(s[m])
    requires !IsLowerAscii(s[k + n])
    ensures LowerRunEnd(s, k) == k + n
  {
  }

  /** `s` continues with `w + t` at `k`: `w` at `k` and `t` right after. */
  lemma IsAtConcat(s: string, k: nat, w: string, t: string)
    requires IsAt(s, k, w + t)
    ensures IsAt(s, k, w) && IsAt(s, k + |w|, t)
  {
    assert s[k..k + |w|] == (w + t)[..|w|];
    assert s[k + |w|..k + |w| + |t|] == (w + t)[|w|..];
  }

  lemma IsAtJoin(s: string, k: nat, w: string, t: string)
    requires IsAt(s, k, w) && IsAt(s, k + |w|, t)
    ensures IsAt(s, k, w + t)
  {
    assert s[k..k + |w| + |t|] == s[k..k + |w|] + s[k + |w|..k + |w| + |t|];
  }

  /** The language group of a match at exactly index `i`, if one matches there. */
  function LanguageAt(s: string, i: nat): (r: Option<string>)
    ensures r.Some? ==> LanguageMatch(s, i, r.value)
  {
    match SchemeAt(s, i)
    case None => None
    case Some(k) =>
      assert i + k <= |s|;
      var e := LowerRunEnd(s, i + k);
      if e > i + k && IsAt(s, e, LanguageSuffix) then
        LowerSlice(s, i + k, e);
        Some(s[i + k..e])
      else None
  }

  /** A non-empty stretch of lower-case letters is a lower-case word. */
  lemma LowerSlice(s: string, k: nat, e: nat)
    requires k < e <= |s|
    requires forall m :: k <= m < e ==> IsLowerAscii(s[m])
    ensures IsLowerWord(s[k..e])
  {
    forall c | c in s[k..e] ensures IsLowerAscii(c) {
      var m :| 0 <= m < e - k && s[k..e][m] == c;
      assert s[k + m] == c;
    }
  }

  /** A lower-case label at `k` ended by a `.` is exactly the greedy `[a-z]+` run. */
  lemma LabelRunEnd(s: string, k: nat, lang: string)
    requires IsLowerWord(lang) && IsAt(s, k, lang)
    requires k + |lang| < |s| && s[k + |lang|] == '.'
    ensures LowerRunEnd(s, k) == k + |lang|
  {
    forall m | k <= m < k + |lang| ensures IsLowerAscii(s[m]) {
      assert s[m] == lang[m - k];
      assert lang[m - k] in lang;
    }
    LowerRunEndExact(s, k, |lang|);
  }

  /** A language match at `i` is the one `LanguageAt` finds: the group is unique. */
  lemma LanguageMatchUnique(s: string, i: nat, lang: string)
    requires LanguageMatch(s, i, lang)
    ensures LanguageAt(s, i) == Some(lang)
  {
    var k := i + SchemeAt(s, i).value;
    assert s[k + |lang|] == LanguageSuffix[0];
    LabelRunEnd(s, k, lang);
  }

  /** A language match: where it starts and the group it captures. */
  datatype LanguageHit = LanguageHit(at: nat, lang: string)

  /** The leftmost language match at or after index `i`. */
  function LanguageFrom(s: string, i: nat): (r: Option<LanguageHit>)
    ensures r.Some? ==> FirstLanguageMatchFrom(s, i, r.value.at, r.value.lang)
    ensures r.None? ==> forall j: nat, l :: i <= j ==> !LanguageMatch(s, j, l)
    decreases |s| - i
  {
    if i > |s| then
      assert forall j: nat, l :: i <= j ==> !LanguageMatch(s, j, l);
      None
    else
      match LanguageAt(s, i)
      case Some(lang) => Some(LanguageHit(i, lang))
      case None =>
        assert forall l :: !LanguageMatch(s, i, l) by {
          forall l | LanguageMatch(s, i, l) ensures false {
            LanguageMatchUnique(s, i, l);
          }
        }
        LanguageFrom(s, i + 1)
  }

  /** `extractWikipediaLanguage(url)`: the group of the leftmost match, or the
      default when nothing matches. Either way a non-empty lower-case word. */
  function ExtractLanguage(url: string): (r: string)
    ensures (forall i: nat, l :: !LanguageMatch(url, i, l)) ==> r == DefaultLanguage
    ensures (exists i: nat, l :: LanguageMatch(url, i, l)) ==> exists i: nat :: LeftmostLanguageMatch(url, i, r)
    ensures IsLowerWord(r)
  {
    match LanguageFrom(url, 0)
    case Some(hit) =>
      assert LeftmostLanguageMatch(url, hit.at, hit.lang);
      hit.lang
    case None => DefaultLanguage
  }

  /** `/^https?:\/\/[a-z]+\.wikipedia\.org\/wiki\/[^\/\s]+/` holds of `url`
      with `lang` as its language label. */
  predicate ValidWith(url: string, lang: string) {
    && IsLowerWord(lang)
    && SchemeAt(url, 0).Some?
    && ValidAfter(url, SchemeAt(url, 0).value, lang)
  }

  /** `url` continues at `k` with `lang`, then `.wikipedia.org/wiki/` and an article character. */
  predicate ValidAfter(url: string, k: nat, lang: string) {
    && IsAt(url, k, lang)
    && IsAt(url, k + |lang|, ArticlePrefix)
    && k + |lang| + |ArticlePrefix| < |url|
    && IsArticleChar(url[k + |lang| + |ArticlePrefix|])
  }

  /** The first character of an article path: neither `/` nor whitespace. */
  predicate IsArticleChar(c: char) {
    c != '/' && !IsWhitespace(c)
  }

  /** `isValidWikipediaUrl(url)`: after the scheme the greedy `[a-z]+` run is
      the only candidate label, so checking it decides the match. */
  function IsValidWikipediaUrl(url: string): (r: bool)
    ensures r <==> exists lang :: ValidWith(url, lang)
  {
    match SchemeAt(url, 0)
    case None => false
    case Some(k) =>
      var e := LowerRunEnd(url, k);
      if e > k && IsAt(url, e, ArticlePrefix) && e + |ArticlePrefix| < |url| && IsArticleChar(url[e + |ArticlePrefix|]) then
        ValidFromParts(url, k, e);
        true
      else
        PartsMissingInvalid(url, k, e);
        false
  }

  /** A URL whose greedy language run is not followed by the article prefix
      and an article character is valid for no language. */
  lemma PartsMissingInvalid(url: string, k: nat, e: nat)
    requires SchemeAt(url, 0) == Some(k) && k <= |url| && e == LowerRunEnd(url, k)
    requires !(e > k && IsAt(url, e, ArticlePrefix) && e + |ArticlePrefix| < |url| && IsArticleChar(url[e + |ArticlePrefix|]))
    ensures forall lang :: !ValidWith(url, lang)
  {
    forall lang | ValidWith(url, lang) ensures false {
      ValidWithParts(url, lang);
    }
  }

  /** Scheme, greedy language run, article prefix and an article character make a valid URL. */
  lemma ValidFromParts(url: string, k: nat, e: nat)
    requires SchemeAt(url, 0) == Some(k)
    requires k <= |url| && e == LowerRunEnd(url, k) && e > k
    requires IsAt(url, e, ArticlePrefix) && e + |ArticlePrefix| < |url| && IsArticleChar(url[e + |ArticlePrefix|])
    ensures ValidWith(url, url[k..e])
  {
    LowerSlice(url, k, e);
    assert ValidAfter(url, k, url[k..e]);
  }

  /** A valid URL splits into scheme, greedy language run and article prefix,
      and its label is a language match at the start. */
  lemma ValidWithParts(url: string, lang: string)
    requires ValidWith(url, lang)
    ensures LowerRunEnd(url, SchemeAt(url, 0).value) == SchemeAt(url, 0).value + |lang|
    ensures LanguageMatch(url, 0, lang)
  {
    var k := SchemeAt(url, 0).value;
    assert url[k + |lang|] == ArticlePrefix[0];
    LabelRunEnd(url, k, lang);
    assert ArticlePrefix == LanguageSuffix + "/wiki/";
    IsAtConcat(url, k + |lang|, LanguageSuffix, "/wiki/");
  }

  /** A URL the validator accepts yields its own language label, never the fallback. */
  lemma ValidUrlLanguage(url: string, lang: string)
    requires ValidWith(url, lang)
    ensures ExtractLanguage(url) == lang
  {
    ValidWithParts(url, lang);
    assert LeftmostLanguageMatch(url, 0, lang);
    var r := ExtractLanguage(url);
    var i :| LeftmostLanguageMatch(url, i, r);
    assert i == 0;
    LanguageMatchUnique(url, 0, r);
    LanguageMatchUnique(url, 0, lang);
  }

  // ---------------------------------------------------------------------
  // Canonical article URLs
  // ---------------------------------------------------------------------

  /** A standard match starts with `/`, then `w`, and has its second `/` five characters on. */
  lemma StandardMatchShape(url: string, j: nat)
    ensures MatchesAt(url, StandardPattern, j) ==>
      && j + 6 < |url|
      && url[j] == '/' && url[j + 1] == 'w' && url[j + 5] == '/'
      && url[j + 6] != '#' && url[j + 6] != '?'
  {
    if MatchesAt(url, StandardPattern, j) {
      assert url[j..j + 6] == "/wiki/";
      assert url[j] == url[j..j + 6][0];
      assert url[j + 1] == url[j..j + 6][1];
      assert url[j + 5] == url[j..j + 6][5];
    }
  }

  /** Inside the host part `scheme + lang + ".wikipedia.org"` no `/` is followed
      by `w` and by another `/` four characters later. */
  lemma HostChars(url: string, scheme: string, lang: string, j: nat)
    requires scheme == "http://" || scheme == "https://"
    requires IsLowerWord(lang)
    requires IsAt(url, 0, scheme + lang + LanguageSuffix)
    requires j < |scheme| + |lang| + |LanguageSuffix|
    ensures !(j + 5 < |url| && url[j] == '/' && url[j + 1] == 'w' && url[j + 5] == '/')
  {
    var head := scheme + lang + LanguageSuffix;
    assert url[..|head|] == head;
    if j < |scheme| - 2 {
      assert url[j] == scheme[j];
    } else if j == |scheme| - 2 {
      assert url[j + 1] == scheme[j + 1];
    } else if j == |scheme| - 1 {
      if |lang| > 4 {
        assert url[j + 5] == lang[4];
        assert lang[4] in lang;
      } else {
        assert url[j + 5] == LanguageSuffix[4 - |lang|];
      }
    } else if j < |scheme| + |lang| {
      assert url[j] == lang[j - |scheme|];
      assert lang[j - |scheme|] in lang;
    } else {
      assert url[j] == LanguageSuffix[j - |scheme| - |lang|];
    }
  }

  /** No standard title match starts inside the host part. */
  lemma NoTitleMatchInHost(url: string, scheme: string, lang: string)
    requires scheme == "http://" || scheme == "https://"
    requires IsLowerWord(lang)
    requires IsAt(url, 0, scheme + lang + LanguageSuffix)
    ensures forall j: nat :: 0 <= j < |scheme| + |lang| + |LanguageSuffix| ==> !MatchesAt(url, StandardPattern, j)
  {
    forall j: nat | 0 <= j < |scheme| + |lang| + |LanguageSuffix| ensures !MatchesAt(url, StandardPattern, j) {
      HostChars(url, scheme, lang, j);
      StandardMatchShape(url, j);
    }
  }

  /** `scheme + lang + ".wikipedia.org/wiki/" + tail` is valid when the tail starts with an article character. */
  lemma CanonicalUrlValid(scheme: string, lang: string, tail: string)
    requires scheme == "http://" || scheme == "https://"
    requires IsLowerWord(lang)
    requires |tail| > 0 && IsArticleChar(tail[0])
    ensures ValidWith(scheme + lang + ArticlePrefix + tail, lang)
  {
    var url := scheme + lang + ArticlePrefix + tail;
    var k := |scheme|;
    assert url[..k] == scheme;
    if scheme == "http://" {
      assert url[4] == ':';
    }
    assert SchemeAt(url, 0) == Some(k);
    assert url[k..k + |lang|] == lang;
    assert url[k + |lang|..k + |lang| + |ArticlePrefix|] == ArticlePrefix;
    assert url[k + |lang| + |ArticlePrefix|] == tail[0];
  }

  /** In `scheme + lang + ".wikipedia.org/wiki/" + tail` the matches of the
      standard pattern start only at the `/wiki/` or inside the tail. */
  lemma CanonicalUrlMatches(scheme: string, lang: string, tail: string, j: nat)
    requires scheme == "http://" || scheme == "https://"
    requires IsLowerWord(lang)
    requires MatchesAt(scheme + lang + ArticlePrefix + tail, StandardPattern, j)
    ensures j >= |scheme + lang + LanguageSuffix|
  {
    var url := scheme + lang + ArticlePrefix + tail;
    var head := scheme + lang + LanguageSuffix;
    assert url[..|head|] == head;
    NoTitleMatchInHost(url, scheme, lang);
  }

  /** A leftmost match followed by no stop character captures everything to the end. */
  lemma CaptureToEnd(s: string, p: Pattern, h: nat)
    requires MatchesAt(s, p, h)
    requires forall j: nat :: j < h ==> !MatchesAt(s, p, j)
    requires forall m :: h + |p.lit| <= m < |s| ==> s[m] !in p.stop
    ensures Capture(s, p) == Some(s[h + |p.lit|..])
  {
    var cap := Capture(s, p).value;
    var i: nat :| CapturedAt(s, p, i, cap);
    assert i == h;
    var k := h + |p.lit|;
    assert s[k..k + |cap|] == cap;
    assert k + |cap| == |s|;
    assert cap == s[k..];
    assert Capture(s, p) == Some(cap);
  }

  /** The standard pattern captures the whole article part of a canonical URL
      when that part holds no `#` or `?`. */
  lemma CanonicalCapture(scheme: string, lang: string, article: string)
    requires scheme == "http://" || scheme == "https://"
    requires IsLowerWord(lang)
    requires |article| > 0 && '#' !in article && '?' !in article
    ensures Capture(scheme + lang + ArticlePrefix + article, StandardPattern) == Some(article)
  {
    var url := scheme + lang + ArticlePrefix + article;
    var h := |scheme + lang + LanguageSuffix|;
    var k := h + 6;
    assert url[h..k] == "/wiki/" && url[k..] == article;
    assert MatchesAt(url, StandardPattern, h) by {
      assert url[k] == article[0];
    }
    forall j: nat | j < h ensures !MatchesAt(url, StandardPattern, j) {
      if MatchesAt(url, StandardPattern, j) {
        CanonicalUrlMatches(scheme, lang, article, j);
      }
    }
    forall m | k <= m < |url| ensures url[m] !in StandardPattern.stop {
      assert url[m] == article[m - k];
      assert article[m - k] in article;
    }
    CaptureToEnd(url, StandardPattern, h);
  }

  /** An article name that is already clean and has no `%` is its own title. */
  lemma CleanArticleIsTitle(article: string)
    requires |article| > 0 && IsCleanTitle(article) && '%' !in article
    ensures TitleFromCapture(article) == Success(Some(article))
  {
  }

  /** A canonical article URL `scheme + lang + ".wikipedia.org/wiki/" + article`
      whose article name is already clean and holds no `#`, `?` or `%` is
      valid, is in language `lang`, and is titled with the article name. */
  lemma CanonicalArticleUrl(scheme: string, lang: string, article: string)
    requires scheme == "http://" || scheme == "https://"
    requires IsLowerWord(lang)
    requires |article| > 0 && IsCleanTitle(article)
    requires '#' !in article && '?' !in article && '%' !in article
    ensures IsValidWikipediaUrl(scheme + lang + ArticlePrefix + article)
    ensures ExtractLanguage(scheme + lang + ArticlePrefix + article) == lang
    ensures ExtractTitle(scheme + lang + ArticlePrefix + article) == Success(Some(article))
  {
    var url := scheme + lang + ArticlePrefix + article;
    CanonicalUrlValid(scheme, lang, article);
    ValidUrlLanguage(url, lang);
    CanonicalCapture(scheme, lang, article);
    CleanArticleIsTitle(article);
  }

  /** A canonical URL whose article part starts with `?` or `#` and holds no `/`
      passes the validator yet has no title: validity does not imply a title. */
  lemma QueryOnlyArticleUrl(scheme: string, lang: string, rest: string)
    requires scheme == "http://" || scheme == "https://"
    requires IsLowerWord(lang)
    requires |rest| > 0 && (rest[0] == '?' || rest[0] == '#') && '/' !in rest
    ensures IsValidWikipediaUrl(scheme + lang + ArticlePrefix + rest)
    ensures ExtractTitle(scheme + lang + ArticlePrefix + rest) == Success(None)
  {
    var url := scheme + lang + ArticlePrefix + rest;
    CanonicalUrlValid(scheme, lang, rest);
    var h := |scheme + lang + LanguageSuffix|;
    var k := h + 6;
    assert url[h..k] == "/wiki/" && url[k..] == rest;
    forall j: nat ensures !MatchesAt(url, StandardPattern, j) {
      StandardMatchShape(url, j);
      if MatchesAt(url, StandardPattern, j) {
        CanonicalUrlMatches(scheme, lang, rest, j);
        RestChars(url, h, rest, j);
      }
    }
  }

  /** After `/wiki/` at `h`, a tail that starts with `?` or `#` and has no `/`
      leaves no `/` followed by `w` and another `/`, nor a match at `h`. */
  lemma RestChars(url: string, h: nat, rest: string, j: nat)
    requires h + 6 <= |url| && url[h..h + 6] == "/wiki/" && url[h + 6..] == rest
    requires |rest| > 0 && (rest[0] == '?' || rest[0] == '#') && '/' !in rest
    requires h <= j
    ensures !(j + 6 < |url| && url[j] == '/' && url[j + 1] == 'w' && url[j + 5] == '/' && url[j + 6] != '#' && url[j + 6] != '?')
  {
    if j + 6 < |url| {
      if j == h {
        assert url[j + 6] == rest[0];
      } else if j < h + 6 {
        assert url[j] == "/wiki/"[j - h];
        assert url[h + 6] == rest[0];
      } else {
        assert url[j] == rest[j - h - 6];
        assert rest[j - h - 6] in rest;
      }
    }
  }

  /** Text without any `/` has no title. */
  lemma NoSlashNoTitle(url: string)
    requires '/' !in url
    ensures ExtractTitle(url) == Success(None)
  {
    forall j: nat ensures !MatchesAt(url, StandardPattern, j) {
      StandardMatchShape(url, j);
      if j < |url| {
        assert url[j] in url;
      }
    }
  }

  /** A Japanese article named in kanji, and a link to an English page's query string. */
  const KanjiArticle := "\U{6771}\U{4EAC}"
  const KanjiArticleUrl := "https://" + "ja" + ArticlePrefix + KanjiArticle
  const QueryOnlyUrl := "https://" + "en" + ArticlePrefix + "?x"

  /** The kanji article's title is the kanji, its language `ja`. */
  lemma KanjiArticleExample()
    ensures ExtractTitle(KanjiArticleUrl) == Success(Some(KanjiArticle))
    ensures ExtractLanguage(KanjiArticleUrl) == "ja"
  {
    assert IsCleanTitle(KanjiArticle) by {
      assert KanjiArticle[0] == '\U{6771}' && KanjiArticle[1] == '\U{4EAC}';
    }
    CanonicalArticleUrl("https://", "ja", KanjiArticle);
  }

  /** A URL the validator accepts whose article name is empty: no title. */
  lemma ValidWithoutTitleExample()
    ensures IsValidWikipediaUrl(QueryOnlyUrl)
    ensures ExtractTitle(QueryOnlyUrl) == Success(None)
  {
    QueryOnlyArticleUrl("https://", "en", "?x");
  }

  /** Text that is no URL at all: invalid and without a title. */
  lemma NotAUrlExample()
    ensures !IsValidWikipediaUrl("not-a-wikipedia-url")
    ensures ExtractTitle("not-a-wikipedia-url") == Success(None)
  {
    NoSlashNoTitle("not-a-wikipedia-url");
  }

  // ---------------------------------------------------------------------
  // Node creation
  // ---------------------------------------------------------------------

  /** `createNode(title, url, parentId, depth)` with the generated id passed in.
      The record has no children, no visit count and no viewing flag yet. */
  function CreateNode(id: Id, title: string, url: string, parentId: Option<Id>, depth: nat): (n: Node)
    ensures n.id == id && n.title == title && n.url == url && n.parentId == parentId && n.depth == depth
    ensures n.children == [] && n.visitCount.None? && !n.viewing
    ensures n.language == ExtractLanguage(url)
    ensures IsLowerWord(n.language)
    ensures forall lang :: ValidWith(url, lang) ==> n.language == lang
  {
    var n := Node(id, title, url, ExtractLanguage(url), parentId, [], depth, None, false);
    assert forall lang :: ValidWith(url, lang) ==> n.language == lang by {
      forall lang | ValidWith(url, lang) ensures n.language == lang {
        ValidUrlLanguage(url, lang);
      }
    }
    n
  }
}
