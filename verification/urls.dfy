/**
 * `compare_urls`: whether a URL occurs in a list of URLs, optionally
 * ignoring whether either side uses `http` or `https`.
 */
module UrlCompare {
  import opened PhpJson
  import opened Mf2Predicates

  function LowerChar(c: char): char {
    if 'A' <= c <= 'Z' then (c as int + 32) as char else c
  }

  function Lower(s: string): (r: string)
    ensures |r| == |s|
    ensures forall i :: 0 <= i < |s| ==> r[i] == LowerChar(s[i])
  {
    seq(|s|, i requires 0 <= i < |s| => LowerChar(s[i]))
  }

  /** `s` begins with `p` when ASCII letters are compared case-insensitively. */
  predicate HasPrefixIgnoringCase(s: string, p: string) {
    |s| >= |p| && Lower(s[..|p|]) == p
  }

  /** A leading `http://` or `https://` in any letter case. */
  predicate IsSchemePrefix(p: string) {
    Lower(p) == "http://" || Lower(p) == "https://"
  }

  /**
   * `preg_replace('/^https?:\/\//i', '', $s)`: one leading `http://` or
   * `https://`, in any letter case, removed; anything else left as is.
   */
  function StripScheme(s: string): (r: string)
    ensures |r| <= |s| && s[|s| - |r|..] == r
    ensures |r| < |s| ==> IsSchemePrefix(s[..|s| - |r|])
  {
    if HasPrefixIgnoringCase(s, "https://") then s[8..]
    else if HasPrefixIgnoringCase(s, "http://") then s[7..]
    else s
  }

  /** Whatever letter case and scheme the prefix has, exactly it is removed. */
  lemma StripSchemeOfPrefixed(p: string, x: string)
    requires IsSchemePrefix(p)
    ensures StripScheme(p + x) == x
  {
    var s := p + x;
    assert s[..|p|] == p;
    if Lower(p) == "http://" {
      assert Lower(s[..7]) == "http://";
      assert LowerChar(s[4]) == ':';
      assert !HasPrefixIgnoringCase(s, "https://") by {
        if |s| >= 8 { assert Lower(s[..8])[4] == ':'; }
      }
      assert s[7..] == x;
    } else {
      assert s[..8] == p;
      assert s[8..] == x;
    }
  }

  /** A string without a scheme prefix passes through unchanged. */
  lemma StripSchemeWithoutPrefix(s: string)
    requires !HasPrefixIgnoringCase(s, "http://") && !HasPrefixIgnoringCase(s, "https://")
    ensures StripScheme(s) == s
  {
  }

  /** The URLs `compare_urls` looks for. */
  function NeedleForms(needle: string, schemeless: bool): seq<string> {
    if schemeless then ["http://" + StripScheme(needle), "https://" + StripScheme(needle)]
    else [needle]
  }

  /** `array_intersect` compares string conversions: does `f` occur in `hay`? */
  predicate OccursIn(f: string, hay: seq<Json>) {
    exists j :: 0 <= j < |hay| && StrCast(hay[j]) == f
  }

  /** `array_intersect($forms, $hay)`: the forms that occur in `hay`, in order. */
  function Intersect(forms: seq<string>, hay: seq<Json>): (r: seq<string>)
    ensures forall f :: f in r ==> f in forms && OccursIn(f, hay)
    ensures forall f :: f in forms && OccursIn(f, hay) ==> f in r
    ensures |r| <= |forms|
  {
    if |forms| == 0 then []
    else
      var rest := Intersect(forms[1..], hay);
      assert forall f :: f in forms ==> f == forms[0] || f in forms[1..];
      if OccursIn(forms[0], hay) then [forms[0]] + rest else rest
  }

  /**
   * `compare_urls($needle, $haystack, $schemeless)`: the needle's forms that
   * occur in the haystack, empty when there is no match.  A needle that is not
   * a URL, or a haystack whose first element is itself an array, never
   * matches.  On a non-array haystack PHP 7's `reset` and `array_intersect`
   * warn and yield null, which reads as no match.
   */
  function CompareUrls(needle: Json, haystack: Json, schemeless: bool, env: Env): (r: seq<string>)
    ensures !IsUrl(needle, env) ==> r == []
    ensures IsArray(FirstValue(haystack)) ==> r == []
    ensures !IsArray(haystack) ==> r == []
    ensures forall f :: f in r ==> needle.JStr? && f in NeedleForms(needle.s, schemeless)
    ensures IsUrl(needle, env) && IsArray(haystack) && !IsArray(FirstValue(haystack)) ==>
              (|r| > 0 <==> exists f :: f in NeedleForms(needle.s, schemeless) && OccursIn(f, Elements(haystack)))
  {
    if !IsUrl(needle, env) then []
    else if IsArray(FirstValue(haystack)) then []
    else if !IsArray(haystack) then []
    else
      var r := Intersect(NeedleForms(needle.s, schemeless), Elements(haystack));
      assert |r| > 0 ==> r[0] in r;
      r
  }

  /** A URL form occurs in a haystack exactly when that string is one of its elements. */
  lemma OccursInIsMembership(f: string, hay: seq<Json>)
    requires ':' in f
    ensures OccursIn(f, hay) <==> JStr(f) in hay
  {
    if OccursIn(f, hay) {
      var j :| 0 <= j < |hay| && StrCast(hay[j]) == f;
      StrCastWithColon(hay[j]);
    }
    if JStr(f) in hay {
      var j :| 0 <= j < |hay| && hay[j] == JStr(f);
      assert StrCast(hay[j]) == f;
    }
  }

  /**
   * Scheme-insensitive matching: a valid needle matches iff the haystack holds
   * the `http://` or the `https://` form of the needle without its scheme.
   */
  lemma SchemelessMatch(needle: string, haystack: Json, env: Env)
    requires IsUrl(JStr(needle), env)
    requires IsArray(haystack) && !IsArray(FirstValue(haystack))
    ensures var bare := StripScheme(needle);
            |CompareUrls(JStr(needle), haystack, true, env)| > 0 <==>
              (JStr("http://" + bare) in Elements(haystack) || JStr("https://" + bare) in Elements(haystack))
  {
    var bare := StripScheme(needle);
    assert ("http://" + bare)[4] == ':';
    assert ("https://" + bare)[5] == ':';
    OccursInIsMembership("http://" + bare, Elements(haystack));
    OccursInIsMembership("https://" + bare, Elements(haystack));
  }

  /** Scheme-sensitive matching: a valid needle matches iff it is itself in the haystack. */
  lemma ExactMatch(needle: string, haystack: Json, env: Env)
    requires IsUrl(JStr(needle), env) && ':' in needle
    requires IsArray(haystack) && !IsArray(FirstValue(haystack))
    ensures |CompareUrls(JStr(needle), haystack, false, env)| > 0 <==> JStr(needle) in Elements(haystack)
  {
    OccursInIsMembership(needle, Elements(haystack));
  }

  /**
   * In schemeless mode the needle's own scheme, whatever its letter case, makes
   * no difference to the answer.
   */
  lemma SchemeOfNeedleIrrelevant(p1: string, p2: string, x: string, haystack: Json, env: Env)
    requires IsSchemePrefix(p1) && IsSchemePrefix(p2)
    requires IsUrl(JStr(p1 + x), env) && IsUrl(JStr(p2 + x), env)
    ensures CompareUrls(JStr(p1 + x), haystack, true, env) == CompareUrls(JStr(p2 + x), haystack, true, env)
  {
    StripSchemeOfPrefixed(p1, x);
    StripSchemeOfPrefixed(p2, x);
  }

  lemma LowerHttpsPrefix()
    ensures IsSchemePrefix("https://")
  {
    assert Lower("https://") == "https://";
  }

  lemma StripExampleScheme()
    ensures StripScheme("https://example.com/a") == "example.com/a"
  {
    LowerHttpsPrefix();
    assert "https://example.com/a" == "https://" + "example.com/a";
    StripSchemeOfPrefixed("https://", "example.com/a");
  }

  /** The worked example: an `https://` needle finds its `http://` twin when schemes are ignored. */
  lemma HttpsNeedleFindsHttp(env: Env)
    requires IsUrl(JStr("https://example.com/a"), env)
    ensures |CompareUrls(JStr("https://example.com/a"), JList([JStr("http://example.com/a")]), true, env)| > 0
  {
    var hay := JList([JStr("http://example.com/a")]);
    StripExampleScheme();
    SchemelessMatch("https://example.com/a", hay, env);
    assert "http://" + "example.com/a" == "http://example.com/a";
    assert JStr("http://example.com/a") in Elements(hay);
  }

  /** The worked example: with schemes compared, the `http://` twin is not a match. */
  lemma HttpsNeedleMissesHttp(env: Env)
    requires IsUrl(JStr("https://example.com/a"), env)
    ensures CompareUrls(JStr("https://example.com/a"), JList([JStr("http://example.com/a")]), false, env) == []
  {
    var hay := JList([JStr("http://example.com/a")]);
    var needle := "https://example.com/a";
    assert needle[5] == ':';
    ExactMatch(needle, hay, env);
    assert needle != "http://example.com/a" by {
      assert needle[4] != "http://example.com/a"[4];
    }
  }
}
