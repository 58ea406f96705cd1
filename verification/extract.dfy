/**
 * Value extraction of `Webmention_MF2_Handler`: turning one property value
 * into plaintext or HTML, and reading whole properties with a fallback.
 */
module Mf2Extract {
  import opened PhpJson
  import opened Mf2Predicates

  /**
   * `to_plaintext`: the `value` of a microformat or embedded-HTML value, else
   * the `text` of an array that sets it, else the value itself.
   */
  function ToPlaintext(v: Json): (r: Json)
    ensures r == v || r == JNull || Get(v, "value") == Some(r) || Get(v, "text") == Some(r)
    ensures !IsArray(v) ==> r == v
  {
    if IsMicroformat(v) || IsEmbeddedHtml(v) then Read(v, "value")
    else if IsArray(v) && Isset(v, "text") then Read(v, "text")
    else v
  }

  /** The selection `to_plaintext` makes, case by case. */
  lemma PlaintextCases(v: Json)
    ensures (IsMicroformat(v) || IsEmbeddedHtml(v)) ==> ToPlaintext(v) == Read(v, "value")
    ensures !IsMicroformat(v) && !IsEmbeddedHtml(v) && IsArray(v) && Isset(v, "text") ==>
              ToPlaintext(v) == Read(v, "text")
    ensures !IsMicroformat(v) && !IsEmbeddedHtml(v) && !(IsArray(v) && Isset(v, "text")) ==>
              ToPlaintext(v) == v
  {
  }

  /** The HTML entity `htmlspecialchars` writes for one character. */
  function EscapeChar(c: char): string {
    if c == '&' then "&amp;"
    else if c == '<' then "&lt;"
    else if c == '>' then "&gt;"
    else if c == '"' then "&quot;"
    else [c]
  }

  predicate NoMarkup(s: string) {
    forall i :: 0 <= i < |s| ==> s[i] != '<' && s[i] != '>'
  }

  /**
   * `htmlspecialchars` with PHP's long-standing default flags (ENT_COMPAT):
   * `&`, `<`, `>` and `"` become entities, every other character is kept.
   */
  function HtmlEscape(s: string): (r: string)
    ensures NoMarkup(r)
    ensures |r| >= |s|
    decreases |s|
  {
    if |s| == 0 then ""
    else EscapeChar(s[0]) + HtmlEscape(s[1..])
  }

  /** Decoding of the four entities `HtmlEscape` writes (the partner of `HtmlEscape`). */
  function HtmlUnescape(t: string): string
    decreases |t|
  {
    if |t| == 0 then ""
    else if |t| >= 5 && t[..5] == "&amp;" then "&" + HtmlUnescape(t[5..])
    else if |t| >= 4 && t[..4] == "&lt;" then "<" + HtmlUnescape(t[4..])
    else if |t| >= 4 && t[..4] == "&gt;" then ">" + HtmlUnescape(t[4..])
    else if |t| >= 6 && t[..6] == "&quot;" then "\"" + HtmlUnescape(t[6..])
    else [t[0]] + HtmlUnescape(t[1..])
  }

  lemma UnescapeAfterEscapeChar(c: char, rest: string)
    ensures HtmlUnescape(EscapeChar(c) + rest) == [c] + HtmlUnescape(rest)
  {
    if c == '&' {
      UnescapeAmp(rest);
    } else if c == '<' {
      UnescapeLt(rest);
    } else if c == '>' {
      UnescapeGt(rest);
    } else if c == '"' {
      UnescapeQuot(rest);
    } else {
      UnescapePlain(c, rest);
    }
  }

  lemma UnescapePlain(c: char, rest: string)
    requires c != '&'
    ensures HtmlUnescape([c] + rest) == [c] + HtmlUnescape(rest)
  {
    var t := [c] + rest;
    assert t[0] == c && t[1..] == rest;
    assert |t| >= 4 ==> t[..4][0] != '&';
  }

  lemma UnescapeAmp(rest: string)
    ensures HtmlUnescape("&amp;" + rest) == "&" + HtmlUnescape(rest)
  {
    var t := "&amp;" + rest;
    assert t[..5] == "&amp;" && t[5..] == rest;
  }

  lemma UnescapeLt(rest: string)
    ensures HtmlUnescape("&lt;" + rest) == "<" + HtmlUnescape(rest)
  {
    var t := "&lt;" + rest;
    assert |t| >= 5 ==> t[..5] != "&amp;" by {
      if |t| >= 5 { assert t[..5][1] == 'l'; }
    }
    assert t[..4] == "&lt;" && t[4..] == rest;
  }

  lemma UnescapeGt(rest: string)
    ensures HtmlUnescape("&gt;" + rest) == ">" + HtmlUnescape(rest)
  {
    var t := "&gt;" + rest;
    assert |t| >= 5 ==> t[..5] != "&amp;" by {
      if |t| >= 5 { assert t[..5][1] == 'g'; }
    }
    assert t[..4] != "&lt;" by { assert t[..4][1] == 'g'; }
    assert t[..4] == "&gt;" && t[4..] == rest;
  }

  lemma UnescapeQuot(rest: string)
    ensures HtmlUnescape("&quot;" + rest) == "\"" + HtmlUnescape(rest)
  {
    var t := "&quot;" + rest;
    assert t[..5] != "&amp;" by { assert t[..5][1] == 'q'; }
    assert t[..4] != "&lt;" && t[..4] != "&gt;" by { assert t[..4][1] == 'q'; }
    assert t[..6] == "&quot;" && t[6..] == rest;
  }

  /** Escaping loses nothing: unescaping recovers the original text. */
  lemma {:induction false} EscapeRoundTrip(s: string)
    ensures HtmlUnescape(HtmlEscape(s)) == s
    decreases |s|
  {
    if |s| > 0 {
      UnescapeAfterEscapeChar(s[0], HtmlEscape(s[1..]));
      EscapeRoundTrip(s[1..]);
      assert [s[0]] + s[1..] == s;
    }
  }

  /** Escaping works character by character, so it distributes over concatenation. */
  lemma {:induction false} EscapeConcat(a: string, b: string)
    ensures HtmlEscape(a + b) == HtmlEscape(a) + HtmlEscape(b)
    decreases |a|
  {
    if |a| > 0 {
      assert (a + b)[0] == a[0] && (a + b)[1..] == a[1..] + b;
      EscapeConcat(a[1..], b);
      calc {
        HtmlEscape(a + b);
        EscapeChar(a[0]) + HtmlEscape(a[1..] + b);
        EscapeChar(a[0]) + (HtmlEscape(a[1..]) + HtmlEscape(b));
        (EscapeChar(a[0]) + HtmlEscape(a[1..])) + HtmlEscape(b);
        HtmlEscape(a) + HtmlEscape(b);
      }
    } else {
      assert a + b == b;
    }
  }

  /** Text without `&`, `<`, `>` or `"` is left as it is. */
  lemma {:induction false} EscapePlainText(s: string)
    requires forall i :: 0 <= i < |s| ==> s[i] !in "&<>\""
    ensures HtmlEscape(s) == s
    decreases |s|
  {
    if |s| > 0 {
      EscapePlainText(s[1..]);
      assert [s[0]] + s[1..] == s;
    }
  }

  /** The value `to_html` passes to `htmlspecialchars` when it escapes. */
  function EscapeSubject(v: Json): Json {
    if IsMicroformat(v) then Read(v, "value") else v
  }

  /**
   * `to_html`: embedded HTML is trusted and returned verbatim; everything else
   * (a microformat's `value`, a plain string, another scalar) is untrusted
   * plaintext and comes back escaped, so it carries no raw `<` or `>`.  Given
   * an array, PHP 7's `htmlspecialchars` warns and returns null.
   */
  function ToHtml(v: Json): (r: Json)
    ensures IsEmbeddedHtml(v) ==> r == Read(v, "html")
    ensures !IsEmbeddedHtml(v) && !IsArray(EscapeSubject(v)) ==>
              r.JStr? && NoMarkup(r.s) && HtmlUnescape(r.s) == StrCast(EscapeSubject(v))
    ensures !IsEmbeddedHtml(v) && IsArray(EscapeSubject(v)) ==> r == JNull
  {
    if IsEmbeddedHtml(v) then Read(v, "html")
    else if IsArray(EscapeSubject(v)) then JNull
    else
      EscapeRoundTrip(StrCast(EscapeSubject(v)));
      JStr(HtmlEscape(StrCast(EscapeSubject(v))))
  }

  /**
   * Outside embedded HTML, `to_html` is the escaped `to_plaintext`: both read
   * a microformat's `value` and take any other scalar as it is.
   */
  lemma ToHtmlEscapesPlaintext(v: Json)
    requires !IsEmbeddedHtml(v) && !IsArray(EscapeSubject(v))
    ensures ToHtml(v) == JStr(HtmlEscape(StrCast(ToPlaintext(v))))
    ensures HtmlUnescape(ToHtml(v).s) == StrCast(ToPlaintext(v))
  {
  }

  /** The first value of a present property (`current()` of its array). */
  function FirstPropertyValue(mf: Json, name: string): Json
    requires IsArray(mf) && HasProperty(mf, name)
  {
    Elements(PropertyValue(mf, name))[0]
  }

  /** `get_plaintext`: plaintext of the property's first value, else the fallback. */
  function GetPlaintext(mf: Json, name: string, fallback: Json): (r: Json)
    requires IsArray(mf)
    ensures !HasProperty(mf, name) ==> r == fallback
    ensures HasProperty(mf, name) ==> r == ToPlaintext(Elements(PropertyValue(mf, name))[0])
  {
    if HasProperty(mf, name) then ToPlaintext(FirstPropertyValue(mf, name)) else fallback
  }

  /** `array_map('to_plaintext', $values)`: keys and order kept. */
  function MapPlaintext(values: Json): (r: Json)
    requires IsArray(values)
    ensures r.JList? <==> values.JList?
    ensures |Elements(r)| == |Elements(values)|
    ensures forall i :: 0 <= i < |Elements(r)| ==> Elements(r)[i] == ToPlaintext(Elements(values)[i])
    ensures r.JObj? ==> forall i :: 0 <= i < |r.fields| ==> r.fields[i].0 == values.fields[i].0
  {
    match values
    case JList(xs) => JList(seq(|xs|, i requires 0 <= i < |xs| => ToPlaintext(xs[i])))
    case JObj(fs) => JObj(seq(|fs|, i requires 0 <= i < |fs| => (fs[i].0, ToPlaintext(fs[i].1))))
  }

  /**
   * `get_plaintext_array`: the plaintext of every value of the property, in
   * order and under the same keys, else the fallback.
   */
  function GetPlaintextArray(mf: Json, name: string, fallback: Json): (r: Json)
    requires IsArray(mf)
    ensures !HasProperty(mf, name) ==> r == fallback
    ensures HasProperty(mf, name) ==>
              && IsArray(r)
              && |Elements(r)| == |Elements(PropertyValue(mf, name))|
              && forall i :: 0 <= i < |Elements(r)| ==>
                   Elements(r)[i] == ToPlaintext(Elements(PropertyValue(mf, name))[i])
  {
    if HasProperty(mf, name) then MapPlaintext(PropertyValue(mf, name)) else fallback
  }

  /** `get_plaintext` is the first element of `get_plaintext_array`. */
  lemma PlaintextIsFirstOfArray(mf: Json, name: string, f1: Json, f2: Json)
    requires IsArray(mf) && HasProperty(mf, name)
    ensures |Elements(GetPlaintextArray(mf, name, f2))| > 0
    ensures GetPlaintext(mf, name, f1) == Elements(GetPlaintextArray(mf, name, f2))[0]
  {
    ShapeFacts(mf, name, "");
  }

  /** How many times `k` occurs in `ns`. */
  function Occurrences(ns: seq<string>, k: string): nat
  {
    if |ns| == 0 then 0
    else Occurrences(ns[..|ns| - 1], k) + (if ns[|ns| - 1] == k then 1 else 0)
  }

  lemma {:induction false} OccurrencesOfMember(ns: seq<string>, k: string)
    ensures Occurrences(ns, k) > 0 <==> k in ns
  {
    if |ns| > 0 {
      var init := ns[..|ns| - 1];
      OccurrencesOfMember(init, k);
      assert ns == init + [ns[|ns| - 1]];
    }
  }

  predicate NoDuplicates(ns: seq<string>) {
    forall i, j :: 0 <= i < j < |ns| ==> ns[i] != ns[j]
  }

  lemma {:induction false} OccurrencesWithoutDuplicates(ns: seq<string>, k: string)
    requires NoDuplicates(ns)
    ensures Occurrences(ns, k) <= 1
  {
    if |ns| > 0 {
      var init := ns[..|ns| - 1];
      OccurrencesWithoutDuplicates(init, k);
      if ns[|ns| - 1] == k {
        OccurrencesOfMember(init, k);
        assert k !in init;
      }
    }
  }

  /** `xs` written `n` times one after another. */
  function Repeat(xs: seq<Json>, n: nat): seq<Json> {
    if n == 0 then [] else Repeat(xs, n - 1) + xs
  }

  /**
   * What `$data[$k]` holds once `get_property_array` has visited the names
   * `ns`: every visit of `k` appends all values of the property `k`; a name
   * whose property is absent, empty or not an array adds nothing.
   */
  function Collected(props: Json, ns: seq<string>, k: string): Option<seq<Json>> {
    var vs := Elements(Read(props, k));
    if Occurrences(ns, k) > 0 && |vs| > 0 then Some(Repeat(vs, Occurrences(ns, k))) else None
  }

  /** The inner `foreach` of `get_property_array`: append each value to `$data[$p]`. */
  function Accumulate(data: seq<(string, seq<Json>)>, p: string, vs: seq<Json>): (r: seq<(string, seq<Json>)>)
    ensures Lookup(r, p) == if |vs| == 0 then Lookup(data, p) else Some(Lookup(data, p).GetOr([]) + vs)
    ensures forall k :: k != p ==> Lookup(r, k) == Lookup(data, k)
    decreases |vs|
  {
    if |vs| == 0 then data
    else
      var cur := Lookup(data, p);
      var next := if cur.Some? then Put(data, p, cur.value + [vs[0]]) else Put(data, p, [vs[0]]);
      assert cur.None? ==> [] + [vs[0]] == [vs[0]];
      assert Lookup(next, p) == Some(cur.GetOr([]) + [vs[0]]);
      assert cur.GetOr([]) + vs == (cur.GetOr([]) + [vs[0]]) + vs[1..];
      assert |vs[1..]| == 0 ==> vs == [vs[0]];
      Accumulate(next, p, vs[1..])
  }

  /** The accumulated lists as a PHP array of list-shaped arrays. */
  function AsLists(data: seq<(string, seq<Json>)>): (r: seq<(string, Json)>)
    ensures forall k :: Lookup(r, k).Some? == Lookup(data, k).Some?
    ensures forall k :: Lookup(data, k).Some? ==> Lookup(r, k) == Some(JList(Lookup(data, k).value))
  {
    if |data| == 0 then []
    else [(data[0].0, JList(data[0].1))] + AsLists(data[1..])
  }

  /**
   * `get_property_array`: for a microformat, the requested properties that
   * hold values, each mapped to its values in order as a list; an empty array
   * for anything else.  A name requested twice collects its values twice.
   */
  method GetPropertyArray(mf: Json, names: seq<string>) returns (r: Json)
    ensures !IsMicroformat(mf) ==> r == JObj([])
    ensures IsMicroformat(mf) ==> r.JObj? && forall k :: KeyExists(r, k) <==> Collected(PropertyValueMap(mf), names, k).Some?
    ensures IsMicroformat(mf) ==> forall k :: KeyExists(r, k) ==>
              Read(r, k) == JList(Collected(PropertyValueMap(mf), names, k).value)
    ensures IsMicroformat(mf) && NoDuplicates(names) ==> forall k ::
              (KeyExists(r, k) <==> k in names && |Elements(PropertyValue(mf, k))| > 0)
              && (KeyExists(r, k) ==> Read(r, k) == JList(Elements(PropertyValue(mf, k))))
  {
    if !IsMicroformat(mf) {
      return JObj([]);
    }
    var props := Read(mf, "properties");
    var data: seq<(string, seq<Json>)> := [];
    var i := 0;
    while i < |names|
      invariant 0 <= i <= |names|
      invariant forall k :: Lookup(data, k) == Collected(props, names[..i], k)
    {
      var p := names[i];
      assert names[..i + 1] == names[..i] + [p];
      var next := if KeyExists(props, p) then Accumulate(data, p, Elements(Read(props, p))) else data;
      CollectStep(props, data, names[..i], p);
      data := next;
      i := i + 1;
    }
    assert names[..|names|] == names;
    r := JObj(AsLists(data));
    if NoDuplicates(names) {
      forall k {
        CollectedWithoutDuplicates(props, names, k);
      }
    }
  }

  /** One pass of the outer `foreach` of `get_property_array`. */
  lemma CollectStep(props: Json, data: seq<(string, seq<Json>)>, ns: seq<string>, p: string)
    requires forall k :: Lookup(data, k) == Collected(props, ns, k)
    ensures var next := if KeyExists(props, p) then Accumulate(data, p, Elements(Read(props, p))) else data;
            forall k :: Lookup(next, k) == Collected(props, ns + [p], k)
  {
    forall k
      ensures Lookup(if KeyExists(props, p) then Accumulate(data, p, Elements(Read(props, p))) else data, k)
                == Collected(props, ns + [p], k)
    {
      CollectStepAt(props, data, ns, p, k);
    }
  }

  /** One pass of the outer `foreach`, seen from a single key `k`. */
  lemma CollectStepAt(props: Json, data: seq<(string, seq<Json>)>, ns: seq<string>, p: string, k: string)
    requires Lookup(data, k) == Collected(props, ns, k) && Lookup(data, p) == Collected(props, ns, p)
    ensures var next := if KeyExists(props, p) then Accumulate(data, p, Elements(Read(props, p))) else data;
            Lookup(next, k) == Collected(props, ns + [p], k)
  {
    OccurrencesSnoc(ns, p, k);
    var vs := Elements(Read(props, p));
    if k == p && KeyExists(props, p) && |vs| > 0 {
      var n := Occurrences(ns, p);
      assert Lookup(data, p).GetOr([]) == Repeat(vs, n);
      assert Repeat(vs, n + 1) == Repeat(vs, n) + vs;
    }
  }

  /** Visiting one more name adds one occurrence of that name and of no other. */
  lemma OccurrencesSnoc(ns: seq<string>, p: string, k: string)
    ensures Occurrences(ns + [p], k) == Occurrences(ns, k) + (if p == k then 1 else 0)
  {
    assert (ns + [p])[..|ns|] == ns;
  }

  /** Without repeated names, each requested property is collected once, unchanged. */
  lemma CollectedWithoutDuplicates(props: Json, ns: seq<string>, k: string)
    requires NoDuplicates(ns)
    ensures Collected(props, ns, k).Some? <==> k in ns && |Elements(Read(props, k))| > 0
    ensures Collected(props, ns, k).Some? ==> Collected(props, ns, k).value == Elements(Read(props, k))
  {
    OccurrencesOfMember(ns, k);
    OccurrencesWithoutDuplicates(ns, k);
    assert Repeat(Elements(Read(props, k)), 1) == Elements(Read(props, k));
  }

  /** `get_html`: HTML of the property's first value, else the fallback. */
  function GetHtml(mf: Json, name: string, fallback: Json): (r: Json)
    requires IsArray(mf)
    ensures !HasProperty(mf, name) ==> r == fallback
    ensures HasProperty(mf, name) ==> r == ToHtml(Elements(PropertyValue(mf, name))[0])
    ensures HasProperty(mf, name) && IsEmbeddedHtml(FirstPropertyValue(mf, name)) ==>
              r == Read(FirstPropertyValue(mf, name), "html")
  {
    if HasProperty(mf, name) then ToHtml(FirstPropertyValue(mf, name)) else fallback
  }

  /**
   * `get_html` and `get_plaintext` read the same value: unless it is embedded
   * HTML, the HTML of a property unescapes to its plaintext.
   */
  lemma HtmlUnescapesToPlaintext(mf: Json, name: string, f1: Json, f2: Json)
    requires IsArray(mf) && HasProperty(mf, name)
    requires !IsEmbeddedHtml(FirstPropertyValue(mf, name))
    requires !IsArray(EscapeSubject(FirstPropertyValue(mf, name)))
    ensures GetHtml(mf, name, f1).JStr?
    ensures HtmlUnescape(GetHtml(mf, name, f1).s) == StrCast(GetPlaintext(mf, name, f2))
  {
    ToHtmlEscapesPlaintext(FirstPropertyValue(mf, name));
  }

  /**
   * `get_datetime_property`: the property's plaintext parsed as a date, the
   * fallback when the property is absent or the parse fails.  `parse` stands
   * for `new DateTimeImmutable(...)`, `None` for the exception it throws; its
   * argument is PHP's string conversion of the plaintext.  An array plaintext
   * is a wrong argument type for the constructor, which is left out here.
   */
  function GetDatetimeProperty<D>(name: string, mf: Json, fallback: D, parse: string -> Option<D>): (r: D)
    requires IsArray(mf)
    requires HasProperty(mf, name) ==> !IsArray(GetPlaintext(mf, name, JNull))
    ensures !HasProperty(mf, name) ==> r == fallback
    ensures HasProperty(mf, name) ==>
              match parse(StrCast(GetPlaintext(mf, name, JNull)))
              case None => r == fallback
              case Some(d) => r == d
  {
    if HasProperty(mf, name) then
      var text := GetPlaintext(mf, name, JNull);
      match parse(StrCast(text))
      case None => fallback
      case Some(d) => d
    else
      fallback
  }

  /** An absent property never reaches the parser: any parser gives the same answer. */
  lemma DatetimeAbsentIgnoresParser<D>(name: string, mf: Json, fallback: D, p1: string -> Option<D>, p2: string -> Option<D>)
    requires IsArray(mf) && !HasProperty(mf, name)
    ensures GetDatetimeProperty(name, mf, fallback, p1) == GetDatetimeProperty(name, mf, fallback, p2) == fallback
  {
  }

  /** The result is always either the fallback or a date the parser produced. */
  lemma DatetimeNeverFails<D>(name: string, mf: Json, fallback: D, parse: string -> Option<D>)
    requires IsArray(mf)
    requires HasProperty(mf, name) ==> !IsArray(GetPlaintext(mf, name, JNull))
    ensures var r := GetDatetimeProperty(name, mf, fallback, parse);
            r == fallback || exists s :: parse(s) == Some(r)
  {
    var r := GetDatetimeProperty(name, mf, fallback, parse);
    if HasProperty(mf, name) {
      var s := StrCast(GetPlaintext(mf, name, JNull));
      if parse(s).Some? {
        assert parse(s) == Some(r);
      }
    }
  }
}
