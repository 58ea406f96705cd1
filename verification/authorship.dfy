/**
 * `get_representative_author`: the IndieWeb authorship algorithm
 * (https://indieweb.org/authorship, steps 5 to 7) over an entry and the
 * document it came from.
 *
 * The handler's code for steps 6 and 7 reads a variable `$mf2` that is never
 * assigned and calls a method `urls_match` that the class does not define.
 * `RepresentativeAuthor` gives those steps the meaning they evidently have:
 * the `rels` come from the document, the URL compared against is the entry's
 * own `url`, and `urls_match($a, $b)` is a non-empty `compare_urls($a, [$b])`.
 * `RepresentativeAuthorAsWritten` keeps the code's literal behaviour.
 */
module Authorship {
  import opened PhpJson
  import opened Mf2Predicates
  import opened Mf2Extract
  import opened UrlCompare

  /** `array('type' => array('h-card'), 'properties' => array($key => array($v)))`. */
  function Card(key: string, v: Json): (r: Json)
    ensures IsType(r, "h-card") && IsMicroformat(r)
    ensures Elements(PropertyValue(r, key)) == [v]
  {
    var r := JObj([("type", JList([JStr("h-card")])), ("properties", JObj([(key, JList([v]))]))]);
    assert Elements(Read(r, "type")) == [JStr("h-card")];
    assert "type" != "properties" by { assert "type"[0] != "properties"[0]; }
    assert r.fields[1..] == [("properties", JObj([(key, JList([v]))]))];
    assert Lookup(r.fields[1..], "properties") == Some(JObj([(key, JList([v]))]));
    assert Read(r, "properties") == JObj([(key, JList([v]))]);
    r
  }

  /** An author card that knows only a name. */
  function NameCard(name: Json): Json {
    Card("name", name)
  }

  /** An author card that knows only the author page. */
  function UrlCard(page: Json): Json {
    Card("url", page)
  }

  /** A URL either validator accepts always carries a scheme separator. */
  ghost predicate ValidatorsNeedScheme(env: Env) {
    && (forall s :: env.wpHttpValidateUrl(s) ==> ':' in s)
    && (forall s :: env.filterValidateUrl(s) ==> ':' in s)
  }

  /**
   * `urls_match($a, $b)`, read as a non-empty `compare_urls($a, array($b))`:
   * `b` is the `http://` or `https://` form of the URL `a`.
   */
  predicate UrlsMatch(a: Json, b: Json, env: Env)
    ensures UrlsMatch(a, b, env) <==>
              IsUrl(a, env) && (b == JStr("http://" + StripScheme(a.s)) || b == JStr("https://" + StripScheme(a.s)))
  {
    UrlsMatchForms(a, b, env);
    |CompareUrls(a, JList([b]), true, env)| > 0
  }

  lemma UrlsMatchForms(a: Json, b: Json, env: Env)
    ensures |CompareUrls(a, JList([b]), true, env)| > 0 <==>
              IsUrl(a, env) && (b == JStr("http://" + StripScheme(a.s)) || b == JStr("https://" + StripScheme(a.s)))
  {
    if IsUrl(a, env) && !IsArray(b) {
      SchemelessMatch(a.s, JList([b]), env);
    }
  }

  /** Where the per-value loop ends: a `return`, or falling out with an author page. */
  datatype Scan = Returned(card: Json) | Finished(authorpage: Json)

  /**
   * A value accepted as an author page: a string that `wp_http_validate_url`
   * accepts.  Unlike `is_url` the test ignores the debug switch, so the two
   * agree exactly when the switch is off.  Under validators that need a
   * scheme an author page is truthy, which keeps the loop going.
   */
  predicate IsAuthorPage(a: Json, env: Env)
    ensures IsAuthorPage(a, env) ==> a.JStr?
    ensures !env.debug ==> (IsAuthorPage(a, env) <==> IsUrl(a, env))
    ensures IsAuthorPage(a, env) && ValidatorsNeedScheme(env) ==> Truthy(a)
  {
    a.JStr? && env.wpHttpValidateUrl(a.s)
  }

  /**
   * The loop over the author values.  An h-card is returned at once.  A URL
   * string becomes the author page; any other value sets the author name to the
   * plaintext of the FIRST author value.  While no author page is known the
   * loop returns a name-only card after the value it just looked at.
   */
  function ScanAuthors(item: Json, values: seq<Json>, authorpage: Json, author: Json, env: Env): (r: Scan)
    requires IsArray(item)
    ensures r.Returned? ==> IsType(r.card, "h-card")
    ensures r.Returned? && Truthy(authorpage) && ValidatorsNeedScheme(env) ==>
              exists i :: 0 <= i < |values| && values[i] == r.card && IsType(r.card, "h-card")
                && forall j :: 0 <= j < i ==> !IsType(values[j], "h-card")
    ensures r.Finished? ==> forall j :: 0 <= j < |values| ==> !IsType(values[j], "h-card")
    ensures r.Finished? && (|values| > 0 || Truthy(authorpage)) ==> Truthy(r.authorpage)
    ensures r.Finished? ==> r.authorpage == authorpage || (r.authorpage in values && IsAuthorPage(r.authorpage, env))
    decreases |values|
  {
    if |values| == 0 then Finished(authorpage)
    else
      var a := values[0];
      if IsType(a, "h-card") then Returned(a)
      else
        var page := if IsAuthorPage(a, env) then a else authorpage;
        var name := if IsAuthorPage(a, env) then author else GetPlaintext(item, "author", JNull);
        if !Truthy(page) then Returned(NameCard(name))
        else
          var r := ScanAuthors(item, values[1..], page, name, env);
          assert forall j :: 0 < j < |values| ==> values[j] == values[1..][j - 1];
          r
  }

  /** Steps 5.1 to 5.3: the loop, run only when the entry has an author property. */
  function ScanItem(item: Json, env: Env): (r: Scan)
    requires IsArray(item)
    ensures !HasProperty(item, "author") ==> r == Finished(JBool(false))
    ensures r.Returned? ==> IsType(r.card, "h-card")
    ensures r.Finished? ==>
              r.authorpage == JBool(false)
              || (r.authorpage in Elements(PropertyValue(item, "author")) && IsAuthorPage(r.authorpage, env))
  {
    if HasProperty(item, "author")
    then ScanAuthors(item, Elements(PropertyValue(item, "author")), JBool(false), JNull, env)
    else Finished(JBool(false))
  }

  /** Step 6: with no author page yet, the first `rel=author` link of the document. */
  function RelAuthorFallback(page: Json, doc: Json): (r: Json)
    ensures Truthy(page) || !Isset(doc, "rels") ==> r == page
    ensures !Truthy(page) && Isset(doc, "rels") && Isset(Read(doc, "rels"), "author") ==>
              r == At0(Read(Read(doc, "rels"), "author"))
    ensures r == page || r == At0(Read(Read(doc, "rels"), "author"))
  {
    if !Truthy(page) && Isset(doc, "rels") && Isset(Read(doc, "rels"), "author")
    then At0(Read(Read(doc, "rels"), "author"))
    else page
  }

  /**
   * A document that `has_rel` a list of author links passes the two `isset`
   * tests of step 6, so an entry without an author page takes the first link.
   */
  lemma HasRelAuthorFeedsFallback(doc: Json, page: Json)
    requires IsArray(doc) && HasRel(doc, "author") && !Truthy(page)
    ensures Read(Read(doc, "rels"), "author").JList? ==>
              RelAuthorFallback(page, doc) == Read(Read(doc, "rels"), "author").items[0]
  {
    var links := Read(Read(doc, "rels"), "author");
    assert Read(doc, "rels").JObj?;
    assert links != JNull;
  }

  /**
   * `get_representative_author($item, $doc)`: an embedded h-card, a name-only
   * card, or a URL-only card for an author page that is not the entry itself;
   * null when no author information is found.  Every answer that is not null
   * is an h-card.
   */
  function RepresentativeAuthor(item: Json, doc: Json, env: Env): (r: Json)
    requires IsArray(item)
    ensures r == JNull || IsType(r, "h-card")
  {
    match ScanItem(item, env)
    case Returned(card) => card
    case Finished(page) =>
      var page' := RelAuthorFallback(page, doc);
      if Truthy(page') && !UrlsMatch(page', GetPlaintext(item, "url", JNull), env) then UrlCard(page')
      else JNull
  }

  /** Step 5.1: an h-card as the first author value is the author, verbatim. */
  lemma EmbeddedCardWins(item: Json, doc: Json, env: Env)
    requires IsArray(item) && HasProperty(item, "author")
    requires IsType(FirstPropertyValue(item, "author"), "h-card")
    ensures RepresentativeAuthor(item, doc, env) == FirstPropertyValue(item, "author")
  {
  }

  /**
   * Step 5.3: a first author value that is neither an h-card nor a URL string
   * names the author; the card carries that value's plaintext.
   */
  lemma FirstValueNamesAuthor(item: Json, doc: Json, env: Env)
    requires IsArray(item) && HasProperty(item, "author")
    requires !IsType(FirstPropertyValue(item, "author"), "h-card")
    requires !IsAuthorPage(FirstPropertyValue(item, "author"), env)
    ensures RepresentativeAuthor(item, doc, env) == NameCard(ToPlaintext(FirstPropertyValue(item, "author")))
  {
  }

  /**
   * Step 5.2: once the first author value has given an author page, no
   * name-only card is made: the answer is the first h-card among the values,
   * else a URL-only card for an author page, else null.  A later h-card still
   * wins over the author page.
   */
  lemma UrlAuthorNeverNamed(item: Json, doc: Json, env: Env)
    requires ValidatorsNeedScheme(env)
    requires IsArray(item) && HasProperty(item, "author")
    requires IsAuthorPage(FirstPropertyValue(item, "author"), env)
    ensures var values := Elements(PropertyValue(item, "author"));
            var r := RepresentativeAuthor(item, doc, env);
            || r == JNull
            || (exists i :: 0 <= i < |values| && r == values[i] && IsType(r, "h-card")
                  && forall j :: 0 <= j < i ==> !IsType(values[j], "h-card"))
            || exists p :: r == UrlCard(p) && Truthy(p)
    ensures var values := Elements(PropertyValue(item, "author"));
            (exists i :: 0 <= i < |values| && IsType(values[i], "h-card")) ==>
              exists i :: 0 <= i < |values| && RepresentativeAuthor(item, doc, env) == values[i]
                && IsType(values[i], "h-card") && forall j :: 0 <= j < i ==> !IsType(values[j], "h-card")
  {
    var values := Elements(PropertyValue(item, "author"));
    assert ScanItem(item, env) == ScanAuthors(item, values, JBool(false), JNull, env);
    ScanAfterPage(item, values, env);
  }

  /**
   * The loop started on a URL value: it ends with a truthy author page, or
   * returns the first h-card, which it does whenever there is one.
   */
  lemma ScanAfterPage(item: Json, values: seq<Json>, env: Env)
    requires IsArray(item) && ValidatorsNeedScheme(env)
    requires |values| > 0 && IsAuthorPage(values[0], env)
    ensures var r := ScanAuthors(item, values, JBool(false), JNull, env);
            && (r.Finished? ==> Truthy(r.authorpage))
            && (r.Returned? <==> exists i :: 0 <= i < |values| && IsType(values[i], "h-card"))
            && (r.Returned? ==> exists i :: 0 <= i < |values| && r.card == values[i] && IsType(values[i], "h-card")
                                  && forall j :: 0 <= j < i ==> !IsType(values[j], "h-card"))
  {
    var a := values[0];
    assert Truthy(a);
    var tail := values[1..];
    var rest := ScanAuthors(item, tail, a, JNull, env);
    assert ScanAuthors(item, values, JBool(false), JNull, env) == rest;
    assert forall j :: 0 < j < |values| ==> values[j] == tail[j - 1];
    if rest.Returned? {
      var k :| 0 <= k < |tail| && tail[k] == rest.card
                 && forall j :: 0 <= j < k ==> !IsType(tail[j], "h-card");
      assert values[k + 1] == rest.card;
    }
  }

  /**
   * Line 324 overwrites the author page with every URL value, so after a
   * truthy author page the loop ends, when it meets no h-card, with the LAST
   * URL value, or with the page it started from when there is none.
   */
  lemma {:induction false} ScanKeepsLastPage(item: Json, values: seq<Json>, page: Json, author: Json, env: Env)
    requires IsArray(item) && ValidatorsNeedScheme(env)
    requires Truthy(page) || (|values| > 0 && IsAuthorPage(values[0], env))
    requires forall j :: 0 <= j < |values| ==> !IsType(values[j], "h-card")
    ensures var r := ScanAuthors(item, values, page, author, env);
            || (r == Finished(page) && forall j :: 0 <= j < |values| ==> !IsAuthorPage(values[j], env))
            || exists k :: 0 <= k < |values| && r == Finished(values[k]) && IsAuthorPage(values[k], env)
                 && forall j :: k < j < |values| ==> !IsAuthorPage(values[j], env)
    decreases |values|
  {
    if |values| > 0 {
      var a := values[0];
      var page' := if IsAuthorPage(a, env) then a else page;
      var name := if IsAuthorPage(a, env) then author else GetPlaintext(item, "author", JNull);
      assert Truthy(page');
      var tail := values[1..];
      assert forall j :: 0 < j < |values| ==> values[j] == tail[j - 1];
      ScanKeepsLastPage(item, tail, page', name, env);
      var r := ScanAuthors(item, tail, page', name, env);
      assert ScanAuthors(item, values, page, author, env) == r;
      if r == Finished(page') && forall j :: 0 <= j < |tail| ==> !IsAuthorPage(tail[j], env) {
        if !IsAuthorPage(a, env) {
          assert forall j :: 0 <= j < |values| ==> !IsAuthorPage(values[j], env);
        } else {
          assert r == Finished(values[0]);
        }
      } else {
        var k :| 0 <= k < |tail| && r == Finished(tail[k]) && IsAuthorPage(tail[k], env)
                   && forall j :: k < j < |tail| ==> !IsAuthorPage(tail[j], env);
        assert values[k + 1] == tail[k];
      }
    }
  }

  /**
   * Step 5.2 as the loop runs it: when the author values hold no h-card and
   * begin with a URL, the author page is the last URL value, and the answer
   * is a URL-only card for that page unless it is the entry's own URL.
   */
  lemma LastAuthorPageWins(item: Json, doc: Json, env: Env)
    requires ValidatorsNeedScheme(env)
    requires IsArray(item) && HasProperty(item, "author")
    requires IsAuthorPage(FirstPropertyValue(item, "author"), env)
    requires var values := Elements(PropertyValue(item, "author"));
             forall j :: 0 <= j < |values| ==> !IsType(values[j], "h-card")
    ensures var values := Elements(PropertyValue(item, "author"));
            exists k :: 0 <= k < |values| && ScanItem(item, env) == Finished(values[k])
              && IsAuthorPage(values[k], env) && (forall j :: k < j < |values| ==> !IsAuthorPage(values[j], env))
              && RepresentativeAuthor(item, doc, env) ==
                   if UrlsMatch(values[k], GetPlaintext(item, "url", JNull), env) then JNull else UrlCard(values[k])
  {
    var values := Elements(PropertyValue(item, "author"));
    ScanKeepsLastPage(item, values, JBool(false), JNull, env);
    assert ScanItem(item, env) == ScanAuthors(item, values, JBool(false), JNull, env);
    assert IsAuthorPage(values[0], env);
    var k :| 0 <= k < |values| && ScanItem(item, env) == Finished(values[k]) && IsAuthorPage(values[k], env)
               && forall j :: k < j < |values| ==> !IsAuthorPage(values[j], env);
    assert Truthy(values[k]);
  }

  /** Two URL author values: the second one is the author page. */
  lemma SecondUrlAuthorWins(u1: string, u2: string, env: Env)
    requires ValidatorsNeedScheme(env)
    requires env.wpHttpValidateUrl(u1) && env.wpHttpValidateUrl(u2)
    ensures var item := JObj([("properties", JObj([("author", JList([JStr(u1), JStr(u2)]))]))]);
            ScanItem(item, env) == Finished(JStr(u2))
  {
    var item := JObj([("properties", JObj([("author", JList([JStr(u1), JStr(u2)]))]))]);
    var values := [JStr(u1), JStr(u2)];
    assert PropertyValue(item, "author") == JList(values);
    assert Elements(PropertyValue(item, "author")) == values;
    assert HasProperty(item, "author");
    LastAuthorPageWins(item, JNull, env);
    var k :| 0 <= k < 2 && ScanItem(item, env) == Finished(values[k])
               && forall j :: k < j < 2 ==> !IsAuthorPage(values[j], env);
    assert IsAuthorPage(values[1], env);
  }

  /**
   * Step 6: an entry without an author property takes the document's first
   * `rel=author` link as author page, and gets a URL-only card for it unless
   * that page is the entry's own URL.
   */
  lemma RelAuthorFallbackUsed(item: Json, doc: Json, env: Env)
    requires IsArray(item) && !HasProperty(item, "author")
    requires Isset(doc, "rels") && Read(Read(doc, "rels"), "author").JList?
    requires var links := Read(Read(doc, "rels"), "author").items; |links| > 0 && Truthy(links[0])
    ensures var page := Read(Read(doc, "rels"), "author").items[0];
            RepresentativeAuthor(item, doc, env) ==
              if UrlsMatch(page, GetPlaintext(item, "url", JNull), env) then JNull else UrlCard(page)
  {
  }

  /**
   * Steps 5.2 and 7: a lone author value that is a URL yields a URL-only card
   * for that page, unless the page is the entry's own URL.
   */
  lemma AuthorPageBecomesCard(item: Json, doc: Json, env: Env)
    requires ValidatorsNeedScheme(env)
    requires IsArray(item) && PropertyValue(item, "author").JList?
    requires |PropertyValue(item, "author").items| == 1
    requires IsAuthorPage(PropertyValue(item, "author").items[0], env)
    ensures var page := PropertyValue(item, "author").items[0];
            RepresentativeAuthor(item, doc, env) ==
              if UrlsMatch(page, GetPlaintext(item, "url", JNull), env) then JNull else UrlCard(page)
  {
    var values := PropertyValue(item, "author").items;
    var page := values[0];
    assert ':' in page.s;
    assert Truthy(page);
    assert values[1..] == [];
    assert ScanItem(item, env) == Finished(page);
  }

  /** Step 7: with no author property and no `rel=author` link there is no author. */
  lemma NoAuthorInformation(item: Json, doc: Json, env: Env)
    requires IsArray(item) && !HasProperty(item, "author")
    requires !Isset(doc, "rels") || !Isset(Read(doc, "rels"), "author")
    ensures RepresentativeAuthor(item, doc, env) == JNull
  {
  }

  /** The result of a PHP call that may end in an uncaught error. */
  datatype Outcome = Value(v: Json) | Fatal(message: string)

  /**
   * `get_representative_author` exactly as the handler's code reads.  Step 6
   * tests `isset($mf2['rels'])` on a variable that is never assigned, which is
   * always false, so the document's `rel=author` is never consulted; step 7
   * calls `self::urls_match`, which does not exist, so any author page ends in
   * a fatal error.  The second parameter is not used at all.
   */
  function RepresentativeAuthorAsWritten(item: Json, mf: Json, env: Env): (r: Outcome)
    requires IsArray(item)
    ensures r.Value? ==> r.v == JNull || IsType(r.v, "h-card")
  {
    match ScanItem(item, env)
    case Returned(card) => Value(card)
    case Finished(page) =>
      if Truthy(page) then Fatal("Call to undefined method Webmention_MF2_Handler::urls_match()")
      else Value(JNull)
  }

  /** As written, an item without an author property never gets one, whatever the document says. */
  lemma AsWrittenIgnoresDocument(item: Json, mf: Json, env: Env)
    requires IsArray(item) && !HasProperty(item, "author")
    ensures RepresentativeAuthorAsWritten(item, mf, env) == Value(JNull)
  {
  }
}
