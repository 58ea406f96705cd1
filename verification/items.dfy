/**
 * Item resolution of `Webmention_MF2_Handler`: the top-level entries of a
 * parsed page, the entry that represents a given URL, and that entry completed
 * with an author and syndication links.
 */
module Mf2Items {
  import opened PhpJson
  import opened Mf2Predicates
  import opened Mf2Extract
  import opened UrlCompare
  import opened Authorship

  /**
   * `get_items`: the document's `items`, or, when the first item is an h-feed
   * with a `children` key, that feed's children instead (one level, first
   * item only); an empty array for anything that is not a collection.
   */
  function GetItems(mf: Json): (r: Json)
    ensures !IsMicroformatCollection(mf) ==> r == JList([])
    ensures IsMicroformatCollection(mf) && IsType(At0(Read(mf, "items")), "h-feed")
            && KeyExists(At0(Read(mf, "items")), "children") ==>
              r == Read(At0(Read(mf, "items")), "children")
    ensures IsMicroformatCollection(mf) && !(IsType(At0(Read(mf, "items")), "h-feed")
            && KeyExists(At0(Read(mf, "items")), "children")) ==>
              r == Read(mf, "items")
  {
    if !IsMicroformatCollection(mf) then JList([])
    else
      var first := At0(Read(mf, "items"));
      if IsType(first, "h-feed") && KeyExists(first, "children") then Read(first, "children")
      else Read(mf, "items")
  }

  /** Feed flattening on a list of items: the leading h-feed's children, verbatim. */
  lemma FeedIsFlattened(mf: Json, feed: Json, rest: seq<Json>)
    requires mf.JObj? && Read(mf, "items") == JList([feed] + rest)
    requires IsType(feed, "h-feed") && KeyExists(feed, "children")
    ensures GetItems(mf) == Read(feed, "children")
  {
  }

  /** Without a leading h-feed that has children, the items come back unchanged. */
  lemma ItemsUnchanged(mf: Json, first: Json, rest: seq<Json>)
    requires mf.JObj? && Read(mf, "items") == JList([first] + rest)
    requires !IsType(first, "h-feed") || !KeyExists(first, "children")
    ensures GetItems(mf) == JList([first] + rest)
  {
  }

  /**
   * Flattening is transparent: a page whose leading h-feed holds the entries
   * `cs` picks the same representative item as a page listing `cs` directly
   * (when `cs` does not itself start with an h-feed to flatten).
   */
  lemma FeedChildrenActAsItems(mf: Json, feed: Json, rest: seq<Json>, cs: seq<Json>, url: string, env: Env)
    requires mf.JObj? && Read(mf, "items") == JList([feed] + rest)
    requires IsType(feed, "h-feed") && Read(feed, "children") == JList(cs)
    requires !(IsType(At0(JList(cs)), "h-feed") && KeyExists(At0(JList(cs)), "children"))
    ensures FindRepresentativeItem(mf, url, env) == FindRepresentativeItem(JObj([("items", JList(cs))]), url, env)
  {
    var flat := JObj([("items", JList(cs))]);
    assert KeyExists(feed, "children");
    assert GetItems(mf) == JList(cs);
    assert Read(flat, "items") == JList(cs);
    assert IsMicroformatCollection(flat);
    assert GetItems(flat) == JList(cs);
  }

  /**
   * Line 264: `compare_urls($url, $item['properties']['url'])` in its default
   * schemeless mode is non-empty.  Only a valid URL matches, and only an
   * entry whose `url` property is an array.
   */
  predicate MatchesUrl(item: Json, url: string, env: Env)
    ensures MatchesUrl(item, url, env) ==> IsUrl(JStr(url), env)
    ensures !IsArray(PropertyValue(item, "url")) ==> !MatchesUrl(item, url, env)
  {
    |CompareUrls(JStr(url), PropertyValue(item, "url"), true, env)| > 0
  }

  /**
   * An entry matches a valid URL exactly when its `url` property lists the
   * `http://` or the `https://` form of that address.
   */
  lemma MatchesUrlForms(item: Json, url: string, env: Env)
    requires IsUrl(JStr(url), env)
    requires IsArray(PropertyValue(item, "url")) && !IsArray(FirstValue(PropertyValue(item, "url")))
    ensures var bare := StripScheme(url);
            MatchesUrl(item, url, env) <==>
              JStr("http://" + bare) in Elements(PropertyValue(item, "url"))
              || JStr("https://" + bare) in Elements(PropertyValue(item, "url"))
  {
    SchemelessMatch(url, PropertyValue(item, "url"), env);
  }

  /** The position of the first item, in order, that satisfies `matches`. */
  function FirstMatch(items: seq<Json>, matches: Json -> bool): (r: Option<nat>)
    ensures r.Some? ==> r.value < |items| && matches(items[r.value])
    ensures r.Some? ==> forall j :: 0 <= j < r.value ==> !matches(items[j])
    ensures r.None? ==> forall j :: 0 <= j < |items| ==> !matches(items[j])
    decreases |items|
  {
    if |items| == 0 then None
    else if matches(items[0]) then Some(0)
    else
      match FirstMatch(items[1..], matches)
      case None =>
        assert forall j :: 0 < j < |items| ==> items[j] == items[1..][j - 1];
        None
      case Some(i) =>
        assert forall j :: 0 < j <= i + 1 ==> items[j] == items[1..][j - 1];
        Some(i + 1)
  }

  /**
   * `find_representative_item`: `false` when there are no items; a lone item
   * whatever its URL; otherwise the first item whose `url` property matches
   * the URL, ignoring the scheme, or `false`.
   */
  function FindRepresentativeItem(mf: Json, url: string, env: Env): (r: Json)
    ensures var items := GetItems(mf);
            !IsArray(items) || Empty(items) ==> r == JBool(false)
    ensures var items := GetItems(mf);
            items.JList? && |items.items| == 1 ==> r == items.items[0]
    ensures var xs := Elements(GetItems(mf));
            IsArray(GetItems(mf)) && |xs| >= 2 ==>
              || (r == JBool(false) && forall j :: 0 <= j < |xs| ==> !MatchesUrl(xs[j], url, env))
              || exists i :: 0 <= i < |xs| && r == xs[i] && MatchesUrl(xs[i], url, env)
                   && forall j :: 0 <= j < i ==> !MatchesUrl(xs[j], url, env)
  {
    var items := GetItems(mf);
    if !IsArray(items) || Empty(items) then JBool(false)
    else if |Elements(items)| == 1 then At0(items)
    else
      match FirstMatch(Elements(items), item => MatchesUrl(item, url, env))
      case Some(i) => Elements(items)[i]
      case None => JBool(false)
  }

  /**
   * Finding the representative item ignores the URL's scheme: the `http` and
   * `https` forms of one address pick the same item.
   */
  lemma FindIgnoresScheme(mf: Json, p1: string, p2: string, x: string, env: Env)
    requires IsSchemePrefix(p1) && IsSchemePrefix(p2)
    requires IsUrl(JStr(p1 + x), env) && IsUrl(JStr(p2 + x), env)
    ensures FindRepresentativeItem(mf, p1 + x, env) == FindRepresentativeItem(mf, p2 + x, env)
  {
    var xs := Elements(GetItems(mf));
    forall item | item in xs
      ensures MatchesUrl(item, p1 + x, env) == MatchesUrl(item, p2 + x, env)
    {
      SchemeOfNeedleIrrelevant(p1, p2, x, PropertyValue(item, "url"), env);
    }
    FirstMatchAgrees(xs, item => MatchesUrl(item, p1 + x, env), item => MatchesUrl(item, p2 + x, env));
  }

  /** Two tests that agree on every item find the same first match. */
  lemma {:induction false} FirstMatchAgrees(items: seq<Json>, f: Json -> bool, g: Json -> bool)
    requires forall item :: item in items ==> f(item) == g(item)
    ensures FirstMatch(items, f) == FirstMatch(items, g)
    decreases |items|
  {
    if |items| > 0 {
      assert items[0] in items;
      assert forall item :: item in items[1..] ==> item in items;
      FirstMatchAgrees(items[1..], f, g);
    }
  }

  /**
   * Writing `$item['properties'][...]` is defined: the item is an associative
   * array whose `properties` is absent, null, false, an associative array or
   * the empty array.  Any other `properties` is not modelled.  Under PHP 7 an
   * integer or `true` makes the write a warning that leaves the entry as it
   * was, a string makes it a string-offset write, and a non-empty list would
   * become an array mixing integer and string keys.
   */
  predicate PropertiesWritable(item: Json) {
    item.JObj? &&
    var p := Read(item, "properties");
    p == JNull || p == JBool(false) || p.JObj? || p == JList([])
  }

  /** `$item['properties'][$name] = $v`. */
  function SetProperty(item: Json, name: string, v: Json): (r: Json)
    requires PropertiesWritable(item)
    ensures PropertiesWritable(r)
    ensures Get(PropertyValueMap(r), name) == Some(v)
    ensures forall k :: k != name ==> Get(PropertyValueMap(r), k) == Get(PropertyValueMap(item), k)
    ensures forall k :: k != "properties" ==> Get(r, k) == Get(item, k)
  {
    var props := Read(item, "properties");
    var props' := if props.JObj? then JObj(Put(props.fields, name, v)) else JObj([(name, v)]);
    JObj(Put(item.fields, "properties", props'))
  }

  /** What `get_representative_item` needs of the item it finds. */
  predicate FoundItemWritable(mf: Json, url: string, env: Env) {
    var item := FindRepresentativeItem(mf, url, env);
    IsArray(item) && !Empty(item) ==> PropertiesWritable(item)
  }

  /** Lines 287-290 for a given author: an entry without an author gets `author`. */
  function AuthorFilled(item: Json, author: Json): (r: Json)
    requires PropertiesWritable(item)
    ensures PropertiesWritable(r)
    ensures forall k :: k != "properties" ==> Get(r, k) == Get(item, k)
    ensures forall k :: k != "author" ==> Get(PropertyValueMap(r), k) == Get(PropertyValueMap(item), k)
    ensures HasProperty(item, "author") ==>
              Get(PropertyValueMap(r), "author") == Get(PropertyValueMap(item), "author")
    ensures !HasProperty(item, "author") ==> Get(PropertyValueMap(r), "author") == Some(author)
  {
    if !HasProperty(item, "author") then SetProperty(item, "author", author)
    else item
  }

  /** Lines 287-290: an entry without an author gets the one the authorship algorithm finds. */
  function WithAuthor(item: Json, mf: Json, env: Env): (r: Json)
    requires PropertiesWritable(item)
    ensures PropertiesWritable(r)
    ensures forall k :: k != "properties" ==> Get(r, k) == Get(item, k)
    ensures forall k :: k != "author" ==> Get(PropertyValueMap(r), k) == Get(PropertyValueMap(item), k)
    ensures HasProperty(item, "author") ==>
              Get(PropertyValueMap(r), "author") == Get(PropertyValueMap(item), "author")
    ensures !HasProperty(item, "author") ==>
              Get(PropertyValueMap(r), "author") == Some(RepresentativeAuthor(item, mf, env))
  {
    AuthorFilled(item, RepresentativeAuthor(item, mf, env))
  }

  /** Lines 292-295: an entry without syndication gets the document's `rel=syndication`, if any. */
  function WithSyndication(item: Json, rels: Json): (r: Json)
    requires PropertiesWritable(item)
    ensures forall k :: k != "properties" ==> Get(r, k) == Get(item, k)
    ensures forall k :: k != "syndication" ==> Get(PropertyValueMap(r), k) == Get(PropertyValueMap(item), k)
    ensures HasProperty(item, "syndication") || !KeyExists(rels, "syndication") ==>
              Get(PropertyValueMap(r), "syndication") == Get(PropertyValueMap(item), "syndication")
    ensures !HasProperty(item, "syndication") && KeyExists(rels, "syndication") ==>
              Get(PropertyValueMap(r), "syndication") == Get(rels, "syndication")
  {
    if KeyExists(rels, "syndication") && !HasProperty(item, "syndication")
    then SetProperty(item, "syndication", Read(rels, "syndication"))
    else item
  }

  /**
   * `r` is `item` completed: the same apart from `properties`; the same
   * properties apart from `author` and `syndication`; an existing author or
   * syndication kept; a missing author set to `author`; a missing syndication
   * taken from `rels` when `rels` has that key.
   */
  ghost predicate CompletedEntry(r: Json, item: Json, rels: Json, author: Json)
    requires IsArray(item)
  {
    && r.JObj?
    && (forall k :: k != "properties" ==> Get(r, k) == Get(item, k))
    && (forall k :: k != "author" && k != "syndication" ==>
          Get(PropertyValueMap(r), k) == Get(PropertyValueMap(item), k))
    && (HasProperty(item, "author") ==>
          Get(PropertyValueMap(r), "author") == Get(PropertyValueMap(item), "author"))
    && (!HasProperty(item, "author") ==> Get(PropertyValueMap(r), "author") == Some(author))
    && (HasProperty(item, "syndication") || !KeyExists(rels, "syndication") ==>
          Get(PropertyValueMap(r), "syndication") == Get(PropertyValueMap(item), "syndication"))
    && (!HasProperty(item, "syndication") && KeyExists(rels, "syndication") ==>
          Get(PropertyValueMap(r), "syndication") == Get(rels, "syndication"))
  }

  /** Lines 287-297 applied to a found entry. */
  function CompleteEntry(item: Json, mf: Json, env: Env): (r: Json)
    requires PropertiesWritable(item)
    ensures CompletedEntry(r, item, Read(mf, "rels"), RepresentativeAuthor(item, mf, env))
  {
    var r := WithSyndication(WithAuthor(item, mf, env), Read(mf, "rels"));
    CompletedInTwoSteps(item, RepresentativeAuthor(item, mf, env), Read(mf, "rels"));
    r
  }

  /** Filling in an author, then the syndication, completes the entry. */
  lemma CompletedInTwoSteps(item: Json, author: Json, rels: Json)
    requires PropertiesWritable(item)
    ensures CompletedEntry(WithSyndication(AuthorFilled(item, author), rels), item, rels, author)
  {
    TwoStepsFrame(item, author, rels);
    TwoStepsFill(item, author, rels);
  }

  /** The two writes leave every key but `properties`, `author` and `syndication` alone. */
  lemma TwoStepsFrame(item: Json, author: Json, rels: Json)
    requires PropertiesWritable(item)
    ensures var r := WithSyndication(AuthorFilled(item, author), rels);
            && r.JObj?
            && (forall k :: k != "properties" ==> Get(r, k) == Get(item, k))
            && forall k :: k != "author" && k != "syndication" ==>
                 Get(PropertyValueMap(r), k) == Get(PropertyValueMap(item), k)
  {
    var mid := AuthorFilled(item, author);
    var r := WithSyndication(mid, rels);
    assert forall k :: k != "author" && k != "syndication" ==>
             Get(PropertyValueMap(r), k) == Get(PropertyValueMap(mid), k);
  }

  /** The author is written by the first step and the syndication by the second. */
  lemma TwoStepsFill(item: Json, author: Json, rels: Json)
    requires PropertiesWritable(item)
    ensures var r := WithSyndication(AuthorFilled(item, author), rels);
            && (HasProperty(item, "author") ==>
                  Get(PropertyValueMap(r), "author") == Get(PropertyValueMap(item), "author"))
            && (!HasProperty(item, "author") ==> Get(PropertyValueMap(r), "author") == Some(author))
            && (HasProperty(item, "syndication") || !KeyExists(rels, "syndication") ==>
                  Get(PropertyValueMap(r), "syndication") == Get(PropertyValueMap(item), "syndication"))
            && (!HasProperty(item, "syndication") && KeyExists(rels, "syndication") ==>
                  Get(PropertyValueMap(r), "syndication") == Get(rels, "syndication"))
  {
    var mid := AuthorFilled(item, author);
    var r := WithSyndication(mid, rels);
    assert HasProperty(mid, "syndication") == HasProperty(item, "syndication") by {
      assert PropertyValue(mid, "syndication") == PropertyValue(item, "syndication");
    }
    assert Get(PropertyValueMap(r), "author") == Get(PropertyValueMap(mid), "author");
    assert Get(PropertyValueMap(mid), "syndication") == Get(PropertyValueMap(item), "syndication");
  }

  /**
   * `get_representative_item`: the representative entry, given the author
   * that the authorship algorithm finds when it has none, and the document's
   * `rel=syndication` links when it has no syndication of its own; an empty
   * array when no entry is found.  Nothing else in the entry changes.
   */
  function GetRepresentativeItem(mf: Json, url: string, env: Env): (r: Json)
    requires FoundItemWritable(mf, url, env)
    ensures var item := FindRepresentativeItem(mf, url, env);
            !IsArray(item) || Empty(item) ==> r == JObj([])
    ensures var item := FindRepresentativeItem(mf, url, env);
            IsArray(item) && !Empty(item) ==>
              CompletedEntry(r, item, Read(mf, "rels"), RepresentativeAuthor(item, mf, env))
  {
    var item := FindRepresentativeItem(mf, url, env);
    if Empty(item) || !IsArray(item) then JObj([])
    else CompleteEntry(item, mf, env)
  }
}
