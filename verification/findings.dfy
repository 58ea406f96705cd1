/**
 * Two defects in `get_representative_author`, each shown on a concrete input
 * against the code as written and against the corrected reading that the rest
 * of the model uses.
 */
module AuthorshipFindings {
  import opened PhpJson
  import opened Mf2Predicates
  import opened Mf2Extract
  import opened UrlCompare
  import opened Authorship

  const JoPage := "https://jo.example/"
  const PostUrl := "https://example.com/post"

  /** An h-entry with the given properties. */
  function Entry(props: seq<(string, Json)>): Json {
    JObj([("type", JList([JStr("h-entry")])), ("properties", JObj(props))])
  }

  lemma EntryProperties(props: seq<(string, Json)>)
    ensures PropertyValueMap(Entry(props)) == JObj(props)
  {
    var e := Entry(props);
    assert "type" != "properties" by { assert "type"[0] != "properties"[0]; }
    assert e.fields[1..] == [("properties", JObj(props))];
    assert Lookup(e.fields[1..], "properties") == Some(JObj(props));
  }

  /** A page whose only entry has a URL but no author, and whose `rel=author` is Jo's page. */
  function RelAuthorDoc(): Json {
    JObj([
      ("items", JList([Entry([("url", JList([JStr(PostUrl)]))])])),
      ("rels", JObj([("author", JList([JStr(JoPage)]))]))])
  }

  lemma StripJoScheme()
    ensures StripScheme(JoPage) == "jo.example/"
  {
    LowerHttpsPrefix();
    assert JoPage == "https://" + "jo.example/";
    StripSchemeOfPrefixed("https://", "jo.example/");
  }

  /** Jo's page is not the address of the post, in either scheme. */
  lemma JoPageIsNotPost(env: Env)
    ensures !UrlsMatch(JStr(JoPage), JStr(PostUrl), env)
  {
    if IsUrl(JStr(JoPage), env) {
      var hay := JList([JStr(PostUrl)]);
      StripJoScheme();
      SchemelessMatch(JoPage, hay, env);
      assert "http://" + "jo.example/" != PostUrl by {
        assert ("http://" + "jo.example/")[4] != PostUrl[4];
      }
      assert "https://" + "jo.example/" != PostUrl by {
        assert ("https://" + "jo.example/")[8] != PostUrl[8];
      }
    }
  }

  /** Nothing matches a null URL. */
  lemma NothingMatchesNull(a: Json, env: Env)
    ensures !UrlsMatch(a, JNull, env)
  {
    if IsUrl(a, env) {
      var forms := NeedleForms(a.s, true);
      forall f | f in forms
        ensures !OccursIn(f, [JNull])
      {
      }
    }
  }

  /**
   * Line 289 passes the whole document where the entry belongs, and step 6
   * reads the unassigned `$mf2`: the document's `rel=author` never reaches
   * the entry, whose author comes out null.  The corrected reading gives the
   * entry a URL-only card for Jo's page.
   */
  lemma RelAuthorLostAsWritten(env: Env)
    ensures RepresentativeAuthorAsWritten(RelAuthorDoc(), JStr(PostUrl), env) == Value(JNull)
    ensures RepresentativeAuthor(Entry([("url", JList([JStr(PostUrl)]))]), RelAuthorDoc(), env)
              == UrlCard(JStr(JoPage))
  {
    var doc := RelAuthorDoc();
    var entry := Entry([("url", JList([JStr(PostUrl)]))]);
    assert PropertyValue(doc, "author") == JNull;
    AsWrittenIgnoresDocument(doc, JStr(PostUrl), env);
    EntryProperties([("url", JList([JStr(PostUrl)]))]);
    assert "url" != "author" by { assert "url"[0] != "author"[0]; }
    assert PropertyValue(entry, "author") == JNull;
    assert "items" != "rels" by { assert "items"[0] != "rels"[0]; }
    assert Read(doc, "rels") == JObj([("author", JList([JStr(JoPage)]))]);
    assert PropertyValue(entry, "url") == JList([JStr(PostUrl)]);
    assert GetPlaintext(entry, "url", JNull) == JStr(PostUrl);
    JoPageIsNotPost(env);
    RelAuthorFallbackUsed(entry, doc, env);
  }

  /**
   * Step 7 calls `self::urls_match`, which the class does not define: an entry
   * whose author property is a URL ends in a fatal error.  The corrected reading
   * gives it a URL-only card for that page.
   */
  lemma AuthorPageFatalAsWritten(doc: Json, env: Env)
    requires env.wpHttpValidateUrl(JoPage)
    ensures RepresentativeAuthorAsWritten(Entry([("author", JList([JStr(JoPage)]))]), doc, env).Fatal?
    ensures RepresentativeAuthor(Entry([("author", JList([JStr(JoPage)]))]), doc, env) == UrlCard(JStr(JoPage))
  {
    var entry := Entry([("author", JList([JStr(JoPage)]))]);
    EntryProperties([("author", JList([JStr(JoPage)]))]);
    assert PropertyValue(entry, "author") == JList([JStr(JoPage)]);
    assert HasProperty(entry, "author");
    assert JoPage[0] == 'h';
    assert Truthy(JStr(JoPage));
    assert ScanAuthors(entry, [], JStr(JoPage), JNull, env) == Finished(JStr(JoPage));
    assert [JStr(JoPage)][1..] == [];
    assert ScanItem(entry, env) == Finished(JStr(JoPage));
    assert "author" != "url" by { assert "author"[0] != "url"[0]; }
    assert PropertyValue(entry, "url") == JNull;
    NothingMatchesNull(JStr(JoPage), env);
  }
}
