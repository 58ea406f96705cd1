# Microformats interpretation of the Webmention handler

This project models `Webmention_MF2_Handler`, the part of the WordPress
Webmention plugin that interprets a parsed microformats2 document. A
document here is the decoded PHP array a microformats parser returns:
top-level `items`, `rels` and `rel-urls`, where each item has a `type` list
and a `properties` map of value lists. The handler answers questions about
such a document:

- what shape a value has;
- what the plaintext or HTML of a property is;
- which top-level entry represents a given URL;
- who wrote that entry, following the IndieWeb authorship algorithm
  (https://indieweb.org/authorship);
- whether a URL occurs in a list of URLs, with or without regard to the
  `http`/`https` scheme.

The PHP values are modelled by `PhpJson.Json`. An associative array is an
ordered association list (`JObj`) whose keys are taken to be distinct, as
PHP array keys are. A list-shaped array is `JList`. Reading a
missing key gives null. The handler depends on PHP's `empty()`, `isset`,
`reset`, `current`, `$v[0]` and `(string)` semantics, and those are written
out in `json.dfy`.

Each module follows the structure of the class:

- `Mf2Predicates` holds the shape predicates `is_url`, `is_type`,
  `is_microformat`, `is_microformat_collection`, `has_property`,
  `is_embedded_html` and `has_rel`.
- `Mf2Extract` holds the extractors: `to_plaintext`, `to_html` (with
  `htmlspecialchars`), `get_plaintext`, `get_plaintext_array`,
  `get_property_array`, `get_html` and `get_datetime_property`.
- `UrlCompare` holds `compare_urls`.
- `Authorship` holds `get_representative_author`, in two versions: the
  corrected reading and the reading as written.
- `Mf2Items` holds `get_items`, `find_representative_item` and
  `get_representative_item`.
- `AuthorshipFindings` holds concrete inputs that show the two defects listed
  under Findings.
- `Mf2Scenarios` holds worked examples.

The environment the handler reads but does not define is passed in as
`Mf2Predicates.Env`: the `WP_DEBUG` switch, `filter_var(FILTER_VALIDATE_URL)`
and `wp_http_validate_url`. Date parsing is passed in as a function
`parse: string -> Option<D>`. Neither the validators nor the parser is given
a meaning. Properties hold for every validator and parser except where a
lemma says otherwise. Two kinds of lemma do say so:

- Lemmas that require `Authorship.ValidatorsNeedScheme` assume that every
  URL a validator accepts contains a `:`.
- `UrlCompare.ExactMatch` requires its needle to contain a `:`.

PHP behaviour is that of PHP 7. In particular, an internal function given an
argument of the wrong type warns and returns null. This applies to `reset`,
`array_intersect`, `array_key_exists` and `htmlspecialchars`.

The model follows the handler's code line by line with one exception.
`get_representative_item` inserts the author that the corrected
`get_representative_author` finds. Findings below explains the exception.
Some details of the code are easy to miss:

- `to_html` escapes with `htmlspecialchars` and its default flags.
- `find_representative_item` returns a lone item without comparing its URL.
- `get_items` flattens only a leading h-feed that has a `children` key.
- `has_rel` is not called anywhere else in the class.
  `HasRelAuthorFeedsFallback` relates it to the `isset` tests of step 6.
- In `get_representative_author` every URL author value overwrites the
  author page, so of several URL values the last one wins.

## Model

| member | source | states |
|---|---|---|
| PhpJson.Lookup | includes/class-webmention-mf2-handler.php:121 | a key read yields a value exactly when the key is present, and that value is stored under the key |
| PhpJson.LookupFirst | includes/class-webmention-mf2-handler.php:121 | of several fields with the same key, a read yields the first |
| PhpJson.Put | includes/class-webmention-mf2-handler.php:289 | an array write makes the key read back as the written value and leaves every other key unchanged |
| PhpJson.Elements | includes/class-webmention-mf2-handler.php:121-122 | an array is empty exactly when it has no values; the values come in iteration order |
| PhpJson.At0 | includes/class-webmention-mf2-handler.php:236 | `$v[0]` gives the first element of a non-empty list and the first character of a non-empty string; it is also used at lines 260 and 347 |
| PhpJson.FirstValue | includes/class-webmention-mf2-handler.php:376 | `reset` gives the first value of a non-empty array, false for an empty one and null for a non-array |
| PhpJson.StrCastWithColon | includes/class-webmention-mf2-handler.php:391 | only a string can convert to a string that contains a colon, so `array_intersect` matches a URL only against that very string |
| Mf2Predicates.IsUrl | includes/class-webmention-mf2-handler.php:14-24 | only strings are URLs; a string that both validators accept is a URL, and one that both reject is not, whatever the debug switch |
| Mf2Predicates.IsMicroformat | includes/class-webmention-mf2-handler.php:45-47 | a microformat is an associative array with a `type` key and a `properties` key set to a value that is not null |
| Mf2Predicates.IsMicroformatCollection | includes/class-webmention-mf2-handler.php:56-58 | a collection is an associative array whose `items` is an array |
| Mf2Predicates.HasProperty | includes/class-webmention-mf2-handler.php:68-70 | a present property belongs to an associative array and has at least one value |
| Mf2Predicates.IsEmbeddedHtml | includes/class-webmention-mf2-handler.php:80-82 | embedded HTML is an associative array with both `value` and `html` set |
| Mf2Predicates.HasRel | includes/class-webmention-mf2-handler.php:92-94 | a present relation means `rels` is an associative array and the relation has at least one link |
| Mf2Predicates.IsType | includes/class-webmention-mf2-handler.php:34-36 | a value has type `t` only if it is an associative array whose `type` list contains the exact string `t` |
| Mf2Predicates.ShapeFacts | includes/class-webmention-mf2-handler.php:45-82 | microformats, embedded-HTML values and typed values are associative arrays with the keys they test for; a present property has a first value |
| Mf2Predicates.NotMicroformat | includes/class-webmention-mf2-handler.php:45-47 | a non-array, a list-shaped array, a value with a missing or empty `type`, and a value without `properties` are each not a microformat |
| Mf2Predicates.IsTypeExact | includes/class-webmention-mf2-handler.php:34-36 | `is_type` holds exactly for an associative array whose `type` array contains the string |
| Mf2Extract.ToPlaintext | includes/class-webmention-mf2-handler.php:103-110 | the plaintext is the value itself, its `value`, or its `text`; a scalar is returned unchanged |
| Mf2Extract.PlaintextCases | includes/class-webmention-mf2-handler.php:103-110 | a microformat or embedded HTML gives its `value`; any other array with `text` set gives `text`; everything else is itself |
| Mf2Extract.HtmlEscape | includes/class-webmention-mf2-handler.php:180-182 | escaped text holds no `<` or `>`, and escaping never shortens text |
| Mf2Extract.EscapeRoundTrip | includes/class-webmention-mf2-handler.php:180-182 | unescaping the escaped text gives back the original text, so escaping loses nothing |
| Mf2Extract.ToHtml | includes/class-webmention-mf2-handler.php:176-183 | embedded HTML is trusted verbatim. Any other value comes back as escaped text without markup that unescapes to its string form, or as null when `htmlspecialchars` is handed an array |
| Mf2Extract.ToHtmlEscapesPlaintext | includes/class-webmention-mf2-handler.php:103-110 | outside embedded HTML and arrays, `to_html` is the escaped `to_plaintext`, so it unescapes to the plaintext |
| Mf2Extract.GetPlaintext | includes/class-webmention-mf2-handler.php:120-125 | gives the fallback when the property is absent, and otherwise the plaintext of its first value |
| Mf2Extract.MapPlaintext | includes/class-webmention-mf2-handler.php:138 | mapping keeps the array's kind, length, keys and order, and converts each value to plaintext |
| Mf2Extract.GetPlaintextArray | includes/class-webmention-mf2-handler.php:136-142 | gives the fallback when the property is absent, and otherwise every value's plaintext in order |
| Mf2Extract.PlaintextIsFirstOfArray | includes/class-webmention-mf2-handler.php:120-142 | `get_plaintext` is the first element of `get_plaintext_array` whenever the property is present |
| Mf2Extract.OccurrencesOfMember | includes/class-webmention-mf2-handler.php:156 | a name is requested at least once exactly when it is in the request list |
| Mf2Extract.OccurrencesWithoutDuplicates | includes/class-webmention-mf2-handler.php:156 | a list without duplicates requests each name at most once |
| Mf2Extract.Accumulate | includes/class-webmention-mf2-handler.php:158-164 | appending one property's values adds them after what was collected under its key and changes no other key |
| Mf2Extract.AsLists | includes/class-webmention-mf2-handler.php:167 | the result has the same keys as the collected data, each value wrapped as a list |
| Mf2Extract.GetPropertyArray | includes/class-webmention-mf2-handler.php:151-168 | a non-microformat gives an empty array; otherwise the keys are the requested names with values, and a name requested twice collects its values twice; with distinct names each key maps to exactly its property's values |
| Mf2Extract.CollectStep | includes/class-webmention-mf2-handler.php:156-166 | one turn of the outer loop turns the data for the names so far into the data for one more name |
| Mf2Extract.CollectedWithoutDuplicates | includes/class-webmention-mf2-handler.php:156-166 | with distinct names, a name is collected exactly when it is requested and has values, and then it holds exactly those values |
| Mf2Extract.GetHtml | includes/class-webmention-mf2-handler.php:193-198 | gives the fallback when the property is absent. Otherwise it gives `to_html` of the property's first value, which is the `html` field verbatim when that value is embedded HTML |
| Mf2Extract.HtmlUnescapesToPlaintext | includes/class-webmention-mf2-handler.php:120-125 | unless the first value is embedded HTML, a property's HTML unescapes to its plaintext |
| Mf2Extract.GetDatetimeProperty | includes/class-webmention-mf2-handler.php:209-220 | gives the fallback when the property is absent or its plaintext does not parse, and otherwise the parsed date |
| Mf2Extract.DatetimeAbsentIgnoresParser | includes/class-webmention-mf2-handler.php:210-214 | without the property the parser is never consulted |
| Mf2Extract.DatetimeNeverFails | includes/class-webmention-mf2-handler.php:215-219 | the result is always the fallback or a date the parser produced from the property's plaintext |
| UrlCompare.Lower | includes/class-webmention-mf2-handler.php:381 | letter case folding keeps the length and folds each ASCII letter |
| UrlCompare.StripScheme | includes/class-webmention-mf2-handler.php:381 | the result is a suffix of the input, and anything removed is an `http://` or `https://` prefix in some letter case |
| UrlCompare.StripSchemeOfPrefixed | includes/class-webmention-mf2-handler.php:381 | a leading `http://` or `https://` in any letter case is removed exactly |
| UrlCompare.StripSchemeWithoutPrefix | includes/class-webmention-mf2-handler.php:381 | text without a scheme prefix is left unchanged |
| UrlCompare.Intersect | includes/class-webmention-mf2-handler.php:391 | `array_intersect` keeps exactly the forms that occur in the haystack |
| UrlCompare.CompareUrls | includes/class-webmention-mf2-handler.php:372-392 | a non-URL needle, a haystack that is not an array, and a haystack whose first value is an array never match; otherwise the result is non-empty exactly when one of the needle's forms occurs in the haystack |
| UrlCompare.OccursInIsMembership | includes/class-webmention-mf2-handler.php:391 | a URL occurs in a haystack exactly when that string is one of its elements |
| UrlCompare.SchemelessMatch | includes/class-webmention-mf2-handler.php:379-391 | ignoring schemes, a URL matches exactly when the haystack holds its `http://` or `https://` form |
| UrlCompare.ExactMatch | includes/class-webmention-mf2-handler.php:385-391 | with schemes compared, a URL matches exactly when it is itself in the haystack |
| UrlCompare.SchemeOfNeedleIrrelevant | includes/class-webmention-mf2-handler.php:379-384 | ignoring schemes, the needle's own scheme and its letter case make no difference |
| UrlCompare.HttpsNeedleFindsHttp | includes/class-webmention-mf2-handler.php:379-391 | ignoring schemes, `https://example.com/a` finds `http://example.com/a` |
| UrlCompare.HttpsNeedleMissesHttp | includes/class-webmention-mf2-handler.php:385-391 | with schemes compared, `https://example.com/a` does not find `http://example.com/a` |
| Authorship.Card | includes/class-webmention-mf2-handler.php:335-340 | the constructed author card is an h-card microformat whose one property holds exactly the given value |
| Authorship.UrlsMatch | includes/class-webmention-mf2-handler.php:352 | two URLs match exactly when the first is a URL and the second is its `http://` or `https://` form |
| Authorship.ScanItem | includes/class-webmention-mf2-handler.php:315-317 | without an author property no author page is found; otherwise the scan returns only h-cards, and an author page it ends with is one of the author values |
| Authorship.IsAuthorPage | includes/class-webmention-mf2-handler.php:321-322 | only a string is an author page; with the debug switch off it agrees exactly with `is_url`; under validators that need a scheme an author page is truthy |
| Authorship.RelAuthorFallback | includes/class-webmention-mf2-handler.php:344-349 | an author page already found, or a document without `rels`, is kept; otherwise the result is the first `rel=author` link |
| Authorship.ScanAuthors | includes/class-webmention-mf2-handler.php:315-343 | the loop returns only h-cards, and once an author page is known it returns the first h-card; it ends without a return only when no value is an h-card, holding the initial page or one of the author-page values |
| Authorship.ScanAfterPage | includes/class-webmention-mf2-handler.php:317-342 | a loop that starts on a URL value returns exactly when some value is an h-card, and then returns the first one; otherwise it ends with a truthy author page |
| Authorship.ScanKeepsLastPage | includes/class-webmention-mf2-handler.php:324 | each URL value overwrites the author page, so a loop that meets no h-card ends with the last URL value, or with the page it started from when there is none |
| Authorship.LastAuthorPageWins | includes/class-webmention-mf2-handler.php:317-360 | author values that begin with a URL and hold no h-card make the last URL value the author page, which becomes a URL-only card unless it is the entry's own URL |
| Authorship.SecondUrlAuthorWins | includes/class-webmention-mf2-handler.php:324 | with two URL author values, the second is the author page |
| Authorship.RepresentativeAuthor | includes/class-webmention-mf2-handler.php:312-361 | the author is an h-card, or null when none is found |
| Authorship.EmbeddedCardWins | includes/class-webmention-mf2-handler.php:317-320 | an h-card as the first author value is the author, verbatim |
| Authorship.FirstValueNamesAuthor | includes/class-webmention-mf2-handler.php:321-341 | a first author value that is neither an h-card nor a URL gives a name-only card with that value's plaintext |
| Authorship.UrlAuthorNeverNamed | includes/class-webmention-mf2-handler.php:322-343 | after a URL as the first author value, the result is the first h-card, a URL-only card or null, and never a name-only card; when any value is an h-card, the result is the first h-card |
| Authorship.AuthorPageBecomesCard | includes/class-webmention-mf2-handler.php:322-360 | a lone URL author value gives a URL-only card for that page, unless the page is the entry's own URL |
| Authorship.RelAuthorFallbackUsed | includes/class-webmention-mf2-handler.php:344-360 | without an author property, the document's first `rel=author` link gives a URL-only card, unless it is the entry's own URL |
| Authorship.HasRelAuthorFeedsFallback | includes/class-webmention-mf2-handler.php:92-94 | a document that has a list of `rel=author` links passes the checks of step 6, so an entry without an author page takes the first link |
| Authorship.NoAuthorInformation | includes/class-webmention-mf2-handler.php:344-361 | with no author property and no `rel=author` link, the author is null |
| Authorship.RepresentativeAuthorAsWritten | includes/class-webmention-mf2-handler.php:312-361 | as written, the result is an h-card, null, or a fatal error |
| Authorship.AsWrittenIgnoresDocument | includes/class-webmention-mf2-handler.php:344-349 | as written, an entry without an author property gets a null author, whatever the document's `rels` hold |
| Mf2Items.GetItems | includes/class-webmention-mf2-handler.php:230-244 | a non-collection gives an empty array; a leading h-feed with `children` is replaced by those children; otherwise the items are returned unchanged |
| Mf2Items.FeedIsFlattened | includes/class-webmention-mf2-handler.php:236-241 | a leading h-feed's children come back verbatim |
| Mf2Items.ItemsUnchanged | includes/class-webmention-mf2-handler.php:236-243 | without a leading h-feed that has children, the items come back unchanged |
| Mf2Items.FeedChildrenActAsItems | includes/class-webmention-mf2-handler.php:236-261 | a page whose leading h-feed holds some entries picks the same representative item as a page that lists those entries directly |
| Mf2Items.FirstMatch | includes/class-webmention-mf2-handler.php:263-268 | the position found is the first item that satisfies the test; no position means no item satisfies it |
| Mf2Items.MatchesUrl | includes/class-webmention-mf2-handler.php:264 | only a valid URL matches, and only an entry whose `url` property is an array |
| Mf2Items.MatchesUrlForms | includes/class-webmention-mf2-handler.php:264 | a valid URL matches an entry exactly when its `url` property lists the `http://` or `https://` form of the address |
| Mf2Items.FindRepresentativeItem | includes/class-webmention-mf2-handler.php:254-269 | no items gives false; a lone item is returned whatever its URL; otherwise the result is the first matching item, or false when none matches |
| Mf2Items.FirstMatchAgrees | includes/class-webmention-mf2-handler.php:263-268 | two URL tests that agree on every item select the same item |
| Mf2Items.FindIgnoresScheme | includes/class-webmention-mf2-handler.php:254-269 | the `http` and `https` forms of one address pick the same item |
| Mf2Items.SetProperty | includes/class-webmention-mf2-handler.php:289 | a property write sets that property and leaves every other property and key unchanged |
| Mf2Items.AuthorFilled | includes/class-webmention-mf2-handler.php:287-290 | an entry without an author gets the given author; an entry with one keeps it; no other key or property changes |
| Mf2Items.WithAuthor | includes/class-webmention-mf2-handler.php:287-290 | an entry without an author gets the representative author; an entry with one keeps it; nothing else changes |
| Mf2Items.WithSyndication | includes/class-webmention-mf2-handler.php:292-295 | an entry without syndication takes the document's `rel=syndication` when the document has one; otherwise its syndication is kept; nothing else changes |
| Mf2Items.CompleteEntry | includes/class-webmention-mf2-handler.php:287-297 | the entry changes only in its `author` and `syndication` properties, and each is filled only when missing |
| Mf2Items.GetRepresentativeItem | includes/class-webmention-mf2-handler.php:280-299 | no entry gives an empty array; otherwise the entry completed with author and syndication, and nothing else changed |
| AuthorshipFindings.StripJoScheme | includes/class-webmention-mf2-handler.php:381 | removing the scheme from the example author page leaves `jo.example/` |
| AuthorshipFindings.JoPageIsNotPost | includes/class-webmention-mf2-handler.php:352 | the example author page is not the post's URL, under either scheme |
| AuthorshipFindings.NothingMatchesNull | includes/class-webmention-mf2-handler.php:352 | no URL matches a missing entry URL |
| AuthorshipFindings.RelAuthorLostAsWritten | includes/class-webmention-mf2-handler.php:289 | as written, a document with a `rel=author` link gives a null author; the corrected reading gives a URL-only card for the linked page |
| AuthorshipFindings.AuthorPageFatalAsWritten | includes/class-webmention-mf2-handler.php:352 | as written, an entry whose author is a URL ends in a fatal error; the corrected reading gives a URL-only card for that page |
| Mf2Scenarios.EmbeddedHtmlDuality | includes/class-webmention-mf2-handler.php:103-110 | for `{value: "A", html: "<b>A</b>"}` the plaintext is `A` and the HTML is `<b>A</b>` |
| Mf2Extract.EscapeConcat | includes/class-webmention-mf2-handler.php:180-182 | escaping works character by character: the escape of a concatenation is the concatenation of the escapes |
| Mf2Extract.EscapePlainText | includes/class-webmention-mf2-handler.php:180-182 | text without `&`, `<`, `>` or `"` is left as it is |
| Mf2Scenarios.BareTagEscaped | includes/class-webmention-mf2-handler.php:182 | a bare string such as `<script>` comes back as `&lt;script&gt;`, the tag name untouched |

## Left out

- The URL validators and the `WP_DEBUG` switch are parameters without a meaning, because their behaviour belongs to PHP and WordPress. `Authorship.ValidatorsNeedScheme` is the one assumption some lemmas make about them: an accepted URL contains a `:`.
- Mf2Extract.GetDatetimeProperty: `DateTimeImmutable` parsing is a parameter, because date formats are PHP's. An array plaintext is the wrong argument type for the constructor. Whether the handler's `catch` sees that failure depends on how the PHP version reports it, so `GetDatetimeProperty` requires a plaintext that is not an array.
- Mf2Extract.HtmlEscape: the default flags are taken to be ENT_COMPAT, so single quotes are not escaped. Invalid-encoding handling is not modelled: strings are sequences of characters.
- Mf2Extract.GetPropertyArray: the unused `$args` parameter is dropped. A property whose value is a scalar has no elements in the model, so nothing is collected for it. That matches PHP, where `foreach` over a scalar warns and skips.
- Mf2Items.GetRepresentativeItem: the found entry must accept writes to `properties`. Other entries are excluded because their PHP 7 behaviour is not modelled. An integer or `true` as `properties` makes the write a warning ("Cannot use a scalar value as an array"), and the entry comes back without the write. A string `properties` turns the write into a string-offset write. A non-empty list `properties` would become an array with both integer and string keys, which the value model does not have. A missing `rels` is read as having no keys: PHP 7 warns and `array_key_exists` yields null.
- Mf2Items.GetRepresentativeItem: the author inserted for an entry without one is the corrected `Authorship.RepresentativeAuthor(item, mf)`. The code as written calls `get_representative_author($mf, $url)` at line 289, which `Authorship.RepresentativeAuthorAsWritten` models; see Findings.
- Mf2Items.WithAuthor: inserts the corrected author, not the result of the call as written at line 289, for the reason given under Findings.
- Mf2Items.CompleteEntry: built on `WithAuthor`, so it too inserts the corrected author.
- Authorship.ScanAuthors: keeps the code's choice of the last URL author value as the author page (line 324), which `LastAuthorPageWins` states. Step 5.2 of the authorship algorithm speaks of a single URL, which reads as the first; the code's intent for several URL values is unclear, so that reading is not modelled.
- Mf2Items.FindRepresentativeItem: the contract for a lone item covers list-shaped `items`. An associative `items` array with one entry reads key `0`, which the model gives as null.
- Array keys are distinct strings that do not look like integers. The value model does not forbid a repeated key, but no contract relies on one. PHP's conversion of `"0"`-style keys and arrays mixing list and string keys are not modelled.
- Floats are not part of the value model, because parsed microformats carry strings.
- Mf2Extract.ToPlaintext: the contract says the result is the value or one of its `value` or `text` fields. The case-by-case selection is stated in `PlaintextCases`.
- Authorship.RepresentativeAuthor: the corrected reading. The Findings below give the literal behaviour and show where the two differ.

## Findings

| source | as written | input that shows it | evidently intended | confidence | as-written member | corrected member |
|---|---|---|---|---|---|---|
| includes/class-webmention-mf2-handler.php:289, 346-347 | `get_representative_item` passes the whole document and the URL where the entry and the document belong. Step 6 then reads the never-assigned `$mf2`, so the document's `rel=author` is never used. | a document whose only entry has a `url` but no author, with `rels.author = ["https://jo.example/"]`: the author comes out null | the entry's author falls back to the document's first `rel=author` link, giving a URL-only card for `https://jo.example/` | high, not executed | AuthorshipFindings.RelAuthorLostAsWritten | Authorship.RepresentativeAuthor |
| includes/class-webmention-mf2-handler.php:352 | step 7 calls `self::urls_match`, which the class does not define | an entry with `author = ["https://jo.example/"]`, whose author page is known: the call ends in a fatal error | compare the author page with the entry's own `url` using `compare_urls`, and give a URL-only card when they differ | high, not executed | AuthorshipFindings.AuthorPageFatalAsWritten | Authorship.RepresentativeAuthor |
