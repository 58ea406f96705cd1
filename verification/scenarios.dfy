/**
 * Worked examples of the handler's behaviour on small documents.
 */
module Mf2Scenarios {
  import opened PhpJson
  import opened Mf2Predicates
  import opened Mf2Extract

  /** `{value: "A", html: "<b>A</b>"}`: plaintext is the value, HTML the markup, unescaped. */
  lemma EmbeddedHtmlDuality()
    ensures var v := JObj([("value", JStr("A")), ("html", JStr("<b>A</b>"))]);
            ToPlaintext(v) == JStr("A") && ToHtml(v) == JStr("<b>A</b>")
  {
    var v := JObj([("value", JStr("A")), ("html", JStr("<b>A</b>"))]);
    assert "value" != "html" by { assert "value"[0] != "html"[0]; }
    assert v.fields[1..] == [("html", JStr("<b>A</b>"))];
    assert Read(v, "html") == JStr("<b>A</b>");
    assert IsEmbeddedHtml(v);
  }

  /**
   * A bare string is untrusted: a tag such as `<script>` comes back with its
   * angle brackets escaped and its name untouched.
   */
  lemma BareTagEscaped(name: string)
    requires forall i :: 0 <= i < |name| ==> name[i] !in "&<>\""
    ensures ToHtml(JStr("<" + name + ">")) == JStr("&lt;" + name + "&gt;")
  {
    EscapePlainText(name);
    EscapeConcat("<" + name, ">");
    EscapeConcat("<", name);
    assert HtmlEscape("<") == "&lt;" && HtmlEscape(">") == "&gt;";
  }
}
