/**
 * Shape predicates of `Webmention_MF2_Handler`: total classifiers over any
 * decoded value, never failing on unexpected shapes.
 */
module Mf2Predicates {
  import opened PhpJson

  /**
   * The environment the handler reads but does not define: the `WP_DEBUG`
   * switch and the two URL validators it selects between (PHP's
   * `filter_var(..., FILTER_VALIDATE_URL)` and WordPress's
   * `wp_http_validate_url`).  Both validators are left uninterpreted.
   */
  datatype Env = Env(
    debug: bool,
    filterValidateUrl: string -> bool,
    wpHttpValidateUrl: string -> bool)

  /**
   * `is_url`: a string accepted by the validator the debug switch selects.
   * Only strings are URLs, and where the two validators agree the switch
   * makes no difference.
   */
  predicate IsUrl(v: Json, env: Env)
    ensures IsUrl(v, env) ==> v.JStr?
    ensures v.JStr? && env.filterValidateUrl(v.s) && env.wpHttpValidateUrl(v.s) ==> IsUrl(v, env)
    ensures !v.JStr? || (!env.filterValidateUrl(v.s) && !env.wpHttpValidateUrl(v.s)) ==> !IsUrl(v, env)
  {
    v.JStr? && (if env.debug then env.filterValidateUrl(v.s) else env.wpHttpValidateUrl(v.s))
  }

  /** `is_type`: `type` is a non-empty array holding the exact string `t`. */
  predicate IsType(mf: Json, t: string)
    ensures IsType(mf, t) ==> mf.JObj? && JStr(t) in Elements(Read(mf, "type"))
  {
    IsArray(mf) && !Empty(Read(mf, "type")) && IsArray(Read(mf, "type"))
    && JStr(t) in Elements(Read(mf, "type"))
  }

  /**
   * `is_microformat`: an associative array with a non-empty `type` and a
   * `properties` key that is set (possibly to an empty array).
   */
  predicate IsMicroformat(mf: Json)
    ensures IsMicroformat(mf) ==>
              mf.JObj? && KeyExists(mf, "type") && KeyExists(mf, "properties") && Read(mf, "properties") != JNull
  {
    IsArray(mf) && !IsNumericArray(mf) && !Empty(Read(mf, "type")) && Isset(mf, "properties")
  }

  /** `is_microformat_collection`: an array whose `items` is an array. */
  predicate IsMicroformatCollection(mf: Json)
    ensures IsMicroformatCollection(mf) ==> mf.JObj? && (Read(mf, "items").JList? || Read(mf, "items").JObj?)
  {
    IsArray(mf) && Isset(mf, "items") && IsArray(Read(mf, "items"))
  }

  /** The raw value of `$mf['properties'][$name]` (null when absent). */
  function PropertyValue(mf: Json, name: string): Json {
    Read(PropertyValueMap(mf), name)
  }

  /** The `properties` array of a microformat (null when absent). */
  function PropertyValueMap(mf: Json): Json {
    Read(mf, "properties")
  }

  /** `has_property`: the named property is a non-empty array. */
  predicate HasProperty(mf: Json, name: string)
    requires IsArray(mf)
    ensures HasProperty(mf, name) ==> mf.JObj? && |Elements(PropertyValue(mf, name))| > 0
  {
    !Empty(PropertyValue(mf, name)) && IsArray(PropertyValue(mf, name))
  }

  /** `is_embedded_html`: an associative array with both `value` and `html` set. */
  predicate IsEmbeddedHtml(p: Json)
    ensures IsEmbeddedHtml(p) ==> p.JObj? && Read(p, "value") != JNull && Read(p, "html") != JNull
  {
    IsArray(p) && !IsNumericArray(p) && Isset(p, "value") && Isset(p, "html")
  }

  /** `has_rel`: the named relation of `rels` is a non-empty array. */
  predicate HasRel(mf: Json, rel: string)
    requires IsArray(mf)
    ensures HasRel(mf, rel) ==> mf.JObj? && Read(mf, "rels").JObj? && |Elements(Read(Read(mf, "rels"), rel))| > 0
  {
    !Empty(Read(Read(mf, "rels"), rel)) && IsArray(Read(Read(mf, "rels"), rel))
  }

  /**
   * What the shape predicates promise about a value: a microformat, an
   * embedded-HTML value and a typed value are all associative arrays, and a
   * present property always has a first value to read.
   */
  lemma ShapeFacts(v: Json, name: string, t: string)
    ensures IsMicroformat(v) ==> v.JObj? && KeyExists(v, "type") && KeyExists(v, "properties")
    ensures IsEmbeddedHtml(v) ==> v.JObj? && KeyExists(v, "value") && KeyExists(v, "html")
    ensures IsType(v, t) ==> IsMicroformat(v) || !Isset(v, "properties")
    ensures IsArray(v) && HasProperty(v, name) ==>
              v.JObj? && |Elements(PropertyValue(v, name))| > 0
  {
  }

  /**
   * The four ways a value fails to be a microformat: not an array, a
   * list-shaped array, a missing or empty `type`, no `properties`.
   */
  lemma NotMicroformat(v: Json)
    ensures !IsArray(v) ==> !IsMicroformat(v)
    ensures v.JList? ==> !IsMicroformat(v)
    ensures (!KeyExists(v, "type") || Empty(Read(v, "type"))) ==> !IsMicroformat(v)
    ensures !KeyExists(v, "properties") ==> !IsMicroformat(v)
  {
  }

  /** `is_type` holds only of an array whose `type` array contains the exact string. */
  lemma IsTypeExact(mf: Json, t: string)
    ensures IsType(mf, t) <==>
              (mf.JObj? && IsArray(Read(mf, "type")) && JStr(t) in Elements(Read(mf, "type")))
  {
  }
}
