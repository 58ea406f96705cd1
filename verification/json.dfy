/**
 * The PHP values an MF2 parser hands to the handler, after `json_decode(..., true)`.
 *
 * A PHP array is either list-shaped (keys 0..n-1, `JList`) or associative
 * (string keys in insertion order, `JObj`).  Associative arrays are kept as an
 * ordered list of fields because PHP iterates them in insertion order and the
 * handler relies on that (`current()`, `foreach`, `array_map`).  The empty PHP
 * array may be written `JList([])` or `JObj([])`; both are empty and list-shaped.
 * The keys of a `JObj` are taken to be distinct, as the keys of a PHP array
 * are; no contract depends on a repeated key.
 */
module PhpJson {

  datatype Option<+T> = None | Some(value: T) {
    function GetOr(default: T): T {
      match this
      case Some(v) => v
      case None => default
    }
  }

  datatype Json =
    | JNull
    | JBool(b: bool)
    | JInt(i: int)
    | JStr(s: string)
    | JList(items: seq<Json>)
    | JObj(fields: seq<(string, Json)>)

  /** PHP `is_array`. */
  predicate IsArray(v: Json) {
    v.JList? || v.JObj?
  }

  /** WordPress `wp_is_numeric_array`: an array without a single string key. */
  predicate IsNumericArray(v: Json) {
    v.JList? || (v.JObj? && |v.fields| == 0)
  }

  /** PHP `empty()` (equivalently `!$v`) on a value that is set. */
  predicate Empty(v: Json) {
    match v
    case JNull => true
    case JBool(b) => !b
    case JInt(i) => i == 0
    case JStr(s) => s == "" || s == "0"
    case JList(xs) => |xs| == 0
    case JObj(fs) => |fs| == 0
  }

  predicate Truthy(v: Json) {
    !Empty(v)
  }

  /** The first value stored under key `k` in an association list. */
  function Lookup<V>(fs: seq<(string, V)>, k: string): (r: Option<V>)
    ensures r.Some? <==> exists i :: 0 <= i < |fs| && fs[i].0 == k
    ensures r.Some? ==> exists i :: 0 <= i < |fs| && fs[i] == (k, r.value)
  {
    if |fs| == 0 then None
    else if fs[0].0 == k then Some(fs[0].1)
    else
      var r := Lookup(fs[1..], k);
      assert forall i :: 0 < i < |fs| ==> fs[i] == fs[1..][i - 1];
      r
  }

  /**
   * Of several fields with the same key, a read sees the first: the value
   * found sits at a position before which no field has that key.
   */
  lemma {:induction false} LookupFirst<V>(fs: seq<(string, V)>, k: string)
    requires Lookup(fs, k).Some?
    ensures exists i :: 0 <= i < |fs| && fs[i] == (k, Lookup(fs, k).value)
              && forall j :: 0 <= j < i ==> fs[j].0 != k
  {
    if fs[0].0 != k {
      LookupFirst(fs[1..], k);
      var i :| 0 <= i < |fs[1..]| && fs[1..][i] == (k, Lookup(fs, k).value)
               && forall j :: 0 <= j < i ==> fs[1..][j].0 != k;
      assert fs[i + 1] == fs[1..][i];
      assert forall j :: 1 <= j < i + 1 ==> fs[j] == fs[1..][j - 1];
    } else {
      assert fs[0] == (k, Lookup(fs, k).value);
    }
  }

  /**
   * PHP `$a[$k] = $v` on an association list: an existing key keeps its place
   * and gets the new value, a new key is appended at the end.
   */
  function Put<V>(fs: seq<(string, V)>, k: string, v: V): (r: seq<(string, V)>)
    ensures Lookup(r, k) == Some(v)
    ensures forall k' :: k' != k ==> Lookup(r, k') == Lookup(fs, k')
    ensures Lookup(fs, k).Some? ==> |r| == |fs|
    ensures Lookup(fs, k).None? ==> r == fs + [(k, v)]
  {
    if |fs| == 0 then [(k, v)]
    else if fs[0].0 == k then [(k, v)] + fs[1..]
    else
      var rest := Put(fs[1..], k, v);
      assert ([fs[0]] + rest)[1..] == rest;
      [fs[0]] + rest
  }

  /** `array_key_exists($k, $v)`; a non-array has no keys. */
  function Get(v: Json, k: string): Option<Json> {
    if v.JObj? then Lookup(v.fields, k) else None
  }

  predicate KeyExists(v: Json, k: string) {
    Get(v, k).Some?
  }

  /** Reading `$v[$k]`: a missing key (or a non-array) reads as null. */
  function Read(v: Json, k: string): Json {
    Get(v, k).GetOr(JNull)
  }

  /** PHP `isset($v[$k])`. */
  predicate Isset(v: Json, k: string) {
    Read(v, k) != JNull
  }

  /** The values of an array in iteration order; a non-array has none. */
  function Elements(v: Json): (r: seq<Json>)
    ensures IsArray(v) ==> (|r| == 0 <==> Empty(v))
    ensures v.JList? ==> r == v.items
    ensures v.JObj? ==> |r| == |v.fields| && forall i :: 0 <= i < |r| ==> r[i] == v.fields[i].1
    ensures !IsArray(v) ==> r == []
  {
    match v
    case JList(xs) => xs
    case JObj(fs) => seq(|fs|, i requires 0 <= i < |fs| => fs[i].1)
    case _ => []
  }

  /**
   * PHP `$v[0]`: the element at index 0 of an array, the first character of a
   * string (the empty string reads as ""), and null for other scalars.
   */
  function At0(v: Json): (r: Json)
    ensures v.JList? && |v.items| > 0 ==> r == v.items[0]
    ensures v.JStr? && |v.s| > 0 ==> r == JStr([v.s[0]])
  {
    match v
    case JList(xs) => if |xs| > 0 then xs[0] else JNull
    case JObj(_) => Read(v, "0")
    case JStr(s) => if |s| > 0 then JStr([s[0]]) else JStr("")
    case _ => JNull
  }

  /**
   * PHP `reset($v)`: the first value of an array, `false` for an empty one;
   * on a non-array PHP 7 warns and yields null.
   */
  function FirstValue(v: Json): (r: Json)
    ensures IsArray(v) && Truthy(v) ==> r == Elements(v)[0]
    ensures IsArray(v) && Empty(v) ==> r == JBool(false)
    ensures !IsArray(v) ==> r == JNull
  {
    if !IsArray(v) then JNull
    else
      var xs := Elements(v);
      if |xs| == 0 then JBool(false) else xs[0]
  }

  function DigitChar(d: nat): (c: char)
    requires d < 10
    ensures '0' <= c <= '9'
  {
    "0123456789"[d]
  }

  /** Decimal notation of a natural number, without leading zeros. */
  function NatString(n: nat): (r: string)
    ensures |r| > 0
    ensures forall i :: 0 <= i < |r| ==> '0' <= r[i] <= '9'
    decreases n
  {
    if n < 10 then [DigitChar(n)] else NatString(n / 10) + [DigitChar(n % 10)]
  }

  function IntString(i: int): (r: string)
    ensures |r| > 0
    ensures forall k :: 0 <= k < |r| ==> r[k] == '-' || '0' <= r[k] <= '9'
  {
    if i < 0 then "-" + NatString(-i) else NatString(i)
  }

  /**
   * PHP's string conversion `(string)$v`, as `array_intersect` and
   * `DateTimeImmutable` apply it: null and false give "", true gives "1",
   * an array gives "Array" (with a notice).
   */
  function StrCast(v: Json): string {
    match v
    case JNull => ""
    case JBool(b) => if b then "1" else ""
    case JInt(i) => IntString(i)
    case JStr(s) => s
    case JList(_) => "Array"
    case JObj(_) => "Array"
  }

  /**
   * No conversion of null, a boolean, an integer or an array contains a
   * colon, so a converted value containing one was that very string.
   */
  lemma StrCastWithColon(v: Json)
    requires ':' in StrCast(v)
    ensures v == JStr(StrCast(v))
  {
  }
}
