/**
 * The JavaScript values the controller inspects: what `JSON.parse` can return,
 * JavaScript truthiness on them, and what object spread `{...v}` copies out of them.
 */
module JsValues {

  /** A value produced by `JSON.parse`. Duplicate keys keep the last one, as a map does. */
  datatype Json =
    | JNull
    | JBool(b: bool)
    | JNumber(n: real)
    | JString(s: string)
    | JArray(items: seq<Json>)
    | JObject(fields: map<string, Json>)

  /** The object literal `{}`. */
  const EMPTY_OBJECT: Json := JObject(map[])

  /** JavaScript's ToBoolean on a parsed value (JSON has no NaN and no `undefined`). */
  predicate Truthy(v: Json)
  {
    match v
    case JNull => false
    case JBool(b) => b
    case JNumber(n) => n != 0.0
    case JString(s) => s != ""
    case JArray(_) => true
    case JObject(_) => true
  }

  /** `typeof v === "object" && v`: an object or an array, never `null`. */
  predicate IsNonNullObject(v: Json)
  {
    v.JObject? || v.JArray?
  }

  /** JavaScript's `a || b` on two strings: the empty string is the only falsy one. */
  function Or(a: string, b: string): string
  {
    if a != "" then a else b
  }

  predicate IsDigitChar(c: char)
  {
    '0' <= c <= '9'
  }

  function DigitChar(d: nat): (c: char)
    requires d < 10
    ensures IsDigitChar(c) && (c - '0') as nat == d
  {
    (d + '0' as int) as char
  }

  /** The canonical decimal spelling of a natural number, as JavaScript writes an array index key. */
  function Decimal(n: nat): (s: string)
    ensures |s| >= 1
    ensures forall i :: 0 <= i < |s| ==> IsDigitChar(s[i])
  {
    if n < 10 then [DigitChar(n)] else Decimal(n / 10) + [DigitChar(n % 10)]
  }

  /** The number a string of decimal digits denotes. */
  function DecimalValue(s: string): nat
    requires forall i :: 0 <= i < |s| ==> IsDigitChar(s[i])
  {
    if s == [] then 0
    else
      var last := s[|s| - 1];
      assert IsDigitChar(last);
      DecimalValue(s[..|s| - 1]) * 10 + (last as int - '0' as int)
  }

  /** Reading a decimal spelling back gives the number: distinct indices get distinct keys. */
  lemma {:induction false} DecimalRoundTrip(n: nat)
    ensures DecimalValue(Decimal(n)) == n
  {
    if n >= 10 {
      DecimalRoundTrip(n / 10);
      var s := Decimal(n);
      assert s[..|s| - 1] == Decimal(n / 10);
    }
  }

  /** `k` is the key JavaScript uses for one of the first `n` indices of an array. */
  predicate IsIndexKey(k: string, n: nat)
  {
    (forall i :: 0 <= i < |k| ==> IsDigitChar(k[i])) && DecimalValue(k) < n && k == Decimal(DecimalValue(k))
  }

  /** The own properties of an array: each element under the decimal spelling of its index, and nothing else. */
  function IndexEntries(items: seq<Json>): (m: map<string, Json>)
    ensures forall i :: 0 <= i < |items| ==> Decimal(i) in m && m[Decimal(i)] == items[i]
    ensures forall k :: k in m ==> IsIndexKey(k, |items|)
  {
    if items == [] then map[]
    else
      var n := |items| - 1;
      var prefix := IndexEntries(items[..n]);
      DecimalRoundTrip(n);
      assert forall i :: 0 <= i < n ==> Decimal(i) != Decimal(n) by {
        forall i | 0 <= i < n ensures Decimal(i) != Decimal(n) {
          DecimalRoundTrip(i);
        }
      }
      assert IsIndexKey(Decimal(n), |items|);
      assert forall i :: 0 <= i < n ==> items[..n][i] == items[i];
      prefix[Decimal(n) := items[n]]
  }

  /** The properties object spread `{...v}` copies out of an object or an array. */
  function OwnEntries(v: Json): (m: map<string, Json>)
    requires IsNonNullObject(v)
    ensures v.JObject? ==> m == v.fields
    ensures v.JArray? ==> forall i :: 0 <= i < |v.items| ==> Decimal(i) in m && m[Decimal(i)] == v.items[i]
    ensures v.JArray? ==> forall k :: k in m ==> IsIndexKey(k, |v.items|)
  {
    if v.JObject? then v.fields else IndexEntries(v.items)
  }
}
