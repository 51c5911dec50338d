/**
 * Header hints carried inside a media URL's `token` query parameter, a JWS compact
 * serialisation (section 7.1 of RFC 7515) whose second segment is base64url
 * (section 5 of RFC 4648). The signature is never checked.
 */
module TokenHeaders {
  import opened Wrappers
  import opened JsValues

  /** What the controller reads from a WHATWG `URL`: its serialisation, its pathname and `searchParams.get("token")`. */
  datatype Url = Url(href: string, pathname: string, token: Option<string>)

  /**
   * The library calls the controller makes on strings: `new URL(s)` (None: it throws), and
   * base64 decoding followed by UTF-8 decoding and `JSON.parse` (None: `JSON.parse` throws).
   */
  datatype Codecs = Codecs(parseUrl: string -> Option<Url>, decodeJson: string -> Option<Json>)

  /** `parts.join(sep)`. */
  function Join(parts: seq<string>, sep: char): string
    requires |parts| >= 1
  {
    if |parts| == 1 then parts[0] else parts[0] + [sep] + Join(parts[1..], sep)
  }

  /** `s.split(sep)` for a one-character separator: the pieces between separators, empty ones included. */
  function Split(s: string, sep: char): (parts: seq<string>)
    ensures |parts| >= 1
    ensures forall i :: 0 <= i < |parts| ==> sep !in parts[i]
    ensures Join(parts, sep) == s
    ensures |parts| == 1 <==> sep !in s
  {
    if s == [] then [""]
    else
      var rest := Split(s[1..], sep);
      if s[0] == sep then
        assert ([""] + rest)[1..] == rest;
        [""] + rest
      else
        var parts := [[s[0]] + rest[0]] + rest[1..];
        assert parts[1..] == rest[1..];
        assert |rest| > 1 ==> rest[0] + [sep] + Join(rest[1..], sep) == Join(rest, sep);
        assert s == [s[0]] + s[1..];
        parts
  }

  /** Splitting after a separator-free piece and a separator gives that piece, then the rest's pieces. */
  lemma {:induction false} SplitAfter(a: string, sep: char, b: string)
    requires sep !in a
    ensures Split(a + [sep] + b, sep) == [a] + Split(b, sep)
  {
    var s := a + [sep] + b;
    if a == [] {
      assert s[0] == sep && s[1..] == b;
    } else {
      assert s[0] == a[0] && a[0] != sep;
      assert s[1..] == a[1..] + [sep] + b;
      var rest := Split(s[1..], sep);
      SplitAfter(a[1..], sep, b);
      assert rest == [a[1..]] + Split(b, sep);
      assert Split(s, sep) == [[a[0]] + rest[0]] + rest[1..];
      assert [a[0]] + a[1..] == a;
    }
  }

  /** Splitting undoes joining pieces that hold no separator. */
  lemma {:induction false} SplitJoin(parts: seq<string>, sep: char)
    requires |parts| >= 1
    requires forall i :: 0 <= i < |parts| ==> sep !in parts[i]
    ensures Split(Join(parts, sep), sep) == parts
  {
    if |parts| == 1 {
      var only := Split(parts[0], sep);
      assert Join(only, sep) == only[0];
    } else {
      SplitJoin(parts[1..], sep);
      SplitAfter(parts[0], sep, Join(parts[1..], sep));
      assert [parts[0]] + parts[1..] == parts;
    }
  }

  /** The second piece of `header.payload` or `header.payload.signature` is `payload`. */
  lemma SecondSegment(header: string, payload: string, rest: string)
    requires '.' !in header && '.' !in payload
    requires rest == "" || rest[0] == '.'
    ensures var parts := Split(header + "." + payload + rest, '.'); |parts| >= 2 && parts[1] == payload
  {
    var tail := payload + rest;
    assert header + "." + payload + rest == header + ['.'] + tail;
    SplitAfter(header, '.', tail);
    FirstSegment(payload, rest);
  }

  /** The first piece of a separator-free string followed by nothing or by a separator is that string. */
  lemma FirstSegment(payload: string, rest: string)
    requires '.' !in payload
    requires rest == "" || rest[0] == '.'
    ensures Split(payload + rest, '.')[0] == payload
  {
    if rest == "" {
      assert payload + rest == payload;
      var parts := Split(payload, '.');
      assert Join(parts, '.') == parts[0];
    } else {
      var signature := rest[1..];
      assert payload + rest == payload + ['.'] + signature by {
        assert rest == ['.'] + signature;
      }
      SplitAfter(payload, '.', signature);
    }
  }

  /** `s.replace(/from/g, to)` for one character. */
  function ReplaceChar(s: string, from: char, to: char): string
  {
    seq(|s|, i requires 0 <= i < |s| => if s[i] == from then to else s[i])
  }

  /** `s.padEnd(n, fill)` with a one-character fill. */
  function PadEnd(s: string, n: nat, fill: char): string
  {
    if |s| >= n then s else s + seq(n - |s|, _ => fill)
  }

  /** The standard-alphabet character (section 4 of RFC 4648) for a base64url one (section 5). */
  function StandardChar(c: char): char
  {
    if c == '-' then '+' else if c == '_' then '/' else c
  }

  /**
   * The string handed to the base64 decoder: '-' and '_' rewritten to '+' and '/', then
   * '=' appended up to `Math.ceil(n / 4) * 4` characters.
   */
  function StandardBase64(segment: string): (b: string)
    ensures |b| % 4 == 0 && |segment| <= |b| < |segment| + 4
    ensures forall i :: 0 <= i < |segment| ==> b[i] == StandardChar(segment[i])
    ensures forall i :: |segment| <= i < |b| ==> b[i] == '='
  {
    var translated := ReplaceChar(ReplaceChar(segment, '-', '+'), '_', '/');
    PadEnd(translated, (|segment| + 3) / 4 * 4, '=')
  }

  /** What `decodeJwtPayload` does: it returns a value (`null` among them) or throws. */
  datatype Decoded = Returned(value: Json) | Threw

  /** `decodeJwtPayload(token)` for a string token. */
  function DecodeJwtPayload(token: string, decodeJson: string -> Option<Json>): (r: Decoded)
    ensures '.' !in token ==> r == Returned(JNull)
    ensures r == Threw ==> '.' in token
  {
    if token == "" then Returned(JNull)
    else
      var parts := Split(token, '.');
      if |parts| < 2 then Returned(JNull)
      else
        match decodeJson(StandardBase64(parts[1]))
        case None => Threw
        case Some(v) => Returned(v)
  }

  /** Only the payload segment is decoded: the header and the signature play no part. */
  lemma DecodesPayloadOnly(header: string, payload: string, rest: string, decodeJson: string -> Option<Json>)
    requires '.' !in header && '.' !in payload
    requires rest == "" || rest[0] == '.'
    ensures var r := DecodeJwtPayload(header + "." + payload + rest, decodeJson);
      && (r == Threw <==> decodeJson(StandardBase64(payload)).None?)
      && (r.Returned? ==> decodeJson(StandardBase64(payload)) == Some(r.value))
  {
    SecondSegment(header, payload, rest);
  }

  /** `payload.headers` for a parsed payload; None stands for `undefined`. */
  function HeadersField(payload: Json): Option<Json>
  {
    if payload.JObject? && "headers" in payload.fields then Some(payload.fields["headers"]) else None
  }

  /** `searchParams.get("token")` when the URL parses and the token is a non-empty string. */
  function TokenOf(mediaUrl: string, codecs: Codecs): Option<string>
  {
    match codecs.parseUrl(mediaUrl)
    case None => None
    case Some(url) => if url.token.Some? && url.token.value != "" then url.token else None
  }

  /** `parseTokenHeaders(mediaUrl)`: a token's `headers` object, or `{}` whenever anything is missing or throws. */
  function ParseTokenHeaders(mediaUrl: string, codecs: Codecs): (r: Json)
    ensures IsNonNullObject(r)
    ensures TokenOf(mediaUrl, codecs).None? ==> r == EMPTY_OBJECT
    ensures TokenOf(mediaUrl, codecs).Some? && '.' !in TokenOf(mediaUrl, codecs).value ==> r == EMPTY_OBJECT
  {
    match codecs.parseUrl(mediaUrl)
    case None => EMPTY_OBJECT
    case Some(url) =>
      if url.token.None? || url.token.value == "" then EMPTY_OBJECT
      else
        match DecodeJwtPayload(url.token.value, codecs.decodeJson)
        case Threw => EMPTY_OBJECT
        case Returned(payload) =>
          var headers := HeadersField(payload);
          if Truthy(payload) && headers.Some? && IsNonNullObject(headers.value) then headers.value
          else EMPTY_OBJECT
  }

  /**
   * For a URL whose token is `header.payload[.signature]`: the result is the decoded
   * payload's `headers` exactly when the payload decodes to an object whose `headers` is an
   * object or an array, and `{}` otherwise.
   */
  lemma TokenHeadersFromPayload(mediaUrl: string, codecs: Codecs, header: string, payload: string, rest: string)
    requires codecs.parseUrl(mediaUrl).Some?
    requires codecs.parseUrl(mediaUrl).value.token == Some(header + "." + payload + rest)
    requires '.' !in header && '.' !in payload
    requires rest == "" || rest[0] == '.'
    ensures var decoded := codecs.decodeJson(StandardBase64(payload));
      var r := ParseTokenHeaders(mediaUrl, codecs);
      && (decoded.None? ==> r == EMPTY_OBJECT)
      && (decoded.Some? && HeadersField(decoded.value).Some? && IsNonNullObject(HeadersField(decoded.value).value) ==>
            r == decoded.value.fields["headers"])
      && (decoded.Some? && (HeadersField(decoded.value).None? || !IsNonNullObject(HeadersField(decoded.value).value)) ==>
            r == EMPTY_OBJECT)
  {
    assert header + "." + payload + rest != "";
    DecodesPayloadOnly(header, payload, rest, codecs.decodeJson);
  }

  function EndsWith(s: string, suffix: string): bool
  {
    |suffix| <= |s| && s[|s| - |suffix|..] == suffix
  }

  /** `resolveMediaUrl(mediaUrl)`: every path, the `/render.php` one included, returns the input. */
  function ResolveMediaUrl(mediaUrl: string, codecs: Codecs): (r: string)
    ensures r == mediaUrl
  {
    match codecs.parseUrl(mediaUrl)
    case None => mediaUrl
    case Some(url) =>
      if url.token.None? || url.token.value == "" then mediaUrl
      else
        match DecodeJwtPayload(url.token.value, codecs.decodeJson)
        case Threw => mediaUrl
        case Returned(payload) =>
          if !Truthy(payload) || !IsNonNullObject(payload) then mediaUrl
          else if EndsWith(url.pathname, "/render.php") then mediaUrl
          else mediaUrl
  }

  /** The headers every upstream request starts from. */
  const DEFAULT_HEADERS: map<string, Json> := map[
    "User-Agent" := JString("Mozilla/5.0"),
    "Accept" := JString("*/*"),
    "Referer" := JString("https://www.facebook.com/")
  ]

  /**
   * `buildUpstreamHeaders(raw, resolved)`: the defaults, overlaid by the raw URL's token
   * headers, overlaid by the resolved URL's. Keys compare exactly (case matters).
   */
  function BuildUpstreamHeaders(rawMediaUrl: string, resolvedMediaUrl: string, codecs: Codecs): (h: map<string, Json>)
    ensures var raw := OwnEntries(ParseTokenHeaders(rawMediaUrl, codecs));
      var resolved := OwnEntries(ParseTokenHeaders(resolvedMediaUrl, codecs));
      && h.Keys == DEFAULT_HEADERS.Keys + raw.Keys + resolved.Keys
      && (forall k :: k in resolved ==> h[k] == resolved[k])
      && (forall k :: k in raw && k !in resolved ==> h[k] == raw[k])
      && (forall k :: k in DEFAULT_HEADERS && k !in raw && k !in resolved ==> h[k] == DEFAULT_HEADERS[k])
  {
    var raw := OwnEntries(ParseTokenHeaders(rawMediaUrl, codecs));
    var resolved := OwnEntries(ParseTokenHeaders(resolvedMediaUrl, codecs));
    var h := DEFAULT_HEADERS + (raw + resolved);
    assert h.Keys == DEFAULT_HEADERS.Keys + raw.Keys + resolved.Keys;
    h
  }

  /** With no usable token on either URL the request carries exactly the defaults. */
  lemma NoTokenMeansDefaults(rawMediaUrl: string, resolvedMediaUrl: string, codecs: Codecs)
    requires TokenOf(rawMediaUrl, codecs).None? && TokenOf(resolvedMediaUrl, codecs).None?
    ensures BuildUpstreamHeaders(rawMediaUrl, resolvedMediaUrl, codecs) == DEFAULT_HEADERS
  {
    assert OwnEntries(EMPTY_OBJECT) == map[];
    assert DEFAULT_HEADERS + (map[] + map[]) == DEFAULT_HEADERS;
  }
}
