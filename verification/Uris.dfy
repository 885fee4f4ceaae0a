/**
 * URIs as records, the base string URI of section 3.4.1.2 of RFC 5849, and the consumer's
 * same-origin test.
 */
module Uris {
  import opened Wrappers
  import opened Bytes

  datatype Uri = Uri(scheme: Bytes, host: Bytes, port: Option<nat>, path: Bytes, query: Option<Bytes>)

  const COLON: Byte := 0x3A
  const BRACKET: Byte := 0x5B
  const CLOSE_BRACKET: Byte := 0x5D

  // ---------------------------------------------------------------- decimal ports

  function Digits(n: nat): Bytes {
    if n < 10 then [0x30 + n] else Digits(n / 10) + [0x30 + n % 10]
  }

  function DigitsValue(s: Bytes): int {
    if s == [] then 0 else 10 * DigitsValue(s[..|s| - 1]) + s[|s| - 1] - 0x30
  }

  lemma {:induction false} DigitsRoundTrip(n: nat)
    ensures DigitsValue(Digits(n)) == n
    ensures forall i :: 0 <= i < |Digits(n)| ==> 0x30 <= Digits(n)[i] <= 0x39
  {
    if n < 10 {
      assert Digits(n)[..0] == [];
    } else {
      DigitsRoundTrip(n / 10);
      assert Digits(n)[..|Digits(n)| - 1] == Digits(n / 10);
    }
  }

  // ---------------------------------------------------------------- the two notions

  const HTTP: Bytes := [0x68, 0x74, 0x74, 0x70]
  const HTTPS: Bytes := [0x68, 0x74, 0x74, 0x70, 0x73]

  /** Whether `normalized_uri` writes the port out. */
  predicate ShowsPort(u: Uri) {
    || (Downcase(u.scheme) == HTTP && u.port != Some(80))
    || (Downcase(u.scheme) == HTTPS && u.port != Some(443))
  }

  function PortText(u: Uri): Bytes {
    if !ShowsPort(u) then [] else [COLON] + if u.port.Some? then Digits(u.port.value) else []
  }

  function PathText(u: Uri): Bytes {
    if u.path != [] then u.path else [SLASH]
  }

  function NormalizedUri(u: Uri): Bytes {
    Downcase(u.scheme) + [COLON] + [SLASH, SLASH] + Downcase(u.host) + PortText(u) + PathText(u)
  }

  function DefaultPort(u: Uri): Option<nat> {
    if u.scheme == HTTPS then Some(443) else if u.scheme == HTTP then Some(80) else None
  }

  function EffectivePort(u: Uri): Option<nat> {
    if u.port.Some? then u.port else DefaultPort(u)
  }

  predicate CrossOrigin(current: Uri, redirected: Uri) {
    || Downcase(current.scheme) != Downcase(redirected.scheme)
    || Downcase(current.host) != Downcase(redirected.host)
    || EffectivePort(current) != EffectivePort(redirected)
  }

  // ---------------------------------------------------------------- reading the text apart

  predicate PlainHost(h: Bytes) {
    Free(h, {COLON, SLASH}) && (h != [] ==> h[0] != BRACKET)
  }

  /** An IP literal, whose colons stand between brackets. */
  predicate BracketedHost(h: Bytes) {
    |h| >= 2 && h[0] == BRACKET && h[|h| - 1] == CLOSE_BRACKET && Free(h[..|h| - 1], {CLOSE_BRACKET})
  }

  /** What URI.parse guarantees of an http or https URI with a host. */
  predicate IsHttp(u: Uri) {
    && Downcase(u.scheme) in {HTTP, HTTPS}
    && (PlainHost(Downcase(u.host)) || BracketedHost(Downcase(u.host)))
    && u.port.Some?
    && (u.path != [] ==> u.path[0] == SLASH)
  }

  /** What a normalized URI shows: scheme, host, the port if one is written, and the path. */
  datatype Shown = Shown(scheme: Bytes, host: Bytes, port: Option<int>, path: Bytes)

  /** How far a host reaches: to the closing bracket of an IP literal, else to `:` or `/`. */
  function HostLength(text: Bytes): (n: nat)
    ensures n <= |text|
  {
    if text == [] then 0
    else if text[0] == BRACKET then BytesUntil(text, {CLOSE_BRACKET}, true)
    else BytesUntil(text, {COLON, SLASH}, false)
  }

  /** Reads a normalized URI from left to right. */
  function ReadUri(text: Bytes): Shown {
    var n := BytesUntil(text, {COLON}, false);
    var afterScheme := if n + 3 <= |text| then text[n + 3..] else [];
    var h := HostLength(afterScheme);
    var afterHost := afterScheme[h..];
    if afterHost != [] && afterHost[0] == COLON then
      var d := BytesUntil(afterHost[1..], {SLASH}, false);
      Shown(text[..n], afterScheme[..h], Some(DigitsValue(afterHost[1..][..d])), afterHost[1..][d..])
    else Shown(text[..n], afterScheme[..h], None, afterHost)
  }

  predicate StartsAfterHost(t: Bytes) {
    t != [] && t[0] in {COLON, SLASH}
  }

  lemma HostReadBack(h: Bytes, t: Bytes)
    requires PlainHost(h) || BracketedHost(h)
    requires StartsAfterHost(t)
    ensures HostLength(h + t) == |h|
  {
    if PlainHost(h) {
      UntilAppended(h, t[0], t[1..], {COLON, SLASH}, false);
      assert h + [t[0]] + t[1..] == h + t;
      assert (h + t)[0] == if h == [] then t[0] else h[0];
    } else {
      var n := |h| - 1;
      UntilAppended(h[..n], CLOSE_BRACKET, t, {CLOSE_BRACKET}, true);
      assert h[..n] + [CLOSE_BRACKET] + t == h + t;
    }
  }

  lemma PathShape(u: Uri)
    requires IsHttp(u)
    ensures PathText(u) == [SLASH] + PathText(u)[1..]
  {
  }

  /** After the host: a port and its digits, or the path at once. */
  lemma PortReadBack(u: Uri)
    requires IsHttp(u) && ShowsPort(u)
    ensures var t := PortText(u) + PathText(u);
            var d := BytesUntil(t[1..], {SLASH}, false);
            t[0] == COLON && DigitsValue(t[1..][..d]) == u.port.value && t[1..][d..] == PathText(u)
  {
    var digits := Digits(u.port.value);
    PathShape(u);
    DigitsRoundTrip(u.port.value);
    UntilAppended(digits, SLASH, PathText(u)[1..], {SLASH}, false);
    assert (PortText(u) + PathText(u))[1..] == digits + [SLASH] + PathText(u)[1..];
    assert (digits + [SLASH] + PathText(u)[1..])[..|digits|] == digits;
    assert (digits + [SLASH] + PathText(u)[1..])[|digits|..] == PathText(u);
  }

  /** The port that goes without saying. */
  predicate DefaultedPort(u: Uri) {
    u.port == Some(if Downcase(u.scheme) == HTTPS then 443 else 80)
  }

  lemma SchemesDiffer()
    ensures HTTP != HTTPS
  {
    assert |HTTP| != |HTTPS|;
  }

  /** The text behind the scheme's colon and two slashes. */
  function AfterScheme(u: Uri): Bytes {
    Downcase(u.host) + (PortText(u) + PathText(u))
  }

  lemma UriParts(u: Uri)
    ensures NormalizedUri(u) == Downcase(u.scheme) + [COLON] + ([SLASH, SLASH] + AfterScheme(u))
  {
    var a := Downcase(u.scheme) + [COLON] + [SLASH, SLASH];
    Assoc(a, Downcase(u.host), PortText(u));
    Assoc(a, Downcase(u.host) + PortText(u), PathText(u));
    Assoc(Downcase(u.host), PortText(u), PathText(u));
    Assoc(Downcase(u.scheme) + [COLON], [SLASH, SLASH], AfterScheme(u));
  }

  lemma AfterSchemeReadBack(u: Uri)
    requires IsHttp(u)
    ensures var text, n := NormalizedUri(u), |u.scheme|;
            && BytesUntil(text, {COLON}, false) == n && text[..n] == Downcase(u.scheme)
            && n + 3 <= |text| && text[n + 3..] == AfterScheme(u)
  {
    var scheme, rest := Downcase(u.scheme), [SLASH, SLASH] + AfterScheme(u);
    assert Free(scheme, {COLON});
    UriParts(u);
    UntilAppended(scheme, COLON, rest, {COLON}, false);
    CutAt(scheme, COLON, rest);
    assert NormalizedUri(u)[|scheme| + 1..] == rest;
    assert NormalizedUri(u)[|scheme| + 3..] == rest[2..];
  }

  /**
   * A normalized URI reads back: lower-case scheme and host, the path with "" as "/", and the
   * port exactly when it is not the scheme's default.
   */
  lemma UriRoundTrip(u: Uri)
    requires IsHttp(u)
    ensures ReadUri(NormalizedUri(u)) ==
            Shown(Downcase(u.scheme), Downcase(u.host), if DefaultedPort(u) then None else Some(u.port.value),
                  if u.path == [] then [SLASH] else u.path)
  {
    var t := PortText(u) + PathText(u);
    SchemesDiffer();
    AfterSchemeReadBack(u);
    PathShape(u);
    HostReadBack(Downcase(u.host), t);
    assert (Downcase(u.host) + t)[..|u.host|] == Downcase(u.host) && (Downcase(u.host) + t)[|u.host|..] == t;
    if ShowsPort(u) {
      PortReadBack(u);
    }
  }

  /**
   * Two normalized URIs are equal exactly when the consumer's test calls the URIs same-origin
   * and their paths agree, an empty path read as "/".
   */
  lemma NormalizedUriExact(u: Uri, v: Uri)
    requires IsHttp(u) && IsHttp(v)
    ensures NormalizedUri(u) == NormalizedUri(v) <==> !CrossOrigin(u, v) && PathText(u) == PathText(v)
  {
    if NormalizedUri(u) == NormalizedUri(v) {
      UriRoundTrip(u);
      UriRoundTrip(v);
    }
  }

  /** A missing port counts as the scheme's own. */
  lemma MissingPort(u: Uri)
    requires u.scheme in {HTTP, HTTPS} && u.port.None?
    ensures forall port: nat :: !CrossOrigin(u, u.(port := Some(port))) <==> port == if |u.scheme| == 4 then 80 else 443
  {
    SchemesDiffer();
  }
}
