/**
 * Concrete consumers and servers for the two redirect results whose conditions one might
 * doubt: an endless redirect, and a redirect to a path starting with two slashes.
 */
module RedirectExamples {
  import opened Wrappers
  import opened Bytes
  import opened Uris
  import opened Consumer

  /** https://a/ */
  const SITE := Uri(HTTPS, [0x61], Some(443), [SLASH], None)

  /** The location /.//b, whose dot segment goes when it is resolved, and what is left. */
  const DOTTED: Bytes := [SLASH, 0x2E, SLASH, SLASH, 0x62]
  const OTHER: Bytes := [SLASH, SLASH, 0x62]

  function Parse(text: Bytes): Option<Parsed> {
    Some(if DoubleSlash(text) then NetworkPath(text[2..], None, [], None) else Relative(text, None))
  }

  function Resolve(base: Uri, text: Bytes): Option<Uri> {
    Some(if DoubleSlash(text) then Uri(base.scheme, text[2..], DefaultPort(base), [], None)
         else base.(path := if text == DOTTED then OTHER else text, query := None))
  }

  function Render(u: Uri): Bytes {
    NormalizedUri(u)
  }

  function Always(location: Bytes): seq<Sent> -> Reply {
    log => Answer(302, Some(location))
  }

  /** A consumer of SITE whose server answers every request with the same redirect. */
  function Redirected(limit: nat, location: Bytes): Config {
    Config(SITE, None, Number(limit), Flag(false), Library(Parse, Resolve, Render), Always(location))
  }

  lemma ResolvesLikeRfc3986(limit: nat, location: Bytes)
    ensures Rfc3986(Redirected(limit, location).lib) && HttpSite(Redirected(limit, location))
  {
    SchemesLower();
  }

  lemma RootIsEndless(limit: nat)
    ensures Endless(Redirected(limit, [SLASH]), [SLASH])
  {
    SchemesLower();
  }

  /** For every limit, some consumer and server make exactly one request more than the limit. */
  lemma LimitIsReached(limit: nat, call: Call)
    ensures var c := Redirected(limit, [SLASH]);
            && Rfc3986(c.lib)
            && RunTokenRequest(c, State(None, None, []), call, [SLASH], map[]).1 == Failed
            && |RunSent(c, State(None, None, []), call, [SLASH], map[])| == limit + 1
  {
    ResolvesLikeRfc3986(limit, [SLASH]);
    RootIsEndless(limit);
    EndlessRedirectsCutOff(Redirected(limit, [SLASH]), State(None, None, []), call, [SLASH], map[], [SLASH]);
  }

  /** A redirect to /.//b is followed to https://a//b, while the next one is judged against host b. */
  lemma DivergenceHappens(limit: nat, call: Call)
    requires limit >= 1
    ensures var c := Redirected(limit, DOTTED);
            var sent := RunSent(c, State(None, None, []), call, [SLASH], map[]);
            && Rfc3986(c.lib)
            && |sent| >= 2 && sent[1].given == OTHER
            && OnOrigin(sent[1].target, SITE)
            && !OnOrigin(sent[1].target, CurrentUri(c, OTHER).value)
  {
    var c := Redirected(limit, DOTTED);
    ResolvesLikeRfc3986(limit, DOTTED);
    RootedLine([SLASH]);
    OtherHost(c, limit);
    DoubleSlashDiverges(c, State(None, None, []), call, [SLASH], map[], DOTTED, OTHER);
  }

  lemma OtherHost(c: Config, limit: nat)
    requires c == Redirected(limit, DOTTED)
    ensures CurrentUri(c, [SLASH]) == Some(SITE)
    ensures c.lib.merge(SITE, DOTTED) == Some(SITE.(path := OTHER, query := None))
    ensures CurrentUri(c, OTHER).Some? && c.lib.parse(OTHER) == Some(NetworkPath([0x62], None, [], None))
    ensures Downcase([0x62]) != Downcase(SITE.host)
  {
    assert OTHER[2..] == [0x62];
    assert Downcase([0x62])[0] == 0x62 && Downcase(SITE.host)[0] == 0x61;
  }
}
