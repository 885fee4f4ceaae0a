/**
 * The consumer as an object: `@http` and `@uri` change as requests are made, and access-token
 * calls to other services put both back.
 */
module Connection {
  import opened Wrappers
  import opened Bytes
  import opened Uris
  import opened Consumer

  // ---------------------------------------------------------------- specification of the access token

  /** URI#normalize as URI#== uses it. */
  function Normal(u: Uri): Uri {
    Uri(Downcase(u.scheme), Downcase(u.host), u.port, PathText(u), u.query)
  }

  predicate SameUri(u: Uri, v: Uri) {
    Normal(u) == Normal(v)
  }

  /** `consumer.uri(u)`: the URI is replaced and the connection re-created, to site or endpoint. */
  function WithUri(c: Config, st: State, u: Uri): (State, bool) {
    match CreateHttp(c, None)
    case None => (st.(uri := Some(u)), false)
    case Some(t) => (State(Some(t), Some(u), st.log), true)
  }

  /** Whether an access-token call leaves the consumer's own service. */
  predicate OtherService(site: Uri, p: Parsed) {
    p.Absolute? && !SameUri(p.uri, site)
  }

  /** `AccessToken#request`; the outcome is the reply, or Raised for any error on the way. */
  function TokenCall(c: Config, st: State, call: Call, path: Bytes): (State, Reply) {
    match c.lib.parse(path)
    case None => (st, Raised)
    case Some(p) =>
      var site := st.uri.GetOr(c.site);
      var st0 := st.(uri := Some(site));
      if !OtherService(site, p) then MakeRequest(c, st0, call, path, map[])
      else
        var (st1, swapped) := WithUri(c, st0, p.uri);
        var (st2, reply) := if swapped then MakeRequest(c, st1, call, path, map[]) else (st1, Raised);
        var (st3, restored) := WithUri(c, st2, site);
        (st3, if restored then reply else Raised)
  }

  function TokenCalls(c: Config, st: State, calls: seq<(Call, Bytes)>): State
    decreases |calls|
  {
    if calls == [] then st
    else TokenCalls(c, TokenCall(c, st, calls[0].0, calls[0].1).0, calls[1..])
  }

  // ---------------------------------------------------------------- at rest

  predicate SameTargetOrigin(t: Target, u: Target) {
    !CrossOrigin(TargetUri(t), TargetUri(u))
  }

  /** `@http` is unset or connects where the consumer belongs. */
  predicate ConnectedHome(c: Config, http: Option<Target>) {
    http.Some? ==> CreateHttp(c, None).Some? && SameTargetOrigin(http.value, CreateHttp(c, None).value)
  }

  /** `consumer.uri` is the site, and `@http` is unset or connects where the consumer belongs. */
  predicate AtRest(c: Config, st: State) {
    (st.uri.Some? ==> st.uri.value == c.site) && ConnectedHome(c, st.http)
  }

  /** Every URI object the library makes holds its scheme in lower case and its http port. */
  ghost predicate SettledLibrary(c: Config) {
    && Settled(c.site)
    && (forall r :: c.lib.parse(r).Some? && c.lib.parse(r).value.Absolute? ==> Settled(c.lib.parse(r).value.uri))
  }

  lemma SameUriTargets(u: Uri, v: Uri)
    requires Settled(u) && Settled(v) && SameUri(u, v)
    ensures SameTargetOrigin(TargetOf(u), TargetOf(v))
  {
    assert Normal(u).scheme == Normal(v).scheme && Normal(u).host == Normal(v).host && Normal(u).port == Normal(v).port;
  }

  lemma SameTargetReflexive(t: Target)
    ensures SameTargetOrigin(t, t)
  {
  }

  lemma OwnServiceCall(c: Config, st: State, call: Call, path: Bytes)
    requires AtRest(c, st) && SettledLibrary(c) && st.uri == Some(c.site)
    requires c.lib.parse(path).Some? && !OtherService(c.site, c.lib.parse(path).value)
    ensures AtRest(c, MakeRequest(c, st, call, path, map[]).0)
  {
    RequestStep(c, st, call, path, map[]);
    if CreateHttp(c, Some(path)).Some? {
      OwnServiceTarget(c, path);
    }
    if CreateHttp(c, None).Some? {
      SameTargetReflexive(CreateHttp(c, None).value);
    }
  }

  /** The connection re-created for a path of the own service lies on the consumer's origin. */
  lemma OwnServiceTarget(c: Config, path: Bytes)
    requires SettledLibrary(c) && CreateHttp(c, Some(path)).Some?
    requires c.lib.parse(path).Some? && !OtherService(c.site, c.lib.parse(path).value)
    ensures CreateHttp(c, None).Some? && SameTargetOrigin(CreateHttp(c, Some(path)).value, CreateHttp(c, None).value)
  {
    SameTargetReflexive(CreateHttp(c, Some(path)).value);
    var p := c.lib.parse(path).value;
    if p.Absolute? {
      SameUriTargets(p.uri, c.site);
    }
  }

  lemma {:induction false} TokenCallRests(c: Config, st: State, call: Call, path: Bytes)
    requires AtRest(c, st) && SettledLibrary(c)
    ensures AtRest(c, TokenCall(c, st, call, path).0)
  {
    if c.lib.parse(path).Some? {
      var p := c.lib.parse(path).value;
      var st0 := st.(uri := Some(c.site));
      assert st.uri.GetOr(c.site) == c.site;
      if OtherService(c.site, p) {
        OtherServiceRests(c, st0, call, path);
      } else {
        OwnServiceCall(c, st0, call, path);
      }
    }
  }

  lemma OtherServiceRests(c: Config, st: State, call: Call, path: Bytes)
    requires AtRest(c, st) && st.uri == Some(c.site)
    requires c.lib.parse(path).Some? && OtherService(c.site, c.lib.parse(path).value)
    ensures AtRest(c, TokenCall(c, st, call, path).0)
  {
    if CreateHttp(c, None).Some? {
      SameTargetReflexive(CreateHttp(c, None).value);
    }
  }

  /**
   * After any finite sequence of access-token calls, to relative or absolute URLs, each
   * returning or raising anywhere on the way, the consumer is at rest on its site.
   */
  lemma {:induction false} TokenCallsRest(c: Config, st: State, calls: seq<(Call, Bytes)>)
    requires AtRest(c, st) && SettledLibrary(c)
    ensures AtRest(c, TokenCalls(c, st, calls))
    decreases |calls|
  {
    if calls != [] {
      TokenCallRests(c, st, calls[0].0, calls[0].1);
      TokenCallsRest(c, TokenCall(c, st, calls[0].0, calls[0].1).0, calls[1..]);
    }
  }

  // ---------------------------------------------------------------- what an access-token call sends

  /**
   * An access-token call from rest. It sends nothing, and raises, exactly when its URL cannot be
   * read or no connection can be made. Otherwise it sends one request of its own, without options,
   * and answers what the server does. Without a request endpoint that goes to the host its URL
   * names, or else to the site's origin, and asks for the URL's path and query.
   */
  ghost predicate Delivered(c: Config, before: State, after: State, call: Call, path: Bytes, reply: Reply) {
    var sent := NewlySent(before, after);
    && after.log == before.log + sent
    && (sent == [] <==> c.lib.parse(path).None? || CreateHttp(c, None).None?)
    && (sent == [] ==> reply == Raised)
    && (sent != [] ==> |sent| == 1 && reply == c.respond(after.log) && DeliveredAs(c, sent[0], call, path))
  }

  ghost predicate DeliveredAs(c: Config, s: Sent, call: Call, path: Bytes) {
    && s.call == call && s.given == path && s.options == map[]
    && (c.endpoint.None? ==>
          && Reaches(c, Some(s.target), s)
          && (SomeLineRooted(path) ==> SameTargetOrigin(s.target, SiteTarget(c))))
  }

  /** A connection to where the consumer belongs serves a rooted path as well as the one there is. */
  lemma ReachesOver(c: Config, http: Option<Target>, s: Sent)
    requires Reaches(c, http, s)
    ensures Reaches(c, Some(s.target), s)
    ensures SomeLineRooted(s.given) ==> s.target == http.GetOr(SiteTarget(c))
  {
    var asked :| ReachesFor(c, http, s, asked);
    assert ReachesFor(c, Some(s.target), s, asked);
  }

  lemma RequestDelivered(c: Config, st: State, call: Call, path: Bytes)
    requires ConnectedHome(c, st.http) && c.lib.parse(path).Some?
    ensures var (after, reply) := MakeRequest(c, st, call, path, map[]); Delivered(c, st, after, call, path, reply)
  {
    var (after, reply) := MakeRequest(c, st, call, path, map[]);
    RequestStep(c, st, call, path, map[]);
    if c.endpoint.None? && after.log != st.log {
      RequestReaches(c, st, call, path, map[]);
      ReachesOver(c, st.http, after.log[|st.log|]);
      SameTargetReflexive(SiteTarget(c));
    }
  }

  lemma TokenCallDelivers(c: Config, st: State, call: Call, path: Bytes)
    requires AtRest(c, st)
    ensures var (after, reply) := TokenCall(c, st, call, path); Delivered(c, st, after, call, path, reply)
  {
    if c.lib.parse(path).Some? {
      var site := st.uri.GetOr(c.site);
      var st0 := st.(uri := Some(site));
      var p := c.lib.parse(path).value;
      if !OtherService(site, p) {
        RequestDelivered(c, st0, call, path);
      } else if CreateHttp(c, None).Some? {
        var st1 := WithUri(c, st0, p.uri).0;
        SameTargetReflexive(CreateHttp(c, None).value);
        RequestDelivered(c, st1, call, path);
      }
    }
  }

  lemma AccessRests(c: Config, st: State, call: Call, path: Bytes)
    ensures SettledLibrary(c) && AtRest(c, st) ==> AtRest(c, TokenCall(c, st, call, path).0)
    ensures AtRest(c, st) ==>
              Delivered(c, st, TokenCall(c, st, call, path).0, call, path, TokenCall(c, st, call, path).1)
  {
    if AtRest(c, st) {
      TokenCallDelivers(c, st, call, path);
    }
    if SettledLibrary(c) && AtRest(c, st) {
      TokenCallRests(c, st, call, path);
    }
  }

  // ---------------------------------------------------------------- token requests

  /** The connection made for an endpoint, if one is made at all, lies on the consumer's origin. */
  predicate EndpointAtHome(c: Config, path: Bytes) {
    SomeLineRooted(path) || ConnectedHome(c, CreateHttp(c, Some(path)))
  }

  /** A run keeps whatever connection its first request left. */
  lemma RunKeepsFirst(c: Config, st: State, call: Call, path: Bytes, options: Options)
    requires !CrossOriginAllowed(c, options)
    ensures RunTokenRequest(c, st, call, path, options).0.http == FirstStep(c, st, call, path, options).0.http
    ensures RunTokenRequest(c, st, call, path, options).0.uri == st.uri
  {
    var (st1, reply) := FirstStep(c, st, call, path, options);
    var next := NextPath(c, path, options, reply);
    RequestStep(c, st, call, path, TokenRequestOptions(options));
    if next.Some? {
      FollowedRooted(c, path, options, reply.location);
      CountedKeeps(c, options);
      var first := FirstSent(c, st, call, path, options);
      RunKeepsTarget(c, st1, call, next.value, CountedOptions(options));
      RunKeepsUri(c, st1, call, next.value, CountedOptions(options));
    }
  }

  lemma {:induction false} RunKeepsUri(c: Config, st: State, call: Call, path: Bytes, options: Options)
    ensures RunTokenRequest(c, st, call, path, options).0.uri == st.uri
    decreases Budget(c, options)
  {
    var (st1, reply) := FirstStep(c, st, call, path, options);
    var next := NextPath(c, path, options, reply);
    RequestStep(c, st, call, path, TokenRequestOptions(options));
    if next.Some? {
      BudgetSpent(c, path, options, reply.location);
      RunKeepsUri(c, st1, call, next.value, CountedOptions(options));
    }
  }

  /** The connection after the first request. */
  lemma FirstConnection(c: Config, st: State, call: Call, path: Bytes, options: Options)
    requires AtRest(c, st)
    ensures ConnectedHome(c, FirstStep(c, st, call, path, options).0.http) <==> EndpointAtHome(c, path)
  {
    if CreateHttp(c, None).Some? {
      SameTargetReflexive(CreateHttp(c, None).value);
    }
  }

  /**
   * With cross-origin redirects off, whatever the server answers, a token request from rest
   * leaves the consumer at rest exactly when its endpoint lies on the consumer's origin.
   */
  lemma TokenRequestRestsExact(c: Config, st: State, call: Call, path: Bytes, options: Options)
    requires AtRest(c, st) && !CrossOriginAllowed(c, options)
    ensures AtRest(c, RunTokenRequest(c, st, call, path, options).0) <==> EndpointAtHome(c, path)
  {
    RunKeepsFirst(c, st, call, path, options);
    FirstConnection(c, st, call, path, options);
  }

  /** What a consumer is asked to do. */
  datatype Action =
    | Exchange(call: Call, path: Bytes, options: Options)
    | Access(call: Call, path: Bytes)

  function Act(c: Config, st: State, action: Action): State {
    match action
    case Exchange(call, path, options) => RunTokenRequest(c, st, call, path, options).0
    case Access(call, path) => TokenCall(c, st, call, path).0
  }

  function ActAll(c: Config, st: State, actions: seq<Action>): State
    decreases |actions|
  {
    if actions == [] then st else ActAll(c, Act(c, st, actions[0]), actions[1..])
  }

  predicate AllAtHome(c: Config, actions: seq<Action>) {
    forall i :: 0 <= i < |actions| && actions[i].Exchange? ==>
      EndpointAtHome(c, actions[i].path) && !CrossOriginAllowed(c, actions[i].options)
  }

  /** Token requests to endpoints at home and access-token calls, in any order, keep the consumer at rest. */
  lemma {:induction false} MixedCallsRest(c: Config, st: State, actions: seq<Action>)
    requires AtRest(c, st) && SettledLibrary(c) && AllAtHome(c, actions)
    ensures AtRest(c, ActAll(c, st, actions))
    decreases |actions|
  {
    if actions != [] {
      match actions[0]
      case Exchange(call, path, options) =>
        TokenRequestRestsExact(c, st, call, path, options);
        MixedCallsRest(c, Act(c, st, actions[0]), actions[1..]);
      case Access(call, path) =>
        TokenCallRests(c, st, call, path);
        MixedCallsRest(c, Act(c, st, actions[0]), actions[1..]);
    }
  }

  /**
   * Wherever a token request left it, a call to another service brings the consumer home, since
   * restoring the URI re-creates the connection.
   */
  lemma OtherServiceReturns(c: Config, st: State, call: Call, path: Bytes)
    requires st.uri.GetOr(c.site) == c.site && CreateHttp(c, None).Some?
    requires c.lib.parse(path).Some? && OtherService(c.site, c.lib.parse(path).value)
    ensures AtRest(c, TokenCall(c, st, call, path).0)
  {
    SameTargetReflexive(CreateHttp(c, None).value);
  }

  // ---------------------------------------------------------------- the object

  class ConsumerObject {
    const config: Config
    var http: Option<Target>
    var uri: Option<Uri>
    var log: seq<Sent>

    constructor (config: Config)
      ensures this.config == config && View() == State(None, None, [])
    {
      this.config := config;
      http, uri, log := None, None, [];
    }

    function View(): State
      reads this
    {
      State(http, uri, log)
    }

    /** `http`: created for the site on first use. */
    method Http() returns (t: Option<Target>)
      modifies this`http
      ensures t == http == if old(http).Some? then old(http) else CreateHttp(config, None)
    {
      if http.None? {
        http := CreateHttp(config, None);
      }
      t := http;
    }

    /** `uri` without an argument: set to the site on first use. */
    method CurrentSite() returns (u: Uri)
      modifies this`uri
      ensures uri == Some(u) && u == old(uri).GetOr(config.site)
    {
      if uri.None? {
        uri := Some(config.site);
      }
      u := uri.value;
    }

    /** `uri` with an argument; false when re-creating the connection raises. */
    method SetUri(custom: Uri) returns (ok: bool)
      modifies this`uri, this`http
      ensures (View(), ok) == WithUri(config, old(View()), custom)
    {
      uri := Some(custom);
      var created := CreateHttp(config, None);
      ok := created.Some?;
      if ok {
        http := created;
      }
    }

    /** Signs and puts one request on the wire over the current connection. */
    method Transmit(call: Call, given: Bytes, path: Bytes, options: Options) returns (reply: Reply)
      modifies this`http, this`log
      ensures (View(), reply) == Send(config, old(View()), call, given, path, options)
    {
      var t := Http();
      if t.None? {
        return Raised;
      }
      log := log + [Sent(t.value, call, given, WirePath(config, t.value, path), options)];
      reply := config.respond(log);
    }

    /** `request`. */
    method PerformRequest(call: Call, path: Bytes, options: Options) returns (reply: Reply)
      modifies this`http, this`log
      ensures (View(), reply) == MakeRequest(config, old(View()), call, path, options)
    {
      var local := path;
      if !SomeLineRooted(path) {
        var created := CreateHttp(config, Some(path));
        if created.None? {
          return Raised;
        }
        http := created;
        var parsed := config.lib.parse(path);
        if parsed.None? {
          return Raised;
        }
        local := LocalPath(parsed.value);
      }
      reply := Transmit(call, path, local, options);
    }

    /** `token_request`, recursing on every redirect it follows. */
    method PerformTokenRequest(call: Call, path: Bytes, options: Options) returns (outcome: Outcome)
      modifies this`http, this`log
      ensures (View(), outcome) == RunTokenRequest(config, old(View()), call, path, options)
      decreases Budget(config, options)
    {
      var reply := PerformRequest(call, path, TokenRequestOptions(options));
      if reply.Raised? {
        return Failed;
      }
      if 200 <= reply.code <= 299 {
        return Success;
      }
      if 300 <= reply.code <= 399 {
        var next := Followed(config, path, options, reply.location);
        if next.None? {
          return Failed;
        }
        BudgetSpent(config, path, options, reply.location);
        outcome := PerformTokenRequest(call, next.value, CountedOptions(options));
      } else {
        outcome := Failed;
      }
    }

    /** `AccessToken#request`: swap, call, and restore whatever happened in between. */
    method PerformTokenCall(call: Call, path: Bytes) returns (reply: Reply)
      modifies this
      ensures (View(), reply) == TokenCall(config, old(View()), call, path)
      ensures SettledLibrary(config) && old(AtRest(config, View())) ==> AtRest(config, View())
      ensures old(AtRest(config, View())) ==> Delivered(config, old(View()), View(), call, path, reply)
    {
      AccessRests(config, View(), call, path);
      var parsed := config.lib.parse(path);
      if parsed.None? {
        return Raised;
      }
      var site := CurrentSite();
      if OtherService(site, parsed.value) {
        var swapped := SetUri(parsed.value.uri);
        reply := Raised;
        if swapped {
          reply := PerformRequest(call, path, map[]);
        }
        var restored := SetUri(site);
        if !restored {
          reply := Raised;
        }
      } else {
        reply := PerformRequest(call, path, map[]);
      }
    }
  }
}
