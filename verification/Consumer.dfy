/**
 * The consumer's connection state, its token-request redirect loop against an arbitrary
 * server, and the access token's swap and restore of the consumer's URI.
 */
module Consumer {
  import opened Wrappers
  import opened Bytes
  import opened Uris

  // ---------------------------------------------------------------- the URI library

  /** What URI.parse makes of a text; `hasHost` is false for the likes of mailto: URIs. */
  datatype Parsed =
    | Absolute(uri: Uri, hasHost: bool)
    | NetworkPath(host: Bytes, port: Option<nat>, path: Bytes, query: Option<Bytes>)
    | Relative(path: Bytes, query: Option<Bytes>)

  /** URI.parse, URI#merge and URI#to_s; None stands for a raised error. */
  datatype Library = Library(
    parse: Bytes -> Option<Parsed>,
    merge: (Uri, Bytes) -> Option<Uri>,
    render: Uri -> Bytes)

  predicate Rooted(path: Bytes) {
    path != [] && path[0] == SLASH
  }

  predicate DoubleSlash(path: Bytes) {
    |path| >= 2 && path[0] == SLASH && path[1] == SLASH
  }

  /** The origin part of a URI, as references inherit it. */
  predicate SameAuthority(u: Uri, v: Uri) {
    u.scheme == v.scheme && u.host == v.host && u.port == v.port
  }

  /**
   * Sections 4.2 and 5.2.2 of RFC 3986, as far as origins go: a reference starting with one
   * slash keeps the base's authority; one starting with two names its own.
   */
  ghost predicate Rfc3986(lib: Library) {
    && (forall r :: Rooted(r) && lib.parse(r).Some? ==> (lib.parse(r).value.NetworkPath? <==> DoubleSlash(r)))
    && (forall r :: Rooted(r) && lib.parse(r).Some? ==> !lib.parse(r).value.Absolute?)
    && (forall u, r :: Rooted(r) && !DoubleSlash(r) && lib.merge(u, r).Some? ==>
          SameAuthority(u, lib.merge(u, r).value))
    && (forall u, r ::
          DoubleSlash(r) && lib.merge(u, r).Some? && lib.parse(r).Some? && lib.parse(r).value.NetworkPath? ==>
          var v, p := lib.merge(u, r).value, lib.parse(r).value;
          v.scheme == u.scheme && v.host == p.host && v.port == if p.port.Some? then p.port else DefaultPort(u))
  }

  /** URI objects hold their scheme in lower case, and http and https ones a port. */
  predicate Settled(u: Uri) {
    Downcase(u.scheme) == u.scheme && (u.scheme in {HTTP, HTTPS} ==> u.port.Some?)
  }

  // ---------------------------------------------------------------- configuration and traffic

  /** Values of the control options. */
  datatype OptionValue = Nil | Flag(on: bool) | Number(n: int) | Opaque(text: Bytes)

  datatype OptionKey = TokenRequest | RedirectCount | MaxRedirects | CrossOriginRedirects | Other(name: Bytes)

  type Options = map<OptionKey, OptionValue>

  /** Where Net::HTTP connects. */
  datatype Target = Target(host: Bytes, port: Option<nat>, ssl: bool)

  /** What a request is about apart from its path and options. */
  datatype Call = Call(verb: Bytes, token: Option<Bytes>, arguments: seq<Bytes>)

  /** One request put on the wire; `given` is the path argument it was made with. */
  datatype Sent = Sent(target: Target, call: Call, given: Bytes, path: Bytes, options: Options)

  /** The server's answer, or an error raised by transport or problem reporting. */
  datatype Reply = Raised | Answer(code: int, location: Option<Bytes>)

  datatype Outcome = Success | Failed

  /** `respond` is an arbitrary server: its answer may depend on everything sent so far. */
  datatype Config = Config(
    site: Uri,
    endpoint: Option<Bytes>,
    maxRedirects: OptionValue,
    crossOriginRedirects: OptionValue,
    lib: Library,
    respond: seq<Sent> -> Reply)

  datatype State = State(http: Option<Target>, uri: Option<Uri>, log: seq<Sent>)

  // ---------------------------------------------------------------- connecting and requesting

  function TargetOf(u: Uri): Target {
    Target(u.host, u.port, u.scheme == HTTPS)
  }

  /** `create_http`: a configured request endpoint overrides the given URL. */
  function CreateHttp(c: Config, url: Option<Bytes>): Option<Target> {
    var chosen := if c.endpoint.Some? then c.endpoint else url;
    if chosen.None? || Rooted(chosen.value) then Some(TargetOf(c.site))
    else match c.lib.parse(chosen.value)
      case None => None
      case Some(p) => Some(if p.Absolute? && p.hasHost then TargetOf(p.uri) else TargetOf(c.site))
  }

  /** The test %r{^/}, which looks at the start of every line. */
  predicate SomeLineRooted(path: Bytes) {
    exists i :: 0 <= i < |Split(path, {NEWLINE})| && Rooted(Split(path, {NEWLINE})[i])
  }

  function WithQuery(path: Bytes, query: Option<Bytes>): Bytes {
    path + if query.None? then [] else [0x3F] + query.value
  }

  function LocalPath(p: Parsed): Bytes {
    match p
    case Absolute(u, _) => WithQuery(u.path, u.query)
    case NetworkPath(_, _, path, query) => WithQuery(path, query)
    case Relative(path, query) => WithQuery(path, query)
  }

  /** `create_http_request` puts the site's own path first when talking to the site's host. */
  function WirePath(c: Config, t: Target, path: Bytes): Bytes {
    if c.site.path != [SLASH] && c.site.host == t.host then c.site.path + path else path
  }

  function Send(c: Config, st: State, call: Call, given: Bytes, path: Bytes, options: Options): (State, Reply) {
    match if st.http.Some? then st.http else CreateHttp(c, None)
    case None => (st, Raised)
    case Some(t) =>
      var sent := st.log + [Sent(t, call, given, WirePath(c, t, path), options)];
      (State(Some(t), st.uri, sent), c.respond(sent))
  }

  /** `request`: a path not starting with a slash re-creates the connection. */
  function MakeRequest(c: Config, st: State, call: Call, path: Bytes, options: Options): (State, Reply) {
    if SomeLineRooted(path) then Send(c, st, call, path, path, options)
    else match CreateHttp(c, Some(path))
      case None => (st, Raised)
      case Some(t) =>
        match c.lib.parse(path)
        case None => (st.(http := Some(t)), Raised)
        case Some(p) => Send(c, st.(http := Some(t)), call, path, LocalPath(p), options)
  }

  // ---------------------------------------------------------------- token requests

  /** `token_request_options`: the control keys never reach `request`. */
  function TokenRequestOptions(options: Options): Options {
    options[TokenRequest := Flag(true)] - {RedirectCount, MaxRedirects, CrossOriginRedirects}
  }

  /** The carried count plus nothing yet: nil.to_i is 0, and a flag has no to_i. */
  function CarriedCount(options: Options): Option<int> {
    if RedirectCount !in options || options[RedirectCount].Nil? then Some(0)
    else if options[RedirectCount].Number? then Some(options[RedirectCount].n)
    else None
  }

  predicate Truthy(v: OptionValue) {
    !v.Nil? && v != Flag(false)
  }

  /** The limit, when it can be compared with a number. */
  function RedirectLimit(c: Config, options: Options): Option<int> {
    var given := MaxRedirects in options && Truthy(options[MaxRedirects]);
    var limit := if given then options[MaxRedirects] else c.maxRedirects;
    if limit.Number? then Some(limit.n) else None
  }

  predicate CrossOriginAllowed(c: Config, options: Options) {
    Truthy(if CrossOriginRedirects in options then options[CrossOriginRedirects] else c.crossOriginRedirects)
  }

  /** `token_request_uri`: an absolute path is taken as is, others are resolved against the site. */
  function CurrentUri(c: Config, path: Bytes): Option<Uri> {
    match c.lib.parse(path)
    case None => None
    case Some(p) => if p.Absolute? then Some(p.uri) else c.lib.merge(c.site, path)
  }

  function RedirectedUri(c: Config, current: Uri, location: Option<Bytes>): Option<Uri> {
    if location.GetOr([]) == [] then None else c.lib.merge(current, location.value)
  }

  /** URI::HTTP#request_uri, always starting with a slash; other URIs have none. */
  function RequestUri(u: Uri): Option<Bytes> {
    if u.scheme !in {HTTP, HTTPS} then None
    else
      var text := WithQuery(u.path, u.query);
      Some(if Rooted(text) then text else [SLASH] + text)
  }

  function RedirectPath(c: Config, current: Uri, redirected: Uri): Option<Bytes> {
    if CrossOrigin(current, redirected) then Some(c.lib.render(redirected)) else RequestUri(redirected)
  }

  /** The path of the next request, when a redirect answer is followed. */
  function Followed(c: Config, path: Bytes, options: Options, location: Option<Bytes>): Option<Bytes> {
    match CurrentUri(c, path)
    case None => None
    case Some(current) =>
      match RedirectedUri(c, current, location)
      case None => None
      case Some(redirected) =>
        if CarriedCount(options).None? || RedirectLimit(c, options).None? then None
        else if CarriedCount(options).value + 1 > RedirectLimit(c, options).value then None
        else if CrossOrigin(current, redirected) && !CrossOriginAllowed(c, options) then None
        else RedirectPath(c, current, redirected)
  }

  /** How many redirects may still be followed. */
  function Budget(c: Config, options: Options): nat {
    if CarriedCount(options).None? || RedirectLimit(c, options).None? then 0
    else
      var left := RedirectLimit(c, options).value - CarriedCount(options).value;
      if left > 0 then left else 0
  }

  function CountedOptions(options: Options): Options {
    options[RedirectCount := Number(CarriedCount(options).GetOr(0) + 1)]
  }

  /** The path to go on with after an answer: only a redirect that is followed has one. */
  function NextPath(c: Config, path: Bytes, options: Options, reply: Reply): Option<Bytes> {
    if reply.Answer? && 300 <= reply.code <= 399 then Followed(c, path, options, reply.location) else None
  }

  /** `token_request`: one request, then the redirect it is answered with, while allowed. */
  function RunTokenRequest(c: Config, st: State, call: Call, path: Bytes, options: Options): (State, Outcome)
    decreases Budget(c, options)
  {
    var (st1, reply) := MakeRequest(c, st, call, path, TokenRequestOptions(options));
    var next := NextPath(c, path, options, reply);
    if next.Some? then RunTokenRequest(c, st1, call, next.value, CountedOptions(options))
    else (st1, if reply.Answer? && 200 <= reply.code <= 299 then Success else Failed)
  }

  /** The state after the first request of a run, and what the server said to it. */
  function FirstStep(c: Config, st: State, call: Call, path: Bytes, options: Options): (State, Reply) {
    MakeRequest(c, st, call, path, TokenRequestOptions(options))
  }

  // ---------------------------------------------------------------- single steps

  lemma RootedLine(path: Bytes)
    requires Rooted(path)
    ensures SomeLineRooted(path)
  {
    assert Split(path, {NEWLINE})[0][0] == path[0];
  }

  /** The test looks at every line: a slash after a line break counts as one at the start. */
  lemma LineRooted(path: Bytes, more: Bytes)
    ensures SomeLineRooted(path + [NEWLINE] + ([SLASH] + more))
    ensures NEWLINE !in path ==> (SomeLineRooted(path) <==> Rooted(path))
  {
    var left, right := Split(path, {NEWLINE}), Split([SLASH] + more, {NEWLINE});
    SplitConcat(path, NEWLINE, [SLASH] + more, {NEWLINE});
    assert ([SLASH] + more)[0] == SLASH;
    assert right[0][0] == SLASH;
    assert (left + right)[|left|] == right[0];
    if NEWLINE !in path {
      SplitFree(path, {NEWLINE});
      assert Split(path, {NEWLINE})[0] == path;
    }
  }

  /** What one request puts on the wire, if anything. */
  predicate Carries(s: Sent, http: Option<Target>, call: Call, path: Bytes, options: Options) {
    http == Some(s.target) && s.call == call && s.given == path && s.options == options
  }

  lemma RequestStep(c: Config, st: State, call: Call, path: Bytes, options: Options)
    ensures var (st1, reply) := MakeRequest(c, st, call, path, options);
            && st1.uri == st.uri
            && (reply.Answer? ==> st1.log != st.log)
            && (st1.log != st.log ==> reply == c.respond(st1.log))
            && (SomeLineRooted(path) && st.http.Some? ==> st1.http == st.http)
            && (SomeLineRooted(path) && (st.http.Some? || CreateHttp(c, None).Some?) ==>
                  st1.http.Some? && st1.log != st.log)
            && (st1.log != st.log ==> |st1.log| == |st.log| + 1 && st1.log[..|st.log|] == st.log &&
                                      Carries(st1.log[|st.log|], st1.http, call, path, options))
  {
  }

  lemma FollowedRooted(c: Config, path: Bytes, options: Options, location: Option<Bytes>)
    requires Followed(c, path, options, location).Some? && !CrossOriginAllowed(c, options)
    ensures Rooted(Followed(c, path, options, location).value)
  {
  }

  lemma CountedKeeps(c: Config, options: Options)
    ensures TokenRequestOptions(CountedOptions(options)) == TokenRequestOptions(options)
    ensures CrossOriginAllowed(c, CountedOptions(options)) == CrossOriginAllowed(c, options)
    ensures RedirectLimit(c, CountedOptions(options)) == RedirectLimit(c, options)
    ensures CarriedCount(options).Some? ==>
              CarriedCount(CountedOptions(options)) == Some(CarriedCount(options).value + 1)
  {
    assert TokenRequestOptions(CountedOptions(options)) == TokenRequestOptions(options);
  }

  /** The control keys are absent from what `request` is given, and token_request is set. */
  predicate NoControlKeys(options: Options) {
    && TokenRequest in options && options[TokenRequest] == Flag(true)
    && RedirectCount !in options && MaxRedirects !in options && CrossOriginRedirects !in options
  }

  // ---------------------------------------------------------------- whole runs

  /** The requests a run added to the log. */
  function NewlySent(before: State, after: State): seq<Sent> {
    if |before.log| <= |after.log| then after.log[|before.log|..] else []
  }

  /** A run only appends to the log. */
  lemma {:induction false} RunGrows(c: Config, st: State, call: Call, path: Bytes, options: Options)
    ensures var after := RunTokenRequest(c, st, call, path, options).0; after.log == st.log + NewlySent(st, after)
    decreases Budget(c, options)
  {
    var (st1, reply) := FirstStep(c, st, call, path, options);
    RequestStep(c, st, call, path, TokenRequestOptions(options));
    var next := NextPath(c, path, options, reply);
    if next.Some? {
      CountedKeeps(c, options);
      RunGrows(c, st1, call, next.value, CountedOptions(options));
    }
  }

  function RunSent(c: Config, st: State, call: Call, path: Bytes, options: Options): seq<Sent> {
    NewlySent(st, RunTokenRequest(c, st, call, path, options).0)
  }

  /** What is sent in two stretches is what is sent in the first, then what is sent in the second. */
  lemma SentTwice(before: State, middle: State, after: State, first: Sent)
    requires middle.log == before.log + [first] && after.log == middle.log + NewlySent(middle, after)
    ensures NewlySent(before, after) == [first] + NewlySent(middle, after)
  {
    Assoc(before.log, [first], NewlySent(middle, after));
  }

  lemma FirstSent(c: Config, st: State, call: Call, path: Bytes, options: Options) returns (first: Sent)
    requires FirstStep(c, st, call, path, options).1.Answer?
    ensures var st1 := FirstStep(c, st, call, path, options).0;
            Carries(first, st1.http, call, path, TokenRequestOptions(options)) && st1.log == st.log + [first]
  {
    var st1 := FirstStep(c, st, call, path, options).0;
    RequestStep(c, st, call, path, TokenRequestOptions(options));
    first := st1.log[|st.log|];
  }

  /** A run that goes on is its first request followed by the rest of the run. */
  lemma RunSplit(c: Config, st: State, call: Call, path: Bytes, options: Options) returns (first: Sent)
    requires NextPath(c, path, options, FirstStep(c, st, call, path, options).1).Some?
    ensures var (st1, reply) := FirstStep(c, st, call, path, options);
            && Carries(first, st1.http, call, path, TokenRequestOptions(options))
            && st1.log == st.log + [first] && reply == c.respond(st1.log)
            && RunSent(c, st, call, path, options) ==
               [first] + RunSent(c, st1, call, NextPath(c, path, options, reply).value, CountedOptions(options))
  {
    var (st1, reply) := FirstStep(c, st, call, path, options);
    var next := NextPath(c, path, options, reply).value;
    first := FirstSent(c, st, call, path, options);
    RequestStep(c, st, call, path, TokenRequestOptions(options));
    RunGrows(c, st1, call, next, CountedOptions(options));
    SentTwice(st, st1, RunTokenRequest(c, st, call, path, options).0, first);
  }

  /** A run that stops made at most one request. */
  lemma RunStops(c: Config, st: State, call: Call, path: Bytes, options: Options)
    requires NextPath(c, path, options, FirstStep(c, st, call, path, options).1).None?
    ensures var sent, st1 := RunSent(c, st, call, path, options), FirstStep(c, st, call, path, options).0;
            && |sent| <= 1 && st1.log == st.log + sent
            && (sent != [] ==> Carries(sent[0], st1.http, call, path, TokenRequestOptions(options)))
  {
    RequestStep(c, st, call, path, TokenRequestOptions(options));
  }

  /** Some redirect is left whenever one is followed, and following uses one up. */
  lemma BudgetSpent(c: Config, path: Bytes, options: Options, location: Option<Bytes>)
    requires Followed(c, path, options, location).Some?
    ensures Budget(c, CountedOptions(options)) == Budget(c, options) - 1
  {
    CountedKeeps(c, options);
  }

  /** Every option but the control keys reaches the request as it was given. */
  ghost predicate PassedOn(sent: Options, given: Options) {
    && NoControlKeys(sent)
    && (forall n :: Other(n) in sent <==> Other(n) in given)
    && (forall n :: Other(n) in given ==> sent[Other(n)] == given[Other(n)])
  }

  lemma TokenOptionsPassedOn(options: Options)
    ensures PassedOn(TokenRequestOptions(options), options)
  {
  }

  /** What every request of one run has in common. */
  ghost predicate SameRequest(s: Sent, call: Call, options: Options) {
    s.call == call && PassedOn(s.options, options)
  }

  /**
   * Over every run against every server: each request carries the same method, token,
   * arguments and options without control keys, and at most one request more is made than
   * redirects were left.
   */
  lemma {:induction false} RunBounded(c: Config, st: State, call: Call, path: Bytes, options: Options)
    ensures |RunSent(c, st, call, path, options)| <= Budget(c, options) + 1
    ensures forall s :: s in RunSent(c, st, call, path, options) ==> SameRequest(s, call, options)
    decreases Budget(c, options)
  {
    var (st1, reply) := FirstStep(c, st, call, path, options);
    var next := NextPath(c, path, options, reply);
    TokenOptionsPassedOn(options);
    if next.Some? {
      CountedKeeps(c, options);
      BudgetSpent(c, path, options, reply.location);
      var first := RunSplit(c, st, call, path, options);
      RunBounded(c, st1, call, next.value, CountedOptions(options));
    } else {
      RunStops(c, st, call, path, options);
    }
  }

  // ---------------------------------------------------------------- where each request goes

  /** A path with its query, if it has one. */
  predicate IsPathAndQuery(text: Bytes, path: Bytes, query: Option<Bytes>) {
    match query
    case None => text == path
    case Some(q) => text == path + [0x3F] + q
  }

  /** What is asked of the server for a parsed URL: its path and query. */
  predicate AsksFor(text: Bytes, p: Parsed) {
    match p
    case Absolute(u, _) => IsPathAndQuery(text, u.path, u.query)
    case NetworkPath(_, _, path, query) => IsPathAndQuery(text, path, query)
    case Relative(path, query) => IsPathAndQuery(text, path, query)
  }

  function SiteTarget(c: Config): Target {
    Target(c.site.host, c.site.port, c.site.scheme == HTTPS)
  }

  /** The site's own path goes first, unless it is "/", on requests to the site's host. */
  function SitePath(c: Config, t: Target): Bytes {
    if c.site.path == [SLASH] || c.site.host != t.host then [] else c.site.path
  }

  /**
   * Where a request goes, given the connection there was. A path starting with a slash goes over
   * that connection, or to the site if there was none; an absolute URL with a host goes to its own
   * host; anything else to the site. It asks for the path, or the URL's path and query.
   */
  predicate ReachesFor(c: Config, http: Option<Target>, s: Sent, asked: Bytes) {
    && s.path == SitePath(c, s.target) + asked
    && if SomeLineRooted(s.given) then asked == s.given && s.target == http.GetOr(SiteTarget(c))
       else
         && c.lib.parse(s.given).Some?
         && AsksFor(asked, c.lib.parse(s.given).value)
         && s.target == match c.lib.parse(s.given).value
                        case Absolute(u, true) => Target(u.host, u.port, u.scheme == HTTPS)
                        case _ => SiteTarget(c)
  }

  ghost predicate Reaches(c: Config, http: Option<Target>, s: Sent) {
    exists asked :: ReachesFor(c, http, s, asked)
  }

  lemma RequestReaches(c: Config, st: State, call: Call, path: Bytes, options: Options)
    requires c.endpoint.None?
    ensures var st1 := MakeRequest(c, st, call, path, options).0;
            st1.log != st.log ==> st1.log != [] && Reaches(c, st.http, st1.log[|st1.log| - 1])
  {
    var st1 := MakeRequest(c, st, call, path, options).0;
    RequestStep(c, st, call, path, options);
    if Rooted(path) {
      RootedLine(path);
    }
    if st1.log != st.log {
      var s := st1.log[|st1.log| - 1];
      var asked := if SomeLineRooted(path) then path else LocalPath(c.lib.parse(path).value);
      assert s.path == SitePath(c, s.target) + asked;
      assert ReachesFor(c, st.http, s, asked);
    }
  }

  /** A request endpoint prevails over any URL whenever a connection is made. */
  lemma EndpointPrevails(c: Config, st: State, call: Call, path: Bytes, options: Options, u: Uri)
    requires c.endpoint.Some? && !Rooted(c.endpoint.value)
    requires c.lib.parse(c.endpoint.value) == Some(Absolute(u, true))
    requires st.http.None? || !SomeLineRooted(path)
    ensures var st1 := MakeRequest(c, st, call, path, options).0;
            st1.log != st.log ==>
              st1.log != [] && st1.log[|st1.log| - 1].target == Target(u.host, u.port, u.scheme == HTTPS)
  {
    RequestStep(c, st, call, path, options);
  }

  /** Each request of a run goes where the rules above say, over the connection of the one before. */
  ghost predicate Chained(c: Config, http: Option<Target>, sent: seq<Sent>)
    decreases |sent|
  {
    sent == [] || (Reaches(c, http, sent[0]) && Chained(c, Some(sent[0].target), sent[1..]))
  }

  lemma ChainedMore(c: Config, http: Option<Target>, first: Sent, rest: seq<Sent>)
    requires Reaches(c, http, first) && Chained(c, Some(first.target), rest)
    ensures Chained(c, http, [first] + rest)
  {
    assert ([first] + rest)[1..] == rest;
  }

  /** Where every request of every run goes, whatever the server answers. */
  lemma {:induction false} RunReaches(c: Config, st: State, call: Call, path: Bytes, options: Options)
    requires c.endpoint.None?
    ensures Chained(c, st.http, RunSent(c, st, call, path, options))
    decreases Budget(c, options)
  {
    var (st1, reply) := FirstStep(c, st, call, path, options);
    var next := NextPath(c, path, options, reply);
    RequestReaches(c, st, call, path, TokenRequestOptions(options));
    if next.Some? {
      BudgetSpent(c, path, options, reply.location);
      var first := RunSplit(c, st, call, path, options);
      RunReaches(c, st1, call, next.value, CountedOptions(options));
      ChainedMore(c, st.http, first, RunSent(c, st1, call, next.value, CountedOptions(options)));
    } else {
      RequestStep(c, st, call, path, TokenRequestOptions(options));
      RunStops(c, st, call, path, options);
    }
  }

  // ---------------------------------------------------------------- what each redirect asks for

  /** An absolute path is the current URI; others are resolved against the site. */
  predicate IsCurrent(c: Config, path: Bytes, current: Uri) {
    match c.lib.parse(path)
    case None => false
    case Some(Absolute(u, _)) => current == u
    case Some(_) => c.lib.merge(c.site, path) == Some(current)
  }

  /**
   * `next` is what a redirect at `path` asks for: within the origin, path and query of the URI
   * the location resolves to, with a slash put first if there is none; elsewhere that whole URI.
   */
  predicate RedirectAsks(c: Config, current: Uri, u: Uri, next: Bytes) {
    if CrossOrigin(current, u) then next == c.lib.render(u)
    else IsPathAndQuery(next, if Rooted(u.path) then u.path else [SLASH] + u.path, u.query)
  }

  /** From one request of a run to the next, the answer to the first being `reply`. */
  ghost predicate Follows(c: Config, path: Bytes, reply: Reply, next: Bytes) {
    && reply.Answer? && 300 <= reply.code <= 399 && reply.location.Some? && reply.location.value != []
    && exists current, u ::
         IsCurrent(c, path, current) && c.lib.merge(current, reply.location.value) == Some(u) &&
         RedirectAsks(c, current, u, next)
  }

  lemma PathAndQueryExact(u: Uri)
    requires RequestUri(u).Some?
    ensures IsPathAndQuery(RequestUri(u).value, if Rooted(u.path) then u.path else [SLASH] + u.path, u.query)
  {
    var text := WithQuery(u.path, u.query);
    if u.query.Some? {
      assert text == u.path + ([0x3F] + u.query.value);
      assert [SLASH] + text == ([SLASH] + u.path) + [0x3F] + u.query.value;
      assert text == u.path + [0x3F] + u.query.value;
    } else {
      assert text == u.path;
    }
    assert u.path != [] ==> text[0] == u.path[0];
    assert u.path == [] && text != [] ==> text[0] == 0x3F;
  }

  lemma NextFollows(c: Config, path: Bytes, options: Options, reply: Reply)
    requires NextPath(c, path, options, reply).Some?
    ensures Follows(c, path, reply, NextPath(c, path, options, reply).value)
  {
    var current := CurrentUri(c, path).value;
    var u := RedirectedUri(c, current, reply.location).value;
    assert IsCurrent(c, path, current);
    if !CrossOrigin(current, u) {
      PathAndQueryExact(u);
    }
    assert RedirectAsks(c, current, u, NextPath(c, path, options, reply).value);
  }

  /** Each request after the first is what the answer to the one before redirects to. */
  ghost predicate Redirecting(c: Config, log: seq<Sent>, sent: seq<Sent>)
    decreases |sent|
  {
    |sent| <= 1 ||
    (Follows(c, sent[0].given, c.respond(log + [sent[0]]), sent[1].given) &&
     Redirecting(c, log + [sent[0]], sent[1..]))
  }

  /**
   * Every run against every server is a chain of redirects: the first request is for the
   * endpoint, every later one for what the answer to the one before redirects to.
   */
  lemma {:induction false} RunFollows(c: Config, st: State, call: Call, path: Bytes, options: Options)
    ensures var sent := RunSent(c, st, call, path, options);
            (sent != [] ==> sent[0].given == path) && Redirecting(c, st.log, sent)
    decreases Budget(c, options)
  {
    var (st1, reply) := FirstStep(c, st, call, path, options);
    var next := NextPath(c, path, options, reply);
    if next.Some? {
      NextFollows(c, path, options, reply);
      BudgetSpent(c, path, options, reply.location);
      var first := RunSplit(c, st, call, path, options);
      RunFollows(c, st1, call, next.value, CountedOptions(options));
      var rest := RunSent(c, st1, call, next.value, CountedOptions(options));
      assert ([first] + rest)[1..] == rest;
    } else {
      RunStops(c, st, call, path, options);
    }
  }

  /**
   * When a redirect is followed: the answer is one, it resolves, a redirect is left, and the
   * origin stays the same, with an http or https URI, or may change.
   */
  lemma FollowedExact(c: Config, path: Bytes, options: Options, reply: Reply, current: Uri)
    requires IsCurrent(c, path, current) && reply.Answer?
    ensures NextPath(c, path, options, reply).Some? <==>
            && 300 <= reply.code <= 399 && reply.location.GetOr([]) != []
            && c.lib.merge(current, reply.location.value).Some?
            && Budget(c, options) >= 1
            && var u := c.lib.merge(current, reply.location.value).value;
               if !CrossOrigin(current, u) then u.scheme in {HTTP, HTTPS}
               else if CrossOriginRedirects in options then options[CrossOriginRedirects] !in {Nil, Flag(false)}
               else c.crossOriginRedirects !in {Nil, Flag(false)}
  {
    assert CurrentUri(c, path) == Some(current);
  }

  /** A followed redirect is sent, unless the library cannot read the URI it rendered. */
  lemma FollowedIsSent(c: Config, st: State, call: Call, path: Bytes, options: Options)
    requires c.endpoint.None?
    requires var next := NextPath(c, path, options, FirstStep(c, st, call, path, options).1);
             next.Some? && (Rooted(next.value) || c.lib.parse(next.value).Some?)
    ensures |RunSent(c, st, call, path, options)| >= 2
  {
    var (st1, reply) := FirstStep(c, st, call, path, options);
    var next := NextPath(c, path, options, reply).value;
    var first := RunSplit(c, st, call, path, options);
    var (st2, reply2) := FirstStep(c, st1, call, next, CountedOptions(options));
    if Rooted(next) {
      RootedLine(next);
    }
    assert st2.log != st1.log;
    if NextPath(c, next, CountedOptions(options), reply2).Some? {
      var second := RunSplit(c, st1, call, next, CountedOptions(options));
    } else {
      RunStops(c, st1, call, next, CountedOptions(options));
    }
  }

  // ---------------------------------------------------------------- how a run ends

  /** A run succeeds exactly when its last request was answered with a code from 200 to 299. */
  lemma {:induction false} OutcomeExact(c: Config, st: State, call: Call, path: Bytes, options: Options)
    ensures var (after, outcome) := RunTokenRequest(c, st, call, path, options);
            outcome == Success <==>
            && RunSent(c, st, call, path, options) != []
            && c.respond(after.log).Answer? && 200 <= c.respond(after.log).code <= 299
    decreases Budget(c, options)
  {
    var (st1, reply) := FirstStep(c, st, call, path, options);
    var next := NextPath(c, path, options, reply);
    RequestStep(c, st, call, path, TokenRequestOptions(options));
    if next.Some? {
      BudgetSpent(c, path, options, reply.location);
      var first := RunSplit(c, st, call, path, options);
      OutcomeExact(c, st1, call, next.value, CountedOptions(options));
      RunGrows(c, st1, call, next.value, CountedOptions(options));
      var after := RunTokenRequest(c, st, call, path, options).0;
      assert after == RunTokenRequest(c, st1, call, next.value, CountedOptions(options)).0;
      if RunSent(c, st1, call, next.value, CountedOptions(options)) == [] {
        assert after.log == st1.log;
      }
    } else {
      RunStops(c, st, call, path, options);
    }
  }

  // ---------------------------------------------------------------- options and configuration

  /** Two consumers that differ in their redirect settings only. */
  ghost predicate SameBut(c: Config, d: Config) {
    d == c.(maxRedirects := d.maxRedirects, crossOriginRedirects := d.crossOriginRedirects)
  }

  /** Requests are alike, and so are limit, count and permission. */
  ghost predicate SameSettings(c: Config, o: Options, d: Config, p: Options) {
    && SameBut(c, d)
    && TokenRequestOptions(o) == TokenRequestOptions(p)
    && CarriedCount(o) == CarriedCount(p)
    && RedirectLimit(c, o) == RedirectLimit(d, p)
    && CrossOriginAllowed(c, o) == CrossOriginAllowed(d, p)
  }

  lemma SameMakes(c: Config, d: Config, st: State, call: Call, path: Bytes, options: Options)
    requires SameBut(c, d)
    ensures MakeRequest(c, st, call, path, options) == MakeRequest(d, st, call, path, options)
  {
  }

  lemma SameNext(c: Config, o: Options, d: Config, p: Options, path: Bytes, reply: Reply)
    requires SameSettings(c, o, d, p)
    ensures NextPath(c, path, o, reply) == NextPath(d, path, p, reply)
  {
  }

  lemma {:induction false} SameSettingsSameRun(
    c: Config, o: Options, d: Config, p: Options, st: State, call: Call, path: Bytes)
    requires SameSettings(c, o, d, p)
    ensures RunTokenRequest(c, st, call, path, o) == RunTokenRequest(d, st, call, path, p)
    decreases Budget(c, o)
  {
    var (st1, reply) := FirstStep(c, st, call, path, o);
    SameMakes(c, d, st, call, path, TokenRequestOptions(o));
    SameNext(c, o, d, p, path, reply);
    var next := NextPath(c, path, o, reply);
    if next.Some? {
      BudgetSpent(c, path, o, reply.location);
      CountedKeeps(c, o);
      CountedKeeps(d, p);
      SameSettingsSameRun(c, CountedOptions(o), d, CountedOptions(p), st1, call, next.value);
    }
  }

  /**
   * The request's own limit, unless it is nil or false, makes that of the consumer irrelevant;
   * without one a run goes as if the consumer's had been given.
   */
  lemma LimitOptionPrevails(c: Config, limit: OptionValue, st: State, call: Call, path: Bytes, options: Options)
    ensures MaxRedirects in options && options[MaxRedirects] !in {Nil, Flag(false)} ==>
              RunTokenRequest(c.(maxRedirects := limit), st, call, path, options) ==
              RunTokenRequest(c, st, call, path, options)
    ensures (MaxRedirects !in options || options[MaxRedirects] in {Nil, Flag(false)}) ==>
              RunTokenRequest(c, st, call, path, options[MaxRedirects := c.maxRedirects]) ==
              RunTokenRequest(c, st, call, path, options)
  {
    if MaxRedirects in options && options[MaxRedirects] !in {Nil, Flag(false)} {
      SameSettingsSameRun(c.(maxRedirects := limit), options, c, options, st, call, path);
    } else {
      var given := options[MaxRedirects := c.maxRedirects];
      assert TokenRequestOptions(given) == TokenRequestOptions(options);
      SameSettingsSameRun(c, given, c, options, st, call, path);
    }
  }

  /**
   * The request's own permission for other origins, nil and false included, makes that of the
   * consumer irrelevant; without one a run goes as if the consumer's had been given.
   */
  lemma OriginOptionPrevails(c: Config, allowed: OptionValue, st: State, call: Call, path: Bytes, options: Options)
    ensures CrossOriginRedirects in options ==>
              RunTokenRequest(c.(crossOriginRedirects := allowed), st, call, path, options) ==
              RunTokenRequest(c, st, call, path, options)
    ensures CrossOriginRedirects !in options ==>
              RunTokenRequest(c, st, call, path, options[CrossOriginRedirects := c.crossOriginRedirects]) ==
              RunTokenRequest(c, st, call, path, options)
  {
    if CrossOriginRedirects in options {
      SameSettingsSameRun(c.(crossOriginRedirects := allowed), options, c, options, st, call, path);
    } else {
      var given := options[CrossOriginRedirects := c.crossOriginRedirects];
      assert TokenRequestOptions(given) == TokenRequestOptions(options);
      SameSettingsSameRun(c, given, c, options, st, call, path);
    }
  }

  /** The redirects a run has: its limit less the count it starts at, and none below zero. */
  lemma BudgetOfLimit(c: Config, options: Options, limit: int, count: int)
    requires MaxRedirects in options && options[MaxRedirects] == Number(limit)
    requires if count == 0 then RedirectCount !in options || options[RedirectCount] in {Nil, Number(0)}
             else RedirectCount in options && options[RedirectCount] == Number(count)
    ensures Budget(c, options) == if limit > count then limit - count else 0
  {
  }

  /** A count that is a flag has no number, so the first redirect raises. */
  lemma FlagCountRaises(c: Config, path: Bytes, options: Options, reply: Reply)
    requires RedirectCount in options && options[RedirectCount].Flag?
    ensures NextPath(c, path, options, reply).None?
  {
  }

  /** A request for a rooted path on the given target. */
  predicate RootedOn(s: Sent, t: Target) {
    s.target == t && Rooted(s.given)
  }

  /** A run that goes on from a rooted path and an open connection keeps that connection. */
  lemma {:induction false} RunKeepsTarget(c: Config, st: State, call: Call, path: Bytes, options: Options)
    requires !CrossOriginAllowed(c, options) && st.http.Some? && Rooted(path)
    ensures RunTokenRequest(c, st, call, path, options).0.http == st.http
    ensures forall s :: s in RunSent(c, st, call, path, options) ==> RootedOn(s, st.http.value)
    decreases Budget(c, options)
  {
    var (st1, reply) := FirstStep(c, st, call, path, options);
    RootedLine(path);
    RequestStep(c, st, call, path, TokenRequestOptions(options));
    var next := NextPath(c, path, options, reply);
    if next.Some? {
      FollowedRooted(c, path, options, reply.location);
      CountedKeeps(c, options);
      BudgetSpent(c, path, options, reply.location);
      var first := RunSplit(c, st, call, path, options);
      RunKeepsTarget(c, st1, call, next.value, CountedOptions(options));
    } else {
      RunStops(c, st, call, path, options);
    }
  }

  /**
   * Redirect safety: with cross-origin redirects off, whatever the server answers and wherever
   * the endpoint lies, every request of a run goes to the target of its first request.
   */
  lemma RedirectsStayOnTarget(c: Config, st: State, call: Call, path: Bytes, options: Options)
    requires !CrossOriginAllowed(c, options)
    ensures var sent := RunSent(c, st, call, path, options);
            forall i :: 0 < i < |sent| ==> RootedOn(sent[i], sent[0].target)
  {
    var (st1, reply) := FirstStep(c, st, call, path, options);
    var next := NextPath(c, path, options, reply);
    if next.Some? {
      FollowedRooted(c, path, options, reply.location);
      CountedKeeps(c, options);
      var first := RunSplit(c, st, call, path, options);
      RunKeepsTarget(c, st1, call, next.value, CountedOptions(options));
      var rest := RunSent(c, st1, call, next.value, CountedOptions(options));
      assert forall i :: 0 <= i < |rest| ==> rest[i] in rest;
    } else {
      RunStops(c, st, call, path, options);
    }
  }

  /** The location resolves to a URI of the same origin that Net::HTTP can request. */
  predicate SameOriginHop(c: Config, current: Uri, location: Bytes) {
    var redirected := c.lib.merge(current, location);
    && redirected.Some?
    && !CrossOrigin(current, redirected.value)
    && redirected.value.scheme in {HTTP, HTTPS}
  }

  /** A server that always redirects, within one origin, to a location that resolves there. */
  ghost predicate Endless(c: Config, location: Bytes) {
    && location != []
    && (forall log :: c.respond(log) == Answer(302, Some(location)))
    && (forall path :: Rooted(path) ==>
          CurrentUri(c, path).Some? && SameOriginHop(c, CurrentUri(c, path).value, location))
  }

  /** The bound is met: an endless redirect is cut off after exactly that many requests. */
  lemma {:induction false} EndlessRedirectsCutOff(
    c: Config, st: State, call: Call, path: Bytes, options: Options, location: Bytes)
    requires Endless(c, location) && Rooted(path) && (st.http.Some? || CreateHttp(c, None).Some?)
    ensures RunTokenRequest(c, st, call, path, options).1 == Failed
    ensures |RunSent(c, st, call, path, options)| == Budget(c, options) + 1
    decreases Budget(c, options)
  {
    var (st1, reply) := FirstStep(c, st, call, path, options);
    RootedLine(path);
    RequestStep(c, st, call, path, TokenRequestOptions(options));
    assert reply == Answer(302, Some(location));
    var next := NextPath(c, path, options, reply);
    if next.Some? {
      CountedKeeps(c, options);
      BudgetSpent(c, path, options, reply.location);
      var first := RunSplit(c, st, call, path, options);
      EndlessRedirectsCutOff(c, st1, call, next.value, CountedOptions(options), location);
    } else {
      RunStops(c, st, call, path, options);
    }
  }

  // ---------------------------------------------------------------- checked and contacted origin

  /** A target read as a URI, to put it through the consumer's own origin test. */
  function TargetUri(t: Target): Uri {
    Uri(if t.ssl then HTTPS else HTTP, t.host, t.port, [], None)
  }

  predicate OnOrigin(t: Target, u: Uri) {
    !CrossOrigin(TargetUri(t), u)
  }

  predicate HttpSite(c: Config) {
    Settled(c.site) && c.site.scheme in {HTTP, HTTPS}
  }

  lemma SchemesLower()
    ensures Downcase(HTTP) == HTTP && Downcase(HTTPS) == HTTPS && HTTP != HTTPS
  {
    assert |HTTP| != |HTTPS|;
  }

  lemma SiteTargetOnSite(c: Config)
    requires HttpSite(c)
    ensures OnOrigin(TargetOf(c.site), c.site)
  {
    SchemesLower();
  }

  /** A path that resolves to the site's own origin. */
  predicate ResolvesToSite(c: Config, path: Bytes) {
    DoubleSlash(path) && c.lib.parse(path).Some? && c.lib.parse(path).value.NetworkPath? ==>
      var p := c.lib.parse(path).value;
      && Downcase(p.host) == Downcase(c.site.host)
      && (if p.port.Some? then p.port else DefaultPort(c.site)) == c.site.port
  }

  lemma CheckedUriExact(c: Config, path: Bytes)
    requires HttpSite(c) && Rfc3986(c.lib) && Rooted(path) && CurrentUri(c, path).Some?
    ensures !CrossOrigin(c.site, CurrentUri(c, path).value) <==> ResolvesToSite(c, path)
  {
    var current := CurrentUri(c, path).value;
    SchemesLower();
    assert EffectivePort(c.site) == c.site.port;
    if DoubleSlash(path) {
      assert EffectivePort(current) == current.port;
    }
  }

  predicate OpenOnSite(c: Config, st: State) {
    st.http.Some? ==> st.http.value == TargetOf(c.site)
  }

  /** One request of a run: it contacts the site; the test agrees if its path resolves there. */
  predicate HopOnSite(c: Config, s: Sent) {
    && OnOrigin(s.target, c.site)
    && (CurrentUri(c, s.given).Some? ==>
          (OnOrigin(s.target, CurrentUri(c, s.given).value) <==> ResolvesToSite(c, s.given)))
  }

  lemma HopExact(c: Config, s: Sent)
    requires HttpSite(c) && Rfc3986(c.lib) && RootedOn(s, TargetOf(c.site))
    ensures HopOnSite(c, s)
  {
    SiteTargetOnSite(c);
    if CurrentUri(c, s.given).Some? {
      CheckedUriExact(c, s.given);
      OriginsChain(TargetUri(s.target), c.site, CurrentUri(c, s.given).value);
    }
  }

  lemma OpenedRun(c: Config, st: State, call: Call, path: Bytes, options: Options)
    requires c.endpoint.None? && OpenOnSite(c, st) && Rooted(path)
    ensures var opened' := st.(http := Some(TargetOf(c.site)));
            RunSent(c, st, call, path, options) == RunSent(c, opened', call, path, options)
  {
    var opened' := st.(http := Some(TargetOf(c.site)));
    RootedLine(path);
    assert MakeRequest(c, st, call, path, TokenRequestOptions(options)) ==
           MakeRequest(c, opened', call, path, TokenRequestOptions(options));
  }

  /**
   * For a consumer with a site-relative endpoint, no request endpoint and cross-origin
   * redirects off, at every hop of every run the contacted origin is the site's, and it is
   * the origin the redirect test uses exactly when the path resolves to the site. The one
   * exception is a redirect whose path starts with two slashes.
   */
  lemma CheckedIsContactedExact(c: Config, st: State, call: Call, path: Bytes, options: Options)
    requires HttpSite(c) && c.endpoint.None? && Rfc3986(c.lib) && OpenOnSite(c, st)
    requires Rooted(path) && !CrossOriginAllowed(c, options)
    ensures forall s :: s in RunSent(c, st, call, path, options) ==> HopOnSite(c, s)
  {
    var opened' := st.(http := Some(TargetOf(c.site)));
    OpenedRun(c, st, call, path, options);
    RunKeepsTarget(c, opened', call, path, options);
    forall s | s in RunSent(c, st, call, path, options)
      ensures HopOnSite(c, s)
    {
      HopExact(c, s);
    }
  }

  lemma OriginsChain(u: Uri, v: Uri, w: Uri)
    requires !CrossOrigin(u, v)
    ensures CrossOrigin(u, w) <==> CrossOrigin(v, w)
  {
  }

  /**
   * The exception happens: a same-origin redirect to a path //host/… is followed on the
   * site's connection, while the next redirect is judged against that other host.
   */
  lemma DoubleSlashDiverges(
    c: Config, st: State, call: Call, path: Bytes, options: Options, location: Bytes, other: Bytes)
    requires HttpSite(c) && c.endpoint.None? && Rfc3986(c.lib) && OpenOnSite(c, st)
    requires Rooted(path) && !DoubleSlash(path) && Budget(c, options) >= 1 && !CrossOriginAllowed(c, options)
    requires CurrentUri(c, path).Some? && location != []
    requires c.lib.merge(CurrentUri(c, path).value, location) == Some(c.site.(path := other, query := None))
    requires DoubleSlash(other) && CurrentUri(c, other).Some? && c.lib.parse(other).value.NetworkPath?
    requires Downcase(c.lib.parse(other).value.host) != Downcase(c.site.host)
    requires c.respond(FirstStep(c, st, call, path, options).0.log) == Answer(302, Some(location))
    ensures var sent := RunSent(c, st, call, path, options);
            && |sent| >= 2 && sent[1].given == other
            && OnOrigin(sent[1].target, c.site)
            && !OnOrigin(sent[1].target, CurrentUri(c, other).value)
  {
    var (st1, reply) := FirstStep(c, st, call, path, options);
    RootedLine(path);
    RequestStep(c, st, call, path, TokenRequestOptions(options));
    RedirectFollowed(c, path, options, location, other);
    CountedKeeps(c, options);
    var first := RunSplit(c, st, call, path, options);
    RunKeepsTarget(c, st1, call, other, CountedOptions(options));
    RunSendsFirst(c, st1, call, other, CountedOptions(options));
    var rest := RunSent(c, st1, call, other, CountedOptions(options));
    assert rest[0] in rest;
    SiteTargetOnSite(c);
    CheckedUriExact(c, other);
    OriginsChain(TargetUri(rest[0].target), c.site, CurrentUri(c, other).value);
  }

  /** A redirect that resolves to the site itself, with another path, is followed there. */
  lemma RedirectFollowed(c: Config, path: Bytes, options: Options, location: Bytes, other: Bytes)
    requires HttpSite(c) && Rfc3986(c.lib) && Rooted(path) && !DoubleSlash(path) && Budget(c, options) >= 1
    requires CurrentUri(c, path).Some? && location != [] && Rooted(other)
    requires c.lib.merge(CurrentUri(c, path).value, location) == Some(c.site.(path := other, query := None))
    ensures Followed(c, path, options, Some(location)) == Some(other)
  {
    var redirected := c.site.(path := other, query := None);
    CheckedUriExact(c, path);
    OriginsChain(c.site, CurrentUri(c, path).value, redirected);
    assert WithQuery(other, None) == other;
  }

  lemma RunSendsFirst(c: Config, st: State, call: Call, path: Bytes, options: Options)
    requires st.http.Some? && Rooted(path)
    ensures RunSent(c, st, call, path, options) != [] && RunSent(c, st, call, path, options)[0].given == path
  {
    RootedLine(path);
    RequestStep(c, st, call, path, TokenRequestOptions(options));
    if NextPath(c, path, options, FirstStep(c, st, call, path, options).1).Some? {
      var first := RunSplit(c, st, call, path, options);
    } else {
      RunStops(c, st, call, path, options);
    }
  }
}
