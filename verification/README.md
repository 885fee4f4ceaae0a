# OAuth 1.0 request signing: a verified model

This project models the signing pipeline of the Ruby `oauth` gem and the consumer's connection
and redirect handling, and proves what they promise each other.

* **Signing algebra.** Percent-encoding, parameter normalization (flat, grouped and nested), the
  canonical parameter string, the base string and the base string URI, the Authorization header
  printer and parser, and parameter collection on the client (Net::HTTP), on the server (Rack) and
  in the Rails proxy. The pivot is `ParameterString.Canonical`: every signing path is shown equal
  to it, and `CanonicalFaithful` turns each question about equal signatures into one about
  multisets of (name, value) pairs, which is then decided name by name.
* **End to end.** What a Rack server rebuilds from a request signed under each of the three schemes
  is compared with what the client signed, and the schemes with one another;
  `Verification.SchemeVerifiesExact` says exactly when a server holding some secrets accepts what
  was signed with others.
* **Names of nested parameters.** `NestedPaths` reads bracketed names back into the steps that lead
  to each text, so `HashesExact` decides for hashes of any shape when they normalize alike.
* **Objects.** `NetHttp.HttpRequest` (a request signed in place), `ClientHelper.Helper` (memoised
  nonce and timestamp), `MockRequest.HashRequest` (`sign!` on a live hash of shared arrays) and
  `Connection.ConsumerObject` (`@http` and `@uri`). Their methods are proved against functions of
  the old state, and the theorems are lemmas about those functions.
* **Redirects.** Token requests run against an arbitrary server: a function from everything sent so
  far to the next answer.

## Conventions

Text is `seq<Byte>`. A Ruby hash is the list of its entries in insertion order with distinct keys;
nil is `None`. Raised errors are `Err`, `Raised` or `Failed`. The keyed digest with its Base64 text
is a function parameter `mac` of which nothing is assumed, so statements hold for every digest.
Libraries (`URI.parse`, `URI#merge`, `URI#to_s`) are function parameters; `Consumer.Rfc3986` states
the part of sections 4.2 and 5.2.2 of RFC 3986 that two theorems need. Random keys and clocks are
inputs.

## Where the code does not do what one might expect

* **Form bodies of PATCH and other methods are not signed.** The Net::HTTP proxy collects a form
  body only for POST and PUT, the Rack proxy for every method. `Agreement.HeaderSchemeAgreesExact`
  carries this as the exact condition `BodySigned`.
* **Line breaks in header values.** `parse_header` strips quotes line by line, so a value with a
  line break does not come back: `Header.HeaderRoundTripExact` is an if-and-only-if.
* **Raw-name sorting.** `normalize` sorts names before encoding them, the standard after:
  `ParameterString.RfcOrderExact` gives exactly the alphabets on which the two agree.
* **Bare keys.** `CGI.parse` drops a bare key once its name has a value, the Rails proxy keeps it:
  `Collect.GroupedEqualsPairListExact`. The Rails proxy also cuts a value at its second `=`:
  `ActionController.PieceAgreesExact`.
* **Nil option values** replace what the request sends under their name:
  `Options.AllParametersConservesExact`, `Schemes.QuerySchemeExact`.
* **Values sent twice.** Rack keeps one field a name. `Agreement.HeaderSchemeExact` says for every
  request, whatever its names, when that field is the one value signed: `a&a=1` is, `a=1&a` is not
  (`Agreement.BareKeyLast`).
* **The body scheme** repeats query values in the body: `BodyScheme.BodySchemeExact` says when that
  changes the base string, `BodyScheme.BodySchemeServesExact` when the server still rebuilds it.
  Nil OAuth values are signed as blanks and then printed away.
* **The body scheme with PATCH, DELETE and other methods.** The second printing reads the
  parameters back from the first one, which is collected for POST and PUT only, so the body sent
  carries no OAuth parameter and no form field, but the signature and what the query gives:
  `BodyScheme.OtherVerbsLoseParameters`. The signature itself may still verify, since the text
  signed lacks the same parameters.
* **Arrays mixing nil and text** make `normalize` raise: `Normalize.NormalizeRaisesExact`.
* **Empty nested values** leave a stray `&`: `WholeHash.StraySeparatorExact` and
  `WholeHash.ReadsBackExact` say exactly when, `WholeHash.StraySeparatorHappens` gives a hash.
* **Brackets in names.** An empty key reads like an array element (`NestedPaths.EmptyKeyIsElement`)
  and a key may hold brackets itself; `NestedPaths.NestedReadsBackExact` has the exact condition.
* **A signature already in the query** hides that of the body scheme:
  `Verification.SignatureHidden`.
* **Arrays that are nested by their first element.** Moving a text to the front of an array of
  hashes makes `normalize` raise; no other change of order shows: `WholeHash.ChildOrderExact`.
* **Redirects to paths starting with `//`.** The request still goes to the site, but the next
  redirect is judged against the host named in that path: `Consumer.CheckedIsContactedExact` gives
  the exact condition, `Consumer.DoubleSlashDiverges` the runs where the two origins differ and
  `RedirectExamples.DivergenceHappens` one of them.
* **Token requests to other hosts.** They leave `@http` there, unlike access-token calls:
  `Connection.TokenRequestRestsExact`.

## Model

| member | source | states |
|---|---|---|
| Codec.EscapeRoundTrip | lib/oauth/helper.rb:14-48 | decoding undoes encoding on every byte string |
| Codec.TwoPassesAreOne | lib/oauth/helper.rb:34-38 | the two-pass decoder equals a one-pass decoder that keeps `+`, malformed and truncated escapes included |
| Codec.EscapePrefix | lib/oauth/helper.rb:20-32 | encoding keeps and reflects the prefix relation, so the code is prefix-free and injective |
| Codec.EscapeOrderExact | lib/oauth/oauth.rb:36 | encoding keeps the byte order on an alphabet exactly when its encoded bytes lie below its plain ones |
| Codec.PlainAlphabetKeepsOrder | lib/oauth/oauth.rb:36 | unreserved bytes with bytes 0x00 to 0x2C form such an alphabet |
| Codec.PlainBytes | lib/oauth/oauth.rb:36 | exactly letters, digits and `-._~` stay as they are |
| Codec.EscapeUpperCase | lib/oauth/helper.rb:20-32 | every `%` of encoded text is followed by two digits with upper-case letters |
| Codec.EitherCaseDecodes | lib/oauth/helper.rb:34-38 | `%` with two digits of either case decodes to the byte |
| Codec.MalformedStays | lib/oauth/helper.rb:34-38 | any other byte stays, stray `%` and `+` included |
| Codec.UnreservedFixed | lib/oauth/oauth.rb:36 | unreserved text is its own encoding and decoding |
| Sorting.SortDetermined | lib/oauth/helper.rb:70 | a sort by a total order depends on the multiset of elements and determines it |
| ParameterString.CanonicalRoundTrip | lib/oauth/helper.rb:62-89 | splitting a parameter string on `&` and `=` and decoding recovers the signed pairs in sorted order |
| ParameterString.CanonicalFaithful | lib/oauth/helper.rb:62-89 | parameter strings are equal exactly when the multisets of pairs are |
| ParameterString.RfcOrderExact | lib/oauth/helper.rb:62-89 | sorting raw pairs gives the order of section 3.4.1.3.2 of RFC 5849 for all pairs over an alphabet exactly when encoding keeps its order |
| Normalize.NormalizeFlat | lib/oauth/helper.rb:69-89 | normalizing flat parameters, arrays included, is the canonical string of the pairs they sign |
| Normalize.NormalizeRaisesExact | lib/oauth/helper.rb:79 | normalizing flat parameters raises exactly when an array mixes nil and text |
| Normalize.NormalizeListCanonical | lib/oauth/helper.rb:69-89 | normalizing a list of split parameters is the canonical string of their first two parts |
| Normalize.NestedIsOneSort | lib/oauth/helper.rb:94-107 | sorting at every level of a tree equals collecting all leaves and sorting once |
| Normalize.NestedDeterminedByLeaves | lib/oauth/helper.rb:94-107 | two trees normalize alike exactly when they hold the same multiset of leaves |
| Normalize.NestedOrderIrrelevant | lib/oauth/helper.rb:94-107 | exchanging any two children at any depth changes nothing |
| NestedPaths.LeafReadsExact | lib/oauth/helper.rb:94-107 | a bracketed name reads back as its steps exactly when its root has no `[` and its keys are not empty and have no `]` |
| NestedPaths.NestedReadsBackExact | lib/oauth/helper.rb:94-107 | reading the strings of a tree back gives each text with the keys and array marks that lead to it, under exactly that condition |
| NestedPaths.TreesExact | lib/oauth/helper.rb:94-107 | two trees with such names normalize alike exactly when the same steps lead to the same texts |
| NestedPaths.EmptyKeyIsElement | lib/oauth/helper.rb:94-107 | an empty key and an array element share their name |
| NestedPaths.OneNested | lib/oauth/helper.rb:100-103 | a text under a key of a hash is named root[key], encoded |
| NestedPaths.HashReadsBackExact | lib/oauth/helper.rb:69-107 | the same for whole hashes, every entry with a leaf |
| NestedPaths.HashesExact | lib/oauth/helper.rb:69-107 | two hashes of any shape normalize alike exactly when they hold the same texts under the same names by the same steps |
| WholeHash.ReadsBackExact | lib/oauth/helper.rb:69-89 | reading a normalized hash of any shape back yields exactly the leaves it holds if and only if every nested value has a leaf or there is one entry |
| WholeHash.StraySeparatorExact | lib/oauth/helper.rb:69-89 | a normalized hash is the `&`-join of its entries' strings under exactly that condition |
| WholeHash.StraySeparatorHappens | lib/oauth/helper.rb:83-88 | an empty nested hash beside another entry leaves a leading separator |
| WholeHash.EntryOrderIrrelevant | lib/oauth/helper.rb:69-89 | the order in which a hash lists its entries, nested ones included, never shows |
| WholeHash.ChildOrderExact | lib/oauth/helper.rb:69-107 | exchanging two children at any depth of any entry never shows, except that moving another kind of value to the front of an array of hashes raises |
| Collect.ParseFormConcat | lib/oauth/request_proxy/net_http.rb:51-57 | parsing joined texts concatenates their fields |
| Collect.ParseEscaped | lib/oauth/client/net_http.rb:139-152 | OAuth parameters printed into a query parse back, nil as an empty value |
| Collect.ParseFormEncoded | lib/oauth/client/net_http.rb:131-137 | fields printed as a form body parse back, bare keys included |
| Collect.FormPlainBytes | lib/oauth/client/net_http.rb:131-137 | what form encoding leaves alone, and that a space is one `+` |
| Collect.GroupedTextsAt | lib/oauth/request_proxy/net_http.rb:37-39 | grouping keeps a name's values in order, and one blank for a name with bare keys only |
| Collect.GroupOrderIrrelevant | lib/oauth/request_proxy/net_http.rb:37-49 | the order of the fields never shows in the normalized hash |
| Collect.GroupedEqualsPairListExact | lib/oauth/request_proxy/action_controller_request.rb:39-55 | the grouped form and the pair-list form normalize alike exactly when no bare key shares its name |
| ActionController.PieceAgreesExact | lib/oauth/request_proxy/action_controller_request.rb:50-54 | the Rails proxy reads a piece as the form parser does exactly when it holds at most one `=` |
| ActionController.BlankPieceDiffers | lib/oauth/request_proxy/action_controller_request.rb:48-54 | a piece of white space is a parameter to the form parser and none to the Rails proxy |
| ActionController.RailsListExact | lib/oauth/request_proxy/action_controller_request.rb:39-55 | on plain text the Rails list and the grouped fields normalize alike exactly when bare keys stand alone |
| Uris.NormalizedUriExact | lib/oauth/request_proxy/base.rb:98-101 | normalized URIs are equal exactly when the origin test calls the URIs same-origin and their paths agree |
| Uris.UriRoundTrip | lib/oauth/request_proxy/base.rb:98-101 | a normalized URI reads back: lower-case scheme and host, the path, and the port exactly when it is not the default |
| Uris.MissingPort | lib/oauth/consumer.rb:380-385 | a missing port counts as the scheme's own |
| Uris.DigitsRoundTrip | lib/oauth/request_proxy/base.rb:100 | a printed port reads back |
| SignatureBase.BaseStringRoundTrip | lib/oauth/request_proxy/base.rb:119-122 | method, URI and signed pairs can be read back from a base string |
| SignatureBase.BaseStringFaithful | lib/oauth/request_proxy/base.rb:119-122 | base strings are equal exactly when method, URI and multiset of pairs are |
| Options.FlatBaseFaithful | lib/oauth/request_proxy/base.rb:81-122 | the same for parameter hashes after selection of the signed names |
| Options.SameBaseExact | lib/oauth/request_proxy/base.rb:81-122 | two hashes sign the same base string exactly when they agree on every signed name |
| Options.AllParameters | lib/oauth/request_proxy/net_http.rb:37-49 | the in-place loop computes the options merged into the grouped fields |
| Options.OptionTextsAt | lib/oauth/request_proxy/net_http.rb:37-49 | an option is appended to its name's values, or replaces them when nil |
| Options.AllParametersConservesExact | lib/oauth/request_proxy/net_http.rb:37-49 | collection keeps every value and option exactly when no nil option replaces values |
| Header.StripQuotesExact | lib/oauth/helper.rb:127-128 | quotes come off a quoted text exactly when it holds no line break |
| Header.HeaderReadBack | lib/oauth/helper.rb:117-133 | what the parser makes of any printed header, realm included |
| Header.HeaderRoundTripExact | lib/oauth/client/helper.rb:87-95 | parsing undoes printing exactly when no value holds a line break |
| Header.HeaderRaisesExact | lib/oauth/helper.rb:117-122 | parsing raises exactly on too short a header or an odd number of pieces |
| Header.HeaderParamsReadBack | lib/oauth/request_proxy/base.rb:162-179 | the server finds every parameter in whichever header field carries it, and drops the realm |
| ClientHelper.OauthParametersNamed | lib/oauth/client/helper.rb:30-49 | whatever the options, the parameters carry distinct printable OAuth names |
| ClientHelper.ParameterValues | lib/oauth/client/helper.rb:30-49 | the value sent under each of the ten names, and when a name is left out |
| ClientHelper.NoOtherParameter | lib/oauth/client/helper.rb:30-49 | no other name is sent |
| ClientHelper.Helper.Nonce | lib/oauth/client/helper.rb:22-24 | a nonce is drawn once and kept |
| ClientHelper.Helper.OauthParameterList | lib/oauth/client/helper.rb:30-49 | once nonce and timestamp are drawn every call returns the same list |
| ClientHelper.DrawTwice | lib/oauth/client/helper.rb:22-49 | two draws on one helper give one list |
| Requests.QueryString | lib/oauth/request_proxy/net_http.rb:51-57 | the parts appended one by one are query, OAuth header and, for POST and PUT forms, body |
| Requests.CollectedFields | lib/oauth/request_proxy/net_http.rb:51-75 | the client collects the fields of the query, of an Authorization header that starts with OAuth, and of a signed form body |
| Requests.FormVerbs | lib/oauth/request_proxy/net_http.rb:53 | a form body is signed for POST and PUT, in either case |
| Requests.ClientFieldsOf | lib/oauth/request_proxy/net_http.rb:37-57 | the client collects the query's fields and, for POST and PUT forms, the body's |
| Requests.SignatureHasNoNewline | lib/oauth/signature/base.rb:60-62 | a signature text holds no line break |
| Requests.SignatureLines | lib/oauth/signature/base.rb:60-62 | a signature text is the lines of the encoded digest, joined |
| Requests.SignaturesTell | lib/oauth/signature/base.rb:60-102 | signatures agree under every digest exactly when both secrets and the texts do |
| Requests.SigningKeyExact | lib/oauth/signature/base.rb:100-102 | the signing key determines both secrets, a missing one read as an empty one |
| Agreement.ServerReads | lib/oauth/request_proxy/rack_request.rb:20-27 | what the Rack proxy collects from a request signed by header |
| Agreement.RealmSent | lib/oauth/client/helper.rb:93-94 | the realm is sent as given, before the parameters |
| Agreement.MalformedRefused | lib/oauth/helper.rb:121-122 | a request whose header has an odd number of pieces is refused |
| Agreement.UnsignedVerifies | lib/oauth/request_proxy/base.rb:38-41 | a request without a signature verifies only against an empty one |
| Agreement.HeaderSchemeExact | lib/oauth/request_proxy/rack_request.rb:20-42 | for every fresh request the rebuilt base string is the client's exactly when of each signed name the client signs only the value that the header or Rack's merge keeps |
| Agreement.BareKeyLast | lib/oauth/request_proxy/rack_request.rb:24-25 | a bare key after a value of its name breaks agreement, one before it does not |
| Agreement.HeaderSchemeAgreesExact | lib/oauth/request_proxy/rack_request.rb:20-42 | with unique names the rebuilt base string is the client's exactly when no signed OAuth value holds a line break and the form body was signed |
| Verification.SchemeVerifiesExact | lib/oauth/signature/base.rb:64-102 | a request signed by header, query string or body with one pair of secrets is accepted by a server with another, under every digest, exactly when every signed name is served and the secrets agree |
| Verification.SignatureHidden | lib/oauth/request_proxy/rack_request.rb:24 | a signature in the query hides that of a body |
| Verification.ClientParametersVerify | lib/oauth/client/helper.rb:51-95 | a request signed with the parameters the client helper itself produces verifies, names being unique |
| Agreement.RepeatedNameBreaks | lib/oauth/request_proxy/rack_request.rb:24-25 | a signed name with two values never agrees |
| Schemes.QuerySchemeExact | lib/oauth/client/net_http.rb:139-152 | header and query-string schemes sign the same base string exactly when no nil OAuth value meets a request value |
| Schemes.QuerySchemeServesExact | lib/oauth/request_proxy/rack_request.rb:20-42 | for every fresh request the server rebuilds what the query-string scheme signed exactly when OAuth names have no request value beside them and other names only the value Rack keeps |
| Schemes.QuerySchemeAgreesExact | lib/oauth/request_proxy/rack_request.rb:20-42 | with unique names, exactly when the form body was signed |
| Schemes.QueryWithPieces | lib/oauth/client/net_http.rb:139-148 | the query keeps its pieces and gains one for each OAuth parameter, without stray separators |
| BodyScheme.FormRoundTripHash | lib/oauth/client/net_http.rb:131-137 | a parameter hash printed as a form parses to its fields |
| BodyScheme.BodySchemeExact | lib/oauth/client/net_http.rb:124-137 | for every method and all OAuth values, body and header schemes sign the same base string exactly under a condition on each name |
| BodyScheme.BodySchemeAgrees | lib/oauth/client/net_http.rb:131-137 | they do for POST and PUT without a query, with new names and without bare keys |
| BodyScheme.SignedBodyCarries | lib/oauth/client/net_http.rb:131-137 | the fields of the body finally sent, for every method: the signature once, the query's values and, for POST and PUT, the request's values or else the OAuth value |
| BodyScheme.OtherVerbsLoseParameters | lib/oauth/request_proxy/net_http.rb:51-57 | for other methods that body carries no OAuth parameter and no form field |
| BodyScheme.BodySchemeServesExact | lib/oauth/request_proxy/rack_request.rb:20-42 | the server rebuilds what the body scheme signed exactly under a condition on each name, so not when the query holds a value |
| NetHttp.HttpRequest.SetOauthHeader | lib/oauth/client/net_http.rb:120-122 | the Authorization header becomes the signed header of the old request, nothing else changes, and a server with the key accepts it where every signed name is served |
| NetHttp.HttpRequest.SetOauthQueryString | lib/oauth/client/net_http.rb:139-152 | the query gains the OAuth parameters and the signature of the request so extended, which a server with the key accepts where every signed name is served |
| NetHttp.HttpRequest.SetOauthBody | lib/oauth/client/net_http.rb:131-137 | the body becomes a form with the fields of `SignedBodyCarries` and the signature of the first printing, which a server with the key accepts where every signed name is served |
| NetHttp.HttpRequest.Oauth | lib/oauth/client/net_http.rb:29-35 | the same for whichever scheme the options name |
| NetHttp.HeaderCopy | lib/oauth/client/net_http.rb:120-122 | a copy signed by header carries the signature both schemes share |
| NetHttp.QueryCopy | lib/oauth/client/net_http.rb:139-152 | so does a copy signed in the query string with the same helper |
| SignatureCheck.Equal | lib/oauth/signature/base.rb:68-72 | the accumulator loop returns true exactly on equal byte strings |
| SignatureCheck.XorZero | lib/oauth/signature/base.rb:69-70 | exclusive or is zero exactly on equal operands |
| MockRequest.NormalizeInPlace | lib/oauth/helper.rb:69-89 | normalizing live arrays computes the normal form and pads each empty array once |
| MockRequest.PaddingInvisible | lib/oauth/helper.rb:73-74 | hashes that differ by padding normalize alike |
| MockRequest.HashRequest.Sign | lib/oauth/request_proxy/base.rb:112-116 | stores and returns the signature of the request, whose base string does not change |
| MockRequest.HashRequest.Verify | lib/oauth/signature/base.rb:64-66 | compares the recomputed signature with the stored one |
| MockRequest.SignatureIsFirst | lib/oauth/request_proxy/base.rb:38-41 | the stored signature is the first element of the flattened value |
| MockRequest.SignThenVerify | lib/oauth/signature/base.rb:64-76 | verifying with the key that signed succeeds, and a digest that answers to that key alone refuses any other |
| MockRequest.SignVerifySign | lib/oauth/request_proxy/base.rb:108-116 | verifying after signing succeeds, signing again returns the same signature, no array is padded twice |
| Consumer.RunBounded | lib/oauth/consumer.rb:303-344 | every run makes at most one request more than redirects were left, all with the same method, token, arguments and options, control keys removed and no other |
| Consumer.RunFollows | lib/oauth/consumer.rb:303-364 | every run is a chain of redirects: each later request is for path and query of the URI the answer before it resolves to, or for that whole URI when it lies on another origin |
| Consumer.RunReaches | lib/oauth/consumer.rb:260-265 | where every request of a run goes and what it asks for: rooted paths over the connection there is, absolute URLs to their own host, others to the site |
| Consumer.EndpointPrevails | lib/oauth/consumer.rb:467-493 | a request endpoint prevails over any URL whenever a connection is made |
| Consumer.LineRooted | lib/oauth/consumer.rb:261 | a slash after a line break counts as one at the start |
| Consumer.FollowedExact | lib/oauth/consumer.rb:319-330 | when a redirect is followed: it resolves, one is left, and the origin stays or may change |
| Consumer.FollowedIsSent | lib/oauth/consumer.rb:331-332 | a followed redirect leads to a request |
| Consumer.OutcomeExact | lib/oauth/consumer.rb:303-336 | a run succeeds exactly when its last request was answered with 200 to 299 |
| Consumer.LimitOptionPrevails | lib/oauth/consumer.rb:366-368 | a limit in the options makes the consumer's irrelevant, which otherwise counts as given |
| Consumer.OriginOptionPrevails | lib/oauth/consumer.rb:370-372 | the same for the permission to change origin, nil and false included |
| Consumer.BudgetOfLimit | lib/oauth/consumer.rb:323-324 | the redirects left are the limit less the carried count |
| Consumer.FlagCountRaises | lib/oauth/consumer.rb:323 | a carried count that is a flag lets no redirect be followed |
| Consumer.EndlessRedirectsCutOff | lib/oauth/consumer.rb:319-330 | an endless redirect is cut off after exactly that many requests |
| RedirectExamples.LimitIsReached | lib/oauth/consumer.rb:319-330 | for every limit some consumer and server make exactly one request more |
| Consumer.RedirectsStayOnTarget | lib/oauth/consumer.rb:303-364 | with cross-origin redirects off, every request of every run goes to the first request's target |
| Consumer.CheckedUriExact | lib/oauth/consumer.rb:346-351 | a rooted path is judged on the site's origin exactly when it resolves to the site |
| Consumer.CheckedIsContactedExact | lib/oauth/consumer.rb:346-378 | at every hop of every run the contacted origin is the site's, and is the checked one exactly when the path resolves to the site |
| Consumer.DoubleSlashDiverges | lib/oauth/consumer.rb:346-364 | a redirect to a path starting with two slashes makes the two differ |
| RedirectExamples.DivergenceHappens | lib/oauth/consumer.rb:346-364 | a consumer and server for which this happens |
| Consumer.FollowedRooted | lib/oauth/consumer.rb:360-364 | with cross-origin redirects off, a followed redirect always has a rooted path |
| Connection.TokenCallsRest | lib/oauth/tokens/access_token.rb:8-21 | after any access-token calls, each returning or raising, the consumer is at rest on its site |
| Connection.TokenCallRests | lib/oauth/tokens/access_token.rb:8-21 | the same for one call |
| Connection.TokenCallDelivers | lib/oauth/tokens/access_token.rb:8-21 | what an access-token call sends: nothing exactly when its URL cannot be read or no connection made, else one request of its own to the host its URL names, or the site, for the URL's path and query |
| Connection.TokenRequestRestsExact | lib/oauth/consumer.rb:303-336 | with cross-origin redirects off, a token request leaves the consumer at rest exactly when its endpoint lies on the consumer's origin |
| Connection.MixedCallsRest | lib/oauth/tokens/access_token.rb:8-21 | token requests to such endpoints and access-token calls, in any order, keep the consumer at rest |
| Connection.OtherServiceReturns | lib/oauth/consumer.rb:158-165 | a call to another service brings the consumer back to rest from any connection |
| Connection.ConsumerObject.SetUri | lib/oauth/consumer.rb:158-165 | replaces the URI and re-creates the connection |
| Connection.ConsumerObject.PerformRequest | lib/oauth/consumer.rb:260-292 | the state and answer of one request, connection re-created for paths without a leading slash |
| Connection.ConsumerObject.PerformTokenRequest | lib/oauth/consumer.rb:303-336 | the state and outcome of a whole token request |
| Connection.ConsumerObject.PerformTokenCall | lib/oauth/tokens/access_token.rb:8-21 | swap, call and restore, whatever raises in between; from rest the call is delivered as above and the consumer is left at rest |

## Left out

- HMAC, RSA, SHA, Base64 and X.509: foreign libraries; the digest is the parameter `mac`.
- PLAINTEXT signatures, signature method lookup and the order in which secrets override one another.
- Text encodings and UTF-8 tagging in `escape` and `unescape`: everything is bytes.
- Form parsers: `CGI.parse`, Rack and Rails are one parser cutting at `&` and the first `=`; `;` as a separator, bracketed names, empty names on the Rack side and errors on malformed escapes are not part of this model (`RackFlat` marks the names for which Rack's hash is flat).
- Arrays of arrays directly under a top-level name: Ruby prints them with `inspect`; the model answers `Err(OutsideModel)`.
- `oauth_full_request_uri`: the request URI is an input; only its origin and path enter the base string.
- `hash_body` and `amend_user_agent_header`: the body hash is an input of the client options.
- `stringify_keys`: keys are byte strings from the start.
- Transport, TLS, proxies, timeouts, body streams and unsupported HTTP verbs in `create_http_request`.
- Optional adapters (curb, em-http, typhoeus, rest-client, jabber) and the command line.
- The control options of a token request are nil, a flag or an integer; `"3".to_i` and the like are not part of this model.
- A block passed to `request` or `token_request`, and the parsing of a token response body.
- Cross-origin redirects switched on: runs are bounded and uniform there too, but where the connection ends up is stated only with them off.
