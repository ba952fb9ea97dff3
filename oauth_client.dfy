/**
 * The DashNex OAuth 2.0 client: authorization-code grant (section 4.1 of RFC 6749) with PKCE
 * (RFC 7636) for clients without a secret, and the refresh-token grant (section 6 of RFC 6749).
 *
 * The random draws, the SHA-256 digest and the HTTP transport are parameters: state draws are
 * the 32 nibbles `Math.floor(Math.random() * 16)` yields, verifier draws the 32 bytes
 * `Math.floor(Math.random() * 256)` yields, `sha256` the digest function, `fetch` what the
 * HTTP transport resolves to (a response) or rejects with (an error) for a request.
 */
module OauthClient {
  import opened Wrappers
  import opened Octets
  import JsStrings
  import Utf8
  import Base64
  import Form = FormUrlEncoded

  const DefaultBaseUrl := "https://api.dashnex.com"
  const AuthorizationPath := "/oauth/v2/auth"
  const TokenPath := "/oauth/v2/token"
  const MissingCredentialMessage := "Either client secret or code verifier must be provided"
  const ExchangeFailedPrefix := "Token exchange failed: "
  const RefreshFailedMessage := "Token refresh failed"

  /** A client secret as stored: JavaScript truthiness keeps the empty string out. */
  type Secret = s: string | s != "" witness "s"

  /** A SHA-256 digest. */
  type Digest = d: seq<Byte> | |d| == 32 witness seq(32, _ => 0)

  /** The constructor's argument; an absent optional member is None. */
  datatype Config = Config(clientId: string, clientSecret: Option<string>, redirectUri: string, baseUrl: Option<string>)

  /** The provider's token response, passed through without inspection. */
  datatype AuthToken = AuthToken(accessToken: string, refreshToken: string, expiresIn: int, scope: string, tokenType: string)

  /** A thrown JavaScript `Error`, by its message. */
  datatype Error = Error(message: string)

  /** A member of a JSON request body; a None value is serialized as `null`. */
  datatype Field = Field(key: string, value: Option<string>)

  /** An outgoing HTTP request. */
  datatype Request = Request(verb: string, url: string, headers: seq<(string, string)>, body: seq<Field>)

  /**
   * What `fetch` resolves to: `ok`, `statusText`, and the outcome of `response.json()`
   * (the parsed token, or the error it rejects with).
   */
  datatype Response = Response(ok: bool, statusText: string, json: Result<AuthToken, Error>)

  /** JavaScript truthiness of an optional string. */
  predicate Truthy(o: Option<string>) {
    o.Some? && o.value != ""
  }

  /** `value || null`. */
  function OrNull(o: Option<string>): (r: Option<Secret>)
    ensures r.None? <==> !Truthy(o)
    ensures r.Some? ==> o == Some(r.value)
  {
    if Truthy(o) then Some(o.value) else None
  }

  /** `value || fallback`. */
  function OrElse(o: Option<string>, fallback: string): (r: string)
    ensures !Truthy(o) ==> r == fallback
    ensures Truthy(o) ==> r == o.value
  {
    if Truthy(o) then o.value else fallback
  }

  function Keys(fields: seq<Field>): (ks: seq<string>)
    ensures |ks| == |fields|
    ensures forall i :: 0 <= i < |fields| ==> ks[i] == fields[i].key
  {
    if fields == [] then [] else [fields[0].key] + Keys(fields[1..])
  }

  function PairKeys(pairs: seq<(string, string)>): (ks: seq<string>)
    ensures |ks| == |pairs|
    ensures forall i :: 0 <= i < |pairs| ==> ks[i] == pairs[i].0
  {
    if pairs == [] then [] else [pairs[0].0] + PairKeys(pairs[1..])
  }

  /** A JSON POST as both token requests send it. */
  function PostJson(url: string, body: seq<Field>): Request {
    Request("POST", url, [("Content-Type", "application/json"), ("User-Agent", "DNX")], body)
  }

  // State token

  /** The state token: one lower-case hexadecimal digit per draw. */
  function StateToken(draws: seq<Nibble>): (s: string)
    ensures |s| == |draws|
    ensures forall i :: 0 <= i < |s| ==> IsLowerHexDigit(s[i]) && HexValue(s[i]) == Some(draws[i])
  {
    seq(|draws|, i requires 0 <= i < |draws| => LowerHexDigit(draws[i]))
  }

  // Base64url

  /** `.replace(/\+/g, '-').replace(/\//g, '_').replace(/=/g, '')` on a base 64 text. */
  function ToBase64Url(s: string): (r: string)
    ensures '+' !in r && '/' !in r && '=' !in r
  {
    JsStrings.RemoveAll(JsStrings.ReplaceAll(JsStrings.ReplaceAll(s, '+', '-'), '/', '_'), '=')
  }

  lemma UrlCharOfStdChar(v: Base64.Sextet)
    ensures (var c := Base64.StdChar(v); var d := if c == '+' then '-' else c; if d == '/' then '_' else d)
      == Base64.UrlChar(v)
  {
  }

  /** The replacements turn standard padded base 64 into URL-safe base 64 without padding. */
  lemma ToBase64UrlOfEncode(b: seq<Byte>)
    ensures ToBase64Url(Base64.Encode(b)) == Base64.EncodeUrlNoPad(b)
  {
    var v := Base64.Sextets(b);
    var std, pad, url := Base64.StdChars(v), Base64.Padding(|b|), Base64.UrlChars(v);
    var replaced := JsStrings.ReplaceAll(JsStrings.ReplaceAll(std + pad, '+', '-'), '/', '_');
    forall i | 0 <= i < |v|
      ensures replaced[i] == url[i]
    {
      UrlCharOfStdChar(v[i]);
    }
    assert replaced == url + pad;
    JsStrings.RemoveAllAppend(url, pad, '=');
    assert '=' !in url;
    JsStrings.RemoveAllAbsent(url, '=');
    JsStrings.RemoveAllOnly(pad, '=');
    assert url + "" == url;
  }

  // PKCE (RFC 7636)

  /** The unreserved characters of section 4.1 of RFC 7636: `A-Z`, `a-z`, `0-9`, `-._~`. */
  predicate IsUnreservedChar(c: char) {
    'A' <= c <= 'Z' || 'a' <= c <= 'z' || '0' <= c <= '9' || c == '-' || c == '.' || c == '_' || c == '~'
  }

  /** A well-formed code verifier (section 4.1 of RFC 7636): 43 to 128 unreserved characters. */
  predicate IsCodeVerifier(s: string) {
    43 <= |s| <= 128 && forall i :: 0 <= i < |s| ==> IsUnreservedChar(s[i])
  }

  /** The verifier made from the given draws. */
  function CodeVerifier(draws: seq<Byte>): string {
    ToBase64Url(Base64.Encode(draws))
  }

  /** The S256 challenge: URL-safe base 64 of the SHA-256 of the verifier's UTF-8 bytes. */
  function CodeChallenge(verifier: string, sha256: seq<Byte> -> Digest): (challenge: string)
    ensures |challenge| == 43
    ensures forall i :: 0 <= i < |challenge| ==> Base64.IsUrlChar(challenge[i])
    ensures Base64.DecodeUrlNoPad(challenge) == Some(sha256(Utf8.Encode(verifier)))
  {
    var digest := sha256(Utf8.Encode(verifier));
    ToBase64UrlOfEncode(digest);
    Base64.DecodeEncodeUrlNoPad(digest);
    ToBase64Url(Base64.Encode(digest))
  }

  lemma UrlCharIsAscii(s: string)
    requires forall i :: 0 <= i < |s| ==> Base64.IsUrlChar(s[i])
    ensures Utf8.IsAscii(s)
    ensures IsCodeVerifier(s) <== 43 <= |s| <= 128
  {
  }

  /** The verifier of 32 draws is well-formed ASCII text that decodes back to the draws. */
  lemma CodeVerifierWellFormed(draws: seq<Byte>)
    requires |draws| == 32
    ensures var v := CodeVerifier(draws);
      && |v| == 43 && IsCodeVerifier(v) && Utf8.IsAscii(v)
      && Base64.DecodeUrlNoPad(v) == Some(draws)
  {
    ToBase64UrlOfEncode(draws);
    Base64.DecodeEncodeUrlNoPad(draws);
    UrlCharIsAscii(CodeVerifier(draws));
  }

  /**
   * The challenge of a generated verifier is what the server recomputes from the verifier
   * (section 4.6 of RFC 7636): BASE64URL-ENCODE(SHA256(ASCII(code_verifier))).
   */
  lemma CodeChallengeS256(draws: seq<Byte>, sha256: seq<Byte> -> Digest)
    requires |draws| == 32
    ensures var v := CodeVerifier(draws);
      && Utf8.IsAscii(v)
      && CodeChallenge(v, sha256) == Base64.EncodeUrlNoPad(sha256(Utf8.AsciiBytes(v)))
      && Base64.DecodeUrlNoPad(CodeChallenge(v, sha256)) == Some(sha256(Utf8.AsciiBytes(v)))
  {
    var v := CodeVerifier(draws);
    CodeVerifierWellFormed(draws);
    Utf8.EncodeAscii(v);
    ToBase64UrlOfEncode(sha256(Utf8.AsciiBytes(v)));
  }

  /** `generateCodeVerifier`: fills an array with the draws and encodes it. */
  method GenerateCodeVerifier(draws: seq<Byte>) returns (verifier: string)
    requires |draws| == 32
    ensures verifier == CodeVerifier(draws)
    ensures |verifier| == 43 && IsCodeVerifier(verifier)
    ensures Base64.DecodeUrlNoPad(verifier) == Some(draws)
  {
    var bytes := new Byte[32];
    for i := 0 to bytes.Length
      invariant forall k :: 0 <= k < i ==> bytes[k] == draws[k]
    {
      bytes[i] := draws[i];
    }
    assert bytes[..] == draws;
    verifier := ToBase64Url(Base64.Encode(bytes[..]));
    CodeVerifierWellFormed(draws);
  }

  // Response handling

  /**
   * The outcome of a token exchange once the transport has settled: its error unchanged,
   * the status text on a non-ok status, the parsed body otherwise.
   */
  function ExchangeOutcome(fetched: Result<Response, Error>): (r: Result<AuthToken, Error>)
    ensures fetched.Failure? ==> r == Failure(fetched.error)
    ensures fetched.Success? && fetched.value.ok ==> r == fetched.value.json
    ensures fetched.Success? && !fetched.value.ok ==>
      r == Failure(Error(ExchangeFailedPrefix + fetched.value.statusText))
  {
    match fetched
    case Failure(e) => Failure(e)
    case Success(response) =>
      if !response.ok then Failure(Error(ExchangeFailedPrefix + response.statusText)) else response.json
  }

  /**
   * The outcome of a refresh once the transport has settled: its error unchanged, a fixed
   * message on a non-ok status, the parsed body otherwise.
   */
  function RefreshOutcome(fetched: Result<Response, Error>): (r: Result<AuthToken, Error>)
    ensures fetched.Failure? ==> r == Failure(fetched.error)
    ensures fetched.Success? && fetched.value.ok ==> r == fetched.value.json
    ensures fetched.Success? && !fetched.value.ok ==> r == Failure(Error(RefreshFailedMessage))
  {
    match fetched
    case Failure(e) => Failure(e)
    case Success(response) =>
      if !response.ok then Failure(Error(RefreshFailedMessage)) else response.json
  }

  /** A failed exchange reports the status text: different texts give different errors. */
  lemma ExchangeFailureCarriesStatus(r1: Response, r2: Response)
    requires !r1.ok && !r2.ok
    ensures ExchangeOutcome(Success(r1)) == ExchangeOutcome(Success(r2)) <==> r1.statusText == r2.statusText
  {
    if ExchangeOutcome(Success(r1)) == ExchangeOutcome(Success(r2)) {
      var m1, m2 := ExchangeFailedPrefix + r1.statusText, ExchangeFailedPrefix + r2.statusText;
      assert m1 == m2;
      assert m1[|ExchangeFailedPrefix|..] == r1.statusText;
      assert m2[|ExchangeFailedPrefix|..] == r2.statusText;
    }
  }

  /** A failed refresh does not depend on anything in the response. */
  lemma RefreshFailureIgnoresResponse(r1: Response, r2: Response)
    requires !r1.ok && !r2.ok
    ensures RefreshOutcome(Success(r1)) == RefreshOutcome(Success(r2))
    ensures RefreshOutcome(Success(r1)) == Failure(Error(RefreshFailedMessage))
  {
  }

  class DashNexOauthClient {
    const clientId: string
    const clientSecret: Option<Secret>
    const redirectUri: string
    const baseUrl: string

    /** Copies the configuration; an empty secret or base URL counts as absent. */
    constructor(config: Config)
      ensures clientId == config.clientId && redirectUri == config.redirectUri
      ensures clientSecret == OrNull(config.clientSecret)
      ensures baseUrl == OrElse(config.baseUrl, DefaultBaseUrl)
    {
      clientId := config.clientId;
      clientSecret := OrNull(config.clientSecret);
      redirectUri := config.redirectUri;
      baseUrl := OrElse(config.baseUrl, DefaultBaseUrl);
    }

    // Authorization URL

    /** The query parameters, in insertion order; `challenge` is present exactly in PKCE mode. */
    function AuthorizationParams(scope: string, state: string, challenge: Option<string>): seq<(string, string)>
      requires challenge.Some? <==> clientSecret.None?
    {
      if challenge.Some? then
        RequiredParams(scope, state) + [("code_challenge", challenge.value), ("code_challenge_method", "S256")]
      else RequiredParams(scope, state)
    }

    /** The five parameters every authorization URL carries, in insertion order. */
    function RequiredParams(scope: string, state: string): seq<(string, string)> {
      [("client_id", clientId), ("redirect_uri", redirectUri), ("response_type", "code"),
       ("scope", scope), ("state", state)]
    }

    /** The challenge the authorization URL carries: none when a secret is configured. */
    function Challenge(verifierDraws: seq<Byte>, sha256: seq<Byte> -> Digest): (r: Option<string>)
      ensures r.Some? <==> clientSecret.None?
    {
      if clientSecret.None? then Some(CodeChallenge(CodeVerifier(verifierDraws), sha256)) else None
    }

    function AuthorizationUrl(stateDraws: seq<Nibble>, verifierDraws: seq<Byte>,
                              sha256: seq<Byte> -> Digest, scope: string): string
    {
      var params := AuthorizationParams(scope, StateToken(stateDraws), Challenge(verifierDraws, sha256));
      AuthorizationEndpoint() + "?" + Form.Serialize(params)
    }

    function AuthorizationEndpoint(): string {
      baseUrl + AuthorizationPath
    }

    /** `getAuthorizationUrl`; the generated verifier is not returned. */
    method GetAuthorizationUrl(stateDraws: seq<Nibble>, verifierDraws: seq<Byte>,
                               sha256: seq<Byte> -> Digest, scope: string := "") returns (url: string)
      requires |stateDraws| == 32 && |verifierDraws| == 32
      ensures url == AuthorizationUrl(stateDraws, verifierDraws, sha256, scope)
    {
      var state := StateToken(stateDraws);
      var params := RequiredParams(scope, state);
      if clientSecret.None? {
        var codeVerifier := GenerateCodeVerifier(verifierDraws);
        var codeChallenge := CodeChallenge(codeVerifier, sha256);
        params := params + [("code_challenge", codeChallenge)];
        params := params + [("code_challenge_method", "S256")];
      }
      assert params == AuthorizationParams(scope, state, Challenge(verifierDraws, sha256));
      url := AuthorizationEndpoint() + "?" + Form.Serialize(params);
    }

    /**
     * The parameter list: always the five required ones in order, followed by the PKCE pair
     * exactly when no secret is configured.
     */
    lemma AuthorizationParamsShape(stateDraws: seq<Nibble>, verifierDraws: seq<Byte>,
                                   sha256: seq<Byte> -> Digest, scope: string)
      ensures var p := AuthorizationParams(scope, StateToken(stateDraws), Challenge(verifierDraws, sha256));
        && p[..5] == [("client_id", clientId), ("redirect_uri", redirectUri), ("response_type", "code"),
                      ("scope", scope), ("state", StateToken(stateDraws))]
        && (clientSecret.Some? ==> PairKeys(p) == ["client_id", "redirect_uri", "response_type", "scope", "state"])
        && (clientSecret.None? ==> PairKeys(p) == ["client_id", "redirect_uri", "response_type", "scope", "state",
                                                  "code_challenge", "code_challenge_method"])
        && ("code_challenge" in PairKeys(p) <==> clientSecret.None?)
        && ("code_challenge_method" in PairKeys(p) <==> clientSecret.None?)
        && (clientSecret.None? ==> p[5].1 == CodeChallenge(CodeVerifier(verifierDraws), sha256) && p[6].1 == "S256")
    {
    }

    /**
     * The URL is the authorization endpoint followed by `?` and a query that parses back to
     * exactly the parameter list.
     */
    lemma AuthorizationUrlQuery(stateDraws: seq<Nibble>, verifierDraws: seq<Byte>,
                                sha256: seq<Byte> -> Digest, scope: string)
      ensures var url := AuthorizationUrl(stateDraws, verifierDraws, sha256, scope);
        var prefix := AuthorizationEndpoint() + "?";
        && |prefix| <= |url| && url[..|prefix|] == prefix
        && Form.ParseQuery(url[|prefix|..])
           == Some(AuthorizationParams(scope, StateToken(stateDraws), Challenge(verifierDraws, sha256)))
    {
      var params := AuthorizationParams(scope, StateToken(stateDraws), Challenge(verifierDraws, sha256));
      var prefix := AuthorizationEndpoint() + "?";
      var url := AuthorizationUrl(stateDraws, verifierDraws, sha256, scope);
      assert url == prefix + Form.Serialize(params);
      assert url[|prefix|..] == Form.Serialize(params);
      Form.ParseSerialize(params);
    }

    /**
     * Read back from the URL: the query holds `code_challenge` and
     * `code_challenge_method=S256` if and only if no secret is configured, and its `state`
     * is the state token of the draws.
     */
    lemma AuthorizationUrlPkce(stateDraws: seq<Nibble>, verifierDraws: seq<Byte>,
                               sha256: seq<Byte> -> Digest, scope: string)
      ensures var url := AuthorizationUrl(stateDraws, verifierDraws, sha256, scope);
        var start := |AuthorizationEndpoint()| + 1;
        && start <= |url|
        && Form.ParseQuery(url[start..]).Some?
        && var query := Form.ParseQuery(url[start..]).value;
        && ("code_challenge" in PairKeys(query) <==> clientSecret.None?)
        && (("code_challenge_method", "S256") in query <==> clientSecret.None?)
        && ("state", StateToken(stateDraws)) in query
    {
      AuthorizationUrlQuery(stateDraws, verifierDraws, sha256, scope);
      AuthorizationParamsShape(stateDraws, verifierDraws, sha256, scope);
      var query := AuthorizationParams(scope, StateToken(stateDraws), Challenge(verifierDraws, sha256));
      assert query[4] == ("state", StateToken(stateDraws));
      if clientSecret.None? {
        assert query[6] == ("code_challenge_method", "S256");
      } else {
        assert ("code_challenge_method", "S256") !in query by {
          forall i | 0 <= i < |query| ensures query[i] != ("code_challenge_method", "S256") {
            assert PairKeys(query)[i] == query[i].0;
          }
        }
      }
    }

    /**
     * Without a secret, the challenge in the URL is the S256 challenge of a well-formed
     * verifier made from the draws.
     */
    lemma AuthorizationChallenge(verifierDraws: seq<Byte>, sha256: seq<Byte> -> Digest)
      requires |verifierDraws| == 32
      requires clientSecret.None?
      ensures var v := CodeVerifier(verifierDraws);
        && IsCodeVerifier(v)
        && Challenge(verifierDraws, sha256) == Some(CodeChallenge(v, sha256))
        && Base64.DecodeUrlNoPad(Challenge(verifierDraws, sha256).value) == Some(sha256(Utf8.AsciiBytes(v)))
    {
      CodeVerifierWellFormed(verifierDraws);
      CodeChallengeS256(verifierDraws, sha256);
    }

    // Token exchange

    predicate HasCredential(codeVerifier: Option<string>) {
      clientSecret.Some? || Truthy(codeVerifier)
    }

    function TokenEndpoint(): string {
      baseUrl + TokenPath
    }

    /** The exchange body: the four grant fields, then the secret and the verifier when set. */
    function ExchangeBody(code: string, codeVerifier: Option<string>): seq<Field> {
      GrantFields(code)
      + (if clientSecret.Some? then [Field("client_secret", Some(clientSecret.value))] else [])
      + (if Truthy(codeVerifier) then [Field("code_verifier", codeVerifier)] else [])
    }

    /** The four fields every exchange body starts with. */
    function GrantFields(code: string): seq<Field> {
      [Field("grant_type", Some("authorization_code")), Field("code", Some(code)),
       Field("redirect_uri", Some(redirectUri)), Field("client_id", Some(clientId))]
    }

    /** The request the exchange sends, or the error it throws before sending anything. */
    function ExchangeRequest(code: string, codeVerifier: Option<string>): (r: Result<Request, Error>)
      ensures r.Failure? <==> !HasCredential(codeVerifier)
      ensures r.Failure? ==> r.error == Error(MissingCredentialMessage)
      ensures r.Success? ==> r.value == PostJson(TokenEndpoint(), ExchangeBody(code, codeVerifier))
    {
      if !HasCredential(codeVerifier) then Failure(Error(MissingCredentialMessage))
      else Success(PostJson(TokenEndpoint(), ExchangeBody(code, codeVerifier)))
    }

    /**
     * `exchangeCodeForToken`: `sent` lists the requests handed to `fetch` (none when the
     * credential check fails).
     */
    method ExchangeCodeForToken(code: string, codeVerifier: Option<string>, fetch: Request -> Result<Response, Error>)
      returns (token: Result<AuthToken, Error>, sent: seq<Request>)
      ensures !HasCredential(codeVerifier) ==> sent == [] && token == Failure(Error(MissingCredentialMessage))
      ensures HasCredential(codeVerifier) ==>
        && sent == [ExchangeRequest(code, codeVerifier).value]
        && token == ExchangeOutcome(fetch(sent[0]))
    {
      var params := GrantFields(code);
      if clientSecret.Some? {
        params := params + [Field("client_secret", Some(clientSecret.value))];
      }
      if Truthy(codeVerifier) {
        params := params + [Field("code_verifier", codeVerifier)];
      }
      if clientSecret.None? && !Truthy(codeVerifier) {
        return Failure(Error(MissingCredentialMessage)), [];
      }
      assert params == ExchangeBody(code, codeVerifier);
      var request := PostJson(baseUrl + TokenPath, params);
      var fetched := fetch(request);
      sent := [request];
      token := ExchangeOutcome(fetched);
    }

    /**
     * The exchange body holds the four grant fields in order, `client_secret` exactly when a
     * secret is configured and `code_verifier` exactly when a non-empty verifier is given,
     * in that order, and nothing else.
     */
    lemma ExchangeBodyShape(code: string, codeVerifier: Option<string>)
      ensures var body := ExchangeBody(code, codeVerifier);
        && body[..4] == [Field("grant_type", Some("authorization_code")), Field("code", Some(code)),
                         Field("redirect_uri", Some(redirectUri)), Field("client_id", Some(clientId))]
        && Keys(body) == ["grant_type", "code", "redirect_uri", "client_id"]
             + (if clientSecret.Some? then ["client_secret"] else [])
             + (if Truthy(codeVerifier) then ["code_verifier"] else [])
        && (forall i :: 0 <= i < |body| ==> body[i].value.Some?)
        && (clientSecret.Some? ==> body[4] == Field("client_secret", Some(clientSecret.value)))
        && (Truthy(codeVerifier) ==> body[|body| - 1] == Field("code_verifier", codeVerifier))
    {
    }

    // Refresh

    /**
     * The refresh request: a JSON POST to the token endpoint whose body always has its four
     * members, the grant type, the caller's refresh token, the client id and the secret, in
     * that order; a missing secret is sent as `null`.
     */
    function RefreshRequest(refreshToken: string): (r: Request)
      ensures r.url == TokenEndpoint() && r.verb == "POST"
      ensures r.headers == [("Content-Type", "application/json"), ("User-Agent", "DNX")]
      ensures Keys(r.body) == ["grant_type", "refresh_token", "client_id", "client_secret"]
      ensures r.body[0].value == Some("refresh_token")
      ensures r.body[1].value == Some(refreshToken)
      ensures r.body[2].value == Some(clientId)
      ensures r.body[3].value == clientSecret
    {
      PostJson(TokenEndpoint(),
        [Field("grant_type", Some("refresh_token")), Field("refresh_token", Some(refreshToken)),
         Field("client_id", Some(clientId)), Field("client_secret", clientSecret)])
    }

    /** `refreshAccessToken`: one request, then the provider's answer. */
    function RefreshAccessToken(refreshToken: string, fetch: Request -> Result<Response, Error>): (r: Result<AuthToken, Error>)
      ensures var fetched := fetch(RefreshRequest(refreshToken));
        && (fetched.Failure? ==> r == Failure(fetched.error))
        && (fetched.Success? && fetched.value.ok ==> r == fetched.value.json)
        && (fetched.Success? && !fetched.value.ok ==> r == Failure(Error(RefreshFailedMessage)))
    {
      RefreshOutcome(fetch(RefreshRequest(refreshToken)))
    }

    /**
     * Both grants go to the same endpoint with the same headers. The exchange sends
     * `client_secret` only when a secret is set; the refresh always sends it, as `null`
     * when there is none.
     */
    lemma SecretAsymmetry(code: string, codeVerifier: Option<string>, refreshToken: string)
      requires HasCredential(codeVerifier)
      ensures var exchange := ExchangeRequest(code, codeVerifier).value;
        var refresh := RefreshRequest(refreshToken);
        && exchange.url == refresh.url && exchange.headers == refresh.headers
        && ("client_secret" in Keys(exchange.body) <==> clientSecret.Some?)
        && "client_secret" in Keys(refresh.body)
        && (clientSecret.None? ==> Field("client_secret", None) in refresh.body)
    {
      ExchangeBodyShape(code, codeVerifier);
      var refresh := RefreshRequest(refreshToken);
      assert Keys(refresh.body)[3] == "client_secret";
      assert refresh.body[3] == Field("client_secret", clientSecret);
    }
  }
}
