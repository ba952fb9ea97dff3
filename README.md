# DashNex OAuth client, modelled in Dafny

A model of `DashNexOauthClient`, the OAuth 2.0 client of the DashNex platform. It supports
the authorization-code grant (section 4.1 of RFC 6749). A client configured without a
secret adds PKCE (RFC 7636) with the S256 method. It also supports the refresh-token grant
(section 6 of RFC 6749).

The client holds four configuration values and offers three operations:

- building the authorization URL;
- exchanging an authorization code for a token;
- refreshing a token.

The model keeps the client as a class whose four `const` fields the constructor sets once.
Building the URL and exchanging the code are methods that build their parameter lists step
by step, as the source does. Generating the verifier is a method that fills a 32-byte array
in a loop. The state token, the challenge, the refresh request and the response handling
are functions.

The source's external dependencies become inputs:

- `Math.random()` becomes explicit draws: 32 nibbles for the state, 32 bytes for the verifier.
- The SHA-256 of `sha.js` becomes a function parameter `sha256` from bytes to a 32-byte digest.
- `fetch` becomes a function parameter from a request to a response or a transport error.
  The exchange method also returns the list of requests it handed to `fetch`, so the model
  can state that a failed credential check sends nothing.

The libraries the source relies on are modelled from their standards:

- `Buffer.toString('base64')` follows section 4 of RFC 4648.
- `new URLSearchParams(...).toString()` follows the `application/x-www-form-urlencoded`
  serializer of the WHATWG URL Standard, including UTF-8 (RFC 3629).

Each encoder has a decoder as its partner, and the model proves the round trips: `Base64.Decode`
for the padded standard form, `Base64.DecodeUrlNoPad` for the URL-safe form, `Utf8.Decode`, and
`FormUrlEncoded.ParseQuery` for the serialized query. The padded form is also tied to the
URL-safe one: the source's three replacements turn the first into the second. Decoding
the authorization URL's query gives back the exact parameter list. Decoding the verifier
gives back the random bytes. Decoding the challenge gives back the SHA-256 digest of the
verifier's ASCII bytes, which is the check an authorization server makes under section 4.6
of RFC 7636.

Files: `wrappers.dfy` (Option, Result), `octets.dfy` (bytes, nibbles, hex digits),
`js_strings.dfy` (global one-character `replace`), `utf8.dfy`, `base64.dfy`,
`form_urlencoded.dfy`, `oauth_client.dfy` (the client).

## Model

| member | source | states |
|---|---|---|
| `OauthClient.OrNull` | src/DashNexOauthClient.ts:27 | `clientSecret \|\| null`: the stored secret is null exactly when the configured one is absent or empty, and otherwise is the configured one |
| `OauthClient.OrElse` | src/DashNexOauthClient.ts:29 | `baseUrl \|\| default`: the fallback exactly when the configured value is absent or empty, otherwise the configured value |
| `OauthClient.DashNexOauthClient.constructor` | src/DashNexOauthClient.ts:25-30 | clientId and redirectUri are copied; the secret is null when absent or empty; the base URL is `https://api.dashnex.com` when absent or empty |
| `OauthClient.StateToken` | src/DashNexOauthClient.ts:35-37 | one character per draw, each a lower-case hex digit whose value is that draw (so 32 draws give 32 characters of `[0-9a-f]`) |
| `JsStrings.ReplaceAll` | src/DashNexOauthClient.ts:132-133 | same length; every occurrence of the pattern character replaced, every other character kept in place |
| `JsStrings.RemoveAll` | src/DashNexOauthClient.ts:134 | the removed character no longer occurs, and no character is introduced |
| `OauthClient.ToBase64Url` | src/DashNexOauthClient.ts:143-145 | the result of the three replacements never contains `+`, `/` or `=` |
| `OauthClient.ToBase64UrlOfEncode` | src/DashNexOauthClient.ts:130-134 | the replacements applied to padded standard base 64 give exactly URL-safe base 64 without padding (RFC 4648 section 5) |
| `Base64.EncodeLength` | src/DashNexOauthClient.ts:130-131 | `Base64.Encode`, the padded standard encoding of `toString('base64')`, gives 4·⌈n/3⌉ characters for n bytes, a multiple of four |
| `Base64.DecodeEncode` | src/DashNexOauthClient.ts:130-131 | `Base64.Decode` undoes `Base64.Encode`: the padded standard encoding gives back every byte sequence (the same encoder serves `digest('base64')` at line 142) |
| `Base64.EncodeUrlNoPad` | src/DashNexOauthClient.ts:130-134 | URL-safe encoding of n bytes has ⌈8n/6⌉ characters, all from `[A-Za-z0-9_-]` |
| `Base64.DecodeEncodeUrlNoPad` | src/DashNexOauthClient.ts:130-134 | decoding the URL-safe encoding gives back every byte sequence |
| `OauthClient.GenerateCodeVerifier` | src/DashNexOauthClient.ts:123-135 | the 32 draws are copied into the array in a loop; the verifier is the base64url text of the draws, 43 unreserved characters, and decodes back to the draws |
| `OauthClient.CodeVerifierWellFormed` | src/DashNexOauthClient.ts:130-134 | `CodeVerifier`, the encode-and-replace chain of the verifier: for 32 bytes it has 43 characters, meets the form of section 4.1 of RFC 7636, is ASCII, and decodes back to the bytes |
| `OauthClient.CodeChallenge` | src/DashNexOauthClient.ts:138-148 | the challenge has 43 characters of `[A-Za-z0-9_-]` and decodes to the SHA-256 digest of the verifier's UTF-8 bytes |
| `OauthClient.CodeChallengeS256` | src/DashNexOauthClient.ts:138-148 | for a generated verifier the challenge is BASE64URL(SHA256(ASCII(verifier))) and decodes back to that digest |
| `Utf8.EncodeAscii` | src/DashNexOauthClient.ts:140-141 | on ASCII text `Utf8.Encode`, the UTF-8 bytes that are hashed are the character codes |
| `Utf8.DecodeEncode` | src/DashNexOauthClient.ts:56 | `Utf8.Encode`, the UTF-8 encoding of names and values, loses nothing: decoding gives the string back |
| `FormUrlEncoded.Encode` | src/DashNexOauthClient.ts:56 | an encoded name or value contains only unreserved characters, `+`, `%` and hex digits, never `&` or `=` |
| `FormUrlEncoded.EncodeAsciiChar` | src/DashNexOauthClient.ts:56 | an ASCII character is kept if alphanumeric or one of `*-._`, a space becomes `+`, anything else becomes `%` and two upper-case hex digits |
| `FormUrlEncoded.EncodeAppend` | src/DashNexOauthClient.ts:56 | encoding works character by character: the encoding of a concatenation is the concatenation of the encodings |
| `FormUrlEncoded.EncodeUnreserved` | src/DashNexOauthClient.ts:56 | a string of alphanumerics and `*-._` is its own encoding |
| `FormUrlEncoded.EncodeWords` | src/__tests__/DashNexOauthClient.test.ts:36-40 | two space-separated words such as the scope `read write` encode as `read+write` |
| `FormUrlEncoded.EncodeUri` | src/__tests__/DashNexOauthClient.test.ts:38 | a URI such as `http://localhost:3000/callback` encodes as `http%3A%2F%2Flocalhost%3A3000%2Fcallback` |
| `FormUrlEncoded.DecodeEncode` | src/DashNexOauthClient.ts:56 | percent-decoding and UTF-8 decoding give back every encoded name or value |
| `FormUrlEncoded.ParseSerialize` | src/DashNexOauthClient.ts:56 | `Serialize`, the model of `URLSearchParams.toString()`, loses nothing: parsing the serialized query gives back exactly the list of pairs, in order |
| `OauthClient.DashNexOauthClient.Challenge` | src/DashNexOauthClient.ts:47-54 | a challenge is produced exactly when no secret is configured |
| `OauthClient.DashNexOauthClient.GetAuthorizationUrl` | src/DashNexOauthClient.ts:33-57 | the URL built step by step equals the endpoint, `?`, and the serialized parameter list; scope defaults to the empty string |
| `OauthClient.DashNexOauthClient.AuthorizationParamsShape` | src/DashNexOauthClient.ts:39-54 | `AuthorizationParams`, the parameter record: its entries are `client_id`, `redirect_uri`, `response_type=code`, `scope`, `state` in that order, followed by `code_challenge` and `code_challenge_method=S256` if and only if there is no secret |
| `OauthClient.DashNexOauthClient.AuthorizationUrlQuery` | src/DashNexOauthClient.ts:56 | `AuthorizationUrl`, the returned template string: it starts with `baseUrl + "/oauth/v2/auth?"` and the rest parses back to exactly the parameter list |
| `OauthClient.DashNexOauthClient.AuthorizationUrlPkce` | src/DashNexOauthClient.ts:47-56 | read back from the URL, the query has `code_challenge` and `code_challenge_method=S256` if and only if no secret is configured, and carries the state token |
| `OauthClient.DashNexOauthClient.AuthorizationChallenge` | src/DashNexOauthClient.ts:47-54 | without a secret, the challenge in the URL is the S256 challenge of a well-formed verifier made from the draws and decodes to SHA256(ASCII(verifier)) |
| `OauthClient.DashNexOauthClient.ExchangeRequest` | src/DashNexOauthClient.ts:60-90 | fails with "Either client secret or code verifier must be provided" if and only if there is no secret and no non-empty verifier; otherwise a JSON POST to `baseUrl + "/oauth/v2/token"` with the exchange body |
| `OauthClient.DashNexOauthClient.ExchangeBodyShape` | src/DashNexOauthClient.ts:61-76 | `ExchangeBody`, the exchange parameters: the body is `grant_type=authorization_code`, `code`, `redirect_uri`, `client_id`, then `client_secret` exactly when a secret is set, then `code_verifier` exactly when it is non-empty; no value is null |
| `OauthClient.DashNexOauthClient.ExchangeCodeForToken` | src/DashNexOauthClient.ts:60-97 | without a credential, nothing is sent and the missing-credential error is returned; with one, exactly the exchange request is sent and the outcome is that of its response |
| `OauthClient.ExchangeOutcome` | src/DashNexOauthClient.ts:92-96 | a transport error passes through; a non-ok status gives "Token exchange failed: " + status text; an ok response gives the parsed body unchanged |
| `OauthClient.ExchangeFailureCarriesStatus` | src/DashNexOauthClient.ts:92-94 | two failed exchanges give the same error if and only if they have the same status text |
| `OauthClient.DashNexOauthClient.RefreshRequest` | src/DashNexOauthClient.ts:100-113 | a POST to the token endpoint with the headers `Content-Type: application/json` and `User-Agent: DNX`, whose body has exactly the keys `grant_type`, `refresh_token`, `client_id`, `client_secret`, in that order, with the values `refresh_token`, the caller's refresh token, the client id, and the secret or null |
| `OauthClient.RefreshOutcome` | src/DashNexOauthClient.ts:115-119 | a transport error passes through; a non-ok status gives the fixed "Token refresh failed"; an ok response gives the parsed body unchanged |
| `OauthClient.RefreshFailureIgnoresResponse` | src/DashNexOauthClient.ts:115-117 | every failed refresh gives the same error, whatever its status text |
| `OauthClient.DashNexOauthClient.RefreshAccessToken` | src/DashNexOauthClient.ts:100-120 | the refresh sends its request once and returns the transport error, the fixed failure, or the parsed body |
| `OauthClient.DashNexOauthClient.SecretAsymmetry` | src/DashNexOauthClient.ts:61-112 | both grants post to the same endpoint with the same headers; the exchange carries `client_secret` only when a secret is set, while the refresh always carries it, as null when there is none |

## Left out

- `fetch`, `async` and promises: the transport is the parameter `fetch`. Headers are part of the request value. What goes over the wire is not modelled.
- `Math.random()`: its floating-point values are replaced by draws in range (nibbles below 16, bytes below 256). Whether those draws are random, or unpredictable enough for OAuth, is outside the model.
- SHA-256 itself: the digest is an uninterpreted 32-byte function of the hashed bytes.
- The exact text `JSON.stringify` produces: request bodies are ordered lists of members whose values may be null.
- `response.json()`: its outcome is given with the response, as a token or an error, and is passed through unchanged. The source does not check the token's shape at run time, and the model gives it the `AuthToken` type.
- Lone UTF-16 surrogates: JavaScript strings can hold them and `URLSearchParams` would write them as U+FFFD. A Dafny string holds only Unicode scalar values, so this case does not arise in the model.
- The verifier made inside `getAuthorizationUrl` is thrown away, as in the source. Nothing in the model returns it.
- `tsup.config.ts` holds build configuration only, so it is not modelled. The test file is used only as evidence for the lemmas named above.
