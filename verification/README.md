# SwaggerAuth request decision in Dafny

This project models the request filter of `SwaggerAuth.Core`. It is an ASP.NET
middleware that puts HTTP Basic authentication in front of Swagger documents,
one document at a time.

For each request `SwaggerAuthMiddleware.InvokeAsync` does the following:

- It lower-cases the path.
- It looks for `/swagger/`.
- It takes the document name between `/swagger/` and `/swagger.json`.
- If the configuration holds a non-empty user name and password for that document
  under `{ConfigurationSection}:{doc}:Username` and
  `{ConfigurationSection}:{doc}:Password`, it asks for a matching
  `Authorization: Basic …` header.
- If that header is missing or wrong, the request is answered with 401, a
  `WWW-Authenticate: Basic realm="{doc} API Documentation"` challenge and a fixed
  message.
- Every other request goes on to the next stage untouched.

Modules, one per file:

- `Wrappers` (`wrappers.dfy`): `Option`.
- `Text` (`text.dfy`): the .NET string operations the middleware uses, over
  `seq<char>`.
  - `ToLower`
  - ordinal `IndexOf`/`Contains`
  - `Split(':', 2)`
- `Base64` (`base64.dfy`): `Convert.FromBase64String`.
  - It follows the alphabet and padding of section 4 of RFC 4648.
  - Space, tab, CR and LF are skipped.
  - `None` stands where .NET throws.
  - It also has the padded encoder that inverts it.
- `AuthOptions` (`auth_options.dfy`): the `SwaggerAuthOptions` record, its
  defaults and the two configuration keys per document.
- `AuthMiddleware` (`auth_middleware.dfy`): the model proper.
  - `ExtractDocName`
  - `IsDocumentConfiguredForAuth`
  - `IsAuthorizedForDoc`
  - `Invoke`, which returns a `Decision`: `Forward` or
    `Reject(status, challenge, body)`.
- `MiddlewareProperties` (`middleware_properties.dfy`): the properties of the
  decision, each stated against an independent characterisation.
  - extraction round trip
  - authorization if-and-only-if
  - fail-open
  - case-insensitive paths
  - unused options
  - the end-to-end decision for `/swagger/{name}/swagger.json`
- `Scenarios` (`scenarios.dfy`): concrete requests.
  - the documented `v1-admin` / `admin:secret` setup
  - the header shapes the code refuses
  - the test vectors of section 10 of RFC 4648

Two inputs of the middleware are parameters of `Invoke`:

- The configuration is a `map<string, string>`; a missing key is `null`.
- UTF-8 decoding is a total function `seq<byte> -> string`. .NET's decoder never
  throws: it substitutes replacement characters.

Two behaviours of the code are easy to misread:

- `/swagger.json` is found with `Contains`, not required at the end of the
  path. A path such as `/swagger/v1/swagger.json/x` still names `v1`: see
  `Scenarios.TrailingSegmentExample`.
- Invalid UTF-8 is not itself a rejection. It turns into replacement characters,
  and they reach the credential comparison like any other character.

## Model

| member | source | states |
|---|---|---|
| Text.Lower | SwaggerAuth.Core/SwaggerAuthMiddleware.cs:37 | The lower-cased path has the same length and no capital letters. Every non-capital is kept. Every capital becomes its lower-case letter. |
| Text.LowerIdempotent | SwaggerAuth.Core/SwaggerAuthMiddleware.cs:37 | Lower-casing an already lower-cased path changes nothing. |
| Text.IndexOf | SwaggerAuth.Core/SwaggerAuthMiddleware.cs:69-70 | The search finds an index exactly when the pattern occurs somewhere. The index found is the first occurrence. `None` plays the role of -1. |
| Text.Contains | SwaggerAuth.Core/SwaggerAuthMiddleware.cs:40 | `Contains` holds exactly when the pattern occurs at some index. The same test is used for both patterns at line 67. |
| Text.SplitFirst | SwaggerAuth.Core/SwaggerAuthMiddleware.cs:115-117 | `Split(':', 2)` gives two parts exactly when the text holds a colon. The first part holds no colon, and the parts joined by the colon are the text again. |
| Text.SplitFirstOfJoin | SwaggerAuth.Core/SwaggerAuthMiddleware.cs:115-123 | Splitting `u:p` gives back `u` and `p` when `u` has no colon, even if `p` has colons. |
| Base64.ValueOfCharOf | SwaggerAuth.Core/SwaggerAuthMiddleware.cs:114 | Each of the 64 values has an alphabet character that decodes back to it. That character is neither padding nor whitespace. |
| Base64.CharOfValueOf | SwaggerAuth.Core/SwaggerAuthMiddleware.cs:114 | Each alphabet character is the character of its own value, so the alphabet is a bijection. |
| Base64.StripWhitespaceSpec | SwaggerAuth.Core/SwaggerAuthMiddleware.cs:114 | Skipping whitespace removes exactly the space, tab, CR and LF characters and leaves whitespace-free text unchanged. |
| Base64.StripWhitespaceAppend | SwaggerAuth.Core/SwaggerAuthMiddleware.cs:114 | Whitespace between two pieces of text is dropped and each piece is stripped on its own. |
| Base64.StripWhitespaceOrder | SwaggerAuth.Core/SwaggerAuthMiddleware.cs:114 | Two non-whitespace characters keep their order in the stripped text, each at the position given by the stripped text before it. |
| Base64.Decode | SwaggerAuth.Core/SwaggerAuthMiddleware.cs:114 | Decoding succeeds only on text made of alphabet, padding and whitespace characters. It fails when the text without whitespace is not a multiple of four long. |
| Base64.DecodeRejectsForeignChar | SwaggerAuth.Core/SwaggerAuthMiddleware.cs:114 | One character outside the alphabet, padding and whitespace makes decoding fail, wherever it stands. |
| Base64.DecodeRejectsDataAfterPad | SwaggerAuth.Core/SwaggerAuthMiddleware.cs:114 | An `=` followed anywhere later by a character that is neither `=` nor whitespace makes decoding fail, as .NET refuses data inside or after the padding. |
| Base64.DecodeRejectsThreePads | SwaggerAuth.Core/SwaggerAuthMiddleware.cs:114 | Three `=` anywhere in the text make decoding fail, as .NET refuses more than two padding characters. |
| Base64.DecodeQuantaPadLast | SwaggerAuth.Core/SwaggerAuthMiddleware.cs:114 | On whitespace-free text, an `=` before any other character makes the quantum-by-quantum decoding fail. |
| Base64.DecodeQuantaThreePads | SwaggerAuth.Core/SwaggerAuthMiddleware.cs:114 | On whitespace-free text whose third character from the end is `=`, the quantum-by-quantum decoding fails. |
| Base64.DecodeIgnoresWhitespace | SwaggerAuth.Core/SwaggerAuthMiddleware.cs:114 | Inserting whitespace anywhere does not change the decoding. |
| Base64.DecodeEncode | SwaggerAuth.Core/SwaggerAuthMiddleware.cs:114 | Decoding the padded encoding of any byte sequence gives that sequence back, so every credential a client can encode is decodable. |
| AuthOptions.Defaults | SwaggerAuth.Core/SwaggerAuthOptions.cs:26-39 | A fresh options record reads credentials under `Swagger:Auth`, does not require auth for all documents, and has no custom message. |
| AuthOptions.DefaultKeysForV1Admin | SwaggerAuth.Core/SwaggerAuthOptions.cs:12-26 | With the default section, the documented `v1-admin` example reads `Swagger:Auth:v1-admin:Username` and `Swagger:Auth:v1-admin:Password`. |
| AuthOptions.UsernameKey | SwaggerAuth.Core/SwaggerAuthMiddleware.cs:89 | The user-name key is the section, a colon, the document name and `:Username`, each at its own position, so the document name can be read back from the key. The same key is read again at line 126. |
| AuthOptions.PasswordKey | SwaggerAuth.Core/SwaggerAuthMiddleware.cs:90 | The password key is the section, a colon, the document name and `:Password`, each at its own position. The same key is read again at line 127. |
| AuthOptions.KeysDistinct | SwaggerAuth.Core/SwaggerAuthMiddleware.cs:89-90 | Within one section, two documents share a user-name key, or a password key, only if they are the same document. A user-name key is never a password key. |
| AuthMiddleware.ExtractDocName | SwaggerAuth.Core/SwaggerAuthMiddleware.cs:64-79 | A name is returned exactly when the first `/swagger/` ends strictly before the first `/swagger.json`. It is then the non-empty text between them. |
| AuthMiddleware.IsDocumentConfiguredForAuth | SwaggerAuth.Core/SwaggerAuthMiddleware.cs:86-93 | A document needs authentication exactly when both its user-name key and its password key are in the configuration with non-empty values. |
| AuthMiddleware.Challenge | SwaggerAuth.Core/SwaggerAuthMiddleware.cs:49 | The challenge is `Basic realm="`, the document name, then ` API Documentation"`; the name sits at a fixed position. |
| AuthMiddleware.Message | SwaggerAuth.Core/SwaggerAuthMiddleware.cs:50 | The body is `Unauthorized access to `, the document name, then ` API documentation. Please provide valid credentials.`; the name sits at a fixed position. |
| AuthMiddleware.IsAuthorizedForDoc | SwaggerAuth.Core/SwaggerAuthMiddleware.cs:101-135 | A missing or empty header is never authorized. So is a header without the `Basic ` prefix, or one whose remainder is not valid base64. |
| AuthMiddleware.Invoke | SwaggerAuth.Core/SwaggerAuthMiddleware.cs:35-57 | Every rejection has status 401 and comes from a request whose lower-cased path names a document. It carries that document's challenge and message. |
| MiddlewareProperties.ConfiguredIgnoresOtherDocuments | SwaggerAuth.Core/SwaggerAuthMiddleware.cs:86-93 | Setting either key of another document in the same section never changes whether a document needs authentication. |
| MiddlewareProperties.RejectionNamesDocument | SwaggerAuth.Core/SwaggerAuthMiddleware.cs:49-50 | Two documents get the same challenge, or the same body, only if they are the same document. |
| MiddlewareProperties.ExtractRoundTrip | SwaggerAuth.Core/SwaggerAuthMiddleware.cs:64-79 | `/swagger/{name}/swagger.json` followed by anything yields exactly `name`, for every non-empty name without `/` that does not begin with `swagger.json`. |
| MiddlewareProperties.EmptyNameNotExtracted | SwaggerAuth.Core/SwaggerAuthMiddleware.cs:72 | `/swagger//swagger.json` names no document: the end index equals the start index, which the strict comparison refuses. |
| MiddlewareProperties.ExtractedNameIsLowerCase | SwaggerAuth.Core/SwaggerAuthMiddleware.cs:37-42 | Every extracted name is lower-case, because extraction runs on the lower-cased path. |
| MiddlewareProperties.AuthorizedIff | SwaggerAuth.Core/SwaggerAuthMiddleware.cs:101-135 | Authorized if and only if all of these hold: the header starts with `Basic `; the rest decodes; both keys are configured; the configured user name has no colon; the decoded text is exactly `user:password`. |
| MiddlewareProperties.AcceptsEncodedCredentials | SwaggerAuth.Core/SwaggerAuthMiddleware.cs:104-129 | When the configured user name has no colon, `Basic ` followed by the base64 of bytes that decode to the configured `user:password` is authorized. |
| MiddlewareProperties.ColonInUserNameNeverAuthorized | SwaggerAuth.Core/SwaggerAuthMiddleware.cs:115-129 | A configured user name that holds a colon can never be matched by any header, because the split is on the first colon. |
| MiddlewareProperties.ForwardsNonSwaggerPaths | SwaggerAuth.Core/SwaggerAuthMiddleware.cs:37-56 | A request without a path, or whose lower-cased path has no `/swagger/`, is forwarded. |
| MiddlewareProperties.RejectIff | SwaggerAuth.Core/SwaggerAuthMiddleware.cs:40-53 | Rejected if and only if the lower-cased path names a document, that document has both credentials configured, and the header does not authorize it. |
| MiddlewareProperties.FailOpen | SwaggerAuth.Core/SwaggerAuthMiddleware.cs:44-56 | When either credential of the named document is missing or empty, the request is forwarded whatever its header holds, none included. |
| MiddlewareProperties.PathCaseIgnored | SwaggerAuth.Core/SwaggerAuthMiddleware.cs:37 | A request is decided exactly as the same request with its path lower-cased. |
| MiddlewareProperties.UnusedOptionsIgnored | SwaggerAuth.Core/SwaggerAuthOptions.cs:28-39 | Two option records with the same section give the same decision for every request, whatever their require-for-all flag and custom message. |
| MiddlewareProperties.DocumentRequestDecision | SwaggerAuth.Core/SwaggerAuthMiddleware.cs:35-57 | For `/swagger/{name}/swagger.json…`, with `{name}` and the tail in any letter case, and for every `{name}` whose lower-cased form is non-empty, has no `/` and does not begin with `swagger.json`: the document is the lower-cased name, and the request is rejected with that document's challenge and message exactly when its credentials are configured and the header does not match them. |
| Scenarios.AdminChallenge | SwaggerAuth.Core/SwaggerAuthMiddleware.cs:49 | The challenge for `v1-admin` is `Basic realm="v1-admin API Documentation"`. |
| Scenarios.CorrectCredentialsForwarded | SwaggerAuth.Core/SwaggerAuthMiddleware.cs:104-129 | With `admin`/`secret` configured for `v1-admin`, `Basic YWRtaW46c2VjcmV0` is forwarded. |
| Scenarios.WrongPasswordRejected | SwaggerAuth.Core/SwaggerAuthMiddleware.cs:46-52 | `Basic YWRtaW46d3Jvbmc=` (`admin:wrong`) is rejected with the `v1-admin` challenge. |
| Scenarios.MissingHeaderRejected | SwaggerAuth.Core/SwaggerAuthMiddleware.cs:104-108 | A request to the protected document with no `Authorization` header is rejected. |
| Scenarios.BearerRejected | SwaggerAuth.Core/SwaggerAuthMiddleware.cs:106-108 | A `Bearer` header is rejected. |
| Scenarios.LowerCaseSchemeRejected | SwaggerAuth.Core/SwaggerAuthMiddleware.cs:106-108 | The scheme is case-sensitive: `basic` with the right credentials is rejected. |
| Scenarios.MalformedBase64Rejected | SwaggerAuth.Core/SwaggerAuthMiddleware.cs:111-134 | `Basic not-valid-base64!!` is rejected as unauthorized, not surfaced as an error. |
| Scenarios.DecodeVectorsUpToThree | SwaggerAuth.Core/SwaggerAuthMiddleware.cs:114 | Among the section 10 vectors of RFC 4648, the empty text decodes to no bytes, and `Zg==`, `Zm8=` and `Zm9v` decode to the bytes of `f`, `fo` and `foo`. |
| Scenarios.DecodeVectorFoob | SwaggerAuth.Core/SwaggerAuthMiddleware.cs:114 | `Zm9vYg==` decodes to the bytes of `foob`. |
| Scenarios.DecodeVectorFooba | SwaggerAuth.Core/SwaggerAuthMiddleware.cs:114 | `Zm9vYmE=` decodes to the bytes of `fooba`. |
| Scenarios.DecodeVectorFoobar | SwaggerAuth.Core/SwaggerAuthMiddleware.cs:114 | `Zm9vYmFy` decodes to the bytes of `foobar`. |
| Scenarios.NotBase64Refused | SwaggerAuth.Core/SwaggerAuthMiddleware.cs:114 | `not-valid-base64!!` does not decode. |
| Scenarios.ThreePadsRefused | SwaggerAuth.Core/SwaggerAuthMiddleware.cs:114 | `Z===`, a quantum with three padding characters, does not decode. |
| Scenarios.InnerPadRefused | SwaggerAuth.Core/SwaggerAuthMiddleware.cs:114 | `Zg==Zg==`, two padded quanta in a row, and `Zg=A`, data after `=`, do not decode. |
| Scenarios.LineBreakSkipped | SwaggerAuth.Core/SwaggerAuthMiddleware.cs:114 | `Zm9v\r\nYmFy` decodes to `foobar`: the line break is skipped. |
| Scenarios.UnconfiguredDocumentForwarded | SwaggerAuth.Core/SwaggerAuthMiddleware.cs:44 | `/swagger/v1/swagger.json` is forwarded with any header when only `v1-admin` has credentials. |
| Scenarios.UpperCasePathRejected | SwaggerAuth.Core/SwaggerAuthMiddleware.cs:37 | `/SWAGGER/V1-ADMIN/swagger.json` without a header is rejected with the `v1-admin` challenge. |
| Scenarios.PinsoftExample | SwaggerAuth.Core/SwaggerAuthMiddleware.cs:66 | `/swagger/v1-pinsoft-admin/swagger.json` names `v1-pinsoft-admin`. |
| Scenarios.TrailingSegmentExample | SwaggerAuth.Core/SwaggerAuthMiddleware.cs:67 | `/swagger/v1/swagger.json/x` names `v1`, because the test is `Contains`. |

## Left out

- ASP.NET plumbing is left out.
  - `HttpContext`, the `_next` delegate, `async`/`Task`, and writing the status,
    header and body are reduced to the `Decision` value.
  - A second `WWW-Authenticate` header already present, which would make
    `Headers.Add` throw, is not modelled.
- `ServiceCollectionExtensions.cs` is dependency-injection and pipeline wiring
  only. It is not part of this model.
- `Text.Lower` models ASCII lower-casing only.
  - `string.ToLower()` uses the current culture and all of Unicode.
  - Under a Turkish culture, for example, `I` does not become `i`.
- `Text.IndexOf` is ordinal. `string.IndexOf(string)` is culture-sensitive.
- The `Basic ` prefix test is ordinal. `StartsWith(string)` is culture-sensitive.
- Configuration keys are looked up exactly. `IConfiguration` keys are
  case-insensitive. Every looked-up document name is lower-case
  (`MiddlewareProperties.ExtractedNameIsLowerCase`), so credentials stored
  under `Swagger:Auth:V1:Username` and `Swagger:Auth:V1:Password` protect
  `/swagger/V1/swagger.json` in the source, while the model forwards that
  request whatever its header.
- The configuration is read twice in the source, once in
  `IsDocumentConfiguredForAuth` and once in `IsAuthorizedForDocAsync`. The model
  reads one unchanging map, so a reload between the two reads is not modelled.
- Only the first value of the `Authorization` header is modelled, as the source
  takes `FirstOrDefault`.
- UTF-8 decoding is a parameter. The scenarios only assume that it decodes ASCII
  correctly.
- `Base64.Decode` does not check that the unused low bits before the padding are
  zero. The model takes `Convert.FromBase64String` to be lenient here; a decoder
  that refuses such text would reject a few more headers, never accept more.
- `Base64.Encode` is not in the source. It is the client's side of the exchange,
  used to state the round trip.
- `RequireAuthForAllDocuments` and `CustomErrorMessage` are carried in `Options`
  but never read, as in the source.
  - Their doc comments describe behaviour the middleware does not implement.
  - `MiddlewareProperties.UnusedOptionsIgnored` states that they change nothing.
