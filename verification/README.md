# go_woocommerce `Service.go` in Dafny

A model of the service core of the Go client library for the WooCommerce REST
API (`Service.go`). It covers these parts of the service:

- the constructor `NewService`, which checks the configuration in a fixed order
  and derives the credential token;
- the token itself, which is `ConsumerKey:ConsumerSecret` turned into UTF-8
  bytes and encoded with Go's `base64.URLEncoding`. The padded URL-safe
  alphabet of section 5 of RFC 4648 is written out in Dafny;
- the endpoint URL `host/wp-json/wc/v2/path`;
- the accessors `ApiName` and `ApiKey`, and the `Authorization` header value;
- `UIntArrayToString`, which formats numbers in decimal and joins them with
  commas;
- `TotalPages`, which reads the `X-WP-TotalPages` response header with
  `strconv.Atoi`.

Modules:

- `Wrappers` (`wrappers.dfy`): `Option` for Go's nil pointers and `Result` for
  `(value, error)` returns.
- `GoStrings` (`go_strings.dfy`): Go's `[]byte(s)` as UTF-8 encoding, with a
  decoder as its partner. It also has `strings.Join`, and `strings.Split`
  proved to be its inverse.
- `Base64Url` (`base64url.dfy`): the encoder, the exact length and alphabet of
  its output, and a decoder as its partner. The round trip
  `Decode(Encode(b)) == Some(b)` is proved.
- `Decimal` (`decimal.dfy`): `%v` for unsigned numbers, `strconv.Itoa`, and
  `strconv.Atoi` for a 64-bit `int`. Round trips are proved in both directions.
- `WooCommerce` (`service.dfy`): the service. It holds the constants,
  `ServiceConfig`, the `Service` record, `NewService`, `Url`, the accessors,
  `UIntArrayToString`, which is a method with a loop as in the source, and
  `TotalPages`.

The HTTP response is abstracted. It is either absent (`None`, Go's nil) or a
map from header name to value. Creating the HTTP transport inside `NewService`
is a foreign call. It is modelled as a parameter `transportError`, which is
consulted only after all configuration checks pass, as in the source.

The code departs from section 2 of RFC 7617. That section asks for the
standard base64 alphabet in a Basic credential, but the token is encoded with
the URL-safe alphabet, so `-` and `_` stand where `+` and `/` would. The model
encodes as the code does.

## Model

| member | source | states |
|---|---|---|
| `WooCommerce.NewService` | Service.go:35-62 | The first failed check wins, in the order nil config, `Host`, `ConsumerKey`, `ConsumerSecret`, each with its own message (measured against the list `Violations`). The transport can fail only after all checks pass. A service is returned exactly when nothing failed. It then keeps `config.Host`, and its token is exactly `Token(ConsumerKey, ConsumerSecret)`, the base64url encoding of the UTF-8 bytes of `ConsumerKey:ConsumerSecret`, which decodes back to those bytes. |
| `WooCommerce.Token` | Service.go:59 | The token expression `base64.URLEncoding.EncodeToString([]byte(key + ":" + secret))`; it base64url-decodes to the UTF-8 bytes of `key:secret`. |
| `WooCommerce.CredentialBytes` | Service.go:59 | The bytes `[]byte(fmt.Sprintf("%s:%s", key, secret))` are the key's UTF-8 bytes, one colon byte, then the secret's. |
| `WooCommerce.TokenShape` | Service.go:59 | The token has length 4·⌈n/3⌉ (`EncodedLength`), where n, the byte count of the credentials, is the key's bytes + 1 + the secret's bytes. Every character is in `A–Z a–z 0–9 - _` or is `=`. |
| `WooCommerce.TokenDecodes` | Service.go:59 | Base64url-decoding the token and reading the bytes as UTF-8 gives back exactly `ConsumerKey:ConsumerSecret`. |
| `WooCommerce.TokenIsNotSecret` | Service.go:59 | The token is longer than the key and the secret together, so it never equals the raw secret. |
| `WooCommerce.Service.ApiKey` | Service.go:90-92 | `ApiKey()` returns the stored token. |
| `WooCommerce.Service.ApiName` | Service.go:86-88 | `ApiName()` is "WooCommerce" for every service. |
| `WooCommerce.NewServiceAccessors` | Service.go:86-92 | For a service built by `NewService`: `ApiName()` is "WooCommerce", and `ApiKey()` is not the secret but decodes to `ConsumerKey:ConsumerSecret`. |
| `WooCommerce.Service.Url` | Service.go:82-84 | The URL is the host, then `/wp-json/wc/v2/`, then the unchecked path, and nothing else: it starts with the host and ends with the path. |
| `WooCommerce.UrlInjective` | Service.go:82-84 | Two paths give the same URL only if they are equal. |
| `WooCommerce.Service.AuthorizationValue` | Service.go:66-67 | The `Authorization` header value is `Basic ` followed by the token. |
| `WooCommerce.UIntArrayToString` | Service.go:102-109 | The loop appends the decimal text of each number in order, and the result is their comma join. The empty list gives "". k numbers give k − 1 commas. Splitting on commas and parsing gives the input back. |
| `WooCommerce.ListRoundTrip` | Service.go:102-109 | For the comma join of the formatted numbers: `ParseUIntList` gives the list back, and a non-empty list of k numbers yields exactly k − 1 commas. |
| `WooCommerce.ParseUIntList` | Service.go:108 | The inverse reader yields one number per comma-separated piece. |
| `WooCommerce.HeaderGet` | Service.go:116 | `Header.Get`: the header's value when the key is present, the empty string when it is absent. |
| `WooCommerce.TotalPages` | Service.go:111-122 | An absent response gives `(0, no error)`. Every error comes with 0 pages. When `Atoi` rejects the header value, the message is "Error while retrieving X-WP-TotalPages header", then " (", then that failure's `Error()` text as `Decimal.NumErrorMessage` lays it out, then ")". |
| `WooCommerce.TotalPagesMissingHeader` | Service.go:116-119 | A response without the header gives 0 pages and the message for the syntax error `Atoi` reports on the empty string. |
| `WooCommerce.TotalPagesOfHeader` | Service.go:116-121 | For a present response, there is no error exactly when the header value is an optional sign then digits, within the 64-bit range. The result is then that value. A missing header is an error. |
| `WooCommerce.TotalPagesRoundTrip` | Service.go:116-121 | A header holding the decimal text of any 64-bit n gives `(n, no error)`. |
| `GoStrings.Bytes` | Service.go:59 | `[]byte(s)`: UTF-8 bytes, at least one per character. |
| `GoStrings.CharBytes` | Service.go:59 | One character gives 1 to 4 bytes. It is a single byte exactly for ASCII, and then equals the code point. Only the trailing bytes are continuation bytes. |
| `GoStrings.DecodeBytes` | Service.go:59 | The UTF-8 bytes of any text decode back to that text. |
| `GoStrings.BytesAppend` | Service.go:59 | The bytes of a concatenation are the concatenation of the bytes. |
| `GoStrings.Join` | Service.go:108 | `strings.Join`: no elements give the empty string; otherwise the result starts with the first element and ends with the last. |
| `GoStrings.SplitJoin` | Service.go:108 | `strings.Split` undoes `strings.Join` when no piece holds the separator. The joined text then holds one separator fewer than there are pieces. |
| `Base64Url.Encode` | Service.go:59 | `base64.URLEncoding.EncodeToString` gives length 4·⌈n/3⌉. It uses only alphabet characters and `=`, and padding appears only in the last two positions. |
| `Base64Url.DecodeEncode` | Service.go:59 | Decoding the encoding of any byte string gives it back. |
| `Base64Url.EncodeInjective` | Service.go:59 | Different byte strings never share a token. |
| `Decimal.FormatUint` | Service.go:105 | `%v` of an unsigned number is a non-empty digit string without a leading zero, one digit exactly below 10. |
| `Decimal.DigitsValueFormat` | Service.go:105 | Reading back the digits `%v` wrote gives the number. |
| `Decimal.FormatDigitsValue` | Service.go:105 | Every canonical digit string is `%v` of its value. |
| `Decimal.Atoi` | Service.go:116 | `strconv.Atoi` succeeds exactly on an optional sign followed by one or more digits whose value fits a 64-bit `int`, and returns that value. Every failure names "Atoi" and the input. A syntax error means the text is not of that form, and the empty string is a syntax error. |
| `Decimal.NumErrorMessage` | Service.go:118 | `err.Error()` of an `Atoi` failure is "strconv.", the function name, `: parsing "`, the input, `": `, then the failure: it ends in "invalid syntax" exactly for a syntax error and in "value out of range" exactly for a range error. |
| `Decimal.AtoiFormatInt` | Service.go:116 | `Atoi` reads back every 64-bit number written by `Itoa`. |
| `Decimal.FormatIntAtoi` | Service.go:116 | Text in `Itoa`'s form (no `+`, no leading zero, no `-0`) is `Itoa` of the number `Atoi` reads from it. |

## Left out

- `httpRequest` (Service.go:64-80) is not modelled, apart from the `Authorization` value. It delegates to `go_http.Service.HttpRequest`, a foreign network call. It then copies the API's error message onto the error that call returned, and what happens when that error is nil depends on `errortools`, whose source is not part of this model.
- `ApiCallCount` and `ApiReset` (Service.go:94-100) only forward to the request counter of the foreign `go_http` service.
- `go_http.NewService` is not part of this model. Its outcome is the `transportError` parameter of `NewService`.
- `Header.Get` normally canonicalises header keys and returns the first of several values. Here headers are an exact-key map with one value each.
- The source of `strconv` is not among the modelled files. `Decimal.Atoi`, `Decimal.FormatInt` and `Decimal.NumErrorMessage` follow Go's documented behaviour for a 64-bit `int`. The range error on a platform with a 32-bit `int` is not modelled.
- `Decimal.NumErrorMessage` wraps the input in double quotes as it is. It does not apply `strconv.Quote`'s escaping of quotes, backslashes and non-printable characters.
- Go strings holding invalid UTF-8 cannot be represented, because strings are Dafny `string` (Unicode text). For valid text, `[]byte(s)` is the UTF-8 encoding `GoStrings.Bytes`.
- `[]uint` elements are unbounded naturals. Decimal formatting does not depend on the width of `uint`.
- `Base64Url.Decode`, `GoStrings.DecodeUtf8`, `GoStrings.Split`, `Decimal.FormatInt` (`strconv.Itoa`) and `WooCommerce.ParseUIntList` are not in the source. They are the inverses and partners that the source's operations are proved against. `Base64Url.Decode` accepts non-zero unused bits in the last quantum, as Go's non-strict decoder does.
- `errortools.Error` is the only error type, and it is reduced to its message.
- Decimal.Atoi: on a range error Go's `Atoi` also returns the clamped largest or smallest `int`; the model returns only the error. `TotalPages` discards that value and returns 0, so the service is unaffected.
- `DateFormat` (Service.go:18) is a time layout that nothing in the file uses.
