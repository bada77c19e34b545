# TinyPNG client: request validation, credentials and response mapping

This project models the deterministic core of a C# client for the TinyPNG
image-compression service, and proves what that core promises.

- **Client construction** (`TinyPngApi.TinyPng`). A null or empty API key raises
  `ArgumentNullException`. Otherwise the client keeps the HTTP Basic credential.
  That credential is the Base64 encoding (section 4 of RFC 4648) of the ASCII bytes
  of `"api:" + key`. The client installs it once, as the default
  `Authorization: basic <credential>` header (section 2 of RFC 7617) of the HTTP
  client it owns.
- **Compress** (three overloads: file path, byte array, stream). A null argument is
  refused before anything is sent. Otherwise the bytes are POSTed to
  `https://api.tinify.com/shrink`. A 2xx answer yields the decoded result; any other
  status raises an exception carrying the status code.
- **Resize**. It builds a GET of an earlier result's URL. As written it can never send
  that request (see Findings). The corrected version sends the resize operation as
  the request's JSON body.
- **Download with metadata preservation** (`DownloadExtensions`). The selection over
  {Copyright, Creation, Location} becomes the body `{"preserve":[...]}`. The body is
  built while the request is built, so an invalid selection never sends anything.
  An empty selection sends no body. Creation and Location need the result type to
  be exactly `"image/jpeg"`. A non-2xx answer raises `TinyPngApiException`, which
  carries the status, the reason phrase, and the service's error code and message.

The network is a parameter: `server: HttpRequest -> HttpResponse` stands for the
transport and the remote service together. Every remote operation returns
`sent: Option<HttpRequest>`, the request it put on the wire, or `None` when it
stopped first. So "validated before sending" is a postcondition. None of these
operations has a `modifies` clause, so two calls with the same inputs give the same
outcome. C# `null` is `Option.None`. Exceptions are the `Models.Error` datatype,
returned in a `Result`.

Modules:
- `Results`: Option and Result.
- `TextEncoding`: bytes and `Encoding.ASCII`.
- `Base64`: RFC 4648 encoder and decoder.
- `Models`: result, error-body and resize types, and the exceptions.
- `Http`: messages, requests, responses, the header rule, and `HttpClient`.
- `DownloadExtensions`: the download extension methods.
- `TinyPngApi`: the `TinyPng` class.

Three behaviours of the code are worth stating outright:
- Compress and resize failures carry only the status code, not the service's error
  body (src/TinyPNG/TinyPng.cs:85, 104, 124).
- Resize checks neither width nor height (src/TinyPNG/TinyPng.cs:112-117).
- An empty selection sends no content at all, not an empty body
  (src/TinyPNG/Extensions/DownloadExtensions.cs:60-61).

## Model

| member | source | states |
|---|---|---|
| `DownloadExtensions.CreateContent` | src/TinyPNG/Extensions/DownloadExtensions.cs:58-87 | Appending "copyright", "creation", "location" in turn, with its early throws, yields exactly the body or error that `PreserveContent` specifies |
| `DownloadExtensions.NoneSendsNoBody` | src/TinyPNG/Extensions/DownloadExtensions.cs:60-61 | The empty selection gives no content at all, for every result type |
| `DownloadExtensions.PreserveRefusedIff` | src/TinyPNG/Extensions/DownloadExtensions.cs:69-79 | A selection is refused if and only if it holds Creation or Location and the type is not "image/jpeg"; the InvalidOperationException names Creation when Creation is selected, else Location, Copyright or not |
| `DownloadExtensions.PreserveListsSelection` | src/TinyPNG/Extensions/DownloadExtensions.cs:63-86 | An accepted non-empty selection is sent as the names of a list that holds every selected flag and no other, in strictly increasing order copyright, creation, location (so each once) |
| `DownloadExtensions.RankedListUnique` | src/TinyPNG/Extensions/DownloadExtensions.cs:63-82 | Two strictly ordered lists with the same flags are equal, so membership and order determine the preserve list |
| `DownloadExtensions.SelectedMembers` | src/TinyPNG/Extensions/DownloadExtensions.cs:65-81 | A flag is in the preserve list if and only if it is selected (`HasFlag`) |
| `DownloadExtensions.CopyrightAlwaysAccepted` | src/TinyPNG/Extensions/DownloadExtensions.cs:65-68 | Copyright alone is accepted for any result type and contributes exactly "copyright" |
| `DownloadExtensions.JpegCheckIsCaseSensitive` | src/TinyPNG/Extensions/DownloadExtensions.cs:69-72 | The comparison with the constant "image/jpeg" is exact: Creation on "image/JPEG" raises InvalidOperationException with the Creation message |
| `DownloadExtensions.CopyrightAndCreationBody` | src/TinyPNG/Extensions/DownloadExtensions.cs:84-86 | Copyright and Creation on a JPEG give the body `{"preserve":["copyright","creation"]}` as application/json |
| `DownloadExtensions.DownloadOutcomeClassified` | src/TinyPNG/Extensions/DownloadExtensions.cs:49-55 | A download succeeds if and only if the status is 2xx, handing the response over unchanged; a TinyPngApiException keeps the response's status and reason phrase, and its status is not 2xx; a non-2xx error body gives TinyPngApiException with that body's error code and message, and a non-JSON body gives JsonException |
| `DownloadExtensions.BadSignatureReported` | src/TinyPNG/Extensions/DownloadExtensions.cs:54-55 | A 400 with body {"error":"BadSignature","message":"bad key"} raises TinyPngApiException carrying that code and message |
| `DownloadExtensions.Download` | src/TinyPNG/Extensions/DownloadExtensions.cs:37-56 | A null result raises ArgumentNullException and sends nothing; a refused selection raises its error and sends nothing; otherwise exactly one GET of output.url with the preserve body and the client's Authorization goes out, and its answer is classified as above |
| `DownloadExtensions.DownloadTask` | src/TinyPNG/Extensions/DownloadExtensions.cs:20-28 | A null task raises ArgumentNullException, a failed task passes its exception on, and neither sends anything; a completed task downloads its value as `Download` does |
| `Base64.Encode` | src/TinyPNG/TinyPng.cs:31 | Encoding n bytes gives 4 * ((n + 2) / 3) characters, four per started group of three bytes |
| `Base64.EncodeShape` | src/TinyPNG/TinyPng.cs:31 | An encoding of n bytes is alphabet characters followed by exactly (3 - n % 3) % 3 '=' padding characters |
| `Base64.Rfc4648Vectors` | src/TinyPNG/TinyPng.cs:31 | The encoder reproduces the test vectors of section 10 of RFC 4648, from "" to "Zm9vYmFy" |
| `Base64.DecodeEncode` | src/TinyPNG/TinyPng.cs:31 | Decoding the encoding of any byte sequence gives the sequence back |
| `Base64.EncodeDecode` | src/TinyPNG/TinyPng.cs:31 | Any string the decoder accepts is the encoding of what it decodes to |
| `Base64.DecodeIffEncode` | src/TinyPNG/TinyPng.cs:31 | A string decodes to s if and only if it is the encoding of s |
| `TextEncoding.AsciiRoundTrip` | src/TinyPNG/TinyPng.cs:30 | For an ASCII string, the ASCII bytes decode back to the same string |
| `TinyPngApi.CredentialShape` | src/TinyPNG/TinyPng.cs:29-31 | The credential of a key has 4 * ceil((4 + length of the key) / 3) characters: alphabet characters, then (3 - (4 + length) % 3) % 3 '=' characters |
| `TinyPngApi.CredentialOfKey` | src/TinyPNG/TinyPng.cs:29-31 | The key "key" gives the credential "YXBpOmtleQ==", Base64 of "api:key" |
| `TinyPngApi.CredentialRoundTrip` | src/TinyPNG/TinyPng.cs:29-31 | For an ASCII key the credential decodes to exactly "api:" + key |
| `TinyPngApi.CredentialInjective` | src/TinyPNG/TinyPng.cs:29-31 | Distinct ASCII keys have distinct credentials |
| `TinyPngApi.NonAsciiKeysCollide` | src/TinyPNG/TinyPng.cs:30 | ASCII encoding replaces a non-ASCII character with '?', so the keys "é", "ü" and "?" share one credential |
| `TinyPngApi.TinyPng.constructor` | src/TinyPNG/TinyPng.cs:28-40 | The stored credential is Base64 of the ASCII bytes of "api:" + key; the owned, fresh client's default Authorization is ("basic", credential); JSON settings use camelCase |
| `TinyPngApi.TinyPng.Create` | src/TinyPNG/TinyPng.cs:23-26 | Fails if and only if the key is null or empty, with ArgumentNullException("apiKey"); otherwise a fresh, valid client with that key's credential |
| `TinyPngApi.CompressOutcomeClassified` | src/TinyPNG/TinyPng.cs:81-85 | Compress and resize succeed with a result if and only if the status is 2xx and the body is that result; they fail with the status code if and only if the status is not 2xx |
| `TinyPngApi.CompressResultKeepsUrl` | src/TinyPNG/TinyPng.cs:81-84 | A 2xx answer whose output.url is "https://x/1" gives a result with that URL |
| `TinyPngApi.TinyPng.CompressBytes` | src/TinyPNG/TinyPng.cs:74-86 | A null array raises ArgumentNullException("data") and sends nothing; otherwise one POST of the bytes to the shrink endpoint with the basic credential, classified as above |
| `TinyPngApi.TinyPng.CompressStream` | src/TinyPNG/TinyPng.cs:93-105 | A null stream raises ArgumentNullException("data") and sends nothing; otherwise one POST of the stream to the shrink endpoint with the basic credential, classified as above |
| `TinyPngApi.TinyPng.CompressFile` | src/TinyPNG/TinyPng.cs:58-67 | A null path raises ArgumentNullException("pathToFile") and sends nothing; a file that cannot be opened passes its error on and sends nothing; otherwise the opened stream is compressed as CompressStream does |
| `Http.ContentTypeIsContentHeader` | src/TinyPNG/TinyPng.cs:116 | Adding "Content-Type", or any name that lower-cases to "content-type", to a request message's headers raises InvalidOperationException with the "Misused header name" message naming it |
| `TinyPngApi.TinyPng.ResizeAsWritten` | src/TinyPNG/TinyPng.cs:112-117 | As written: a null result raises NullReferenceException; any other input raises InvalidOperationException at the header line; nothing is ever sent |
| `TinyPngApi.TinyPng.Resize` | src/TinyPNG/TinyPng.cs:112-124 | Corrected: a null result raises NullReferenceException; otherwise one GET of output.url carrying ResizeOperation(type, width, height), with the width and height arguments in their own fields, classified as compress is |

## Left out

- Transport, `async`/`await` and `ConfigureAwait` are left out. The network and the service are the `server` function; cancellation and concurrency are not modelled.
- JSON (de)serialization (Newtonsoft and System.Text.Json) is left out. Response bodies are already-decoded values. A success body that is not a compression result is mapped to `JsonException`; Newtonsoft may instead return an object with null fields. The preserve body is written out as a string. The resize operation is carried as a value, because its serialized shape belongs to a type that is not part of this model.
- `ApiErrorResponse`, `TinyPngCompressResponse`, `TinyPngImageResponse`, `ResizeOperation` and `ResizeType` are not part of this model's source. Their fields are taken from how the code uses them. The `error`/`message` body is assumed to map onto `ApiErrorResponse`. `ResizeType` lists the service's four methods.
- How `TinyPngCompressResponse` gets its `_httpClient` is not part of this model; `CompressResponse` simply carries a client.
- File I/O is a parameter. `File.OpenRead` is `openRead`, and the `using` that disposes the file stream is not modelled. `SaveImageToDisk`, `GetImageByteData` and `GetImageStreamData` are plain GETs and file writes with no logic to state, so they are left out.
- The `Extensions.Resize` extension method is left out: it refers to an undeclared `response` and does not compile.
- `Dispose` is left out: it only releases resources.
- The `Ratio` field and the other floating-point result fields are left out.
- The text of the compress/resize exception message is left out. It includes the status code's enum name; the model keeps the numeric code.
- A `PreserveMetadata` value with bits outside the three named flags is left out. It would be non-None yet select nothing, and send `{"preserve":[]}`. A set of the three flags cannot express it.
- The `HttpClient` field initializer runs before the key check, so a client is allocated even when the key is refused. The model allocates it after the check.
- `HttpRequestHeaders.Add` also validates header values; only its refusal of content-header names is modelled.
- Transport failures are left out: `server` is total, so the model never raises the exceptions of the transport (an `HttpRequestException` on a network failure, a timeout, or a relative or invalid URL that .NET refuses).
- A result whose `Output` is null is left out: it would raise NullReferenceException at src/TinyPNG/Extensions/DownloadExtensions.cs:42 and 44 and at src/TinyPNG/TinyPng.cs:114. The model's `OutputInfo` is never null.
- A non-2xx body that is the JSON literal `null` is left out: `errorMsg` would then be null and src/TinyPNG/Extensions/DownloadExtensions.cs:55 would raise NullReferenceException, not TinyPngApiException. The model's error bodies are always objects.
- TinyPngApi.CredentialRoundTrip: holds for ASCII keys only, because `Encoding.ASCII` replaces each non-ASCII character with '?' (one per Unicode scalar value in this model).

## Findings

| source | as written | input that shows it | evidently intended | confidence | as-written member | corrected member |
|---|---|---|---|---|---|---|
| src/TinyPNG/TinyPng.cs:116-117 | `msg.Headers.Add("Content-Type", ...)` puts a content header on the request message, which .NET refuses with InvalidOperationException. The `requestBody` built on the next line is never attached to `msg`. | any non-null result, for example one with output.url "https://x/1", height 100, width 200 | a GET of output.url whose JSON body (with its Content-Type) is ResizeOperation(type, width, height) | high (documented .NET header rule); not executed | `TinyPngApi.TinyPng.ResizeAsWritten` | `TinyPngApi.TinyPng.Resize` |
