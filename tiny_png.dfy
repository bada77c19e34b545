/**
 * The `TinyPng` client: it is built from an API key, keeps the HTTP Basic
 * credential Base64("api:" + key) and installs it once as the default
 * `Authorization: basic <credential>` header of the client it owns; compress
 * posts image bytes to the shrink endpoint, resize asks for a new geometry of an
 * earlier result, and a non-2xx answer to either becomes an exception naming the
 * status code.
 */
module TinyPngApi {
  import opened Results
  import opened TextEncoding
  import Base64
  import opened Models
  import opened Http

  const API_ENDPOINT: string := "https://api.tinify.com/shrink"

  /** The user name of the Basic credential; the API key is the password. */
  const USER_PREFIX: string := "api:"

  /** `JsonSerializerSettings`; only the naming of properties is modelled. */
  datatype JsonSerializerSettings = JsonSerializerSettings(camelCasePropertyNames: bool)

  /** The credential of section 2 of RFC 7617: Base64 of the ASCII bytes of "api:" + key. */
  function BasicCredential(apiKey: string): string {
    Base64.Encode(AsciiGetBytes(USER_PREFIX + apiKey))
  }

  /** The credential of a key of n characters has 4 * ceil((4 + n) / 3) characters: alphabet ones, then '=' padding. */
  lemma CredentialShape(apiKey: string)
    ensures |BasicCredential(apiKey)| == 4 * ((|USER_PREFIX| + |apiKey| + 2) / 3)
    ensures Base64.Padded(BasicCredential(apiKey), Base64.PadLength(|USER_PREFIX| + |apiKey|))
  {
    TextShape(USER_PREFIX + apiKey);
  }

  /** For an ASCII key the credential decodes back to exactly "api:" + key. */
  lemma CredentialRoundTrip(apiKey: string)
    requires IsAscii(apiKey)
    ensures Base64.Decode(BasicCredential(apiKey)).Some?
    ensures AsciiGetString(Base64.Decode(BasicCredential(apiKey)).value) == USER_PREFIX + apiKey
  {
    assert IsAscii(USER_PREFIX + apiKey);
    TextRoundTrip(USER_PREFIX + apiKey);
  }

  lemma TextShape(text: string)
    ensures var t := Base64.Encode(AsciiGetBytes(text));
            |t| == 4 * ((|text| + 2) / 3) && Base64.Padded(t, Base64.PadLength(|text|))
  {
    Base64.EncodeShape(AsciiGetBytes(text));
  }

  lemma TextRoundTrip(text: string)
    requires IsAscii(text)
    ensures Base64.Decode(Base64.Encode(AsciiGetBytes(text))) == Some(AsciiGetBytes(text))
    ensures AsciiGetString(AsciiGetBytes(text)) == text
  {
    Base64.DecodeEncode(AsciiGetBytes(text));
    AsciiRoundTrip(text);
  }

  /** The key "key" gives the credential of "api:key". */
  lemma CredentialOfKey()
    ensures BasicCredential("key") == "YXBpOmtleQ=="
  {
    assert AsciiGetBytes(USER_PREFIX + "key") == [97, 112, 105, 58, 107, 101, 121];
    EncodeOfApiKey();
  }

  /** Base64 of the bytes of "api:key". */
  lemma EncodeOfApiKey()
    ensures Base64.Encode([97, 112, 105, 58, 107, 101, 121]) == "YXBpOmtleQ=="
  {
    assert [97, 112, 105, 58, 107, 101, 121][3..] == [58, 107, 101, 121];
    assert [58, 107, 101, 121][3..] == [121];
  }

  /** Distinct ASCII keys have distinct credentials. */
  lemma CredentialInjective(key1: string, key2: string)
    requires IsAscii(key1) && IsAscii(key2) && BasicCredential(key1) == BasicCredential(key2)
    ensures key1 == key2
  {
    CredentialRoundTrip(key1);
    CredentialRoundTrip(key2);
    assert USER_PREFIX + key1 == USER_PREFIX + key2;
    assert key1 == (USER_PREFIX + key1)[|USER_PREFIX|..];
    assert key2 == (USER_PREFIX + key2)[|USER_PREFIX|..];
  }

  /** Outside ASCII the encoding substitutes '?', so "é" and "ü" share a credential. */
  lemma NonAsciiKeysCollide()
    ensures BasicCredential("é") == BasicCredential("ü") == BasicCredential("?")
  {
    assert AsciiGetBytes(USER_PREFIX + "é") == AsciiGetBytes(USER_PREFIX + "?");
    assert AsciiGetBytes(USER_PREFIX + "ü") == AsciiGetBytes(USER_PREFIX + "?");
  }

  /** The compress and resize reading of a response: the body on a 2xx status, an exception naming the status otherwise. */
  function CompressOutcome(response: HttpResponse): Result<TinyPngApiResult, Error> {
    if IsSuccessStatusCode(response.statusCode) then
      match response.body
      case ResultJson(result) => Success(result)
      case _ => Failure(JsonException)
    else
      Failure(StatusCodeException(response.statusCode))
  }

  /**
   * A compress or resize succeeds exactly on a 2xx status with a result body, with
   * that result; it fails with the status code exactly when the status is not 2xx.
   */
  lemma CompressOutcomeClassified(response: HttpResponse, result: TinyPngApiResult)
    ensures CompressOutcome(response) == Success(result)
        <==> IsSuccessStatusCode(response.statusCode) && response.body == ResultJson(result)
    ensures CompressOutcome(response) == Failure(StatusCodeException(response.statusCode))
        <==> !IsSuccessStatusCode(response.statusCode)
  {
  }

  /** A 2xx answer carrying output.url "https://x/1" yields a result with that URL. */
  lemma CompressResultKeepsUrl(status: int, input: InputInfo, output: OutputInfo)
    requires 200 <= status <= 299 && output.url == "https://x/1"
    ensures CompressOutcome(HttpResponse(status, "OK", ResultJson(TinyPngApiResult(input, output)))).Success?
    ensures CompressOutcome(HttpResponse(status, "OK", ResultJson(TinyPngApiResult(input, output)))).value.output.url
         == "https://x/1"
  {
  }

  class TinyPng {
    /** `_apiKey`: holds the encoded credential, not the key itself. */
    const apiKey: string
    const httpClient: HttpClient
    const jsonSettings: JsonSerializerSettings

    /** The owned client sends the credential as `basic` on every request; JSON names are camelCase. */
    ghost predicate Valid()
      reads this, httpClient
    {
      && httpClient.authorization == Some(AuthenticationHeaderValue("basic", apiKey))
      && jsonSettings == JsonSerializerSettings(true)
    }

    /** The request that `msg` becomes once the client's default header is applied. */
    function Authorized(msg: HttpRequestMessage): HttpRequest {
      HttpRequest(msg, Some(AuthenticationHeaderValue("basic", apiKey)))
    }

    /** The construction that follows a successful key check. */
    constructor (key: string)
      ensures apiKey == BasicCredential(key)
      ensures Valid() && fresh(httpClient)
    {
      var auth := USER_PREFIX + key;
      var authByteArray := AsciiGetBytes(auth);
      apiKey := Base64.Encode(authByteArray);
      httpClient := new HttpClient();
      jsonSettings := JsonSerializerSettings(true);
      new;
      httpClient.authorization := Some(AuthenticationHeaderValue("basic", apiKey));
    }

    /** `new TinyPng(apiKey)`: a null or empty key raises ArgumentNullException. */
    static method Create(apiKey: Option<string>) returns (r: Result<TinyPng, Error>)
      ensures r.Failure? <==> apiKey == None || apiKey == Some("")
      ensures r.Failure? ==> r.error == ArgumentNullException("apiKey")
      ensures r.Success? ==> fresh(r.value) && fresh(r.value.httpClient) && r.value.Valid()
      ensures r.Success? ==> r.value.apiKey == BasicCredential(apiKey.value)
    {
      if apiKey == None || apiKey == Some("") {
        return Failure(ArgumentNullException("apiKey"));
      }
      var client := new TinyPng(apiKey.value);
      return Success(client);
    }

    /** `Compress(Stream)`: a null stream is refused before anything is sent. */
    method CompressStream(data: Option<Stream>, server: HttpRequest -> HttpResponse)
      returns (sent: Option<HttpRequest>, r: Result<TinyPngApiResult, Error>)
      requires Valid()
      ensures data.None? ==> sent == None && r == Failure(ArgumentNullException("data"))
      ensures data.Some? ==>
                && sent == Some(Authorized(HttpRequestMessage(Post, API_ENDPOINT, [], Some(StreamContent(data.value)))))
                && r == CompressOutcome(server(sent.value))
    {
      if data.None? {
        return None, Failure(ArgumentNullException("data"));
      }
      var request, response := httpClient.PostAsync(API_ENDPOINT, StreamContent(data.value), server);
      return Some(request), CompressOutcome(response);
    }

    /** `Compress(byte[])`: a null array is refused before anything is sent. */
    method CompressBytes(data: Option<seq<Byte>>, server: HttpRequest -> HttpResponse)
      returns (sent: Option<HttpRequest>, r: Result<TinyPngApiResult, Error>)
      requires Valid()
      ensures data.None? ==> sent == None && r == Failure(ArgumentNullException("data"))
      ensures data.Some? ==>
                && sent == Some(Authorized(HttpRequestMessage(Post, API_ENDPOINT, [], Some(ByteArrayContent(data.value)))))
                && r == CompressOutcome(server(sent.value))
    {
      if data.None? {
        return None, Failure(ArgumentNullException("data"));
      }
      var request, response := httpClient.PostAsync(API_ENDPOINT, ByteArrayContent(data.value), server);
      return Some(request), CompressOutcome(response);
    }

    /**
     * `Compress(string)`: a null path is refused; otherwise the file is opened
     * (`openRead` stands for the file system, whose errors pass through) and its
     * stream compressed.
     */
    method CompressFile(pathToFile: Option<string>, openRead: string -> Result<Stream, Error>,
                        server: HttpRequest -> HttpResponse)
      returns (sent: Option<HttpRequest>, r: Result<TinyPngApiResult, Error>)
      requires Valid()
      ensures pathToFile.None? ==> sent == None && r == Failure(ArgumentNullException("pathToFile"))
      ensures pathToFile.Some? && openRead(pathToFile.value).Failure? ==>
                sent == None && r == Failure(openRead(pathToFile.value).error)
      ensures pathToFile.Some? && openRead(pathToFile.value).Success? ==>
                && sent == Some(Authorized(HttpRequestMessage(Post, API_ENDPOINT, [],
                                                              Some(StreamContent(openRead(pathToFile.value).value)))))
                && r == CompressOutcome(server(sent.value))
    {
      if pathToFile.None? {
        return None, Failure(ArgumentNullException("pathToFile"));
      }
      var file := openRead(pathToFile.value);
      if file.Failure? {
        return None, Failure(file.error);
      }
      sent, r := CompressStream(Some(file.value), server);
    }

    /**
     * `Resize` as written: the GET of the result's URL is built, then adding
     * Content-Type to the request's own headers raises InvalidOperationException,
     * so nothing is ever sent and the resize body is never built.
     */
    method ResizeAsWritten(result: Option<TinyPngApiResult>, height: int, width: int, resizeType: ResizeType,
                           server: HttpRequest -> HttpResponse)
      returns (sent: Option<HttpRequest>, r: Result<TinyPngApiResult, Error>)
      requires Valid()
      ensures sent == None
      ensures result.None? ==> r == Failure(NullReferenceException)
      ensures result.Some? ==> r == Failure(InvalidOperationException(MisusedHeaderMessage("Content-Type")))
    {
      if result.None? {
        return None, Failure(NullReferenceException);
      }
      var msg := HttpRequestMessage(Get, result.value.output.url, [], None);
      var headers := AddRequestHeader(msg.headers, "Content-Type", "application/json");
      ContentTypeIsContentHeader(msg.headers, "application/json");
      return None, Failure(headers.error);
    }

    /**
     * `Resize` as intended: a GET of the earlier result's URL whose JSON body is the
     * resize operation, width and height each in its own place (the parameters come
     * height first, the operation takes width first).
     */
    method Resize(result: Option<TinyPngApiResult>, height: int, width: int, resizeType: ResizeType,
                  server: HttpRequest -> HttpResponse)
      returns (sent: Option<HttpRequest>, r: Result<TinyPngApiResult, Error>)
      requires Valid()
      ensures result.None? ==> sent == None && r == Failure(NullReferenceException)
      ensures result.Some? ==>
                && sent == Some(Authorized(HttpRequestMessage(Get, result.value.output.url, [],
                                                              Some(ResizeContent(ResizeOperation(resizeType, width, height))))))
                && sent.value.message.content.value.operation.width == width
                && sent.value.message.content.value.operation.height == height
                && r == CompressOutcome(server(sent.value))
    {
      if result.None? {
        return None, Failure(NullReferenceException);
      }
      var requestBody := ResizeOperation(resizeType, width, height);
      var msg := HttpRequestMessage(Get, result.value.output.url, [], Some(ResizeContent(requestBody)));
      var request, response := httpClient.SendAsync(msg, server);
      return Some(request), CompressOutcome(response);
    }
  }
}
