/**
 * The parts of `System.Net.Http` the client relies on: request messages, the
 * request that goes on the wire once the client's default headers are applied,
 * responses reduced to a status code, a reason phrase and an already-decoded body,
 * and the client object that owns the default `Authorization` header.
 */
module Http {
  import opened Results
  import opened TextEncoding
  import opened Models

  datatype HttpMethod = Get | Post

  /** A readable byte source supplied by the caller. */
  datatype Stream = Stream(contents: seq<Byte>)

  /** `HttpContent`: the body of a request and the media type it declares. */
  datatype HttpContent =
    | ByteArrayContent(bytes: seq<Byte>)
    | StreamContent(stream: Stream)
      /** `StringContent`, UTF-8 encoded. */
    | StringContent(text: string, mediaType: string)
      /** A resize operation serialized as JSON with media type application/json. */
    | ResizeContent(operation: ResizeOperation)

  /** `AuthenticationHeaderValue`: written `scheme parameter` in the Authorization header. */
  datatype AuthenticationHeaderValue = AuthenticationHeaderValue(scheme: string, parameter: string)

  /** `HttpRequestMessage` as the caller builds it. */
  datatype HttpRequestMessage = HttpRequestMessage(
    verb: HttpMethod, url: string, headers: seq<(string, string)>, content: Option<HttpContent>)

  /** What the client sends: the message plus the client's default Authorization header. */
  datatype HttpRequest = HttpRequest(message: HttpRequestMessage, authorization: Option<AuthenticationHeaderValue>)

  /** A response body, as the JSON readers would decode it. */
  datatype ResponseBody =
    | ResultJson(result: TinyPngApiResult)
    | ErrorJson(apiError: ApiErrorResponse)
    | Binary(bytes: seq<Byte>)

  /** `HttpResponseMessage`: `(int)StatusCode`, `ReasonPhrase` and the body. */
  datatype HttpResponse = HttpResponse(statusCode: int, reasonPhrase: string, body: ResponseBody)

  /** `HttpResponseMessage.IsSuccessStatusCode`. */
  predicate IsSuccessStatusCode(statusCode: int) {
    200 <= statusCode <= 299
  }

  /** The header names .NET files under content headers; a request message refuses them. */
  const CONTENT_HEADER_NAMES: set<string> := {
    "allow", "content-disposition", "content-encoding", "content-language", "content-length",
    "content-location", "content-md5", "content-range", "content-type", "expires", "last-modified"
  }

  function ToLowerAscii(s: string): (r: string)
    ensures |r| == |s|
  {
    seq(|s|, i requires 0 <= i < |s| => if 'A' <= s[i] <= 'Z' then (s[i] as int + 32) as char else s[i])
  }

  function MisusedHeaderMessage(name: string): string {
    "Misused header name, '" + name + "'. Make sure request headers are used with HttpRequestMessage, "
    + "response headers with HttpResponseMessage, and content headers with HttpContent objects."
  }

  /**
   * `HttpRequestHeaders.Add`: header names compare case-insensitively, and a content
   * header name raises InvalidOperationException instead of being added.
   */
  function AddRequestHeader(headers: seq<(string, string)>, name: string, value: string)
    : Result<seq<(string, string)>, Error>
  {
    if ToLowerAscii(name) in CONTENT_HEADER_NAMES then Failure(InvalidOperationException(MisusedHeaderMessage(name)))
    else Success(headers + [(name, value)])
  }

  /** Content-Type belongs to the content, so a request message refuses it, in any spelling of its case. */
  lemma ContentTypeIsContentHeader(headers: seq<(string, string)>, value: string)
    ensures AddRequestHeader(headers, "Content-Type", value)
         == Failure(InvalidOperationException(MisusedHeaderMessage("Content-Type")))
    ensures forall name :: ToLowerAscii(name) == "content-type" ==>
              AddRequestHeader(headers, name, value) == Failure(InvalidOperationException(MisusedHeaderMessage(name)))
  {
    assert ToLowerAscii("Content-Type") == "content-type";
    assert ToLowerAscii("content-type") == "content-type";
  }

  /** `HttpClient`; only its default Authorization header is modelled. */
  class HttpClient {
    /** `DefaultRequestHeaders.Authorization`, sent with every request. */
    var authorization: Option<AuthenticationHeaderValue>

    constructor ()
      ensures authorization == None
    {
      authorization := None;
    }

    /**
     * `SendAsync`: the message goes out with the default Authorization header and
     * `server` (the network and the remote service) answers it.
     */
    method SendAsync(msg: HttpRequestMessage, server: HttpRequest -> HttpResponse)
      returns (sent: HttpRequest, response: HttpResponse)
      ensures sent == HttpRequest(msg, authorization) && response == server(sent)
    {
      sent := HttpRequest(msg, authorization);
      response := server(sent);
    }

    /** `PostAsync`: a POST of `content` to `url`. */
    method PostAsync(url: string, content: HttpContent, server: HttpRequest -> HttpResponse)
      returns (sent: HttpRequest, response: HttpResponse)
      ensures sent == HttpRequest(HttpRequestMessage(Post, url, [], Some(content)), authorization)
      ensures response == server(sent)
    {
      sent, response := SendAsync(HttpRequestMessage(Post, url, [], Some(content)), server);
    }
  }
}
