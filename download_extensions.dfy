/**
 * Downloading the result of a compression, optionally asking the service to keep
 * some of the image's metadata. The selection is validated and turned into the
 * request body `{"preserve":[...]}` while the request is built, so an invalid
 * selection fails before anything is sent; a failed download is reported with the
 * service's error code and message.
 */
module DownloadExtensions {
  import opened Results
  import opened Models
  import opened Http

  /** The metadata the service can be asked to keep. */
  datatype MetadataFlag = Copyright | Creation | Location

  /** `PreserveMetadata`, a combination of flags; the empty set is `PreserveMetadata.None`. */
  type PreserveMetadata = set<MetadataFlag>

  /** The one result type for which creation time and location can be kept. */
  const JPEG_TYPE: string := "image/jpeg"

  /** The order in which flags are listed in the request body. */
  const PRESERVE_ORDER: seq<MetadataFlag> := [Copyright, Creation, Location]

  /** The flags that need a JPEG result. */
  const JPEG_ONLY: set<MetadataFlag> := {Creation, Location}

  /** `TinyPngCompressResponse`: a compression result and the client that obtained it. */
  datatype CompressResponse = CompressResponse(output: OutputInfo, client: HttpClient)

  /** `TinyPngImageResponse`: the successful download response, handed to the caller unread. */
  datatype ImageResponse = ImageResponse(response: HttpResponse)

  /** The outcome of an awaited task: its value, or the exception it ended with. */
  type Task<T> = Result<T, Error>

  function Rank(f: MetadataFlag): nat {
    match f
    case Copyright => 0
    case Creation => 1
    case Location => 2
  }

  /** The name of a flag in the request body. */
  function Name(f: MetadataFlag): string {
    match f
    case Copyright => "copyright"
    case Creation => "creation"
    case Location => "location"
  }

  function Names(flags: seq<MetadataFlag>): seq<string> {
    seq(|flags|, i requires 0 <= i < |flags| => Name(flags[i]))
  }

  /** The elements of `order` that `metadata` contains, in the order of `order`. */
  function Selected(order: seq<MetadataFlag>, metadata: PreserveMetadata): seq<MetadataFlag> {
    if order == [] then []
    else (if order[0] in metadata then [order[0]] else []) + Selected(order[1..], metadata)
  }

  function RejectionMessage(f: MetadataFlag): string {
    match f
    case Copyright => ""
    case Creation => "Creation metadata can only be preserved with type " + JPEG_TYPE
    case Location => "Location metadata can only be preserved with type " + JPEG_TYPE
  }

  function Quote(s: string): string {
    "\"" + s + "\""
  }

  /** The JSON array of `names`; the flag names need no escaping. */
  function JsonStrings(names: seq<string>): string {
    if names == [] then ""
    else if |names| == 1 then Quote(names[0])
    else Quote(names[0]) + "," + JsonStrings(names[1..])
  }

  /** The serialized body `{"preserve":[...]}`. */
  function PreserveJson(names: seq<string>): string {
    "{\"preserve\":[" + JsonStrings(names) + "]}"
  }

  function PreserveBody(names: seq<string>): HttpContent {
    StringContent(PreserveJson(names), "application/json")
  }

  /**
   * What the request body must be for a selection and a result type: no body for
   * an empty selection; otherwise the first flag (in the fixed order) that needs a
   * JPEG result when the type is not exactly "image/jpeg" is refused; otherwise the
   * body lists the selected flags.
   */
  function PreserveContent(metadata: PreserveMetadata, imageType: string): Result<Option<HttpContent>, Error> {
    if metadata == {} then Success(None)
    else
      var rejected := if imageType == JPEG_TYPE then [] else Selected(PRESERVE_ORDER, metadata * JPEG_ONLY);
      if rejected != [] then Failure(InvalidOperationException(RejectionMessage(rejected[0])))
      else Success(Some(PreserveBody(Names(Selected(PRESERVE_ORDER, metadata)))))
  }

  /** A flag is selected exactly when it is in `order` and in `metadata`. */
  lemma {:induction false} SelectedMembers(order: seq<MetadataFlag>, metadata: PreserveMetadata, f: MetadataFlag)
    ensures f in Selected(order, metadata) <==> f in order && f in metadata
  {
    if order != [] {
      SelectedMembers(order[1..], metadata, f);
      assert order == [order[0]] + order[1..];
    }
  }

  /** `Selected` on the fixed order, flag by flag. */
  lemma SelectedInFixedOrder(metadata: PreserveMetadata)
    ensures Selected(PRESERVE_ORDER, metadata)
         == (if Copyright in metadata then [Copyright] else [])
          + (if Creation in metadata then [Creation] else [])
          + (if Location in metadata then [Location] else [])
  {
    var last := if Location in metadata then [Location] else [];
    assert [Location][1..] == [];
    assert Selected([Location], metadata) == last + [];
    assert [Creation, Location][1..] == [Location];
    assert PRESERVE_ORDER[1..] == [Creation, Location];
  }

  /** The names of the flags selected in the fixed order, flag by flag. */
  lemma NamesInFixedOrder(metadata: PreserveMetadata)
    ensures Names(Selected(PRESERVE_ORDER, metadata))
         == (if Copyright in metadata then ["copyright"] else [])
          + (if Creation in metadata then ["creation"] else [])
          + (if Location in metadata then ["location"] else [])
  {
    SelectedInFixedOrder(metadata);
  }

  predicate StrictlyRanked(flags: seq<MetadataFlag>) {
    forall i, j :: 0 <= i < j < |flags| ==> Rank(flags[i]) < Rank(flags[j])
  }

  /** Selecting keeps the order: from a strictly ranked order comes a strictly ranked selection, so no flag twice. */
  lemma {:induction false} SelectedRanked(order: seq<MetadataFlag>, metadata: PreserveMetadata)
    requires StrictlyRanked(order)
    ensures StrictlyRanked(Selected(order, metadata))
  {
    if order != [] {
      var rest := Selected(order[1..], metadata);
      SelectedRanked(order[1..], metadata);
      forall k | 0 <= k < |rest|
        ensures Rank(order[0]) < Rank(rest[k])
      {
        SelectedMembers(order[1..], metadata, rest[k]);
        var m :| 0 <= m < |order[1..]| && order[1..][m] == rest[k];
        assert order[1 + m] == rest[k];
      }
    }
  }

  /**
   * `CreateContent`: builds the preserve list by appending the name of each selected
   * flag in turn, throwing as soon as a flag needs a JPEG result the type is not.
   */
  method CreateContent(metadata: PreserveMetadata, imageType: string) returns (r: Result<Option<HttpContent>, Error>)
    ensures r == PreserveContent(metadata, imageType)
  {
    if metadata == {} {
      return Success(None);
    }
    NamesInFixedOrder(metadata);
    SelectedInFixedOrder(metadata * JPEG_ONLY);
    var preserve: seq<string> := [];
    if Copyright in metadata {
      preserve := preserve + ["copyright"];
    }
    if Creation in metadata {
      if imageType != JPEG_TYPE {
        return Failure(InvalidOperationException("Creation metadata can only be preserved with type " + JPEG_TYPE));
      }
      preserve := preserve + ["creation"];
    }
    if Location in metadata {
      if imageType != JPEG_TYPE {
        return Failure(InvalidOperationException("Location metadata can only be preserved with type " + JPEG_TYPE));
      }
      preserve := preserve + ["location"];
    }
    assert imageType != JPEG_TYPE ==> Selected(PRESERVE_ORDER, metadata * JPEG_ONLY) == [];
    assert preserve == Names(Selected(PRESERVE_ORDER, metadata));
    r := Success(Some(PreserveBody(preserve)));
  }

  /** An empty selection sends no body at all, not an empty JSON object, whatever the result type. */
  lemma NoneSendsNoBody(imageType: string)
    ensures PreserveContent({}, imageType) == Success(None)
  {
  }

  /**
   * A selection is refused exactly when it holds Creation or Location and the type
   * is not "image/jpeg"; the refusal names Creation when Creation is selected,
   * Location otherwise, and Copyright beside them does not help.
   */
  lemma PreserveRefusedIff(metadata: PreserveMetadata, imageType: string)
    ensures PreserveContent(metadata, imageType).Failure?
        <==> (Creation in metadata || Location in metadata) && imageType != JPEG_TYPE
    ensures PreserveContent(metadata, imageType).Failure? ==>
              PreserveContent(metadata, imageType).error
              == InvalidOperationException(RejectionMessage(if Creation in metadata then Creation else Location))
  {
    SelectedInFixedOrder(metadata * JPEG_ONLY);
  }

  /**
   * An accepted, non-empty selection is sent as the names of the selected flags:
   * each selected flag exactly once, no other, in the order copyright, creation, location.
   */
  lemma PreserveListsSelection(metadata: PreserveMetadata, imageType: string)
    requires metadata != {} && PreserveContent(metadata, imageType).Success?
    ensures var flags := Selected(PRESERVE_ORDER, metadata);
            && PreserveContent(metadata, imageType) == Success(Some(PreserveBody(Names(flags))))
            && (forall f :: f in flags <==> f in metadata)
            && StrictlyRanked(flags)
  {
    SelectedExactly(metadata);
    SelectedRanked(PRESERVE_ORDER, metadata);
  }

  /** The fixed order names every flag, so the selection holds exactly the flags of the set. */
  lemma SelectedExactly(metadata: PreserveMetadata)
    ensures forall f :: f in Selected(PRESERVE_ORDER, metadata) <==> f in metadata
  {
    forall f
      ensures f in Selected(PRESERVE_ORDER, metadata) <==> f in metadata
    {
      assert PRESERVE_ORDER[Rank(f)] == f;
      SelectedMembers(PRESERVE_ORDER, metadata, f);
    }
  }

  /** Two strictly ranked lists with the same flags are the same list, so the order above fixes the list. */
  lemma {:induction false} RankedListUnique(a: seq<MetadataFlag>, b: seq<MetadataFlag>)
    requires StrictlyRanked(a) && StrictlyRanked(b)
    requires forall f :: f in a <==> f in b
    ensures a == b
    decreases |a|
  {
    assert a != [] ==> a[0] in b;
    assert b != [] ==> b[0] in a;
    if a != [] && b != [] {
      assert a[0] == b[0] by {
        var i :| 0 <= i < |b| && b[i] == a[0];
        var j :| 0 <= j < |a| && a[j] == b[0];
        assert Rank(a[0]) <= Rank(a[j]) == Rank(b[0]) <= Rank(b[i]) == Rank(a[0]);
      }
      forall f
        ensures f in a[1..] <==> f in b[1..]
      {
        if f in a[1..] {
          var i :| 1 <= i < |a| && a[i] == f;
          assert f in a && f in b;
          var k :| 0 <= k < |b| && b[k] == f;
          assert k != 0;
          assert b[1..][k - 1] == f;
        }
        if f in b[1..] {
          var i :| 1 <= i < |b| && b[i] == f;
          assert f in b && f in a;
          var k :| 0 <= k < |a| && a[k] == f;
          assert k != 0;
          assert a[1..][k - 1] == f;
        }
      }
      RankedListUnique(a[1..], b[1..]);
      assert a == [a[0]] + a[1..] && b == [b[0]] + b[1..];
    }
  }

  /** Copyright alone is accepted for any result type and is sent as exactly "copyright". */
  lemma CopyrightAlwaysAccepted(imageType: string)
    ensures PreserveContent({Copyright}, imageType) == Success(Some(PreserveBody(["copyright"])))
  {
    NamesInFixedOrder({Copyright});
    SelectedInFixedOrder({Copyright} * JPEG_ONLY);
  }

  /** The type comparison is exact: "image/JPEG" is not "image/jpeg". */
  lemma JpegCheckIsCaseSensitive()
    ensures PreserveContent({Creation}, "image/JPEG") == Failure(InvalidOperationException(RejectionMessage(Creation)))
  {
    assert "image/JPEG"[6] != JPEG_TYPE[6];
    SelectedInFixedOrder({Creation} * JPEG_ONLY);
  }

  /** Copyright and Creation on a JPEG result give the body {"preserve":["copyright","creation"]}. */
  lemma CopyrightAndCreationBody()
    ensures PreserveContent({Copyright, Creation}, JPEG_TYPE)
         == Success(Some(StringContent("{\"preserve\":[\"copyright\",\"creation\"]}", "application/json")))
  {
    NamesInFixedOrder({Copyright, Creation});
    assert Names(Selected(PRESERVE_ORDER, {Copyright, Creation})) == ["copyright", "creation"];
    CopyrightAndCreationJson();
  }

  lemma CopyrightAndCreationJson()
    ensures PreserveJson(["copyright", "creation"]) == "{\"preserve\":[\"copyright\",\"creation\"]}"
  {
    JsonOfTwo("copyright", "creation");
  }

  lemma JsonOfTwo(a: string, b: string)
    ensures JsonStrings([a, b]) == Quote(a) + "," + Quote(b)
  {
    assert [a, b][1..] == [b];
  }

  /**
   * How a download response is reported: a 2xx status gives the response to the
   * caller; any other status raises TinyPngApiException with the status, the reason
   * phrase and the error code and message of the body, or JsonException when the
   * body is not JSON.
   */
  function DownloadOutcome(response: HttpResponse): Result<ImageResponse, Error> {
    if IsSuccessStatusCode(response.statusCode) then Success(ImageResponse(response))
    else
      match response.body
      case ErrorJson(e) => Failure(TinyPngApiException(response.statusCode, response.reasonPhrase, Some(e.error), Some(e.message)))
      case ResultJson(_) => Failure(TinyPngApiException(response.statusCode, response.reasonPhrase, None, None))
      case Binary(_) => Failure(JsonException)
  }

  /** Success exactly on a 2xx status; every other status is an error that keeps the status code. */
  lemma DownloadOutcomeClassified(response: HttpResponse)
    ensures DownloadOutcome(response).Success? <==> IsSuccessStatusCode(response.statusCode)
    ensures DownloadOutcome(response).Success? ==> DownloadOutcome(response).value.response == response
    ensures DownloadOutcome(response).Failure? && DownloadOutcome(response).error.TinyPngApiException? ==>
              && DownloadOutcome(response).error.statusCode == response.statusCode
              && DownloadOutcome(response).error.reasonPhrase == response.reasonPhrase
              && !IsSuccessStatusCode(DownloadOutcome(response).error.statusCode)
    ensures !IsSuccessStatusCode(response.statusCode) && response.body.ErrorJson? ==>
              DownloadOutcome(response)
              == Failure(TinyPngApiException(response.statusCode, response.reasonPhrase,
                                             Some(response.body.apiError.error), Some(response.body.apiError.message)))
    ensures !IsSuccessStatusCode(response.statusCode) && response.body.Binary? ==>
              DownloadOutcome(response) == Failure(JsonException)
  {
  }

  /** A 400 answer with body {"error":"BadSignature","message":"bad key"} raises an error carrying both. */
  lemma BadSignatureReported(reasonPhrase: string)
    ensures DownloadOutcome(HttpResponse(400, reasonPhrase, ErrorJson(ApiErrorResponse("BadSignature", "bad key"))))
         == Failure(TinyPngApiException(400, reasonPhrase, Some("BadSignature"), Some("bad key")))
  {
  }

  /**
   * The request a download sends, or the error that stops it before sending: a GET
   * of the result's URL through the client that obtained the result, with the body
   * for the selection.
   */
  function DownloadRequest(compressResponse: CompressResponse, metadata: PreserveMetadata): Result<HttpRequest, Error>
    reads compressResponse.client
  {
    match PreserveContent(metadata, compressResponse.output.imageType)
    case Failure(e) => Failure(e)
    case Success(content) =>
      Success(HttpRequest(HttpRequestMessage(Get, compressResponse.output.url, [], content),
                          compressResponse.client.authorization))
  }

  /**
   * `Download`: checks for null, builds the body (which may throw) while building the
   * request, and only then sends it; `sent` is the request that went out, if any.
   */
  method Download(compressResponse: Option<CompressResponse>, metadata: PreserveMetadata, server: HttpRequest -> HttpResponse)
    returns (sent: Option<HttpRequest>, r: Result<ImageResponse, Error>)
    ensures compressResponse.None? ==> sent == None && r == Failure(ArgumentNullException("compressResponse"))
    ensures compressResponse.Some? ==>
              match DownloadRequest(compressResponse.value, metadata)
              case Failure(e) => sent == None && r == Failure(e)
              case Success(request) => sent == Some(request) && r == DownloadOutcome(server(request))
  {
    if compressResponse.None? {
      return None, Failure(ArgumentNullException("compressResponse"));
    }
    var c := compressResponse.value;
    var content := CreateContent(metadata, c.output.imageType);
    if content.Failure? {
      return None, Failure(content.error);
    }
    var msg := HttpRequestMessage(Get, c.output.url, [], content.value);
    var request, response := c.client.SendAsync(msg, server);
    return Some(request), DownloadOutcome(response);
  }

  /**
   * `Download` on the task of a compression: a null task is refused; a task that
   * failed passes its exception on without sending anything; otherwise the download
   * proceeds on the task's value.
   */
  method DownloadTask(compressTask: Option<Task<Option<CompressResponse>>>, metadata: PreserveMetadata,
                      server: HttpRequest -> HttpResponse)
    returns (sent: Option<HttpRequest>, r: Result<ImageResponse, Error>)
    ensures compressTask.None? ==> sent == None && r == Failure(ArgumentNullException("compressResponse"))
    ensures compressTask.Some? && compressTask.value.Failure? ==>
              sent == None && r == Failure(compressTask.value.error)
    ensures compressTask.Some? && compressTask.value.Success? && compressTask.value.value.None? ==>
              sent == None && r == Failure(ArgumentNullException("compressResponse"))
    ensures compressTask.Some? && compressTask.value.Success? && compressTask.value.value.Some? ==>
              match DownloadRequest(compressTask.value.value.value, metadata)
              case Failure(e) => sent == None && r == Failure(e)
              case Success(request) => sent == Some(request) && r == DownloadOutcome(server(request))
  {
    if compressTask.None? {
      return None, Failure(ArgumentNullException("compressResponse"));
    }
    if compressTask.value.Failure? {
      return None, Failure(compressTask.value.error);
    }
    sent, r := Download(compressTask.value.value, metadata, server);
  }
}
