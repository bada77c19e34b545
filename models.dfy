/**
 * The values the client exchanges with the compression service: the result of a
 * compression or resize, the service's error body, the resize request, and the
 * exceptions the client raises, as one error datatype.
 */
module Models {
  import opened Results

  /** `input` of a compression result. */
  datatype InputInfo = InputInfo(size: int)

  /** `output` of a compression result; `url` is the temporary retrieval URL. */
  datatype OutputInfo = OutputInfo(size: int, imageType: string, width: int, height: int, url: string)

  /** `TinyPngApiResult`, the deserialized body of a successful compress or resize. */
  datatype TinyPngApiResult = TinyPngApiResult(input: InputInfo, output: OutputInfo)

  /** `ApiErrorResponse`, the service's error body `{"error": ..., "message": ...}`. */
  datatype ApiErrorResponse = ApiErrorResponse(error: string, message: string)

  /** The resize methods the service offers. */
  datatype ResizeType = Fit | Scale | Cover | Thumb

  /** `ResizeOperation`, the resize request: method, then width, then height. */
  datatype ResizeOperation = ResizeOperation(resizeMethod: ResizeType, width: int, height: int)

  /** The exceptions the client raises. */
  datatype Error =
    | ArgumentNullException(paramName: string)
    | InvalidOperationException(message: string)
    | NullReferenceException
      /** `TinyPngApiException`: a failed download; code and message are null when the body lacks them. */
    | TinyPngApiException(statusCode: int, reasonPhrase: string, errorCode: Option<string>, errorMessage: Option<string>)
      /** The plain `Exception` of compress and resize, whose message names the status code. */
    | StatusCodeException(statusCode: int)
      /** A body that is not the JSON the client expects. */
    | JsonException
      /** Whatever the file system raises when a file cannot be opened. */
    | IOException(message: string)
}
