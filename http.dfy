/** The HTTP response values the handlers decide on, without the server around them. */
module Http {
  import opened Wrappers

  /**
   * A response: its status code, the content type the handler sets (if any) and
   * the chunks of its body, in order.
   */
  datatype Response = Response(status: int, contentType: Option<string>, body: seq<string>)

  /** `HttpResponse::<Status>().body(text)`. */
  function Plain(status: int, text: string): Response {
    Response(status, None, [text])
  }

  /** `HttpResponse::<Status>().finish()`: no body at all. */
  function Empty(status: int): Response {
    Response(status, None, [])
  }

  const OK := 200
  const BAD_REQUEST := 400
  const INTERNAL_SERVER_ERROR := 500
}
