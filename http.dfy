/**
 * The response envelope and the API-key gate of the HTTP service
 * (`returnResponse` and `authMiddleware` in main.go).
 */
module Http {
  import opened Wrappers

  /** Body of every JSON answer: `{success, message, data}`. */
  datatype Envelope<+D> = Envelope(success: bool, message: string, data: Option<D>)

  /**
   * What a handler writes: the status code with either the JSON envelope or,
   * for the key gate, a plain-text line.
   */
  datatype Response<+D> =
    | Json(code: int, envelope: Envelope<D>)
    | Text(code: int, text: string)

  const StatusOK := 200
  const StatusBadRequest := 400
  const StatusUnauthorized := 401
  const StatusInternalServerError := 500

  /**
   * Name of the header that carries the API key, in the canonical form under
   * which net/http stores received headers: `Header.Get("X-API-KEY")`
   * canonicalises its argument to this spelling before the lookup.
   */
  const ApiKeyHeader := "X-Api-Key"

  /** Plain-text body written when the key is wrong or missing. */
  const Unauthorized := "Missing Authorization Header\n"

  /**
   * `returnResponse`: wraps `msg` and `data` in the envelope; `success` is false
   * exactly for error statuses (400 and above).
   */
  function ReturnResponse<D>(code: int, msg: string, data: Option<D>): (r: Response<D>)
    ensures r.Json? && r.code == code
    ensures r.envelope.message == msg && r.envelope.data == data
    ensures r.envelope.success <==> code < 400
  {
    var success := if code >= 400 then false else true;
    Json(code, Envelope(success, msg, data))
  }

  /**
   * `Header.Get` on headers keyed by canonical name: the value of header `key`,
   * or "" when it is absent, so an absent header and an empty one read alike.
   */
  function HeaderGet(headers: map<string, string>, key: string): (v: string)
    ensures key in headers ==> v == headers[key]
    ensures key !in headers ==> v == ""
    ensures v != "" ==> key in headers && v == headers[key]
  {
    if key in headers then headers[key] else ""
  }

  /**
   * `authMiddleware`: `None` means "call the wrapped handler"; `Some(resp)`
   * is the 401 answer written instead of calling it.
   */
  function AuthMiddleware<D>(headers: map<string, string>, token: string): (r: Option<Response<D>>)
    ensures r.None? <==> HeaderGet(headers, ApiKeyHeader) == token
    ensures r.Some? ==> r.value == Text(StatusUnauthorized, Unauthorized)
  {
    var tokenString := HeaderGet(headers, ApiKeyHeader);
    if tokenString != token then Some(Text(StatusUnauthorized, Unauthorized)) else None
  }

  /** With a non-empty token, a request that carries no key header is refused. */
  lemma MissingHeaderRejected<D>(headers: map<string, string>, token: string)
    requires ApiKeyHeader !in headers && token != ""
    ensures AuthMiddleware<D>(headers, token) == Some(Text(StatusUnauthorized, Unauthorized))
  {
  }

  /** A request whose key header carries the configured token reaches the wrapped handler. */
  lemma CorrectKeyAccepted<D>(headers: map<string, string>, token: string)
    requires ApiKeyHeader in headers && headers[ApiKeyHeader] == token
    ensures AuthMiddleware<D>(headers, token) == None
  {
  }
}
