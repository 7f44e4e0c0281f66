/**
 * The slice of `net/http` the handlers see: a request reduced to its form
 * fields, headers, query lists and cookies, and the server's own `response`
 * pair of status and body.
 */
module Http {
  import opened Base

  /**
   * An incoming request. Header names are stored in canonical form, so a
   * lookup by canonical name is Go's `Header.Get`.
   */
  datatype Request = Request(
    form: map<string, string>,
    header: map<string, string>,
    query: map<string, seq<string>>,
    cookies: map<string, string>,
    remoteIp: string)

  /** Go's `Request.FormValue`: the first value, or "" when the field is absent. */
  function FormValue(req: Request, name: string): (v: string)
    ensures name in req.form ==> v == req.form[name]
    ensures name !in req.form ==> v == ""
  {
    if name in req.form then req.form[name] else ""
  }

  /** Go's `Header.Get`: the value, or "" when the header is absent. */
  function HeaderGet(req: Request, name: string): (v: string)
    ensures name in req.header ==> v == req.header[name]
    ensures name !in req.header ==> v == ""
  {
    if name in req.header then req.header[name] else ""
  }

  /**
   * The content of a Go string. Most content is text; the one exception is a
   * delivered secret, which `string(decrypted)` turns into a Go string holding
   * exactly the decrypted bytes, valid UTF-8 or not.
   */
  datatype Body = Text(text: string) | Raw(bytes: seq<byte>)

  /** The controllers' return value: an HTTP status and a body (or, for 302, the target). */
  datatype Response = Response(status: int, content: Body)

  /** `newResponse`. */
  function NewResponse(status: int, content: string): Response {
    Response(status, Text(content))
  }

  /** `redirect`: a response whose content is the target URL. */
  function Redirect(status: int, target: string): Response {
    NewResponse(status, target)
  }

  /**
   * How an admin controller answers: a rendered template with the data it
   * was given, an error page with a message, or a redirect.
   */
  datatype Reply<+D> =
    | Page(status: int, template: string, data: D)
    | ErrorPage(status: int, message: string)
    | Redirected(status: int, target: string)
}
