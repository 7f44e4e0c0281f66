/**
 * The Martini return handler: how a controller's `response` becomes an HTTP
 * reply — status, `Content-Type`, `Location` for redirects, and body bytes.
 */
module ReturnHandler {
  import opened Base
  import opened Strings
  import opened Http

  /** Go's `reflect.Kind` numbering. */
  type Kind = k: int | 0 <= k <= 26

  const InterfaceKind: Kind := 20
  const PtrKind: Kind := 22
  const StructKind: Kind := 25

  /** The kinds of values that are neither pointers nor interfaces. */
  type OtherKind = k: Kind | k != InterfaceKind && k != PtrKind

  /**
   * A controller's return value as `reflect` sees it: a `response` struct,
   * a pointer or interface around another value, or any other value of the
   * given kind.
   */
  datatype Value =
    | ResponseValue(response: Response)
    | Pointer(elem: Value)
    | Interface(elem: Value)
    | OtherValue(kind: OtherKind)

  function KindOf(v: Value): Kind {
    match v
    case ResponseValue(_) => StructKind
    case Pointer(_) => PtrKind
    case Interface(_) => InterfaceKind
    case OtherValue(k) => k
  }

  /** `canDeref`: only pointers and interfaces have an element to step into. */
  function CanDeref(v: Value): (b: bool)
    ensures b <==> v.Pointer? || v.Interface?
  {
    KindOf(v) == InterfaceKind || KindOf(v) == PtrKind
  }

  /** What reaches the client: status, headers and body bytes. */
  datatype Reply = Reply(status: int, headers: map<string, Body>, body: seq<byte>)

  /** The bytes a Go string holds. */
  function BodyBytes(b: Body): seq<byte> {
    match b
    case Text(s) => Utf8Encode(s)
    case Raw(bytes) => bytes
  }

  const RedirectPrefix: string := "You are being redirected to "

  /** Writing one response: redirects get `Location` and a plain-text note, everything else is HTML. */
  function Write(r: Response): (w: Reply)
    ensures w.status == r.status
    ensures "Content-Type" in w.headers
    ensures r.status == 302 ==> w.headers == map["Content-Type" := Text("text/plain; charset=utf-8"), "Location" := r.content]
    ensures r.status != 302 ==> w.headers == map["Content-Type" := Text("text/html; charset=utf-8")]
  {
    if r.status == 302 then
      Reply(302, map["Content-Type" := Text("text/plain; charset=utf-8"), "Location" := r.content],
            Utf8Encode(RedirectPrefix) + BodyBytes(r.content))
    else
      Reply(r.status, map["Content-Type" := Text("text/html; charset=utf-8")], BodyBytes(r.content))
  }

  const NotAResponse: string := "Controller must return a response."

  /**
   * The return handler: one level of pointer or interface is stepped into,
   * and what is found there must be a `response`, or the request panics.
   */
  function Handle(v: Value): (o: Outcome<Reply>)
    ensures o.Panicked? ==> o.message == NotAResponse
  {
    var inner := if CanDeref(v) then v.elem else v;
    match inner
    case ResponseValue(r) => Done(Write(r))
    case _ => Panicked(NotAResponse)
  }

  // ---------------------------------------------------------------------------
  // Properties

  /** A response is written the same whether returned directly or behind one pointer or interface. */
  lemma HandleDerefs(r: Response)
    ensures Handle(ResponseValue(r)) == Done(Write(r))
    ensures Handle(Pointer(ResponseValue(r))) == Done(Write(r))
    ensures Handle(Interface(ResponseValue(r))) == Done(Write(r))
  {
    assert CanDeref(Pointer(ResponseValue(r))) && CanDeref(Interface(ResponseValue(r)));
    assert !CanDeref(ResponseValue(r));
  }

  /** Only one level is stepped into, and a value that is not a response panics. */
  lemma HandleRejects(v: Value)
    requires !v.ResponseValue? && !(CanDeref(v) && v.elem.ResponseValue?)
    ensures Handle(v) == Panicked(NotAResponse)
  {
  }

  /** A redirect sends the client to its target, with the target repeated in a plain-text body. */
  lemma RedirectSetsLocation(target: string)
    ensures var w := Write(Redirect(302, target));
            w.status == 302 && w.headers["Location"] == Text(target)
            && w.body == Utf8Encode(RedirectPrefix + target)
  {
    Utf8EncodeAppend(RedirectPrefix, target);
  }

  /** Any other response is served unchanged, byte for byte, including a delivered secret's raw bytes. */
  lemma NonRedirectIsVerbatim(status: int, content: Body)
    requires status != 302
    ensures var w := Write(Response(status, content));
            w.status == status && "Location" !in w.headers && w.body == BodyBytes(content)
            && w.headers["Content-Type"] == Text("text/html; charset=utf-8")
  {
  }
}
