/**
 * The per-type configuration a restriction or authentication row carries,
 * as one tagged union in place of the JSON blobs the server stores, and the
 * world a `CheckAccess` call may look at.
 */
module Contexts {
  import opened Base
  import opened Http
  import opened Crypto

  /** Go's `time.Weekday`: Sunday is 0, Saturday is 6. */
  type Weekday = d: int | 0 <= d < 7

  /** One flag per weekday, indexed by `Weekday`. */
  type DayFlags = f: seq<bool> | |f| == 7 witness [false, false, false, false, false, false, false]

  datatype Context =
    | DateCtx(enabledDays: DayFlags)
    | ThrottleCtx(maxHits: int, unit: int)
    | HitLimitCtx(limit: int, remaining: int)
    | FileCtx(filename: string)
    | OriginIpCtx(ruleset: string)
    | TimeCtx(ruleset: string)
    /** Only the bcrypt hash of an API key is ever stored. */
    | ApiKeyCtx(hash: string)
    | TlsCertCtx(issuer: string, serial: int)

  /** The `{"error": ...}` record a failed check reports. */
  datatype Diagnostic = Diagnostic(error: string)

  /** A handler's answer: access or not, and an optional diagnostic for the access log. */
  datatype Verdict = Verdict(granted: bool, diagnostic: Option<Diagnostic>)

  function Deny(message: string): (v: Verdict)
    ensures !v.granted && v.diagnostic.Some?
  {
    Verdict(false, Some(Diagnostic(message)))
  }

  const Allow: Verdict := Verdict(true, None)

  /** The diagnostic every checking handler gives for a context of another type. */
  const InvalidContext: string := "Invalid context given. This should never happen."

  /**
   * The outcome of dispatching a check: a verdict, or the statement that the
   * handler's Go type defines no `CheckAccess` method.
   */
  datatype CheckOutcome = Checked(verdict: Verdict) | NoCheckDefined

  /** Files as `ioutil.ReadFile` sees them: contents, or the error a read reports. */
  type FileSystem = map<string, Result<Bytes>>

  /** `ioutil.ReadFile`: a file absent from the map does not exist. */
  function ReadFile(fs: FileSystem, name: string): (r: Result<Bytes>)
    ensures name !in fs ==> r == Err("open " + name + ": no such file or directory")
    ensures name in fs ==> r == fs[name]
  {
    if name in fs then fs[name] else Err("open " + name + ": no such file or directory")
  }

  /** Everything a check may consult besides the context: request, clock, files, bcrypt. */
  datatype Env = Env(req: Request, weekday: Weekday, fs: FileSystem, bcrypt: Bcrypt)
}
