/** The "file" restriction: access only while a given file exists and is non-empty. */
module FileRestriction {
  import opened Base
  import opened Strings
  import opened Http
  import opened Contexts

  const Identifier: string := "file"

  function NullContext(): Context {
    FileCtx("")
  }

  predicate IsNullContext(ctx: Context) {
    ctx.FileCtx? && ctx.filename == ""
  }

  /** `SerializeForm`: the trimmed filename, required only when the restriction is enabled. */
  function SerializeForm(req: Request, enabled: bool, oldCtx: Option<Context>): (r: Result<Context>)
    ensures r.Ok? ==> r.value == FileCtx(TrimSpace(FormValue(req, "restriction_file_filename")))
    ensures r.Err? <==> enabled && IsBlank(FormValue(req, "restriction_file_filename"))
  {
    var filename := TrimSpace(FormValue(req, "restriction_file_filename"));
    if enabled && |filename| == 0 then Err("No filename given.") else Ok(FileCtx(filename))
  }

  /** `CheckAccess`: reads the configured file and wants at least one byte. */
  function CheckAccess(fs: FileSystem, ctx: Context): (v: Verdict)
    ensures v.granted ==> v.diagnostic.None?
    ensures !v.granted ==> v.diagnostic.Some?
  {
    if !ctx.FileCtx? then Deny(InvalidContext)
    else
      var fn := ctx.filename;
      if |fn| == 0 then Deny("No filename configured.")
      else match ReadFile(fs, fn)
        case Err(e) => Deny("Could not read from file '" + fn + "': " + e)
        case Ok(content) =>
          if |content| == 0 then Deny("File '" + fn + "' is empty.") else Allow
  }

  // ---------------------------------------------------------------------------
  // Properties

  /** Access is granted exactly when a file is configured, readable and non-empty. */
  lemma CheckAccessIffReadableNonEmpty(fs: FileSystem, ctx: Context)
    ensures CheckAccess(fs, ctx).granted <==>
              ctx.FileCtx? && ctx.filename != "" && ctx.filename in fs
              && fs[ctx.filename].Ok? && |fs[ctx.filename].value| > 0
  {
  }

  /** Each way of failing names its cause. */
  lemma CheckAccessDiagnostics(fs: FileSystem, fn: string)
    requires fn != ""
    ensures CheckAccess(fs, FileCtx("")) == Deny("No filename configured.")
    ensures fn !in fs ==>
              CheckAccess(fs, FileCtx(fn)) == Deny("Could not read from file '" + fn + "': open " + fn + ": no such file or directory")
    ensures fn in fs && fs[fn] == Ok([]) ==> CheckAccess(fs, FileCtx(fn)) == Deny("File '" + fn + "' is empty.")
  {
    var prefix := "Could not read from file '" + fn + "': ";
    assert prefix + ("open " + fn + ": no such file or directory")
           == "Could not read from file '" + fn + "': open " + fn + ": no such file or directory";
  }

  /** A stored filename is never null, and a disabled restriction may store the empty one. */
  lemma SerializeFormNullness(req: Request, oldCtx: Option<Context>)
    ensures SerializeForm(req, true, oldCtx).Ok? ==> !IsNullContext(SerializeForm(req, true, oldCtx).value)
    ensures SerializeForm(req, false, oldCtx).Ok?
  {
    TrimSpaceEmpty(FormValue(req, "restriction_file_filename"));
  }
}
