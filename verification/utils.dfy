/**
 * Shared helpers of the server: the "safe string" validator used for slugs,
 * logins and consumer names, list membership, query-list parsing, and the
 * comma-joined lists that end up inside SQL `IN (...)` clauses.
 */
module Utils {
  import opened Base
  import opened Strings
  import opened Http

  // ---------------------------------------------------------------------------
  // validateSafeString

  /** A rune of the character class `[a-z0-9_-]`. */
  predicate IsSafeChar(c: char) {
    ('a' <= c <= 'z') || ('0' <= c <= '9') || c == '_' || c == '-'
  }

  predicate IsLetter(c: char) {
    'a' <= c <= 'z'
  }

  predicate IsLetterOrDigit(c: char) {
    ('a' <= c <= 'z') || ('0' <= c <= '9')
  }

  /** The string matches `^[a-z0-9_-]+$`. */
  predicate MatchesSafeClass(s: string) {
    |s| > 0 && forall k :: 0 <= k < |s| ==> IsSafeChar(s[k])
  }

  /**
   * What a validated identifier looks like: non-empty, only `[a-z0-9_-]`,
   * starting with a letter and ending with a letter or digit.
   */
  predicate IsSafe(s: string) {
    MatchesSafeClass(s) && IsLetter(s[0]) && IsLetterOrDigit(s[|s| - 1])
  }

  /**
   * Lower-cases `tainted` and checks it against the three patterns in turn;
   * `name` only appears in the error messages.
   */
  function ValidateSafeString(tainted: string, name: string): (r: Result<string>)
    ensures r.Ok? <==> IsSafe(ToLower(tainted))
    ensures r.Ok? ==> r.value == ToLower(tainted)
    ensures r.Ok? ==> |r.value| == |tainted| && IsSafe(r.value)
    ensures |tainted| == 0 ==> r == Err("The " + name + " cannot be empty.")
  {
    var s := ToLower(tainted);
    if |s| == 0 then Err("The " + name + " cannot be empty.")
    else if !MatchesSafeClass(s) then
      Err("The " + name + " may only contain a-z, 0-9, - (dash) and _ (underscore).")
    else if !IsLetter(s[0]) || !IsLetterOrDigit(s[|s| - 1]) then
      Err("The " + name + " must start with a letter and end with either a letter or a number.")
    else Ok(s)
  }

  /** Lower-casing leaves a safe string alone: it has no upper-case runes. */
  lemma ToLowerOfSafe(s: string)
    requires IsSafe(s)
    ensures ToLower(s) == s
  {
    forall k | 0 <= k < |s| ensures ToLower(s)[k] == s[k] {
      assert IsSafeChar(s[k]);
    }
  }

  /** Validating an accepted value again accepts it unchanged, under any field name. */
  lemma ValidateSafeStringIdempotent(tainted: string, name: string, name': string)
    requires ValidateSafeString(tainted, name).Ok?
    ensures ValidateSafeString(ValidateSafeString(tainted, name).value, name') == ValidateSafeString(tainted, name)
  {
    ToLowerOfSafe(ToLower(tainted));
  }

  /** Any rune outside `[a-z0-9_-]` that does not fold into it is rejected, with the class message. */
  lemma ValidateSafeStringRejectsForeign(tainted: string, name: string, k: int)
    requires 0 <= k < |tainted| && !IsSafeChar(LowerChar(tainted[k]))
    ensures ValidateSafeString(tainted, name)
            == Err("The " + name + " may only contain a-z, 0-9, - (dash) and _ (underscore).")
  {
    assert ToLower(tainted)[k] == LowerChar(tainted[k]);
  }

  // ---------------------------------------------------------------------------
  // List membership

  /** Go's `isInIntList`: a linear scan that stops at the first match. */
  method IsInIntList(needle: int, haystack: seq<int>) returns (found: bool)
    ensures found <==> needle in haystack
  {
    var i := 0;
    while i < |haystack|
      invariant 0 <= i <= |haystack|
      invariant needle !in haystack[..i]
    {
      if haystack[i] == needle {
        return true;
      }
      assert haystack[..i + 1] == haystack[..i] + [haystack[i]];
      i := i + 1;
    }
    assert haystack[..i] == haystack;
    return false;
  }

  /** Go's `isInStringList`: a linear scan that stops at the first match. */
  method IsInStringList(needle: string, haystack: seq<string>) returns (found: bool)
    ensures found <==> needle in haystack
  {
    var i := 0;
    while i < |haystack|
      invariant 0 <= i <= |haystack|
      invariant needle !in haystack[..i]
    {
      if haystack[i] == needle {
        return true;
      }
      assert haystack[..i + 1] == haystack[..i] + [haystack[i]];
      i := i + 1;
    }
    assert haystack[..i] == haystack;
    return false;
  }

  // ---------------------------------------------------------------------------
  // Query lists

  /** Go's `getStringList`: all values of a query parameter, or none. */
  function GetStringList(req: Request, name: string): (r: seq<string>)
    ensures name !in req.query ==> r == []
    ensures name in req.query ==> r == req.query[name]
  {
    if name in req.query then req.query[name] else []
  }

  /** The values that `Atoi` accepts, parsed, in their original order. */
  function ParseInts(list: seq<string>): (r: seq<int>)
    ensures |r| <= |list|
    ensures forall i :: 0 <= i < |r| ==> InInt64(r[i])
  {
    if |list| == 0 then []
    else
      var rest := ParseInts(list[1..]);
      match Atoi(list[0])
      case Ok(v) => [v] + rest
      case Err(_) => rest
  }

  /** Go's `getIntList`: the query parameter's parseable values; the rest are dropped. */
  function GetIntList(req: Request, name: string): (r: seq<int>)
    ensures forall i :: 0 <= i < |r| ==> InInt64(r[i])
  {
    ParseInts(GetStringList(req, name))
  }

  /** Every value `Itoa` printed is parsed back, in order. */
  lemma {:induction false} ParseIntsOfItoa(xs: seq<int>)
    requires forall i :: 0 <= i < |xs| ==> InInt64(xs[i])
    ensures ParseInts(ItoaAll(xs)) == xs
    decreases |xs|
  {
    if |xs| > 0 {
      AtoiItoa(xs[0]);
      assert ItoaAll(xs)[1..] == ItoaAll(xs[1..]);
      ParseIntsOfItoa(xs[1..]);
    }
  }

  /** Values that do not parse contribute nothing: dropping them changes nothing. */
  lemma {:induction false} ParseIntsSkipsGarbage(list: seq<string>, bad: string)
    requires Atoi(bad).Err?
    ensures ParseInts([bad] + list) == ParseInts(list)
  {
    assert ([bad] + list)[1..] == list;
  }

  /** A query list written by `Itoa` comes back from `getIntList` unchanged. */
  lemma GetIntListOfItoa(req: Request, name: string, xs: seq<int>)
    requires forall i :: 0 <= i < |xs| ==> InInt64(xs[i])
    requires name in req.query && req.query[name] == ItoaAll(xs)
    ensures GetIntList(req, name) == xs
  {
    ParseIntsOfItoa(xs);
  }

  // ---------------------------------------------------------------------------
  // Comma-joined lists

  function ItoaAll(xs: seq<int>): (r: seq<string>)
    ensures |r| == |xs| && forall i :: 0 <= i < |xs| ==> r[i] == Itoa(xs[i])
  {
    seq(|xs|, i requires 0 <= i < |xs| => Itoa(xs[i]))
  }

  function Quote(v: string): string {
    "'" + v + "'"
  }

  function QuoteAll(xs: seq<string>): (r: seq<string>)
    ensures |r| == |xs| && forall i :: 0 <= i < |xs| ==> r[i] == Quote(xs[i])
  {
    seq(|xs|, i requires 0 <= i < |xs| => Quote(xs[i]))
  }

  /** Go's `concatIntList`: the decimals joined by ", ". */
  function ConcatIntList(values: seq<int>): (r: string)
    ensures |values| == 0 <==> r == ""
  {
    var r := Join(ItoaAll(values), ", ");
    assert |values| > 0 ==> |r| > 0 by {
      if |values| > 0 { JoinNonEmpty(ItoaAll(values), ", "); }
    }
    r
  }

  /** Go's `concatStringList`: each item in single quotes, joined by ", ". */
  function ConcatStringList(values: seq<string>): (r: string)
    ensures |values| == 0 <==> r == ""
  {
    var r := Join(QuoteAll(values), ", ");
    assert |values| > 0 ==> |r| > 0 by {
      if |values| > 0 { JoinNonEmpty(QuoteAll(values), ", "); }
    }
    r
  }

  /** A join of items whose first is non-empty is non-empty. */
  lemma JoinNonEmpty(items: seq<string>, sep: string)
    requires |items| > 0 && |items[0]| > 0
    ensures |Join(items, sep)| > 0
  {
  }

  /** Removes the quotes `Quote` added, when present. */
  function Unquote(q: string): string {
    if |q| >= 2 && q[0] == '\'' && q[|q| - 1] == '\'' then q[1..|q| - 1] else q
  }

  /** Splitting an int list at its commas recovers each decimal, so reading them back recovers the list. */
  lemma ConcatIntListSplits(values: seq<int>)
    requires |values| > 0
    requires forall i :: 0 <= i < |values| ==> InInt64(values[i])
    ensures SplitCommaList(ConcatIntList(values)) == ItoaAll(values)
    ensures ParseInts(SplitCommaList(ConcatIntList(values))) == values
  {
    forall i | 0 <= i < |values| ensures ',' !in ItoaAll(values)[i] {
      ItoaHasNoComma(values[i]);
    }
    SplitJoin(ItoaAll(values));
    ParseIntsOfItoa(values);
  }

  /** Splitting a quoted list and unquoting each item recovers the items that hold no comma. */
  lemma ConcatStringListSplits(values: seq<string>)
    requires |values| > 0
    requires forall i :: 0 <= i < |values| ==> ',' !in values[i]
    ensures var parts := SplitCommaList(ConcatStringList(values));
            |parts| == |values| && forall i :: 0 <= i < |values| ==> Unquote(parts[i]) == values[i]
  {
    var q := QuoteAll(values);
    forall i | 0 <= i < |values| ensures ',' !in q[i] {
      assert q[i] == "'" + values[i] + "'";
    }
    SplitJoin(q);
    forall i | 0 <= i < |values| ensures Unquote(q[i]) == values[i] {
      assert q[i][1..|q[i]| - 1] == values[i];
    }
  }
}
