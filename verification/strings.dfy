/**
 * The parts of Go's `strings` and `strconv` packages the server relies on:
 * `TrimSpace`, `ToLower`, `Atoi`, `Itoa` and `Join`, plus the inverse of
 * joining with ", " that the list-building lemmas are stated against.
 */
module Strings {
  import opened Base

  const MinInt64: int := -0x8000_0000_0000_0000
  const MaxInt64: int := 0x7FFF_FFFF_FFFF_FFFF

  predicate InInt64(x: int) {
    MinInt64 <= x <= MaxInt64
  }

  // ---------------------------------------------------------------------------
  // White space and trimming

  /** Go's `unicode.IsSpace`: the Latin-1 spaces plus the White_Space runes above U+00FF. */
  predicate IsSpace(c: char) {
    || c == ' ' || c == '\t' || c == '\n' || c == '\U{0B}' || c == '\U{0C}' || c == '\r'
    || c == '\U{85}' || c == '\U{A0}' || c == '\U{1680}'
    || ('\U{2000}' <= c <= '\U{200A}')
    || c == '\U{2028}' || c == '\U{2029}' || c == '\U{202F}' || c == '\U{205F}' || c == '\U{3000}'
  }

  predicate AllSpace(s: string) {
    forall k :: 0 <= k < |s| ==> IsSpace(s[k])
  }

  /** Every rune of s in positions [lo, hi) is white space. */
  predicate SpaceBetween(s: string, lo: int, hi: int)
    requires 0 <= lo <= hi <= |s|
  {
    forall k :: lo <= k < hi ==> IsSpace(s[k])
  }

  /** The index of the first non-space rune of s at or after lo (or |s|). */
  function SkipSpaceForward(s: string, lo: nat): (n: nat)
    requires lo <= |s|
    ensures lo <= n <= |s| && SpaceBetween(s, lo, n)
    ensures n == |s| || !IsSpace(s[n])
    decreases |s| - lo
  {
    if lo < |s| && IsSpace(s[lo]) then SkipSpaceForward(s, lo + 1) else lo
  }

  /** The index just past the last non-space rune of s at or after lo (or lo). */
  function SkipSpaceBackward(s: string, lo: nat, hi: nat): (n: nat)
    requires lo <= hi <= |s|
    ensures lo <= n <= hi && SpaceBetween(s, n, hi)
    ensures n == lo || !IsSpace(s[n - 1])
    decreases hi
  {
    if lo < hi && IsSpace(s[hi - 1]) then SkipSpaceBackward(s, lo, hi - 1) else hi
  }

  /** Go's `strings.TrimSpace`: the longest infix with no white space at either end. */
  function TrimSpace(s: string): (r: string)
    ensures |r| == 0 || (!IsSpace(r[0]) && !IsSpace(r[|r| - 1]))
    ensures exists i :: 0 <= i <= |s| - |r| && r == s[i..i + |r|]
                        && SpaceBetween(s, 0, i) && SpaceBetween(s, i + |r|, |s|)
  {
    var lo := SkipSpaceForward(s, 0);
    var hi := SkipSpaceBackward(s, lo, |s|);
    assert SpaceBetween(s, lo + |s[lo..hi]|, |s|);
    s[lo..hi]
  }

  /** Trimming leaves nothing exactly when the input is all white space. */
  lemma TrimSpaceEmpty(s: string)
    ensures |TrimSpace(s)| == 0 <==> AllSpace(s)
  {
    var r := TrimSpace(s);
    var i :| 0 <= i <= |s| - |r| && r == s[i..i + |r|]
             && SpaceBetween(s, 0, i) && SpaceBetween(s, i + |r|, |s|);
    if |r| != 0 {
      assert r[0] == s[i];
    }
  }

  /** A string with no white space at either end is left alone. */
  lemma TrimSpaceNoOp(s: string)
    requires |s| == 0 || (!IsSpace(s[0]) && !IsSpace(s[|s| - 1]))
    ensures TrimSpace(s) == s
  {
    assert SkipSpaceForward(s, 0) == 0;
    assert SkipSpaceBackward(s, 0, |s|) == |s|;
    assert s[0..|s|] == s;
  }

  lemma {:induction false} SkipForwardTo(s: string, lo: nat, n: nat)
    requires lo <= n < |s| && SpaceBetween(s, lo, n) && !IsSpace(s[n])
    ensures SkipSpaceForward(s, lo) == n
    decreases n - lo
  {
    if lo < n {
      SkipForwardTo(s, lo + 1, n);
    }
  }

  lemma {:induction false} SkipBackwardTo(s: string, lo: nat, hi: nat, n: nat)
    requires lo < n <= hi <= |s| && SpaceBetween(s, n, hi) && !IsSpace(s[n - 1])
    ensures SkipSpaceBackward(s, lo, hi) == n
    decreases hi
  {
    if n < hi {
      SkipBackwardTo(s, lo, hi - 1, n);
    }
  }

  /** White space around a string with no white space at either end is cut away exactly. */
  lemma TrimSpacePadded(pre: string, s: string, post: string)
    requires AllSpace(pre) && AllSpace(post)
    requires |s| > 0 && !IsSpace(s[0]) && !IsSpace(s[|s| - 1])
    ensures TrimSpace(pre + s + post) == s
  {
    var t := pre + s + post;
    var a, b := |pre|, |pre| + |s|;
    assert forall k :: 0 <= k < a ==> t[k] == pre[k];
    assert forall k :: b <= k < |t| ==> t[k] == post[k - b];
    assert t[a] == s[0] && t[b - 1] == s[|s| - 1];
    SkipForwardTo(t, 0, a);
    SkipBackwardTo(t, a, |t|, b);
    assert t[a..b] == s;
  }

  /** The form-field test "nothing but white space was submitted". */
  predicate IsBlank(s: string) {
    |TrimSpace(s)| == 0
  }

  // ---------------------------------------------------------------------------
  // Byte view

  /** The UTF-8 bytes of one rune, as Go's `[]byte(string)` conversion writes them. */
  function Utf8Rune(c: char): (r: seq<byte>)
    ensures 1 <= |r| <= 4
    ensures |r| == 1 <==> c as int < 0x80
  {
    var n := c as int;
    if n < 0x80 then [n]
    else if n < 0x800 then [0xC0 + n / 64, 0x80 + n % 64]
    else if n < 0x1_0000 then [0xE0 + n / 4096, 0x80 + (n / 64) % 64, 0x80 + n % 64]
    else [0xF0 + n / 262144, 0x80 + (n / 4096) % 64, 0x80 + (n / 64) % 64, 0x80 + n % 64]
  }

  /** Go's `[]byte(s)`: the UTF-8 encoding of s; `len(s)` is the length of this. */
  function Utf8Encode(s: string): (r: seq<byte>)
    ensures |r| >= |s|
    ensures |r| == 0 <==> |s| == 0
  {
    if |s| == 0 then [] else Utf8Rune(s[0]) + Utf8Encode(s[1..])
  }

  /** Encoding distributes over concatenation, as Go's string `+` does on bytes. */
  lemma {:induction false} Utf8EncodeAppend(a: string, b: string)
    ensures Utf8Encode(a + b) == Utf8Encode(a) + Utf8Encode(b)
    decreases |a|
  {
    if |a| == 0 {
      assert a + b == b;
    } else {
      assert (a + b)[0] == a[0] && (a + b)[1..] == a[1..] + b;
      Utf8EncodeAppend(a[1..], b);
    }
  }

  /** ASCII text is its own byte string: one byte per rune, holding the rune's code. */
  lemma {:induction false} Utf8EncodeAscii(s: string)
    requires forall k :: 0 <= k < |s| ==> s[k] as int < 0x80
    ensures |Utf8Encode(s)| == |s|
    ensures forall k :: 0 <= k < |s| ==> Utf8Encode(s)[k] == s[k] as int
    decreases |s|
  {
    if |s| > 0 {
      Utf8EncodeAscii(s[1..]);
    }
  }

  // ---------------------------------------------------------------------------
  // Case folding

  /**
   * Go's `unicode.ToLower` on one rune, restricted to the runes whose lower
   * case is ASCII: A-Z, U+0130 (dotted capital I) and U+212A (Kelvin sign).
   * Every other rune maps to a non-ASCII rune, which no validator accepts.
   */
  function LowerChar(c: char): char {
    if 'A' <= c <= 'Z' then (c as int + 32) as char
    else if c == '\U{0130}' then 'i'
    else if c == '\U{212A}' then 'k'
    else c
  }

  /** Go's `strings.ToLower`, rune by rune. */
  function ToLower(s: string): (r: string)
    ensures |r| == |s|
    ensures forall i :: 0 <= i < |s| ==> r[i] == LowerChar(s[i])
  {
    seq(|s|, i requires 0 <= i < |s| => LowerChar(s[i]))
  }

  // ---------------------------------------------------------------------------
  // Decimal numbers

  predicate IsDigit(c: char) {
    '0' <= c <= '9'
  }

  predicate AllDigits(s: string) {
    forall k :: 0 <= k < |s| ==> IsDigit(s[k])
  }

  function DigitChar(d: int): (c: char)
    requires 0 <= d < 10
    ensures IsDigit(c)
  {
    ('0' as int + d) as char
  }

  /** The value of a string of decimal digits, most significant first. */
  function DigitsValue(s: string): nat
    requires AllDigits(s)
  {
    if |s| == 0 then 0
    else DigitsValue(s[..|s| - 1]) * 10 + (s[|s| - 1] as int - '0' as int)
  }

  /** The shortest decimal representation of n (no leading zeros). */
  function NatToDigits(n: nat): (r: string)
    ensures |r| > 0 && AllDigits(r)
    ensures |r| > 1 ==> r[0] != '0'
  {
    if n < 10 then [DigitChar(n)] else NatToDigits(n / 10) + [DigitChar(n % 10)]
  }

  /** Go's `strconv.Itoa` (and `fmt`'s `%d`). */
  function Itoa(n: int): string {
    if n < 0 then "-" + NatToDigits(-n) else NatToDigits(n)
  }

  // ---------------------------------------------------------------------------
  // Go string literals

  const HexDigits: string := "0123456789abcdef"

  /** n modulo 16^width as width lower-case hex digits, most significant first. */
  function Hex(n: nat, width: nat): (r: string)
    ensures |r| == width
  {
    if width == 0 then "" else Hex(n / 16, width - 1) + [HexDigits[n % 16]]
  }

  /**
   * Go's `strconv.IsPrint`: letters, marks, numbers, punctuation, symbols and
   * the ASCII space. Exact below U+0100; above it only the white-space runes
   * are told apart.
   */
  predicate IsPrint(c: char) {
    if c < '\U{100}' then (' ' <= c <= '~') || ('\U{A1}' <= c && c != '\U{AD}')
    else !IsSpace(c)
  }

  /** How `strconv.Quote` writes one rune between the double quotes. */
  function QuoteRune(c: char): (r: string)
    ensures |r| > 0
    ensures (r == [c]) <==> IsPrint(c) && c != '"' && c != '\\'
  {
    if c == '"' || c == '\\' then ['\\', c]
    else if IsPrint(c) then [c]
    else if c == '\U{07}' then "\\a"
    else if c == '\U{08}' then "\\b"
    else if c == '\U{0C}' then "\\f"
    else if c == '\n' then "\\n"
    else if c == '\r' then "\\r"
    else if c == '\t' then "\\t"
    else if c == '\U{0B}' then "\\v"
    else if c < ' ' || c == '\U{7F}' then "\\x" + Hex(c as int, 2)
    else if c < '\U{10000}' then "\\u" + Hex(c as int, 4)
    else "\\U" + Hex(c as int, 8)
  }

  function QuoteRunes(s: string): (r: string)
    ensures |r| >= |s|
  {
    if |s| == 0 then "" else QuoteRune(s[0]) + QuoteRunes(s[1..])
  }

  /** Go's `strconv.Quote`: s as a double-quoted Go string literal. */
  function GoQuote(s: string): string {
    "\"" + QuoteRunes(s) + "\""
  }

  // ---------------------------------------------------------------------------
  // strconv.Atoi

  const MaxUint64: int := 0xFFFF_FFFF_FFFF_FFFF

  /** The text of the `*strconv.NumError` that `strconv.Atoi` returns: the input is quoted. */
  function AtoiError(s: string, reason: string): string {
    "strconv.Atoi: parsing " + GoQuote(s) + ": " + reason
  }

  /** Where the base-10 loop of `strconv.ParseUint` stops. */
  datatype Scan = Scanned(value: nat) | BadDigit | Overflow

  /**
   * The base-10 loop of `strconv.ParseUint` from position i, where acc is the
   * value of s[..i]: a non-digit is a syntax error and a prefix whose value
   * leaves the uint64 range is a range error, whichever comes first.
   */
  function ScanDecimal(s: string, i: nat, acc: nat): Scan
    requires i <= |s|
    decreases |s| - i
  {
    if i == |s| then Scanned(acc)
    else if !IsDigit(s[i]) then BadDigit
    else
      var next := acc * 10 + (s[i] as int - '0' as int);
      if next > MaxUint64 then Overflow else ScanDecimal(s, i + 1, next)
  }

  /** The text after an optional leading sign. */
  function Unsigned(s: string): string {
    if |s| > 0 && (s[0] == '+' || s[0] == '-') then s[1..] else s
  }

  /** An optional sign followed by one or more decimal digits. */
  predicate IsDecimal(s: string) {
    |Unsigned(s)| > 0 && AllDigits(Unsigned(s))
  }

  function DecimalValue(s: string): int
    requires IsDecimal(s)
  {
    var magnitude: int := DigitsValue(Unsigned(s));
    if s[0] == '-' then -magnitude else magnitude
  }

  /**
   * Go's `strconv.Atoi` on a 64-bit platform. Its fast path for short inputs
   * and its `ParseInt` path agree: a sign, then the digits scanned left to
   * right, then the int64 range.
   */
  function Atoi(s: string): (r: Result<int>)
    ensures r.Ok? <==> IsDecimal(s) && InInt64(DecimalValue(s))
    ensures r.Ok? ==> InInt64(r.value) && r.value == DecimalValue(s)
  {
    var digits := Unsigned(s);
    if |digits| == 0 then Err(AtoiError(s, "invalid syntax"))
    else
      ScanMeaning(digits);
      match ScanDecimal(digits, 0, 0)
      case BadDigit => Err(AtoiError(s, "invalid syntax"))
      case Overflow => Err(AtoiError(s, "value out of range"))
      case Scanned(magnitude) =>
        var m: int := magnitude;
        var v := if s[0] == '-' then -m else m;
        if InInt64(v) then Ok(v) else Err(AtoiError(s, "value out of range"))
  }

  /**
   * `Atoi`'s two errors: digits outside int64 are out of range, no digits at
   * all is invalid syntax, and every error is one of the two.
   */
  lemma AtoiErrors(s: string)
    ensures IsDecimal(s) && !InInt64(DecimalValue(s)) ==> Atoi(s) == Err(AtoiError(s, "value out of range"))
    ensures |Unsigned(s)| == 0 ==> Atoi(s) == Err(AtoiError(s, "invalid syntax"))
    ensures Atoi(s).Err? ==>
              Atoi(s).error == AtoiError(s, "invalid syntax") || Atoi(s).error == AtoiError(s, "value out of range")
  {
    if |Unsigned(s)| > 0 {
      ScanMeaning(Unsigned(s));
    }
  }

  /** A prefix of a digit string is a digit string of no greater value. */
  lemma {:induction false} PrefixValue(s: string, j: nat)
    requires AllDigits(s) && j <= |s|
    ensures AllDigits(s[..j]) && DigitsValue(s[..j]) <= DigitsValue(s)
    decreases |s|
  {
    if j < |s| {
      var p := s[..|s| - 1];
      assert AllDigits(p) by {
        forall k | 0 <= k < |p| ensures IsDigit(p[k]) { assert p[k] == s[k]; }
      }
      assert p[..j] == s[..j];
      PrefixValue(p, j);
    } else {
      assert s[..j] == s;
    }
  }

  /** One more digit: the value of s[..i + 1] extends the value of s[..i]. */
  lemma DigitsValueStep(s: string, i: nat)
    requires i < |s| && AllDigits(s[..i]) && IsDigit(s[i])
    ensures AllDigits(s[..i + 1])
    ensures DigitsValue(s[..i + 1]) == DigitsValue(s[..i]) * 10 + (s[i] as int - '0' as int)
  {
    var t := s[..i + 1];
    assert t[..i] == s[..i];
    assert AllDigits(t) by {
      forall k | 0 <= k < |t| ensures IsDigit(t[k]) {
        if k < i { assert t[k] == s[..i][k]; }
      }
    }
  }

  /** The scan reads the whole string exactly when it is a digit string within uint64. */
  lemma {:induction false} ScanToEnd(s: string, i: nat)
    requires i <= |s| && AllDigits(s[..i]) && DigitsValue(s[..i]) <= MaxUint64
    ensures ScanDecimal(s, i, DigitsValue(s[..i])).Scanned? <==> AllDigits(s) && DigitsValue(s) <= MaxUint64
    ensures ScanDecimal(s, i, DigitsValue(s[..i])).Scanned? ==>
              ScanDecimal(s, i, DigitsValue(s[..i])).value == DigitsValue(s)
    ensures ScanDecimal(s, i, DigitsValue(s[..i])) == BadDigit ==> !AllDigits(s)
    decreases |s| - i
  {
    if i == |s| {
      assert s[..i] == s;
    } else if !IsDigit(s[i]) {
    } else {
      DigitsValueStep(s, i);
      if AllDigits(s) {
        PrefixValue(s, i + 1);
      }
      if DigitsValue(s[..i + 1]) <= MaxUint64 {
        ScanToEnd(s, i + 1);
      }
    }
  }

  lemma ScanMeaning(s: string)
    ensures ScanDecimal(s, 0, 0).Scanned? <==> AllDigits(s) && DigitsValue(s) <= MaxUint64
    ensures ScanDecimal(s, 0, 0).Scanned? ==> ScanDecimal(s, 0, 0).value == DigitsValue(s)
    ensures ScanDecimal(s, 0, 0) == BadDigit ==> !AllDigits(s)
  {
    assert s[..0] == [];
    ScanToEnd(s, 0);
  }

  /** A scan that has not yet overflowed reaches position i with the value of s[..i]. */
  lemma {:induction false} ScanReaches(s: string, i: nat)
    requires i <= |s| && AllDigits(s[..i]) && DigitsValue(s[..i]) <= MaxUint64
    ensures ScanDecimal(s, 0, 0) == ScanDecimal(s, i, DigitsValue(s[..i]))
    decreases i
  {
    if i == 0 {
      assert s[..0] == [];
    } else {
      var p := s[..i - 1];
      assert s[..i][..i - 1] == p;
      assert AllDigits(p) by {
        forall k | 0 <= k < i - 1 ensures IsDigit(p[k]) { assert p[k] == s[..i][k]; }
      }
      assert IsDigit(s[i - 1]) by { assert s[i - 1] == s[..i][i - 1]; }
      ScanReaches(s, i - 1);
    }
  }

  /** Once a prefix of digits leaves the uint64 range the scan has overflowed. */
  lemma {:induction false} ScanOverflows(s: string, k: nat)
    requires k <= |s| && AllDigits(s[..k]) && DigitsValue(s[..k]) > MaxUint64
    ensures ScanDecimal(s, 0, 0) == Overflow
    decreases k
  {
    var p := s[..k - 1];
    assert s[..k][..k - 1] == p;
    assert AllDigits(p) by {
      forall j | 0 <= j < k - 1 ensures IsDigit(p[j]) { assert p[j] == s[..k][j]; }
    }
    if DigitsValue(p) > MaxUint64 {
      ScanOverflows(s, k - 1);
    } else {
      assert IsDigit(s[k - 1]) by { assert s[k - 1] == s[..k][k - 1]; }
      ScanReaches(s, k - 1);
    }
  }

  lemma {:induction false} DigitsValueOfNatToDigits(n: nat)
    ensures DigitsValue(NatToDigits(n)) == n
    decreases n
  {
    if n >= 10 {
      var s := NatToDigits(n);
      DigitsValueOfNatToDigits(n / 10);
      assert s[..|s| - 1] == NatToDigits(n / 10);
    }
  }

  /** `Atoi` reads back every int64 that `Itoa` writes. */
  lemma AtoiItoa(n: int)
    requires InInt64(n)
    ensures Atoi(Itoa(n)) == Ok(n)
  {
    var s := Itoa(n);
    if n < 0 {
      var d := NatToDigits(-n);
      assert s[0] == '-' && s[1..] == d;
      DigitsValueOfNatToDigits(-n);
      assert DigitsValue(s[1..]) == -n;
    } else {
      var d := NatToDigits(n);
      assert s == d && IsDigit(s[0]);
      DigitsValueOfNatToDigits(n);
    }
  }

  /**
   * A non-digit met while the digits before it are still within uint64 makes
   * `Atoi` report a syntax error, whatever follows it.
   */
  lemma AtoiSyntaxAt(s: string, k: nat)
    requires k < |Unsigned(s)| && !IsDigit(Unsigned(s)[k])
    requires AllDigits(Unsigned(s)[..k]) && DigitsValue(Unsigned(s)[..k]) <= MaxUint64
    ensures Atoi(s) == Err(AtoiError(s, "invalid syntax"))
  {
    ScanReaches(Unsigned(s), k);
  }

  /**
   * Leading digits whose value leaves the uint64 range make `Atoi` report a
   * range error, even when a non-digit follows them.
   */
  lemma AtoiRangeAt(s: string, k: nat)
    requires k <= |Unsigned(s)| && AllDigits(Unsigned(s)[..k]) && DigitsValue(Unsigned(s)[..k]) > MaxUint64
    ensures Atoi(s) == Err(AtoiError(s, "value out of range"))
  {
    ScanOverflows(Unsigned(s), k);
  }

  function Pow10(e: nat): (r: nat)
    ensures r > 0
  {
    if e == 0 then 1 else 10 * Pow10(e - 1)
  }

  /** A digit string is worth at least its leading digit times its place value. */
  lemma {:induction false} LeadingDigitBound(s: string)
    requires |s| > 0 && AllDigits(s)
    ensures DigitsValue(s) >= (s[0] as int - '0' as int) * Pow10(|s| - 1)
    decreases |s|
  {
    if |s| > 1 {
      var p := s[..|s| - 1];
      assert AllDigits(p) by {
        forall k | 0 <= k < |p| ensures IsDigit(p[k]) { assert p[k] == s[k]; }
      }
      assert p[0] == s[0];
      LeadingDigitBound(p);
      var d := s[0] as int - '0' as int;
      assert DigitsValue(s) >= DigitsValue(p) * 10;
      assert d * Pow10(|s| - 1) == d * Pow10(|p| - 1) * 10;
    } else {
      assert s[..0] == [];
    }
  }

  lemma {:induction false} Pow10Add(a: nat, b: nat)
    ensures Pow10(a + b) == Pow10(a) * Pow10(b)
    decreases a
  {
    if a > 0 {
      Pow10Add(a - 1, b);
    }
  }

  /** Twenty nines overflow before the scan reaches the letter after them. */
  lemma AtoiOverflowBeforeBadDigit()
    ensures Atoi("99999999999999999999x") == Err(AtoiError("99999999999999999999x", "value out of range"))
  {
    var s := "99999999999999999999x";
    var nines := s[..20];
    assert AllDigits(nines);
    LeadingDigitBound(nines);
    Pow10Add(10, 9);
    assert Pow10(10) == 10_000_000_000 && Pow10(9) == 1_000_000_000;
    AtoiRangeAt(s, 20);
  }

  /** A plus sign and leading zeros are accepted. */
  lemma AtoiLeadingZeros()
    ensures Atoi("+007") == Ok(7) && Atoi("01") == Ok(1)
  {
    assert Unsigned("+007") == "007";
    assert "007"[..2] == "00" && "00"[..1] == "0";
    assert DigitsValue("007") == 7;
    assert "01"[..1] == "0";
    assert DigitsValue("01") == 1;
  }

  /** Quoting works rune by rune. */
  lemma {:induction false} QuoteRunesAppend(a: string, b: string)
    ensures QuoteRunes(a + b) == QuoteRunes(a) + QuoteRunes(b)
    decreases |a|
  {
    if |a| > 0 {
      assert (a + b)[0] == a[0] && (a + b)[1..] == a[1..] + b;
      QuoteRunesAppend(a[1..], b);
      assert QuoteRunes(a + b) == QuoteRune(a[0]) + QuoteRunes(a[1..] + b);
    } else {
      assert a + b == b;
    }
  }

  /** Text of printable runes other than `"` and `\\` is quoted as it stands. */
  lemma {:induction false} QuotePlain(s: string)
    requires forall k :: 0 <= k < |s| ==> IsPrint(s[k]) && s[k] != '"' && s[k] != '\\'
    ensures QuoteRunes(s) == s
    decreases |s|
  {
    if |s| > 0 {
      assert QuoteRune(s[0]) == [s[0]];
      assert forall k :: 0 <= k < |s[1..]| ==> s[1..][k] == s[k + 1];
      QuotePlain(s[1..]);
      assert s == [s[0]] + s[1..];
    }
  }

  /** A double quote in the input is escaped with a backslash. */
  lemma QuoteEscapesQuote()
    ensures GoQuote("a\"b") == "\"a\\\"b\""
  {
    QuoteRunesAppend("a\"", "b");
    QuoteRunesAppend("a", "\"");
    assert "a\"b" == "a\"" + "b";
    assert "a\"" == "a" + "\"";
  }

  /** `Atoi` reports the input with the escape `strconv.Quote` gives a double quote. */
  lemma AtoiEscapesQuote()
    ensures Atoi("a\"b") == Err(AtoiError("a\"b", "invalid syntax"))
    ensures GoQuote("a\"b") == "\"a\\\"b\""
  {
    AtoiSyntaxAt("a\"b", 0);
    QuoteEscapesQuote();
  }

  /** `Itoa` writes no white space, so trimming its output changes nothing. */
  lemma TrimSpaceOfItoa(n: int)
    ensures TrimSpace(Itoa(n)) == Itoa(n)
  {
    var s := Itoa(n);
    var d := NatToDigits(if n < 0 then -n else n);
    assert IsDigit(d[|d| - 1]);
    assert !IsSpace(s[|s| - 1]);
    TrimSpaceNoOp(s);
  }

  /** `Itoa` never writes a comma, so its output survives splitting a joined list. */
  lemma ItoaHasNoComma(n: int)
    ensures ',' !in Itoa(n)
  {
    var d := NatToDigits(if n < 0 then -n else n);
    assert forall k :: 0 <= k < |d| ==> d[k] != ',';
  }

  // ---------------------------------------------------------------------------
  // Ordering

  /** `a` sorts no later than `b`: code points compared from the left, a prefix first. */
  predicate LexLe(a: string, b: string)
    decreases |a|
  {
    |a| == 0 || (|b| > 0 && (a[0] < b[0] || (a[0] == b[0] && LexLe(a[1..], b[1..]))))
  }

  /** Any two strings are ordered one way or the other. */
  lemma {:induction false} LexLeTotal(a: string, b: string)
    ensures LexLe(a, b) || LexLe(b, a)
    decreases |a|
  {
    if |a| > 0 && |b| > 0 && a[0] == b[0] {
      LexLeTotal(a[1..], b[1..]);
    }
  }

  lemma {:induction false} LexLeTransitive(a: string, b: string, c: string)
    requires LexLe(a, b) && LexLe(b, c)
    ensures LexLe(a, c)
    decreases |a|
  {
    if |a| > 0 && a[0] == b[0] && b[0] == c[0] {
      LexLeTransitive(a[1..], b[1..], c[1..]);
    }
  }

  // ---------------------------------------------------------------------------
  // Joining and splitting

  /** Go's `strings.Join`. */
  function Join(items: seq<string>, sep: string): string
    decreases |items|
  {
    if |items| == 0 then ""
    else if |items| == 1 then items[0]
    else items[0] + sep + Join(items[1..], sep)
  }

  /** Index of the first occurrence of c in s, if any. */
  function IndexOf(s: string, c: char): (r: Option<nat>)
    ensures r.None? <==> c !in s
    ensures r.Some? ==> r.value < |s| && s[r.value] == c && c !in s[..r.value]
  {
    if |s| == 0 then None
    else if s[0] == c then Some(0)
    else match IndexOf(s[1..], c)
      case None => None
      case Some(i) =>
        assert s[..i + 1] == [s[0]] + s[1..][..i];
        Some(i + 1)
  }

  /** Splits a list written as `a, b, c` back into its items. */
  function SplitCommaList(s: string): seq<string>
    decreases |s|
  {
    match IndexOf(s, ',')
    case None => [s]
    case Some(i) =>
      var rest := s[i + 1..];
      [s[..i]] + SplitCommaList(if |rest| > 0 && rest[0] == ' ' then rest[1..] else rest)
  }

  /** The first comma of `x + ", " + rest` is the separator when x has none. */
  lemma {:induction false} FirstCommaAt(x: string, rest: string)
    requires ',' !in x
    ensures IndexOf(x + ", " + rest, ',') == Some(|x|)
    decreases |x|
  {
    var s := x + ", " + rest;
    if |x| == 0 {
      assert s[0] == ',';
    } else {
      assert s[0] == x[0];
      assert s[1..] == x[1..] + ", " + rest;
      assert ',' !in x[1..] by {
        forall k | 0 <= k < |x[1..]| ensures x[1..][k] != ',' { assert x[1..][k] == x[k + 1]; }
      }
      FirstCommaAt(x[1..], rest);
    }
  }

  /** Splitting undoes `Join(items, ", ")` when no item contains a comma. */
  lemma {:induction false} SplitJoin(items: seq<string>)
    requires |items| > 0
    requires forall i :: 0 <= i < |items| ==> ',' !in items[i]
    ensures SplitCommaList(Join(items, ", ")) == items
    decreases |items|
  {
    if |items| > 1 {
      var x := items[0];
      var tail := Join(items[1..], ", ");
      var s := x + ", " + tail;
      assert Join(items, ", ") == s;
      FirstCommaAt(x, tail);
      assert s[..|x|] == x;
      var rest := s[|x| + 1..];
      assert rest == " " + tail;
      assert rest[1..] == tail;
      SplitJoin(items[1..]);
      assert SplitCommaList(s) == [x] + SplitCommaList(tail);
      assert items == [x] + items[1..];
    }
  }
  /** `Itoa` writes only decimal digits and a leading minus sign. */
  lemma ItoaChars(n: int)
    ensures forall k :: 0 <= k < |Itoa(n)| ==> IsDigit(Itoa(n)[k]) || Itoa(n)[k] == '-'
  {
    var d := NatToDigits(if n < 0 then -n else n);
    if n < 0 {
      forall k | 0 <= k < |Itoa(n)| ensures IsDigit(Itoa(n)[k]) || Itoa(n)[k] == '-' {
        if k > 0 { assert Itoa(n)[k] == d[k - 1]; }
      }
    }
  }

  /** A character found in neither the items nor the separator is not in their join. */
  lemma {:induction false} NotInJoin(items: seq<string>, sep: string, c: char)
    requires c !in sep
    requires forall i :: 0 <= i < |items| ==> c !in items[i]
    ensures c !in Join(items, sep)
    decreases |items|
  {
    if |items| > 1 {
      NotInJoin(items[1..], sep, c);
      assert c !in items[0];
    }
  }

  /** The first `c` of `x + [c] + y` is the one after x when x holds none. */
  lemma IndexOfAfter(x: string, c: char, y: string)
    requires c !in x
    ensures IndexOf(x + [c] + y, c) == Some(|x|)
  {
    var s := x + [c] + y;
    assert s[|x|] == c;
  }
}
