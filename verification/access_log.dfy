/**
 * The access log: one row per delivery of a secret to a consumer, and the
 * two queries the secret and consumer pages run on it.
 */
module AccessLog {
  import opened Base
  import opened Strings

  /** An `access_log` row. */
  datatype Entry = Entry(id: int, secret: int, consumer: int, requestedAt: Instant, originIp: string)

  /** Rows in insertion order, so by increasing auto-increment id. */
  predicate Valid(rows: seq<Entry>) {
    forall i, j :: 0 <= i < j < |rows| ==> rows[i].id < rows[j].id
  }

  /** One `AND column = id` condition. */
  function Equals(column: string, id: int): string {
    " AND `" + column + "` = " + Itoa(id)
  }

  /** `buildWhereStatement`: "1", then a condition for each id that is positive, secret first. */
  function BuildWhereStatement(secretId: int, consumerId: int): string {
    "1" + Cond("secret_id", secretId) + Cond("consumer_id", consumerId)
  }

  /** The rows the WHERE clause selects: a non-positive id does not restrict. */
  predicate Matches(e: Entry, secretId: int, consumerId: int) {
    (secretId <= 0 || e.secret == secretId) && (consumerId <= 0 || e.consumer == consumerId)
  }

  function Select(rows: seq<Entry>, secretId: int, consumerId: int): (r: seq<Entry>)
    ensures |r| <= |rows|
    ensures forall e :: e in r <==> e in rows && Matches(e, secretId, consumerId)
  {
    if |rows| == 0 then []
    else
      var rest := Select(rows[1..], secretId, consumerId);
      assert forall e :: e in rows <==> e == rows[0] || e in rows[1..];
      if Matches(rows[0], secretId, consumerId) then [rows[0]] + rest else rest
  }

  /** `Find`: the matching rows, newest first, with no limit. */
  function Find(rows: seq<Entry>, secretId: int, consumerId: int): seq<Entry> {
    Reverse(Select(rows, secretId, consumerId))
  }

  /** `Count`: how many rows match. */
  function Count(rows: seq<Entry>, secretId: int, consumerId: int): nat {
    |Select(rows, secretId, consumerId)|
  }

  // ---------------------------------------------------------------------------
  // Reading the WHERE clause back

  /**
   * Reads an optional `AND column = n` condition off the front of s: the
   * number, which runs up to the next blank, and what follows it.
   */
  function ReadEquals(s: string, column: string): (r: (Option<int>, string))
    ensures r.0.None? ==> r.1 == s
  {
    var head := " AND `" + column + "` = ";
    if |head| <= |s| && s[..|head|] == head then
      var t := s[|head|..];
      var k := match IndexOf(t, ' ') case None => |t| case Some(k) => k;
      match ReadNumber(t[..k])
      case Some(v) => (Some(v), t[k..])
      case None => (None, s)
    else (None, s)
  }

  /** A run of one or more decimal digits, read as a number. */
  function ReadNumber(u: string): Option<int> {
    if |u| > 0 && AllDigits(u) then Some(DigitsValue(u)) else None
  }

  /** Reads "1" and optional conditions on the two columns, in order, into their ids (0 when absent). */
  function ReadWhere(s: string, first: string, second: string): Option<(int, int)> {
    if |s| == 0 || s[0] != '1' then None
    else
      var (a, r1) := ReadEquals(s[1..], first);
      var (b, r2) := ReadEquals(r1, second);
      if |r2| == 0 then
        Some((match a case Some(v) => v case None => 0, match b case Some(v) => v case None => 0))
      else None
  }

  /** Reads a WHERE clause of the form `buildWhereStatement` writes back into its two ids. */
  function ParseWhereStatement(s: string): Option<(int, int)> {
    ReadWhere(s, "secret_id", "consumer_id")
  }

  /** The id a filter means: a non-positive one is no filter at all. */
  function Normal(id: int): int {
    if id > 0 then id else 0
  }

  // ---------------------------------------------------------------------------
  // Properties

  /** Without positive ids the WHERE clause is exactly "1" and every row matches. */
  lemma UnfilteredIsOne(secretId: int, consumerId: int, rows: seq<Entry>)
    requires secretId <= 0 && consumerId <= 0
    ensures BuildWhereStatement(secretId, consumerId) == "1"
    ensures Find(rows, secretId, consumerId) == Reverse(rows)
  {
    SelectAll(rows, secretId, consumerId);
  }

  lemma {:induction false} SelectAll(rows: seq<Entry>, secretId: int, consumerId: int)
    requires secretId <= 0 && consumerId <= 0
    ensures Select(rows, secretId, consumerId) == rows
    decreases |rows|
  {
    if |rows| > 0 {
      SelectAll(rows[1..], secretId, consumerId);
      assert rows == [rows[0]] + rows[1..];
    }
  }

  /** `Find` and `Count` share their filter: the count is the length of the list `Find` returns. */
  lemma CountIsFindLength(rows: seq<Entry>, secretId: int, consumerId: int)
    ensures Count(rows, secretId, consumerId) == |Find(rows, secretId, consumerId)|
    ensures forall e :: e in Find(rows, secretId, consumerId) <==> e in rows && Matches(e, secretId, consumerId)
  {
    var s := Select(rows, secretId, consumerId);
    var r := Find(rows, secretId, consumerId);
    forall e ensures e in r <==> e in s {
      if e in r {
        var i :| 0 <= i < |r| && r[i] == e;
        assert e == s[|s| - 1 - i];
      }
      if e in s {
        var i :| 0 <= i < |s| && s[i] == e;
        assert r[|s| - 1 - i] == e;
      }
    }
  }

  /** `Find` lists newest rows first. */
  lemma FindNewestFirst(rows: seq<Entry>, secretId: int, consumerId: int)
    requires Valid(rows)
    ensures var r := Find(rows, secretId, consumerId);
            forall i, j :: 0 <= i < j < |r| ==> r[i].id > r[j].id
  {
    var s := Select(rows, secretId, consumerId);
    SelectKeepsOrder(rows, secretId, consumerId);
    var r := Reverse(s);
    forall i, j | 0 <= i < j < |r| ensures r[i].id > r[j].id {
      assert r[i] == s[|s| - 1 - i] && r[j] == s[|s| - 1 - j];
      assert 0 <= |s| - 1 - j < |s| - 1 - i < |s|;
    }
  }

  lemma {:induction false} SelectKeepsOrder(rows: seq<Entry>, secretId: int, consumerId: int)
    requires Valid(rows)
    ensures Valid(Select(rows, secretId, consumerId))
    decreases |rows|
  {
    if |rows| > 0 {
      SelectKeepsOrder(rows[1..], secretId, consumerId);
      var rest := Select(rows[1..], secretId, consumerId);
      forall e | e in rest ensures rows[0].id < e.id {
        assert e in rows[1..];
        var k :| 0 <= k < |rows[1..]| && rows[1..][k] == e;
        assert rows[k + 1] == e;
      }
      if Matches(rows[0], secretId, consumerId) {
        var s := [rows[0]] + rest;
        forall i, j | 0 <= i < j < |s| ensures s[i].id < s[j].id {
          assert s[j] == rest[j - 1];
          assert rest[j - 1] in rest;
          if i > 0 {
            assert s[i] == rest[i - 1];
            assert 0 <= i - 1 < j - 1 < |rest|;
          }
        }
        assert Select(rows, secretId, consumerId) == s;
      }
    }
  }

  /** `Itoa` of a positive number is all digits, so it has no blank. */
  lemma PositiveItoa(n: int)
    requires n > 0
    ensures AllDigits(Itoa(n)) && ' ' !in Itoa(n)
  {
    assert Itoa(n) == NatToDigits(n);
  }

  /** A present condition is read with its number; the text after it is left. */
  lemma ReadEqualsPresent(column: string, id: int, rest: string)
    requires id > 0 && InInt64(id)
    requires |rest| == 0 || rest[0] == ' '
    ensures ReadEquals(Equals(column, id) + rest, column) == (Some(id), rest)
  {
    var head := " AND `" + column + "` = ";
    var d := Itoa(id);
    var s := Equals(column, id) + rest;
    assert s == head + (d + rest);
    assert s[..|head|] == head;
    var t := s[|head|..];
    assert t == d + rest;
    PositiveItoa(id);
    if |rest| == 0 {
      assert t == d;
      assert IndexOf(t, ' ') == None;
    } else {
      assert t == d + [' '] + rest[1..];
      IndexOfAfter(d, ' ', rest[1..]);
    }
    assert t[..|d|] == d && t[|d|..] == rest;
    assert ReadNumber(d) == Some(id) by {
      assert d == NatToDigits(id);
      DigitsValueOfNatToDigits(id);
    }
  }

  /** The secret condition is not mistaken for the consumer one, or the other way round. */
  lemma ReadEqualsAbsent(s: string, column: string, other: string, id: int)
    requires |column| > 0 && |other| > 0 && column[0] != other[0]
    requires s == "" || s == Equals(other, id)
    ensures ReadEquals(s, column) == (None, s)
  {
    var head := " AND `" + column + "` = ";
    assert s == "" || s[6] == other[0];
    assert |head| > 6 && head[6] == column[0];
  }

  /** Reading "1" and two conditions whose readings are known. */
  lemma ReadWhereSteps(w: string, first: string, second: string, x: Option<int>, mid: string, y: Option<int>)
    requires |w| > 0 && w[0] == '1'
    requires ReadEquals(w[1..], first) == (x, mid)
    requires ReadEquals(mid, second) == (y, "")
    ensures ReadWhere(w, first, second)
         == Some((match x case Some(v) => v case None => 0, match y case Some(v) => v case None => 0))
  {
  }

  /** The condition on a column when its id filters, nothing otherwise. */
  function Cond(column: string, id: int): string {
    if id > 0 then Equals(column, id) else ""
  }

  function IdOrNone(id: int): Option<int> {
    if id > 0 then Some(id) else None
  }

  lemma ReadSecond(first: string, second: string, b: int)
    requires |first| > 0 && |second| > 0 && first[0] != second[0]
    requires InInt64(b)
    ensures ReadEquals(Cond(second, b), second) == (IdOrNone(b), "")
  {
    if b > 0 {
      ReadEqualsPresent(second, b, "");
      assert Cond(second, b) + "" == Cond(second, b);
    } else {
      ReadEqualsAbsent("", second, first, 0);
    }
  }

  lemma ReadFirst(first: string, second: string, a: int, b: int)
    requires |first| > 0 && |second| > 0 && first[0] != second[0]
    requires InInt64(a)
    ensures ReadEquals(Cond(first, a) + Cond(second, b), first) == (IdOrNone(a), Cond(second, b))
  {
    var p2 := Cond(second, b);
    if a > 0 {
      assert |p2| == 0 || p2[0] == ' ';
      ReadEqualsPresent(first, a, p2);
    } else {
      assert Cond(first, a) + p2 == p2;
      ReadEqualsAbsent(p2, first, second, b);
    }
  }

  /** The two optional conditions, written in order, read back. */
  lemma ReadWhereOf(first: string, second: string, a: int, b: int)
    requires |first| > 0 && |second| > 0 && first[0] != second[0]
    requires InInt64(a) && InInt64(b)
    ensures ReadWhere("1" + Cond(first, a) + Cond(second, b), first, second) == Some((Normal(a), Normal(b)))
  {
    var w := "1" + Cond(first, a) + Cond(second, b);
    assert w[1..] == Cond(first, a) + Cond(second, b);
    ReadFirst(first, second, a, b);
    ReadSecond(first, second, b);
    ReadWhereSteps(w, first, second, IdOrNone(a), Cond(second, b), IdOrNone(b));
  }

  /**
   * The WHERE clause is a faithful encoding of the two ids: reading it back
   * yields each positive id, and 0 for an id that does not filter.
   */
  lemma WhereStatementReadsBack(secretId: int, consumerId: int)
    requires InInt64(secretId) && InInt64(consumerId)
    ensures ParseWhereStatement(BuildWhereStatement(secretId, consumerId)) == Some((Normal(secretId), Normal(consumerId)))
  {
    ReadWhereOf("secret_id", "consumer_id", secretId, consumerId);
  }

  /** Two filters build the same WHERE clause exactly when they select by the same ids. */
  lemma WhereStatementInjective(s1: int, c1: int, s2: int, c2: int)
    requires InInt64(s1) && InInt64(c1) && InInt64(s2) && InInt64(c2)
    ensures BuildWhereStatement(s1, c1) == BuildWhereStatement(s2, c2)
        <==> Normal(s1) == Normal(s2) && Normal(c1) == Normal(c2)
  {
    WhereStatementReadsBack(s1, c1);
    WhereStatementReadsBack(s2, c2);
  }
}
