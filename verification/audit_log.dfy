/**
 * The audit log: one row per administrative action (logins and the creation,
 * update and deletion of users, secrets and consumers), its filters, and the
 * paging of the audit-log page.
 */
module AuditLog {
  import opened Base
  import opened Strings
  import opened Http
  import opened Utils
  import opened Contexts

  /** An `audit_log` row as written; `None` stands for SQL NULL. */
  datatype Record = Record(
    secret: Option<int>,
    consumer: Option<int>,
    user: Option<int>,
    action: string,
    createdBy: int,
    originIp: string,
    userAgent: Option<string>,
    context: Option<Context>)

  /** A stored row: its auto-increment id and the record. */
  datatype Entry = Entry(id: int, record: Record)

  /** The `audit_log` table: rows in insertion order and the next auto-increment id. */
  datatype Table = Table(rows: seq<Entry>, nextId: int)

  /** Ids are assigned in increasing order and stay below the next one. */
  predicate Valid(t: Table) {
    && (forall i, j :: 0 <= i < j < |t.rows| ==> t.rows[i].id < t.rows[j].id)
    && (forall i :: 0 <= i < |t.rows| ==> 0 < t.rows[i].id < t.nextId)
  }

  /** An id column: positive ids are stored, anything else becomes NULL. */
  function IdOrNull(id: int): (r: Option<int>)
    ensures r.Some? <==> id > 0
    ensures r.Some? ==> r.value == id
  {
    if id > 0 then Some(id) else None
  }

  /**
   * `logAction`: the three object ids are NULL unless positive, the user
   * agent is NULL when empty, and the origin is the request's address.
   */
  function LogAction(req: Request, secretId: int, consumerId: int, userId: int, creatorId: int,
                     action: string, context: Option<Context>): (r: Record)
    ensures r.secret.Some? <==> secretId > 0
    ensures r.consumer.Some? <==> consumerId > 0
    ensures r.user.Some? <==> userId > 0
    ensures r.secret.Some? ==> r.secret.value == secretId
    ensures r.consumer.Some? ==> r.consumer.value == consumerId
    ensures r.user.Some? ==> r.user.value == userId
    ensures r.createdBy == creatorId && r.action == action && r.context == context
    ensures r.userAgent.None? <==> HeaderGet(req, "User-Agent") == ""
  {
    var ua := HeaderGet(req, "User-Agent");
    Record(IdOrNull(secretId), IdOrNull(consumerId), IdOrNull(userId), action, creatorId,
           req.remoteIp, if |ua| > 0 then Some(ua) else None, context)
  }

  function LogLogin(req: Request, userId: int): Record {
    LogAction(req, -1, -1, userId, userId, "user-login", None)
  }

  function LogUserCreated(req: Request, creatorId: int, createdUserId: int): Record {
    LogAction(req, -1, -1, createdUserId, creatorId, "user-created", None)
  }

  function LogUserUpdated(req: Request, editorId: int, editedUserId: int): Record {
    LogAction(req, -1, -1, editedUserId, editorId, "user-updated", None)
  }

  function LogUserDeleted(req: Request, editorId: int, deletedUserId: int): Record {
    LogAction(req, -1, -1, deletedUserId, editorId, "user-deleted", None)
  }

  function LogSecretCreated(req: Request, secretId: int, userId: int): Record {
    LogAction(req, secretId, -1, -1, userId, "secret-created", None)
  }

  function LogSecretUpdated(req: Request, secretId: int, userId: int): Record {
    LogAction(req, secretId, -1, -1, userId, "secret-updated", None)
  }

  function LogSecretDeleted(req: Request, secretId: int, userId: int): Record {
    LogAction(req, secretId, -1, -1, userId, "secret-deleted", None)
  }

  function LogConsumerCreated(req: Request, consumerId: int, userId: int): Record {
    LogAction(req, -1, consumerId, -1, userId, "consumer-created", None)
  }

  function LogConsumerUpdated(req: Request, consumerId: int, userId: int): Record {
    LogAction(req, -1, consumerId, -1, userId, "consumer-updated", None)
  }

  function LogConsumerDeleted(req: Request, consumerId: int, userId: int): Record {
    LogAction(req, -1, consumerId, -1, userId, "consumer-deleted", None)
  }

  /** Inserting records, each under the next auto-increment id. */
  function Append(t: Table, records: seq<Record>): (r: Table)
    requires Valid(t) && t.nextId > 0
    ensures Valid(r) && r.nextId == t.nextId + |records|
    ensures |r.rows| == |t.rows| + |records| && r.rows[..|t.rows|] == t.rows
    ensures forall i :: 0 <= i < |records| ==> r.rows[|t.rows| + i] == Entry(t.nextId + i, records[i])
    decreases |records|
  {
    if |records| == 0 then t
    else
      var t1 := Table(t.rows + [Entry(t.nextId, records[0])], t.nextId + 1);
      var r := Append(t1, records[1..]);
      assert forall i :: 1 <= i < |records| ==> records[i] == records[1..][i - 1];
      r
  }

  // ---------------------------------------------------------------------------
  // Filters

  /** The five filter lists of `Find` and `Count`. */
  datatype Filter = Filter(secretIds: seq<int>, consumerIds: seq<int>, userIds: seq<int>,
                           creatorIds: seq<int>, actions: seq<string>)

  const NoFilter: Filter := Filter([], [], [], [], [])

  /** The actions that match `^[a-z0-9_-]+$`, in order; the others are dropped. */
  function ValidActions(actions: seq<string>): (r: seq<string>)
    ensures |r| <= |actions|
    ensures forall i :: 0 <= i < |r| ==> MatchesSafeClass(r[i])
    ensures forall a :: a in r <==> a in actions && MatchesSafeClass(a)
    ensures (forall i :: 0 <= i < |actions| ==> !MatchesSafeClass(actions[i])) ==> r == []
  {
    if |actions| == 0 then []
    else
      var rest := ValidActions(actions[1..]);
      assert forall a :: a in actions <==> a == actions[0] || a in actions[1..];
      if MatchesSafeClass(actions[0]) then [actions[0]] + rest else rest
  }

  /** The opening of an `IN` clause on a column. */
  function ClauseHead(column: string): string {
    " AND `" + column + "` IN ("
  }

  /** One `AND column IN (...)` clause. */
  function InClause(column: string, list: string): string {
    ClauseHead(column) + list + ")"
  }

  /** The clause on a column when its list was given, nothing otherwise. */
  function Part(present: bool, column: string, list: string): string {
    if present then InClause(column, list) else ""
  }

  /** The columns a filter may restrict, in the order their clauses are written. */
  const Columns: seq<string> := ["secret_id", "consumer_id", "user_id", "created_by", "action"]

  /**
   * Which of the five clauses are written: an id list when non-empty, the
   * actions when some were given and at least one passes the pattern.
   */
  function Flags(f: Filter): seq<bool> {
    [|f.secretIds| > 0, |f.consumerIds| > 0, |f.userIds| > 0, |f.creatorIds| > 0,
     |f.actions| > 0 && |ValidActions(f.actions)| > 0]
  }

  /** The `IN` list of each of the five clauses: decimals, or the valid actions in quotes. */
  function Lists(f: Filter): seq<string> {
    [ConcatIntList(f.secretIds), ConcatIntList(f.consumerIds), ConcatIntList(f.userIds),
     ConcatIntList(f.creatorIds), ConcatStringList(ValidActions(f.actions))]
  }

  /** The clauses for the given columns, in order, each written when its flag is set. */
  function Render(present: seq<bool>, columns: seq<string>, lists: seq<string>): string
    requires |present| == |columns| == |lists|
    decreases |present|
  {
    if |present| == 0 then ""
    else Part(present[0], columns[0], lists[0]) + Render(present[1..], columns[1..], lists[1..])
  }

  /** `buildWhereStatement`: "1", then the clause of each column whose list was given. */
  function BuildWhereStatement(f: Filter): string {
    "1" + Render(Flags(f), Columns, Lists(f))
  }

  // ---------------------------------------------------------------------------
  // Reading a WHERE clause back

  /** Reads an optional `IN` clause on `column` off the front of s: its list, and what follows. */
  function ReadClause(s: string, column: string): (r: (Option<string>, string))
    ensures r.0.None? ==> r.1 == s
  {
    var head := ClauseHead(column);
    if |head| <= |s| && s[..|head|] == head then
      match IndexOf(s[|head|..], ')')
      case Some(m) => (Some(s[|head|..][..m]), s[|head|..][m + 1..])
      case None => (None, s)
    else (None, s)
  }

  function ReadInts(list: Option<string>): seq<int> {
    match list
    case None => []
    case Some(l) => ParseInts(SplitCommaList(l))
  }

  function ReadStrings(list: Option<string>): seq<string> {
    match list
    case None => []
    case Some(l) =>
      var items := SplitCommaList(l);
      seq(|items|, i requires 0 <= i < |items| => Unquote(items[i]))
  }

  /** Reads one optional clause per column, in order, and requires nothing to be left over. */
  function ReadClauses(s: string, columns: seq<string>): (r: Option<seq<Option<string>>>)
    ensures r.Some? ==> |r.value| == |columns|
    decreases |columns|
  {
    if |columns| == 0 then (if |s| == 0 then Some([]) else None)
    else
      var (list, rest) := ReadClause(s, columns[0]);
      match ReadClauses(rest, columns[1..])
      case None => None
      case Some(lists) => Some([list] + lists)
  }

  /**
   * Reads a WHERE clause of the form `buildWhereStatement` writes back into
   * the filter lists it selects by; anything else is `None`.
   */
  function ParseWhereStatement(s: string): Option<Filter> {
    if |s| == 0 || s[0] != '1' then None
    else match ReadClauses(s[1..], Columns)
      case None => None
      case Some(l) => Some(Filter(ReadInts(l[0]), ReadInts(l[1]), ReadInts(l[2]), ReadInts(l[3]), ReadStrings(l[4])))
  }

  /** An id column matches an `IN` list; SQL NULL never does. */
  predicate IdIn(v: Option<int>, ids: seq<int>) {
    v.Some? && v.value in ids
  }

  /** The rows the WHERE clause selects, stated on the record instead of in SQL. */
  predicate Matches(r: Record, f: Filter) {
    var valid := ValidActions(f.actions);
    && (|f.secretIds| == 0 || IdIn(r.secret, f.secretIds))
    && (|f.consumerIds| == 0 || IdIn(r.consumer, f.consumerIds))
    && (|f.userIds| == 0 || IdIn(r.user, f.userIds))
    && (|f.creatorIds| == 0 || r.createdBy in f.creatorIds)
    && (|valid| == 0 || r.action in valid)
  }

  /** The matching rows, in insertion order. */
  function Select(rows: seq<Entry>, f: Filter): (r: seq<Entry>)
    ensures |r| <= |rows|
    ensures forall e :: e in r <==> e in rows && Matches(e.record, f)
  {
    if |rows| == 0 then []
    else
      var rest := Select(rows[1..], f);
      assert forall e :: e in rows <==> e == rows[0] || e in rows[1..];
      if Matches(rows[0].record, f) then [rows[0]] + rest else rest
  }

  // ---------------------------------------------------------------------------
  // Paging

  /** `buildLimitStatement`. */
  function BuildLimitStatement(limit: int, offset: int): string {
    if limit <= 0 then "LIMIT 10"
    else if offset > 0 then "LIMIT " + Itoa(offset) + "," + Itoa(limit)
    else "LIMIT " + Itoa(limit)
  }

  /** The rows a LIMIT clause keeps: (how many to skip, how many to keep). */
  function Window(limit: int, offset: int): (w: (nat, nat))
    ensures limit <= 0 ==> w == (0, 10)
    ensures limit > 0 ==> w.1 == limit
    ensures limit > 0 ==> w.0 == (if offset > 0 then offset else 0)
  {
    if limit <= 0 then (0, 10)
    else if offset > 0 then (offset, limit)
    else (0, limit)
  }

  /** At most `take` items after the first `skip`. */
  function Slice<T>(s: seq<T>, skip: nat, take: nat): (r: seq<T>)
    ensures |r| <= take
    ensures skip <= |s| ==> |r| == if |s| - skip < take then |s| - skip else take
    ensures forall i :: 0 <= i < |r| ==> skip + i < |s| && r[i] == s[skip + i]
  {
    if skip >= |s| then []
    else if |s| - skip <= take then s[skip..]
    else s[skip..skip + take]
  }

  /** `Find`: the matching rows, newest (highest id) first, cut to the limit window. */
  function Find(t: Table, f: Filter, limit: int, offset: int): seq<Entry> {
    var w := Window(limit, offset);
    Slice(Reverse(Select(t.rows, f)), w.0, w.1)
  }

  /** `Count`: every matching row, with no limit. */
  function Count(t: Table, f: Filter): nat {
    |Select(t.rows, f)|
  }

  function FindAll(t: Table, limit: int, offset: int): seq<Entry> {
    Find(t, NoFilter, limit, offset)
  }

  function FindBySecrets(t: Table, ids: seq<int>, limit: int, offset: int): seq<Entry> {
    Find(t, NoFilter.(secretIds := ids), limit, offset)
  }

  function FindByConsumers(t: Table, ids: seq<int>, limit: int, offset: int): seq<Entry> {
    Find(t, NoFilter.(consumerIds := ids), limit, offset)
  }

  function FindByUsers(t: Table, ids: seq<int>, limit: int, offset: int): seq<Entry> {
    Find(t, NoFilter.(userIds := ids), limit, offset)
  }

  function FindByCreators(t: Table, ids: seq<int>, limit: int, offset: int): seq<Entry> {
    Find(t, NoFilter.(creatorIds := ids), limit, offset)
  }

  function FindByActions(t: Table, actions: seq<string>, limit: int, offset: int): seq<Entry> {
    Find(t, NoFilter.(actions := actions), limit, offset)
  }

  function CountAll(t: Table): nat {
    Count(t, NoFilter)
  }

  function CountBySecrets(t: Table, ids: seq<int>): nat {
    Count(t, NoFilter.(secretIds := ids))
  }

  function CountByConsumers(t: Table, ids: seq<int>): nat {
    Count(t, NoFilter.(consumerIds := ids))
  }

  function CountByUsers(t: Table, ids: seq<int>): nat {
    Count(t, NoFilter.(userIds := ids))
  }

  function CountByCreators(t: Table, ids: seq<int>): nat {
    Count(t, NoFilter.(creatorIds := ids))
  }

  function CountByActions(t: Table, actions: seq<string>): nat {
    Count(t, NoFilter.(actions := actions))
  }

  /** The audit-log page's page size. */
  const PageSize: int := 25

  /** Go's int64 arithmetic: the result wrapped into [MinInt64, MaxInt64]. */
  function Wrap64(x: int): (r: int)
    ensures InInt64(r)
    ensures InInt64(x) ==> r == x
  {
    var m := (x - MinInt64) % 0x1_0000_0000_0000_0000;
    m + MinInt64
  }

  /** The requested page: a value `Atoi` rejects, or a negative one, is page 0. */
  function Page(req: Request): (p: int)
    ensures 0 <= p <= MaxInt64
  {
    match Atoi(FormValue(req, "page"))
    case Err(_) => 0
    case Ok(v) => if v < 0 then 0 else v
  }

  /** The offset of a page, computed in int64 as the Go code does. */
  function PageOffset(page: int): int {
    Wrap64(page * PageSize)
  }

  // ---------------------------------------------------------------------------
  // Properties

  /** Without any filter list the clause is exactly "1". */
  lemma NoFilterIsOne()
    ensures BuildWhereStatement(NoFilter) == "1"
  {
  }

  /** Actions that all fail the pattern add no clause, as if no actions were given. */
  lemma InvalidActionsAreIgnored(f: Filter)
    requires forall i :: 0 <= i < |f.actions| ==> !MatchesSafeClass(f.actions[i])
    ensures BuildWhereStatement(f) == BuildWhereStatement(f.(actions := []))
    ensures forall r :: Matches(r, f) <==> Matches(r, f.(actions := []))
  {
    assert ValidActions(f.actions) == [];
  }

  /** `Find` and `Count` select by the same filter: the page is part of what `Count` counts. */
  lemma FindWithinCount(t: Table, f: Filter, limit: int, offset: int)
    ensures |Find(t, f, limit, offset)| <= Count(t, f)
    ensures forall e :: e in Find(t, f, limit, offset) ==> e in t.rows && Matches(e.record, f)
  {
    var sel := Select(t.rows, f);
    var s := Reverse(sel);
    var w := Window(limit, offset);
    var r := Find(t, f, limit, offset);
    assert r == Slice(s, w.0, w.1);
    if |r| > 0 {
      assert w.0 + (|r| - 1) < |s|;
    }
    forall e | e in r ensures e in t.rows && Matches(e.record, f) {
      var i :| 0 <= i < |r| && r[i] == e;
      assert e == s[w.0 + i];
      assert e == sel[|sel| - 1 - (w.0 + i)];
    }
  }

  /** In a valid table, `Find` lists rows by strictly decreasing id. */
  lemma FindNewestFirst(t: Table, f: Filter, limit: int, offset: int)
    requires Valid(t)
    ensures var r := Find(t, f, limit, offset);
            forall i, j :: 0 <= i < j < |r| ==> r[i].id > r[j].id
  {
    var s := Select(t.rows, f);
    SelectKeepsOrder(t.rows, f);
    ReverseDescends(s);
    var rv := Reverse(s);
    var w := Window(limit, offset);
    var r := Slice(rv, w.0, w.1);
    forall i, j | 0 <= i < j < |r| ensures r[i].id > r[j].id {
      assert r[i] == rv[w.0 + i] && r[j] == rv[w.0 + j];
    }
  }


  lemma {:induction false} SelectKeepsOrder(rows: seq<Entry>, f: Filter)
    requires forall i, j :: 0 <= i < j < |rows| ==> rows[i].id < rows[j].id
    ensures forall i, j :: 0 <= i < j < |Select(rows, f)| ==> Select(rows, f)[i].id < Select(rows, f)[j].id
    decreases |rows|
  {
    if |rows| > 0 {
      SelectKeepsOrder(rows[1..], f);
      var rest := Select(rows[1..], f);
      forall e | e in rest ensures rows[0].id < e.id {
        var k :| 0 <= k < |rows[1..]| && rows[1..][k] == e;
        assert rows[k + 1] == e;
      }
      if Matches(rows[0].record, f) {
        ConsAscending(rows[0], rest);
      }
    }
  }

  predicate Ascending(s: seq<Entry>) {
    forall i, j :: 0 <= i < j < |s| ==> s[i].id < s[j].id
  }

  /** An entry older than every entry of an ascending list can be put in front of it. */
  lemma ConsAscending(x: Entry, rest: seq<Entry>)
    requires Ascending(rest) && forall e :: e in rest ==> x.id < e.id
    ensures Ascending([x] + rest)
  {
    var s := [x] + rest;
    forall i, j | 0 <= i < j < |s| ensures s[i].id < s[j].id {
      assert s[j] == rest[j - 1];
      if i > 0 {
        assert s[i] == rest[i - 1];
      }
    }
  }

  /** Reversing an ascending list gives a descending one. */
  lemma ReverseDescends(s: seq<Entry>)
    requires Ascending(s)
    ensures forall i, j :: 0 <= i < j < |Reverse(s)| ==> Reverse(s)[i].id > Reverse(s)[j].id
  {
    var rv := Reverse(s);
    forall i, j | 0 <= i < j < |rv| ensures rv[i].id > rv[j].id {
      assert rv[i] == s[|s| - 1 - i] && rv[j] == s[|s| - 1 - j];
    }
  }


  /** The `FindBy*` and `CountBy*` shortcuts filter by one list; only matching rows come back. */
  lemma FindBySecretsFilters(t: Table, ids: seq<int>, limit: int, offset: int)
    requires |ids| > 0
    ensures forall e :: e in FindBySecrets(t, ids, limit, offset) ==> e.record.secret.Some? && e.record.secret.value in ids
    ensures CountBySecrets(t, ids) >= |FindBySecrets(t, ids, limit, offset)|
  {
    FindWithinCount(t, NoFilter.(secretIds := ids), limit, offset);
  }

  /** A page given as a small enough non-negative number is skipped to at 25 rows per page. */
  lemma PageOffsetExact(page: int)
    requires 0 <= page <= MaxInt64 / PageSize
    ensures PageOffset(page) == page * PageSize
    ensures Window(PageSize, PageOffset(page)) == (page * PageSize, PageSize)
  {
  }

  /** A page number past int64 / 25 wraps around to a negative offset, which the limit clause ignores. */
  lemma PageOffsetWraps()
    ensures PageOffset(368934881474191033) < 0
    ensures BuildLimitStatement(PageSize, PageOffset(368934881474191033)) == "LIMIT 25"
  {
    assert 368934881474191033 * PageSize == MaxInt64 + 18;
    assert (MaxInt64 + 18 - MinInt64) % 0x1_0000_0000_0000_0000 == 17;
    assert PageOffset(368934881474191033) == MinInt64 + 17;
    assert Itoa(25) == "25";
  }

  /** A limit of zero or below falls back to "LIMIT 10", from the first row, whatever the offset. */
  lemma LimitFallback(limit: int, offset: int)
    requires limit <= 0
    ensures BuildLimitStatement(limit, offset) == "LIMIT 10" && Window(limit, offset) == (0, 10)
  {
  }
  // ---------------------------------------------------------------------------
  // The WHERE clause reads back

  /** Two characters that tell the clauses apart: the first two of the column. */
  function Tag(s: string): string {
    if |s| >= 8 then s[6..8] else ""
  }

  function Given(present: bool, list: string): Option<string> {
    if present then Some(list) else None
  }

  /** The list of each column, where present. */
  function Givens(present: seq<bool>, lists: seq<string>): seq<Option<string>>
    requires |present| == |lists|
  {
    seq(|present|, i requires 0 <= i < |present| => Given(present[i], lists[i]))
  }

  /** Column names the reader can tell apart by their first two characters. */
  predicate DistinctTags(columns: seq<string>) {
    && (forall i :: 0 <= i < |columns| ==> |columns[i]| >= 2)
    && (forall i, j :: 0 <= i < j < |columns| ==> columns[i][..2] != columns[j][..2])
  }

  lemma HeadTag(column: string, s: string)
    requires |column| >= 2
    requires |ClauseHead(column)| <= |s| && s[..|ClauseHead(column)|] == ClauseHead(column)
    ensures Tag(s) == column[..2]
  {
    var head := ClauseHead(column);
    assert s[6..8] == head[6..8];
    assert head[6..8] == column[..2];
  }

  /** A present clause is read with its list; an absent one leaves a rest with another tag alone. */
  lemma ReadPart(present: bool, column: string, list: string, rest: string)
    requires |column| >= 2
    requires present ==> ')' !in list
    requires !present ==> Tag(rest) != column[..2]
    ensures ReadClause(Part(present, column, list) + rest, column) == (Given(present, list), rest)
  {
    var head := ClauseHead(column);
    var s := Part(present, column, list) + rest;
    if present {
      assert s == head + (list + [')'] + rest);
      assert s[..|head|] == head;
      assert s[|head|..] == list + [')'] + rest;
      IndexOfAfter(list, ')', rest);
      assert (list + [')'] + rest)[..|list|] == list;
      assert (list + [')'] + rest)[|list| + 1..] == rest;
    } else {
      assert s == rest;
      if |head| <= |s| && s[..|head|] == head {
        HeadTag(column, s);
      }
    }
  }

  /** A written clause starts with its column's tag, whatever follows it. */
  lemma TagOfClause(column: string, list: string, rest: string)
    requires |column| >= 2
    ensures Tag(InClause(column, list) + rest) == column[..2]
  {
    var head := ClauseHead(column);
    var s := InClause(column, list) + rest;
    assert s == head + (list + [')'] + rest);
    assert s[..|head|] == head;
    HeadTag(column, s);
  }

  /** What a written list of clauses starts with: nothing, or the tag of one of its columns. */
  lemma {:induction false} TagOfRender(present: seq<bool>, columns: seq<string>, lists: seq<string>)
    requires |present| == |columns| == |lists|
    requires forall i :: 0 <= i < |columns| ==> |columns[i]| >= 2
    ensures var t := Tag(Render(present, columns, lists));
            t == "" || exists j :: 0 <= j < |columns| && t == columns[j][..2]
    decreases |present|
  {
    if |present| > 0 {
      var rest := Render(present[1..], columns[1..], lists[1..]);
      if present[0] {
        assert Render(present, columns, lists) == InClause(columns[0], lists[0]) + rest;
        TagOfClause(columns[0], lists[0], rest);
      } else {
        assert Render(present, columns, lists) == rest;
        TagOfRender(present[1..], columns[1..], lists[1..]);
        var t := Tag(rest);
        if t != "" {
          var j :| 0 <= j < |columns[1..]| && t == columns[1..][j][..2];
          assert columns[1..][j] == columns[j + 1];
        }
      }
    }
  }

  /** Reading the written clauses back yields each present list and `None` for each absent one. */
  lemma {:induction false} ReadRender(present: seq<bool>, columns: seq<string>, lists: seq<string>)
    requires |present| == |columns| == |lists|
    requires DistinctTags(columns)
    requires forall i :: 0 <= i < |present| && present[i] ==> ')' !in lists[i]
    ensures ReadClauses(Render(present, columns, lists), columns) == Some(Givens(present, lists))
    decreases |present|
  {
    if |present| > 0 {
      var s := Render(present, columns, lists);
      var rest := Render(present[1..], columns[1..], lists[1..]);
      assert s == Part(present[0], columns[0], lists[0]) + rest;
      DistinctTagsTail(columns);
      if !present[0] {
        RestTagDiffers(present, columns, lists);
      }
      ReadPart(present[0], columns[0], lists[0], rest);
      ReadRender(present[1..], columns[1..], lists[1..]);
      assert ReadClauses(s, columns) == Some([Given(present[0], lists[0])] + Givens(present[1..], lists[1..]));
      GivenCons(present, lists);
    } else {
      assert Givens(present, lists) == [];
    }
  }

  /** The given lists of a non-empty row: the first one, then those of the rest. */
  lemma GivenCons(present: seq<bool>, lists: seq<string>)
    requires |present| == |lists| > 0
    ensures Givens(present, lists) == [Given(present[0], lists[0])] + Givens(present[1..], lists[1..])
  {
    var tail := Givens(present[1..], lists[1..]);
    forall i | 0 <= i < |present| ensures Givens(present, lists)[i] == ([Given(present[0], lists[0])] + tail)[i] {
      if i > 0 {
        assert tail[i - 1] == Given(present[i], lists[i]);
      }
    }
  }

  lemma DistinctTagsTail(columns: seq<string>)
    requires |columns| > 0 && DistinctTags(columns)
    ensures DistinctTags(columns[1..])
  {
    forall i, j | 0 <= i < j < |columns[1..]| ensures columns[1..][i][..2] != columns[1..][j][..2] {
      assert columns[1..][i] == columns[i + 1] && columns[1..][j] == columns[j + 1];
    }
  }

  /** The clauses after the first column never start with the first column's tag. */
  lemma RestTagDiffers(present: seq<bool>, columns: seq<string>, lists: seq<string>)
    requires |present| == |columns| == |lists| > 0
    requires DistinctTags(columns)
    ensures Tag(Render(present[1..], columns[1..], lists[1..])) != columns[0][..2]
  {
    var rest := Render(present[1..], columns[1..], lists[1..]);
    TagOfRender(present[1..], columns[1..], lists[1..]);
    if Tag(rest) != "" {
      var j :| 0 <= j < |columns[1..]| && Tag(rest) == columns[1..][j][..2];
      assert columns[1..][j] == columns[j + 1];
    }
  }

  lemma ColumnsHaveDistinctTags()
    ensures DistinctTags(Columns)
  {
    assert Columns[0][..2] == "se" && Columns[1][..2] == "co" && Columns[2][..2] == "us";
    assert Columns[3][..2] == "cr" && Columns[4][..2] == "ac";
  }

  /** A joined list of decimals has no closing parenthesis. */
  lemma NoParenInInts(xs: seq<int>)
    ensures ')' !in ConcatIntList(xs)
  {
    var items := ItoaAll(xs);
    forall i | 0 <= i < |items| ensures ')' !in items[i] {
      ItoaChars(xs[i]);
    }
    NotInJoin(items, ", ", ')');
  }

  /** A joined list of quoted safe strings has no closing parenthesis, and no item has a comma. */
  lemma NoParenInActions(xs: seq<string>)
    requires forall i :: 0 <= i < |xs| ==> MatchesSafeClass(xs[i])
    ensures ')' !in ConcatStringList(xs)
    ensures forall i :: 0 <= i < |xs| ==> ',' !in xs[i]
  {
    var items := QuoteAll(xs);
    forall i | 0 <= i < |items| ensures ')' !in items[i] {
      assert items[i] == "'" + xs[i] + "'";
    }
    NotInJoin(items, ", ", ')');
  }

  lemma ReadIntsOf(xs: seq<int>)
    requires forall i :: 0 <= i < |xs| ==> InInt64(xs[i])
    ensures ReadInts(Given(|xs| > 0, ConcatIntList(xs))) == xs
  {
    if |xs| > 0 {
      ConcatIntListSplits(xs);
    }
  }

  /** Reading "1" and five written clauses gives back each present list. */
  lemma ParseRendered(ps: seq<bool>, ls: seq<string>)
    requires |ps| == |ls| == |Columns|
    requires forall i :: 0 <= i < |ps| && ps[i] ==> ')' !in ls[i]
    ensures ParseWhereStatement("1" + Render(ps, Columns, ls))
         == Some(Filter(ReadInts(Given(ps[0], ls[0])), ReadInts(Given(ps[1], ls[1])), ReadInts(Given(ps[2], ls[2])),
                        ReadInts(Given(ps[3], ls[3])), ReadStrings(Given(ps[4], ls[4]))))
  {
    ColumnsHaveDistinctTags();
    var w := "1" + Render(ps, Columns, ls);
    var l := Givens(ps, ls);
    ReadRender(ps, Columns, ls);
    assert w[1..] == Render(ps, Columns, ls);
    assert ParseWhereStatement(w) == Some(Filter(ReadInts(l[0]), ReadInts(l[1]), ReadInts(l[2]), ReadInts(l[3]), ReadStrings(l[4])));
    assert l[0] == Given(ps[0], ls[0]) && l[1] == Given(ps[1], ls[1]) && l[2] == Given(ps[2], ls[2]);
    assert l[3] == Given(ps[3], ls[3]) && l[4] == Given(ps[4], ls[4]);
  }

  /**
   * The WHERE clause is a faithful encoding of the filter: reading it back
   * yields every id list unchanged and exactly the actions that pass the
   * pattern.
   */
  lemma WhereStatementReadsBack(f: Filter)
    requires forall i :: 0 <= i < |f.secretIds| ==> InInt64(f.secretIds[i])
    requires forall i :: 0 <= i < |f.consumerIds| ==> InInt64(f.consumerIds[i])
    requires forall i :: 0 <= i < |f.userIds| ==> InInt64(f.userIds[i])
    requires forall i :: 0 <= i < |f.creatorIds| ==> InInt64(f.creatorIds[i])
    ensures ParseWhereStatement(BuildWhereStatement(f)) == Some(f.(actions := ValidActions(f.actions)))
  {
    NoParenInLists(f);
    ParseRendered(Flags(f), Lists(f));
    ReadIntsOf(f.secretIds);
    ReadIntsOf(f.consumerIds);
    ReadIntsOf(f.userIds);
    ReadIntsOf(f.creatorIds);
    ReadActionsOf(f.actions);
  }

  /** No written list contains the closing parenthesis that ends its clause. */
  lemma NoParenInLists(f: Filter)
    ensures forall i :: 0 <= i < |Flags(f)| && Flags(f)[i] ==> ')' !in Lists(f)[i]
  {
    var ps, ls := Flags(f), Lists(f);
    forall i | 0 <= i < |ps| && ps[i] ensures ')' !in ls[i] {
      if i == 0 {
        NoParenInInts(f.secretIds);
      } else if i == 1 {
        NoParenInInts(f.consumerIds);
      } else if i == 2 {
        NoParenInInts(f.userIds);
      } else if i == 3 {
        NoParenInInts(f.creatorIds);
      } else {
        NoParenInActions(ValidActions(f.actions));
      }
    }
  }

  lemma ReadActionsOf(actions: seq<string>)
    ensures var valid := ValidActions(actions);
            ReadStrings(Given(|actions| > 0 && |valid| > 0, ConcatStringList(valid))) == valid
  {
    var valid := ValidActions(actions);
    if |actions| > 0 && |valid| > 0 {
      NoParenInActions(valid);
      ConcatStringListSplits(valid);
    }
  }
}
