/** The "date" restriction: access only on the enabled weekdays. */
module DateRestriction {
  import opened Base
  import opened Strings
  import opened Http
  import opened Contexts

  const Identifier: string := "date"

  /** Go's `time.Weekday.String()`. */
  function WeekdayName(d: Weekday): string {
    ["Sunday", "Monday", "Tuesday", "Wednesday", "Thursday", "Friday", "Saturday"][d]
  }

  /** `newDateContext` takes Monday first but stores Sunday at index 0. */
  function NewDateContext(mon: bool, tue: bool, wed: bool, thu: bool, fri: bool, sat: bool, sun: bool): Context {
    DateCtx([sun, mon, tue, wed, thu, fri, sat])
  }

  function NullContext(): Context {
    NewDateContext(false, false, false, false, false, false, false)
  }

  /** One entry of the week as the form shows it. */
  datatype Day = Day(num: Weekday, name: string, enabled: bool)

  /** `dateContext.Week`: Monday to Sunday, each with its own flag. */
  function Week(days: DayFlags): (w: seq<Day>)
    ensures |w| == 7
    ensures forall i :: 0 <= i < 7 ==> w[i].num == (i + 1) % 7
  {
    seq(7, i requires 0 <= i < 7 => var d: Weekday := (i + 1) % 7; Day(d, WeekdayName(d), days[d]))
  }

  /** `IsNullContext`: a date context with no day enabled in its week. */
  predicate IsNullContext(ctx: Context) {
    ctx.DateCtx? && forall i :: 0 <= i < 7 ==> !Week(ctx.enabledDays)[i].enabled
  }

  /** Writes the flag of the given day. */
  function SetDay(days: DayFlags, d: Weekday, v: bool): (r: DayFlags)
  {
    days[d := v]
  }

  /** Walks the week in the order `Week` lists it, reading `restriction_date_<num>`. */
  function ReadWeek(req: Request, days: DayFlags, week: seq<Day>): DayFlags
    decreases |week|
  {
    if |week| == 0 then days
    else
      var num := week[0].num;
      ReadWeek(req, SetDay(days, num, FormValue(req, "restriction_date_" + Itoa(num)) == "1"), week[1..])
  }

  /** `SerializeForm`: starts from the null context, ignores the old one, and never fails. */
  function SerializeForm(req: Request, enabled: bool, oldCtx: Option<Context>): (r: Result<Context>) {
    var days := NullContext().enabledDays;
    Ok(DateCtx(ReadWeek(req, days, Week(days))))
  }

  /** `CheckAccess` on the day of the request. */
  function CheckAccess(weekday: Weekday, ctx: Context): (v: Verdict)
    ensures v.granted ==> v.diagnostic.None?
  {
    if !ctx.DateCtx? then Deny(InvalidContext)
    else if !ctx.enabledDays[weekday] then Deny("Access on " + WeekdayName(weekday) + " is not allowed.")
    else Allow
  }

  // ---------------------------------------------------------------------------
  // Properties

  /** Each Go weekday constant is listed exactly once by `Week`, with its own flag and name. */
  lemma WeekCoversEveryDay(days: DayFlags, d: Weekday)
    ensures exists i :: 0 <= i < 7 && Week(days)[i] == Day(d, WeekdayName(d), days[d])
    ensures forall i, j :: 0 <= i < j < 7 ==> Week(days)[i].num != Week(days)[j].num
  {
    var i := (d + 6) % 7;
    assert Week(days)[i].num == d;
  }

  /** `newDateContext` stores each argument under its Go weekday (Sunday is 0). */
  lemma NewDateContextIndexing(mon: bool, tue: bool, wed: bool, thu: bool, fri: bool, sat: bool, sun: bool)
    ensures var w := Week(NewDateContext(mon, tue, wed, thu, fri, sat, sun).enabledDays);
            [w[0].enabled, w[1].enabled, w[2].enabled, w[3].enabled, w[4].enabled, w[5].enabled, w[6].enabled]
            == [mon, tue, wed, thu, fri, sat, sun]
    ensures var w := Week(NewDateContext(mon, tue, wed, thu, fri, sat, sun).enabledDays);
            [w[0].name, w[1].name, w[2].name, w[3].name, w[4].name, w[5].name, w[6].name]
            == ["Monday", "Tuesday", "Wednesday", "Thursday", "Friday", "Saturday", "Sunday"]
  {
    WeekNames(NewDateContext(mon, tue, wed, thu, fri, sat, sun).enabledDays);
  }

  /** Whatever the flags, the week lists the days by name from Monday to Sunday. */
  lemma WeekNames(days: DayFlags)
    ensures var w := Week(days);
            [w[0].name, w[1].name, w[2].name, w[3].name, w[4].name, w[5].name, w[6].name]
            == ["Monday", "Tuesday", "Wednesday", "Thursday", "Friday", "Saturday", "Sunday"]
  {
  }

  /** A date context is null exactly when no weekday flag is set; other types are never null. */
  lemma IsNullContextIffNoDay(ctx: Context)
    ensures IsNullContext(ctx) <==> ctx.DateCtx? && forall d: Weekday :: !ctx.enabledDays[d]
  {
    if ctx.DateCtx? {
      if IsNullContext(ctx) {
        forall d: Weekday ensures !ctx.enabledDays[d] {
          WeekCoversEveryDay(ctx.enabledDays, d);
        }
      }
    }
  }

  /** The null context has every day disabled and so is null. */
  lemma NullContextIsNull()
    ensures IsNullContext(NullContext())
    ensures forall d: Weekday :: !NullContext().enabledDays[d]
  {
    IsNullContextIffNoDay(NullContext());
  }

  /** Reading a list of distinct days sets exactly those days from the form and keeps the rest. */
  lemma {:induction false} ReadWeekSets(req: Request, days: DayFlags, week: seq<Day>, d: Weekday)
    requires forall i, j :: 0 <= i < j < |week| ==> week[i].num != week[j].num
    ensures (exists i :: 0 <= i < |week| && week[i].num == d) ==>
              ReadWeek(req, days, week)[d] == (FormValue(req, "restriction_date_" + Itoa(d)) == "1")
    ensures (forall i :: 0 <= i < |week| ==> week[i].num != d) ==> ReadWeek(req, days, week)[d] == days[d]
    decreases |week|
  {
    if |week| > 0 {
      var num := week[0].num;
      var next := SetDay(days, num, FormValue(req, "restriction_date_" + Itoa(num)) == "1");
      assert forall i, j :: 0 <= i < j < |week[1..]| ==> week[1..][i].num != week[1..][j].num by {
        forall i, j | 0 <= i < j < |week[1..]| ensures week[1..][i].num != week[1..][j].num {
          assert week[1..][i] == week[i + 1] && week[1..][j] == week[j + 1];
        }
      }
      ReadWeekSets(req, next, week[1..], d);
      if num != d {
        if exists i :: 0 <= i < |week| && week[i].num == d {
          var i :| 0 <= i < |week| && week[i].num == d;
          assert week[1..][i - 1] == week[i];
        }
      } else {
        assert forall i :: 0 <= i < |week[1..]| ==> week[1..][i].num != d by {
          forall i | 0 <= i < |week[1..]| ensures week[1..][i].num != d {
            assert week[1..][i] == week[i + 1];
          }
        }
      }
    }
  }

  /** Day N is enabled exactly when the form field `restriction_date_N` is "1"; nothing else matters. */
  lemma SerializeFormReadsEachDay(req: Request, enabled: bool, oldCtx: Option<Context>, d: Weekday)
    ensures SerializeForm(req, enabled, oldCtx).Ok?
    ensures SerializeForm(req, enabled, oldCtx).value.DateCtx?
    ensures SerializeForm(req, enabled, oldCtx).value.enabledDays[d]
            == (FormValue(req, "restriction_date_" + Itoa(d)) == "1")
    ensures SerializeForm(req, enabled, oldCtx) == SerializeForm(req, !enabled, None)
  {
    var days := NullContext().enabledDays;
    WeekCoversEveryDay(days, d);
    ReadWeekSets(req, days, Week(days), d);
  }

  /** Access is granted, without a diagnostic, exactly on the enabled weekdays. */
  lemma CheckAccessIffDayEnabled(weekday: Weekday, ctx: Context)
    ensures CheckAccess(weekday, ctx).granted <==> ctx.DateCtx? && ctx.enabledDays[weekday]
    ensures !ctx.DateCtx? ==> CheckAccess(weekday, ctx) == Deny(InvalidContext)
  {
  }
}
