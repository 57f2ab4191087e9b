/** GET /stats (src/routes/dashboardRoutes.js): the number of students,
    today's attendance percentage and the month's average daily attendance.
    The current time is a parameter. */
module DashboardRoutes {
  import opened Responses
  import opened Calendar
  import opened Seqs
  import opened Rounding
  import opened StudentModel
  import opened AttendanceModel
  import StudentRoutes

  datatype Stats = Stats(totalStudents: nat, todayPercentage: nat, monthlyAvg: nat)

  /** `Math.round((presentToday / totalStudents) * 100)`, or 0 without
      students. */
  function TodayPercentage(present: nat, total: nat): (r: nat)
    ensures total == 0 ==> r == 0
    ensures total > 0 ==> 2 * present * 100 - total < 2 * r * total <= 2 * present * 100 + total
  {
    if total > 0 then RoundHalfUp(present * 100, total) else 0
  }

  /** The records of the month whose date is one of `ds`. */
  function OnDates(rs: Ledger, ds: seq<Instant>): (r: Ledger)
    ensures forall x :: x in r <==> x in rs && x.date in ds
    ensures ds == [] ==> r == []
  {
    if rs == [] then []
    else (if rs[0].date in ds then [rs[0]] else []) + OnDates(rs[1..], ds)
  }

  /** The `present` field of each `$group: { _id: "$date" }` output. */
  function PerDay(rs: Ledger, ds: seq<Instant>): (r: seq<nat>)
    ensures |r| == |ds|
  {
    if ds == [] then [] else [CountStatus(OnDate(rs, ds[0]), PRESENT)] + PerDay(rs, ds[1..])
  }

  /** The distinct dates of the month's records: the `_id`s of the groups. */
  function MonthDates(rs: Ledger): (r: seq<Instant>)
    ensures NoDup(r)
    ensures forall t :: t in r <==> exists x :: x in rs && x.date == t
    ensures |r| <= |rs|
  {
    var r := Dedup(Dates(rs));
    assert forall t :: t in Dates(rs) <==> exists x :: x in rs && x.date == t by {
      forall t | t in Dates(rs) ensures exists x :: x in rs && x.date == t {
        var k :| 0 <= k < |rs| && Dates(rs)[k] == t;
        assert rs[k] in rs;
      }
      forall t | (exists x :: x in rs && x.date == t) ensures t in Dates(rs) {
        var x :| x in rs && x.date == t;
        var k :| 0 <= k < |rs| && rs[k] == x;
        assert Dates(rs)[k] == t;
      }
    }
    r
  }

  /** The monthly average as written: only an empty month is guarded, so a
      month with records and an empty student collection divides by zero;
      `None` stands for the resulting non-finite number, sent as `null`. */
  function MonthlyAvgAsWritten(sumPresent: nat, days: nat, total: nat): (r: Option<nat>)
    ensures days == 0 ==> r == Some(0)
    ensures r.None? <==> days > 0 && total == 0
    ensures r.Some? && days > 0 ==>
              2 * sumPresent * 100 - days * total < 2 * r.value * (days * total) <= 2 * sumPresent * 100 + days * total
  {
    if days > 0 then
      if total > 0 then Some(RoundHalfUp(sumPresent * 100, days * total)) else None
    else Some(0)
  }

  /** The monthly average with both divisors guarded: 0 when the month has no
      records or there are no students. */
  function MonthlyAvg(sumPresent: nat, days: nat, total: nat): (r: nat)
    ensures days == 0 || total == 0 ==> r == 0
    ensures days > 0 && total > 0 ==> Some(r) == MonthlyAvgAsWritten(sumPresent, days, total)
    ensures days > 0 && total > 0 ==>
              2 * sumPresent * 100 - days * total < 2 * r * (days * total) <= 2 * sumPresent * 100 + days * total
  {
    if days > 0 && total > 0 then RoundHalfUp(sumPresent * 100, days * total) else 0
  }

  /** The month of `now`'s records, as the `$match` stage selects them. */
  function MonthRecords(l: Ledger, now: Instant): Ledger {
    OfMonth(l, StartOfDay(now).day.month, StartOfDay(now).day.year)
  }

  /** `monthly.reduce((a, b) => a + b.present, 0)`. Grouping the month's
      records by date loses no present record: the sum of the per-date
      counts is the month's present count. */
  function MonthPresentSum(l: Ledger, now: Instant): (r: nat)
    ensures r == CountStatus(MonthRecords(l, now), PRESENT)
  {
    var rs := MonthRecords(l, now);
    var ds := MonthDates(rs);
    PerDaySum(rs, ds);
    OnDatesAll(rs, ds);
    Sum(PerDay(rs, ds))
  }

  /** `monthly.length`: the number of distinct dates with a record. */
  function MonthDays(l: Ledger, now: Instant): (r: nat)
    ensures r <= |MonthRecords(l, now)|
    ensures r == 0 <==> |MonthRecords(l, now)| == 0
  {
    var rs := MonthRecords(l, now);
    assert rs != [] ==> rs[0].date in MonthDates(rs) by {
      if rs != [] {
        assert rs[0] in rs;
      }
    }
    |MonthDates(rs)|
  }

  /** GET /stats at time `now`. `countDocuments()` has no filter, so the
      total includes soft-deleted students. */
  function DashboardStats(dir: Directory, l: Ledger, now: Instant): (r: Stats)
    ensures r.totalStudents == |dir|
    ensures |dir| == 0 ==> r.todayPercentage == 0 && r.monthlyAvg == 0
    ensures |OfMonth(l, now.day.month, now.day.year)| == 0 ==> r.monthlyAvg == 0
    ensures |dir| > 0 ==>
              var p := CountStatus(OnDate(l, StartOfDay(now)), PRESENT);
              2 * p * 100 - |dir| < 2 * r.todayPercentage * |dir| <= 2 * p * 100 + |dir|
    ensures r.monthlyAvg == MonthlyAvg(CountStatus(MonthRecords(l, now), PRESENT), MonthDays(l, now), |dir|)
  {
    var presentToday := CountStatus(OnDate(l, StartOfDay(now)), PRESENT);
    Stats(|dir|, TodayPercentage(presentToday, |dir|), MonthlyAvg(MonthPresentSum(l, now), MonthDays(l, now), |dir|))
  }

  // ---- Properties ----

  /** Splitting off one date of a repetition-free list of dates splits the
      count of present records accordingly. */
  lemma {:induction false} SplitOnDates(rs: Ledger, d: Instant, ds: seq<Instant>)
    requires d !in ds
    ensures CountStatus(OnDates(rs, [d] + ds), PRESENT)
            == CountStatus(OnDate(rs, d), PRESENT) + CountStatus(OnDates(rs, ds), PRESENT)
  {
    if rs != [] {
      SplitOnDates(rs[1..], d, ds);
      var x := rs[0];
      var both, one, other := (if x.date in [d] + ds then [x] else []), (if x.date == d then [x] else []),
                              (if x.date in ds then [x] else []);
      assert OnDates(rs, [d] + ds) == both + OnDates(rs[1..], [d] + ds);
      assert OnDate(rs, d) == one + OnDate(rs[1..], d);
      assert OnDates(rs, ds) == other + OnDates(rs[1..], ds);
      CountConcat(both, OnDates(rs[1..], [d] + ds), PRESENT);
      CountConcat(one, OnDate(rs[1..], d), PRESENT);
      CountConcat(other, OnDates(rs[1..], ds), PRESENT);
      assert CountStatus(both, PRESENT) == CountStatus(one, PRESENT) + CountStatus(other, PRESENT);
    }
  }

  /** Summing the per-date present counts over distinct dates counts each
      present record on those dates once. */
  lemma {:induction false} PerDaySum(rs: Ledger, ds: seq<Instant>)
    requires NoDup(ds)
    ensures Sum(PerDay(rs, ds)) == CountStatus(OnDates(rs, ds), PRESENT)
  {
    if ds != [] {
      var tail := ds[1..];
      assert ds == [ds[0]] + tail;
      assert NoDup(tail) by {
        forall i, j | 0 <= i < j < |tail| ensures tail[i] != tail[j] {
          assert tail[i] == ds[i + 1] && tail[j] == ds[j + 1];
        }
      }
      assert ds[0] !in tail by {
        forall k | 0 <= k < |tail| ensures tail[k] != ds[0] {
          assert tail[k] == ds[k + 1];
        }
      }
      PerDaySum(rs, tail);
      SplitOnDates(rs, ds[0], tail);
      assert PerDay(rs, ds)[1..] == PerDay(rs, tail);
    }
  }

  /** When every record's date is listed, selecting by the list keeps all. */
  lemma {:induction false} OnDatesAll(rs: Ledger, ds: seq<Instant>)
    requires forall x :: x in rs ==> x.date in ds
    ensures OnDates(rs, ds) == rs
  {
    if rs != [] {
      OnDatesAll(rs[1..], ds);
      assert rs == [rs[0]] + rs[1..];
    }
  }

  /** Every record of `rs` refers to an existing student. */
  predicate AllResolve(rs: Ledger, dir: Directory) {
    forall x :: x in rs ==> HasId(dir, x.studentId)
  }

  /** The ids of the students in the collection. */
  function DirIds(dir: Directory): (r: seq<StudentId>)
    ensures forall id :: id in r <==> HasId(dir, id)
    ensures |r| == |dir|
  {
    var r := seq(|dir|, i requires 0 <= i < |dir| => dir[i].id);
    assert forall i :: 0 <= i < |dir| ==> r[i] == dir[i].id;
    r
  }

  /** With one record per student per day and every record resolving, no day
      has more records than there are students. */
  lemma DayAtMostRoster(l: Ledger, dir: Directory, t: Instant)
    requires UniqueKeys(l)
    requires AllResolve(OnDate(l, t), dir)
    ensures CountStatus(OnDate(l, t), PRESENT) <= |dir|
  {
    var day := OnDate(l, t);
    var ids := StudentIds(day);
    OnDateDistinctStudents(l, t);
    forall id | id in ids ensures id in DirIds(dir) {
      var k :| 0 <= k < |ids| && ids[k] == id;
      assert day[k] in day;
    }
    NoDupWithin(ids, DirIds(dir));
  }

  /** todayPercentage is at most 100 when every record of today refers to an
      existing student and keys are unique. */
  lemma TodayAtMost100(dir: Directory, l: Ledger, now: Instant)
    requires UniqueKeys(l)
    requires AllResolve(OnDate(l, StartOfDay(now)), dir)
    ensures DashboardStats(dir, l, now).todayPercentage <= 100
  {
    var p := CountStatus(OnDate(l, StartOfDay(now)), PRESENT);
    DayAtMostRoster(l, dir, StartOfDay(now));
    if |dir| > 0 {
      MulMonotone(p, |dir|, 100);
      RoundHalfUpAtMost(p * 100, |dir|, 100);
    }
  }

  lemma {:induction false} SumAtMost(s: seq<nat>, bound: nat)
    requires forall i :: 0 <= i < |s| ==> s[i] <= bound
    ensures Sum(s) <= |s| * bound
  {
    if s != [] {
      SumAtMost(s[1..], bound);
    }
  }

  lemma {:induction false} PerDayAtMost(l: Ledger, dir: Directory, rs: Ledger, ds: seq<Instant>)
    requires UniqueKeys(rs)
    requires AllResolve(rs, dir)
    ensures forall i :: 0 <= i < |ds| ==> PerDay(rs, ds)[i] <= |dir|
  {
    if ds != [] {
      DayAtMostRoster(rs, dir, ds[0]);
      PerDayAtMost(l, dir, rs, ds[1..]);
      assert forall i :: 1 <= i < |ds| ==> PerDay(rs, ds)[i] == PerDay(rs, ds[1..])[i - 1];
    }
  }

  /** monthlyAvg is at most 100 when keys are unique and every record of the
      month refers to an existing student. */
  lemma MonthlyAvgAtMost100(dir: Directory, l: Ledger, now: Instant)
    requires UniqueKeys(l)
    requires AllResolve(MonthRecords(l, now), dir)
    ensures DashboardStats(dir, l, now).monthlyAvg <= 100
  {
    var sum := MonthPresentSum(l, now);
    var days := MonthDays(l, now);
    var cap := days * |dir|;
    MonthSumAtMost(dir, l, now);
    assert DashboardStats(dir, l, now).monthlyAvg == MonthlyAvg(sum, days, |dir|);
    if days > 0 && |dir| > 0 {
      MulMonotone(sum, cap, 100);
      RoundHalfUpAtMost(sum * 100, cap, 100);
      assert MonthlyAvg(sum, days, |dir|) == RoundHalfUp(sum * 100, cap);
    }
  }

  /** The month's per-date present counts add up to at most one full roster
      per date. */
  lemma MonthSumAtMost(dir: Directory, l: Ledger, now: Instant)
    requires UniqueKeys(l)
    requires AllResolve(MonthRecords(l, now), dir)
    ensures MonthPresentSum(l, now) <= MonthDays(l, now) * |dir|
  {
    var rs := MonthRecords(l, now);
    var ds := MonthDates(rs);
    OfMonthUnique(l, StartOfDay(now).day.month, StartOfDay(now).day.year);
    PerDayAtMost(l, dir, rs, ds);
    SumAtMost(PerDay(rs, ds), |dir|);
    PerDaySum(rs, ds);
    OnDatesAll(rs, ds);
  }

  /** As written, a month with a record and an empty student collection
      (a total of 0 students)
      yields a non-finite average. */
  lemma MonthlyAvgAsWrittenDividesByZero(now: Instant)
    ensures var l := [Record(7, StartOfDay(now), PRESENT)];
            MonthlyAvgAsWritten(MonthPresentSum(l, now), MonthDays(l, now), 0).None?
  {
    var l := [Record(7, StartOfDay(now), PRESENT)];
    var rs := MonthRecords(l, now);
    assert l[0] in rs;
    assert StartOfDay(now) in MonthDates(rs);
  }

  /** Soft delete does not change totalStudents, although an active student
      drops out of the list, which becomes one shorter: the count has no
      `isActive` filter. */
  lemma TotalCountsSoftDeleted(dir: Directory, l: Ledger, now: Instant, id: StudentId)
    requires HasId(dir, id)
    ensures DashboardStats(StudentRoutes.SoftDelete(dir, id).value.students, l, now).totalStudents
            == DashboardStats(dir, l, now).totalStudents
    ensures dir[IndexOf(dir, id).value].isActive ==>
              |StudentRoutes.List(StudentRoutes.SoftDelete(dir, id).value.students)| == |StudentRoutes.List(dir)| - 1
    ensures |StudentRoutes.List(StudentRoutes.SoftDelete(dir, id).value.students)| < |dir|
  {
    StudentRoutes.SoftDeleteShrinksList(dir, id);
  }
}
