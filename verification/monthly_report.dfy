/** GET /monthly (src/routes/attendanceRoutes.js): the aggregation pipeline
    `$match` month and year, `$group` by student, `$lookup` and `$unwind` the
    student, `$project` the percentage, `$sort` by rollNo. */
module MonthlyReport {
  import opened Responses
  import opened Calendar
  import opened Seqs
  import opened Sorting
  import opened Rounding
  import opened StudentModel
  import opened AttendanceModel

  /** The output of the `$group` stage. */
  datatype Group = Group(studentId: StudentId, present: nat, absent: nat, total: nat)

  /** One row of the report. The percentage is rounded to two decimal places
      and kept as a whole number of hundredths of a percent. */
  datatype Row = Row(rollNo: int, name: string, present: nat, absent: nat, total: nat, percentHundredths: nat)

  /** The sort key of the report. */
  function RowRoll(r: Row): int {
    r.rollNo
  }

  /** `$round: [{ $multiply: [{ $divide: ["$present", "$total"] }, 100] }, 2]`,
      in hundredths of a percent. */
  function Percent(present: nat, total: nat): (p: nat)
    requires total > 0
    ensures present <= total ==> p <= 10000
    ensures present == 0 ==> p == 0
    ensures present == total ==> p == 10000
    ensures 2 * present * 10000 - total <= 2 * p * total <= 2 * present * 10000 + total
    ensures 2 * p * total == 2 * present * 10000 + total || 2 * p * total == 2 * present * 10000 - total
            ==> p % 2 == 0
  {
    assert present <= total ==> RoundHalfEven(present * 10000, total) <= 10000 by {
      if present <= total {
        MulMonotone(present, total, 10000);
        RoundHalfEvenAtMost(present * 10000, total, 10000);
      }
    }
    RoundHalfEvenExact(0, total);
    RoundHalfEvenExact(10000, total);
    assert present == total ==> present * 10000 == 10000 * total;
    RoundHalfEven(present * 10000, total)
  }

  /** The group of student `id` among the month's records `rs`. */
  function GroupOf(rs: Ledger, id: StudentId): Group {
    var mine := OfStudent(rs, id);
    Group(id, CountStatus(mine, PRESENT), CountStatus(mine, ABSENT), |mine|)
  }

  /** `$group: { _id: "$studentId", ... }`: one group per student id that
      occurs in `rs`. */
  function Groups(rs: Ledger): (r: seq<Group>)
    ensures forall i, j :: 0 <= i < j < |r| ==> r[i].studentId != r[j].studentId
    ensures forall i :: 0 <= i < |r| ==> r[i] == GroupOf(rs, r[i].studentId) && r[i].total > 0
    ensures forall id :: (exists i :: 0 <= i < |r| && r[i].studentId == id) <==> |OfStudent(rs, id)| > 0
  {
    var ids := Dedup(StudentIds(rs));
    var r := seq(|ids|, i requires 0 <= i < |ids| => GroupOf(rs, ids[i]));
    forall i | 0 <= i < |r| ensures r[i].total > 0 {
      assert ids[i] in StudentIds(rs);
      var k :| 0 <= k < |rs| && StudentIds(rs)[k] == ids[i];
      assert rs[k] in OfStudent(rs, ids[i]);
    }
    forall id | |OfStudent(rs, id)| > 0 ensures exists i :: 0 <= i < |r| && r[i].studentId == id {
      var x := OfStudent(rs, id)[0];
      assert x in rs;
      var k :| 0 <= k < |rs| && rs[k] == x;
      assert StudentIds(rs)[k] == id;
      assert id in ids;
      var i :| 0 <= i < |ids| && ids[i] == id;
      assert r[i].studentId == id;
    }
    r
  }

  /** The row of student `s` built from its group `g`. */
  function RowFrom(s: Student, g: Group): Row
    requires g.total > 0
  {
    Row(s.rollNo, s.name, g.present, g.absent, g.total, Percent(g.present, g.total))
  }

  /** The row the report gives student `s` over the month's records `rs`. */
  function RowFor(s: Student, rs: Ledger): Row
    requires |OfStudent(rs, s.id)| > 0
  {
    RowFrom(s, GroupOf(rs, s.id))
  }

  /** `$lookup` then `$unwind`: a group whose student id resolves to no
      student is dropped. */
  function Join(dir: Directory, gs: seq<Group>): (r: seq<Row>)
    requires forall i :: 0 <= i < |gs| ==> gs[i].total > 0
    ensures forall row :: row in r ==>
              exists i :: 0 <= i < |gs| && Find(dir, gs[i].studentId).Some?
                          && row == RowFrom(Find(dir, gs[i].studentId).value, gs[i])
    ensures forall i :: 0 <= i < |gs| && Find(dir, gs[i].studentId).Some? ==>
              RowFrom(Find(dir, gs[i].studentId).value, gs[i]) in r
  {
    if gs == [] then []
    else
      var rest := Join(dir, gs[1..]);
      var r := match Find(dir, gs[0].studentId)
               case None => rest
               case Some(s) => [RowFrom(s, gs[0])] + rest;
      assert forall i :: 1 <= i < |gs| ==> gs[i] == gs[1..][i - 1];
      r
  }

  /** The rows before the final `$sort`. */
  function Unsorted(l: Ledger, dir: Directory, month: int, year: int): seq<Row> {
    Join(dir, Groups(OfMonth(l, month, year)))
  }

  /** The whole pipeline for a given month and year. */
  function Rows(l: Ledger, dir: Directory, month: int, year: int): (r: seq<Row>)
    ensures SortedBy(r, RowRoll)
    ensures multiset(r) == multiset(Unsorted(l, dir, month, year))
  {
    SortBy(Unsorted(l, dir, month, year), RowRoll)
  }

  /** GET /monthly: `month` and `year` are `None` when missing or empty. */
  function Monthly(l: Ledger, dir: Directory, month: Option<int>, year: Option<int>): (r: Result<seq<Row>>)
    ensures r.Err? <==> month.None? || year.None?
    ensures r.Err? ==> r.error == BadRequest(MONTH_AND_YEAR_REQUIRED)
    ensures r.Ok? ==> SortedBy(r.value, RowRoll)
  {
    if month.None? || year.None? then Err(BadRequest(MONTH_AND_YEAR_REQUIRED))
    else Ok(Rows(l, dir, month.value, year.value))
  }

  // ---- Properties ----

  lemma RowsMembers(l: Ledger, dir: Directory, month: int, year: int)
    ensures forall row :: row in Rows(l, dir, month, year) <==> row in Unsorted(l, dir, month, year)
  {
    SortByMembers(Unsorted(l, dir, month, year), RowRoll);
  }

  /** Every row belongs to a student that exists and has records in the
      month, and is that student's tally. */
  lemma MonthlySound(l: Ledger, dir: Directory, month: int, year: int, row: Row)
    requires row in Rows(l, dir, month, year)
    ensures var rs := OfMonth(l, month, year);
            exists s :: s in dir && |OfStudent(rs, s.id)| > 0 && row == RowFor(s, rs)
  {
    var rs := OfMonth(l, month, year);
    var gs := Groups(rs);
    RowsMembers(l, dir, month, year);
    assert row in Join(dir, gs);
    var i :| 0 <= i < |gs| && Find(dir, gs[i].studentId).Some?
             && row == RowFrom(Find(dir, gs[i].studentId).value, gs[i]);
    var s := Find(dir, gs[i].studentId).value;
    assert gs[i] == GroupOf(rs, s.id);
    assert s in dir && |OfStudent(rs, s.id)| > 0 && row == RowFor(s, rs);
  }

  /** With unique ids, every existing student, active or not, with a record
      in the month has its row. */
  lemma MonthlyComplete(l: Ledger, dir: Directory, month: int, year: int, s: Student)
    requires IdsUnique(dir)
    requires s in dir
    requires |OfStudent(OfMonth(l, month, year), s.id)| > 0
    ensures RowFor(s, OfMonth(l, month, year)) in Rows(l, dir, month, year)
  {
    var rs := OfMonth(l, month, year);
    var gs := Groups(rs);
    RowsMembers(l, dir, month, year);
    FindUnique(dir, s);
    var i :| 0 <= i < |gs| && gs[i].studentId == s.id;
    assert RowFrom(Find(dir, gs[i].studentId).value, gs[i]) == RowFor(s, rs);
  }

  /** The tallies of every row: `total >= 1`, the present and absent counts
      within it, the percentage between 0 and 100 (0 with nobody present),
      and, when every status is in the enum, `present + absent == total`
      and a percentage of exactly 100 when nobody was absent. */
  lemma MonthlyRowBounds(l: Ledger, dir: Directory, month: int, year: int, row: Row)
    requires row in Rows(l, dir, month, year)
    ensures row.total >= 1
    ensures row.present + row.absent <= row.total
    ensures row.percentHundredths <= 10000
    ensures row.present == 0 ==> row.percentHundredths == 0
    ensures StatusesInEnum(l) ==> row.present + row.absent == row.total
    ensures StatusesInEnum(l) && row.absent == 0 ==> row.percentHundredths == 10000
  {
    var rs := OfMonth(l, month, year);
    MonthlySound(l, dir, month, year, row);
    var s :| s in dir && |OfStudent(rs, s.id)| > 0 && row == RowFor(s, rs);
    var mine := OfStudent(rs, s.id);
    TallyAtMost(mine);
    if StatusesInEnum(l) {
      OfMonthKeepsEnum(l, month, year);
      OfStudentKeepsEnum(rs, s.id);
      TallyPartition(mine);
    }
  }

  /** With unique ids and roll numbers, no student gets two rows and the
      rows are strictly ascending by rollNo. */
  lemma MonthlyDistinct(l: Ledger, dir: Directory, month: int, year: int)
    requires IdsUnique(dir) && RollNosUnique(dir)
    ensures NoDup(Rows(l, dir, month, year))
    ensures forall i, j :: 0 <= i < j < |Rows(l, dir, month, year)| ==>
              Rows(l, dir, month, year)[i].rollNo < Rows(l, dir, month, year)[j].rollNo
  {
    var u := Unsorted(l, dir, month, year);
    var r := Rows(l, dir, month, year);
    UnsortedDistinct(l, dir, month, year);
    NoDupPermutation(u, r);
    DistinctKeysIdentify(u, RowRoll);
    KeyIdentifiesPermutation(u, r, RowRoll);
    SortedStrict(r, RowRoll);
  }

  lemma UnsortedDistinct(l: Ledger, dir: Directory, month: int, year: int)
    requires IdsUnique(dir) && RollNosUnique(dir)
    ensures var u := Unsorted(l, dir, month, year);
            NoDup(u) && forall i, j :: 0 <= i < j < |u| ==> RowRoll(u[i]) != RowRoll(u[j])
  {
    JoinDistinctRolls(dir, Groups(OfMonth(l, month, year)));
  }

  /** Rows joined from groups with distinct ids have distinct roll numbers. */
  lemma {:induction false} JoinDistinctRolls(dir: Directory, gs: seq<Group>)
    requires IdsUnique(dir) && RollNosUnique(dir)
    requires forall i :: 0 <= i < |gs| ==> gs[i].total > 0
    requires forall i, j :: 0 <= i < j < |gs| ==> gs[i].studentId != gs[j].studentId
    ensures forall i, j :: 0 <= i < j < |Join(dir, gs)| ==> Join(dir, gs)[i].rollNo != Join(dir, gs)[j].rollNo
  {
    if gs != [] {
      var tail := gs[1..];
      assert forall i :: 1 <= i < |gs| ==> gs[i] == tail[i - 1];
      JoinDistinctRolls(dir, tail);
      match Find(dir, gs[0].studentId)
      case None =>
      case Some(s) =>
        var rest := Join(dir, tail);
        assert Join(dir, gs) == [RowFrom(s, gs[0])] + rest;
        forall k | 0 <= k < |rest| ensures rest[k].rollNo != s.rollNo {
          assert rest[k] in rest;
          var i :| 0 <= i < |tail| && Find(dir, tail[i].studentId).Some?
                   && rest[k] == RowFrom(Find(dir, tail[i].studentId).value, tail[i]);
          var t := Find(dir, tail[i].studentId).value;
          assert tail[i] == gs[i + 1];
          DifferentStudentsDifferentRolls(dir, s, t);
        }
    }
  }

  /** Two students of the directory with different ids hold different roll
      numbers. */
  lemma DifferentStudentsDifferentRolls(dir: Directory, s: Student, t: Student)
    requires RollNosUnique(dir)
    requires s in dir && t in dir && s.id != t.id
    ensures s.rollNo != t.rollNo
  {
    var p :| 0 <= p < |dir| && dir[p] == s;
    var q :| 0 <= q < |dir| && dir[q] == t;
    assert p != q;
  }

  /** Any ordering of the joined rows that is sorted by rollNo is the
      report: with unique roll numbers the store's sort is forced. */
  lemma MonthlyOrderForced(l: Ledger, dir: Directory, month: int, year: int, out: seq<Row>)
    requires IdsUnique(dir) && RollNosUnique(dir)
    requires SortedBy(out, RowRoll)
    requires multiset(out) == multiset(Unsorted(l, dir, month, year))
    ensures out == Rows(l, dir, month, year)
  {
    var u := Unsorted(l, dir, month, year);
    var r := Rows(l, dir, month, year);
    UnsortedDistinct(l, dir, month, year);
    DistinctKeysIdentify(u, RowRoll);
    KeyIdentifiesPermutation(u, r, RowRoll);
    SortedUnique(r, out, RowRoll);
  }
}
