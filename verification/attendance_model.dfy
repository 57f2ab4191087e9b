/** The `Attendance` collection (src/models/Attendance.js): one document
    per student per calendar day. */
module AttendanceModel {
  import opened Responses
  import opened Calendar
  import opened StudentModel
  import opened Seqs

  const PRESENT: string := "present"
  const ABSENT: string := "absent"

  /** The schema's `enum: ["present", "absent"]`. */
  predicate InEnum(status: string) {
    status == PRESENT || status == ABSENT
  }

  /** A stored document. `studentId`, `date` and `status` are all required,
      so every record carries all three. The status is kept as the string
      that was written: the schema's enum is a validator, and not every
      write path runs validators. `studentId` is a reference the store does
      not check, so it may not resolve to any student. */
  datatype Record = Record(studentId: StudentId, date: Instant, status: string)

  type Ledger = seq<Record>

  /** The fields of the unique index `{ studentId: 1, date: 1 }`. */
  datatype Key = Key(studentId: StudentId, date: Instant)

  function KeyOf(r: Record): Key {
    Key(r.studentId, r.date)
  }

  /** At most one record per (studentId, date). */
  predicate UniqueKeys(l: Ledger) {
    forall i, j :: 0 <= i < j < |l| ==> KeyOf(l[i]) != KeyOf(l[j])
  }

  predicate StatusesInEnum(l: Ledger) {
    forall i :: 0 <= i < |l| ==> InEnum(l[i].status)
  }

  /** Every stored date is a normalised day. */
  predicate DatesNormalised(l: Ledger) {
    forall i :: 0 <= i < |l| ==> l[i].date == StartOfDay(l[i].date)
  }

  /** What a ledger written only through the schema looks like. */
  predicate LedgerWellFormed(l: Ledger) {
    UniqueKeys(l) && StatusesInEnum(l) && DatesNormalised(l)
  }

  /** `r` holds every record of `l` that satisfies `keep`, each as many
      times as `l` does, and nothing else. */
  ghost predicate Copies(r: Ledger, l: Ledger, keep: Record -> bool) {
    forall x :: multiset(r)[x] == if keep(x) then multiset(l)[x] else 0
  }

  /** `find({ date: t })`: the records dated exactly `t`, in store order. */
  function OnDate(l: Ledger, t: Instant): (r: Ledger)
    ensures forall x :: x in r <==> x in l && x.date == t
    ensures Copies(r, l, (x: Record) => x.date == t)
    ensures |r| <= |l|
  {
    if l == [] then []
    else
      assert l == [l[0]] + l[1..];
      (if l[0].date == t then [l[0]] else []) + OnDate(l[1..], t)
  }

  /** The `$match` on `$month` / `$year`. */
  function OfMonth(l: Ledger, month: int, year: int): (r: Ledger)
    ensures forall x :: x in r <==> x in l && InMonth(x.date, month, year)
    ensures Copies(r, l, (x: Record) => InMonth(x.date, month, year))
    ensures |r| <= |l|
  {
    if l == [] then []
    else
      assert l == [l[0]] + l[1..];
      (if InMonth(l[0].date, month, year) then [l[0]] else []) + OfMonth(l[1..], month, year)
  }

  /** The records of one student: a `$group` on `studentId`. */
  function OfStudent(l: Ledger, id: StudentId): (r: Ledger)
    ensures forall x :: x in r <==> x in l && x.studentId == id
    ensures Copies(r, l, (x: Record) => x.studentId == id)
    ensures |r| <= |l|
  {
    if l == [] then []
    else
      assert l == [l[0]] + l[1..];
      (if l[0].studentId == id then [l[0]] else []) + OfStudent(l[1..], id)
  }

  /** `$sum: { $cond: [{ $eq: ["$status", status] }, 1, 0] }`. */
  function CountStatus(l: Ledger, status: string): (n: nat)
    ensures n <= |l|
    ensures n == 0 <==> forall x :: x in l ==> x.status != status
  {
    if l == [] then 0
    else (if l[0].status == status then 1 else 0) + CountStatus(l[1..], status)
  }

  /** The student ids of a run of records, in order. */
  function StudentIds(l: Ledger): (r: seq<StudentId>)
    ensures |r| == |l|
    ensures forall i :: 0 <= i < |l| ==> r[i] == l[i].studentId
  {
    seq(|l|, i requires 0 <= i < |l| => l[i].studentId)
  }

  /** The dates of a run of records, in order. */
  function Dates(l: Ledger): (r: seq<Instant>)
    ensures |r| == |l|
    ensures forall i :: 0 <= i < |l| ==> r[i] == l[i].date
  {
    seq(|l|, i requires 0 <= i < |l| => l[i].date)
  }

  /** Position of the record holding key `k`, if any. */
  function FindKey(l: Ledger, k: Key): (r: Option<nat>)
    ensures r.None? <==> forall i :: 0 <= i < |l| ==> KeyOf(l[i]) != k
    ensures r.Some? ==> r.value < |l| && KeyOf(l[r.value]) == k
  {
    if l == [] then None
    else if KeyOf(l[0]) == k then Some(0)
    else
      match FindKey(l[1..], k)
      case None => None
      case Some(i) => Some(i + 1)
  }

  /** Because the status is one of exactly two values, every record is
      tallied in exactly one of the present and absent counts. */
  lemma {:induction false} TallyPartition(l: Ledger)
    requires StatusesInEnum(l)
    ensures CountStatus(l, PRESENT) + CountStatus(l, ABSENT) == |l|
  {
    if l != [] {
      assert StatusesInEnum(l[1..]) by {
        forall i | 0 <= i < |l[1..]| ensures InEnum(l[1..][i].status) {
          assert l[1..][i] == l[i + 1];
        }
      }
      TallyPartition(l[1..]);
    }
  }

  /** Selecting one day keeps statuses in the enum. */
  lemma OnDateKeepsEnum(l: Ledger, t: Instant)
    requires StatusesInEnum(l)
    ensures StatusesInEnum(OnDate(l, t))
  {
    var r := OnDate(l, t);
    assert forall i :: 0 <= i < |r| ==> r[i] in l;
  }

  /** Selecting one month keeps statuses in the enum. */
  lemma OfMonthKeepsEnum(l: Ledger, month: int, year: int)
    requires StatusesInEnum(l)
    ensures StatusesInEnum(OfMonth(l, month, year))
  {
    var r := OfMonth(l, month, year);
    assert forall i :: 0 <= i < |r| ==> r[i] in l;
  }

  /** Selecting one student keeps statuses in the enum. */
  lemma OfStudentKeepsEnum(l: Ledger, id: StudentId)
    requires StatusesInEnum(l)
    ensures StatusesInEnum(OfStudent(l, id))
  {
    var r := OfStudent(l, id);
    assert forall i :: 0 <= i < |r| ==> r[i] in l;
  }

  /** A record is tallied at most once: present and absent are different
      strings. */
  lemma {:induction false} TallyAtMost(l: Ledger)
    ensures CountStatus(l, PRESENT) + CountStatus(l, ABSENT) <= |l|
  {
    if l != [] {
      TallyAtMost(l[1..]);
    }
  }

  /** Counting distributes over concatenation. */
  lemma {:induction false} CountConcat(a: Ledger, b: Ledger, status: string)
    ensures CountStatus(a + b, status) == CountStatus(a, status) + CountStatus(b, status)
  {
    if a != [] {
      assert (a + b)[1..] == a[1..] + b;
      CountConcat(a[1..], b, status);
    } else {
      assert a + b == b;
    }
  }

  /** The records of one day of a ledger with unique keys belong to distinct
      students. */
  lemma {:induction false} OnDateDistinctStudents(l: Ledger, t: Instant)
    requires UniqueKeys(l)
    ensures NoDup(StudentIds(OnDate(l, t)))
  {
    if l != [] {
      UniqueKeysTail(l);
      OnDateDistinctStudents(l[1..], t);
      if l[0].date == t {
        var rest := OnDate(l[1..], t);
        HeadKeyFresh(l);
        forall k | 0 <= k < |rest| ensures rest[k].studentId != l[0].studentId {
          assert rest[k] in l[1..];
        }
        var ids := StudentIds([l[0]] + rest);
        assert forall i :: 1 <= i < |ids| ==> ids[i] == StudentIds(rest)[i - 1];
      }
    }
  }

  /** Restricting to a month keeps keys unique. */
  lemma {:induction false} OfMonthUnique(l: Ledger, month: int, year: int)
    requires UniqueKeys(l)
    ensures UniqueKeys(OfMonth(l, month, year))
  {
    if l != [] {
      UniqueKeysTail(l);
      OfMonthUnique(l[1..], month, year);
      if InMonth(l[0].date, month, year) {
        var rest := OfMonth(l[1..], month, year);
        HeadKeyFresh(l);
        forall k | 0 <= k < |rest| ensures KeyOf(rest[k]) != KeyOf(l[0]) {
          assert rest[k] in l[1..];
        }
        UniqueKeysCons(l[0], rest);
      }
    }
  }

  /** The tail of a ledger with unique keys has unique keys. */
  lemma UniqueKeysTail(l: Ledger)
    requires l != [] && UniqueKeys(l)
    ensures UniqueKeys(l[1..])
  {
    var tail := l[1..];
    forall i, j | 0 <= i < j < |tail| ensures KeyOf(tail[i]) != KeyOf(tail[j]) {
      assert tail[i] == l[i + 1] && tail[j] == l[j + 1];
    }
  }

  /** No record behind the head of a ledger with unique keys shares its key. */
  lemma HeadKeyFresh(l: Ledger)
    requires l != [] && UniqueKeys(l)
    ensures forall x :: x in l[1..] ==> KeyOf(x) != KeyOf(l[0])
  {
    forall x | x in l[1..] ensures KeyOf(x) != KeyOf(l[0]) {
      var j :| 0 <= j < |l[1..]| && l[1..][j] == x;
      assert l[j + 1] == x;
    }
  }

  /** Putting a record with a fresh key in front keeps keys unique. */
  lemma UniqueKeysCons(h: Record, rest: Ledger)
    requires UniqueKeys(rest)
    requires forall k :: 0 <= k < |rest| ==> KeyOf(rest[k]) != KeyOf(h)
    ensures UniqueKeys([h] + rest)
  {
    var r := [h] + rest;
    forall i, j | 0 <= i < j < |r| ensures KeyOf(r[i]) != KeyOf(r[j]) {
      assert r[j] == rest[j - 1];
      if i > 0 {
        assert r[i] == rest[i - 1];
      }
    }
  }
}
