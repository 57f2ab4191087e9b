/** The student directory routes (src/routes/studentRoutes.js): add, list,
    update and soft delete, each a pure transition of the directory. */
module StudentRoutes {
  import opened Responses
  import opened Sorting
  import opened StudentModel

  /** The directory after a write, and the document the handler returns. */
  datatype Written = Written(students: Directory, student: Student)

  /** POST /: `name` is falsy when empty or missing; `rollNo` is `None`
      when it is `undefined`. */
  function Add(dir: Directory, name: string, rollNo: Option<int>): (r: Result<Written>)
    ensures r.Err? <==> name == "" || rollNo.None? || RollNoTaken(dir, rollNo.value)
    ensures (name == "" || rollNo.None?) ==> r == Err(BadRequest(NAME_AND_ROLL_REQUIRED))
    ensures name != "" && rollNo.Some? && RollNoTaken(dir, rollNo.value)
            ==> r == Err(BadRequest(ROLL_EXISTS))
    ensures r.Ok? ==>
              && |r.value.students| == |dir| + 1
              && r.value.students[..|dir|] == dir
              && r.value.students[|dir|] == r.value.student
              && r.value.student.name == name
              && r.value.student.rollNo == rollNo.value
              && r.value.student.isActive
              && !HasId(dir, r.value.student.id)
  {
    if name == "" || rollNo.None? then Err(BadRequest(NAME_AND_ROLL_REQUIRED))
    else if RollNoTaken(dir, rollNo.value) then Err(BadRequest(ROLL_EXISTS))
    else
      var s := Student(FreshId(dir), name, rollNo.value, true);
      Ok(Written(dir + [s], s))
  }

  /** The active students, in store order. */
  function Active(dir: Directory): (r: Directory)
    ensures forall s :: s in r <==> s in dir && s.isActive
    ensures forall s :: multiset(r)[s] == if s.isActive then multiset(dir)[s] else 0
  {
    if dir == [] then []
    else
      assert dir == [dir[0]] + dir[1..];
      (if dir[0].isActive then [dir[0]] else []) + Active(dir[1..])
  }

  /** GET /: `find({ isActive: true }).sort({ rollNo: 1 })`. */
  function List(dir: Directory): (r: Directory)
    ensures forall s :: s in r <==> s in dir && s.isActive
    ensures SortedBy(r, RollOf)
    ensures multiset(r) == multiset(Active(dir))
  {
    var r := SortBy(Active(dir), RollOf);
    SortByMembers(Active(dir), RollOf);
    r
  }

  /** Some student other than the one at position `i` holds `rollNo`. */
  predicate HeldByOther(dir: Directory, i: nat, rollNo: int) {
    exists j :: 0 <= j < |dir| && j != i && dir[j].rollNo == rollNo
  }

  /** PUT /:id. Validation comes first; then an unknown id is 404; then a
      rollNo held by another student makes the store's unique index reject
      the write, which the handler reports as 500. */
  function Update(dir: Directory, id: StudentId, name: string, rollNo: Option<int>): (r: Result<Written>)
    ensures (name == "" || rollNo.None?) ==> r == Err(BadRequest(NAME_AND_ROLL_REQUIRED))
    ensures name != "" && rollNo.Some? && !HasId(dir, id) ==> r == Err(NotFound(STUDENT_NOT_FOUND))
    ensures name != "" && rollNo.Some? && HasId(dir, id) ==>
              (r.Err? <==> HeldByOther(dir, IndexOf(dir, id).value, rollNo.value))
    ensures name != "" && rollNo.Some? && HasId(dir, id) && HeldByOther(dir, IndexOf(dir, id).value, rollNo.value)
            ==> r == Err(ServerError(SERVER_ERROR))
    ensures r.Err? && r.error.ServerError? ==> r.error.message == SERVER_ERROR
    ensures r.Ok? ==>
              && |r.value.students| == |dir|
              && (forall i :: 0 <= i < |dir| && i != IndexOf(dir, id).value ==> r.value.students[i] == dir[i])
              && r.value.students[IndexOf(dir, id).value] == r.value.student
              && r.value.student == dir[IndexOf(dir, id).value].(name := name, rollNo := rollNo.value)
  {
    if name == "" || rollNo.None? then Err(BadRequest(NAME_AND_ROLL_REQUIRED))
    else
      match IndexOf(dir, id)
      case None => Err(NotFound(STUDENT_NOT_FOUND))
      case Some(i) =>
        if HeldByOther(dir, i, rollNo.value) then
          Err(ServerError(SERVER_ERROR))
        else
          var s := dir[i].(name := name, rollNo := rollNo.value);
          Ok(Written(dir[i := s], s))
  }

  /** The directory after a soft delete, and the acknowledgement sent. */
  datatype Removed = Removed(students: Directory, message: string)

  /** DELETE /:id: `findByIdAndUpdate(id, { isActive: false })`. The handler
      acknowledges even when no student has that id. */
  function SoftDelete(dir: Directory, id: StudentId): (r: Result<Removed>)
    ensures r.Ok? && r.value.message == STUDENT_REMOVED
    ensures |r.value.students| == |dir|
    ensures forall i :: 0 <= i < |dir| ==>
              var d := r.value.students;
              d[i].id == dir[i].id && d[i].name == dir[i].name && d[i].rollNo == dir[i].rollNo
    ensures !HasId(dir, id) ==> r.value.students == dir
    ensures HasId(dir, id) ==>
              && r.value.students[IndexOf(dir, id).value] == dir[IndexOf(dir, id).value].(isActive := false)
              && forall i :: 0 <= i < |dir| && i != IndexOf(dir, id).value ==> r.value.students[i] == dir[i]
  {
    match IndexOf(dir, id)
    case None => Ok(Removed(dir, STUDENT_REMOVED))
    case Some(i) => Ok(Removed(dir[i := dir[i].(isActive := false)], STUDENT_REMOVED))
  }

  // ---- Properties relating the operations ----

  /** An add that succeeds keeps the collection well formed. */
  lemma AddKeepsWellFormed(dir: Directory, name: string, rollNo: Option<int>)
    requires DirectoryWellFormed(dir)
    requires Add(dir, name, rollNo).Ok?
    ensures DirectoryWellFormed(Add(dir, name, rollNo).value.students)
  {
    var d := Add(dir, name, rollNo).value.students;
    assert forall i :: 0 <= i < |dir| ==> d[i] == dir[i];
  }

  /** An update that succeeds keeps the collection well formed: a colliding
      rollNo never gets written. */
  lemma UpdateKeepsWellFormed(dir: Directory, id: StudentId, name: string, rollNo: Option<int>)
    requires DirectoryWellFormed(dir)
    requires Update(dir, id, name, rollNo).Ok?
    ensures DirectoryWellFormed(Update(dir, id, name, rollNo).value.students)
  {
  }

  /** Update with a rollNo that another student holds is rejected. */
  lemma UpdateCollisionRejected(dir: Directory, id: StudentId, name: string, rollNo: int, other: nat)
    requires name != "" && HasId(dir, id)
    requires other < |dir| && dir[other].id != id && dir[other].rollNo == rollNo
    ensures Update(dir, id, name, Some(rollNo)) == Err(ServerError(SERVER_ERROR))
  {
  }

  /** Update keeps the target's id and active flag. */
  lemma UpdateKeepsIdentity(dir: Directory, id: StudentId, name: string, rollNo: Option<int>)
    requires Update(dir, id, name, rollNo).Ok?
    ensures var s := Update(dir, id, name, rollNo).value.student;
            s.id == id && s.name == name && s.rollNo == rollNo.value
            && (exists i :: 0 <= i < |dir| && dir[i].id == id && dir[i].isActive == s.isActive)
  {
  }

  /** Soft delete keeps the collection well formed. */
  lemma SoftDeleteKeepsWellFormed(dir: Directory, id: StudentId)
    requires DirectoryWellFormed(dir)
    ensures DirectoryWellFormed(SoftDelete(dir, id).value.students)
  {
  }

  /** Deleting twice is deleting once. */
  lemma SoftDeleteIdempotent(dir: Directory, id: StudentId)
    ensures SoftDelete(SoftDelete(dir, id).value.students, id) == SoftDelete(dir, id)
  {
    var d := SoftDelete(dir, id).value.students;
    if HasId(dir, id) {
      assert IndexOf(d, id) == IndexOf(dir, id) by {
        var i := IndexOf(dir, id).value;
        assert forall j :: 0 <= j < |d| ==> d[j].id == dir[j].id;
        assert IndexOf(d, id).Some?;
        var k := IndexOf(d, id).value;
        assert !(k < i) && !(i < k);
      }
      var i := IndexOf(dir, id).value;
      assert d[i].(isActive := false) == d[i];
      assert d[i := d[i]] == d;
    }
  }

  /** A soft-deleted student drops out of the list. */
  lemma SoftDeleteHides(dir: Directory, id: StudentId)
    requires IdsUnique(dir)
    ensures forall s :: s in List(SoftDelete(dir, id).value.students) ==> s.id != id
  {
    var d := SoftDelete(dir, id).value.students;
    forall s | s in List(d) ensures s.id != id {
      var k :| 0 <= k < |d| && d[k] == s;
      if HasId(dir, id) {
        var i := IndexOf(dir, id).value;
        assert k != i;
        assert d[k] == dir[k];
      }
    }
  }

  /** ...but its record is retained and its rollNo still blocks new adds. */
  lemma SoftDeleteKeepsRollNoReserved(dir: Directory, id: StudentId, name: string)
    requires HasId(dir, id)
    ensures HasId(SoftDelete(dir, id).value.students, id)
    ensures var deleted := dir[IndexOf(dir, id).value];
            Add(SoftDelete(dir, id).value.students, name, Some(deleted.rollNo)).Err?
  {
    var i := IndexOf(dir, id).value;
    var d := SoftDelete(dir, id).value.students;
    assert d[i].rollNo == dir[i].rollNo && d[i].id == id;
  }

  /** Any arrangement of the active students that is sorted by rollNo is the
      list: with unique roll numbers the order the store chooses is forced. */
  lemma ListIsForced(dir: Directory, out: Directory)
    requires RollNosUnique(dir)
    requires SortedBy(out, RollOf)
    requires multiset(out) == multiset(Active(dir))
    ensures out == List(dir)
  {
    var r := List(dir);
    assert KeyIdentifies(r, RollOf) by {
      forall x, y | x in r && y in r && RollOf(x) == RollOf(y) ensures x == y {
        var i :| 0 <= i < |dir| && dir[i] == x;
        var j :| 0 <= j < |dir| && dir[j] == y;
        assert !(i < j) && !(j < i);
      }
    }
    SortedUnique(r, out, RollOf);
  }

  /** Soft delete of an active student shortens the list by one; of an
      already inactive one, leaves its length as it was. */
  lemma SoftDeleteShrinksList(dir: Directory, id: StudentId)
    requires HasId(dir, id)
    ensures var i := IndexOf(dir, id).value;
            |List(SoftDelete(dir, id).value.students)| == |List(dir)| - (if dir[i].isActive then 1 else 0)
    ensures |List(SoftDelete(dir, id).value.students)| < |dir|
  {
    var i := IndexOf(dir, id).value;
    var d := SoftDelete(dir, id).value.students;
    assert d == dir[i := dir[i].(isActive := false)];
    ActiveAfterDeactivate(dir, i);
    ActiveShorter(d, i);
    ListLength(d);
    ListLength(dir);
  }

  /** The list has as many students as are active. */
  lemma ListLength(dir: Directory)
    ensures |List(dir)| == |Active(dir)|
  {
    var listed := List(dir);
    assert |listed| == |multiset(listed)| == |multiset(Active(dir))| == |Active(dir)|;
  }

  /** Clearing the flag at one position removes that student from the
      active ones when it was active, and nobody else. */
  lemma {:induction false} ActiveAfterDeactivate(d: Directory, i: nat)
    requires i < |d|
    ensures |Active(d[i := d[i].(isActive := false)])| == |Active(d)| - (if d[i].isActive then 1 else 0)
  {
    var t := d[i := d[i].(isActive := false)];
    var head := if d[0].isActive then [d[0]] else [];
    assert |Active(d)| == |head| + |Active(d[1..])|;
    if i == 0 {
      assert t[1..] == d[1..];
      assert |Active(t)| == |Active(d[1..])|;
    } else {
      assert t[0] == d[0];
      var tail := d[1..][i - 1 := d[i].(isActive := false)];
      assert t[1..] == tail;
      assert |Active(t)| == |head| + |Active(tail)|;
      ActiveAfterDeactivate(d[1..], i - 1);
    }
  }

  lemma {:induction false} ActiveShorter(d: Directory, i: nat)
    requires i < |d| && !d[i].isActive
    ensures |Active(d)| < |d|
  {
    if i > 0 {
      ActiveShorter(d[1..], i - 1);
    } else {
      ActiveAtMost(d[1..]);
    }
  }

  lemma {:induction false} ActiveAtMost(d: Directory)
    ensures |Active(d)| <= |d|
  {
    if d != [] {
      ActiveAtMost(d[1..]);
    }
  }
}
