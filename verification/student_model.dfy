/** The `Student` collection (src/models/Student.js): every student ever
    added, active or soft-deleted, in insertion order. */
module StudentModel {
  import opened Responses

  /** The opaque document id (`_id`). */
  type StudentId = nat

  datatype Student = Student(id: StudentId, name: string, rollNo: int, isActive: bool)

  type Directory = seq<Student>

  /** The sort key of the student list. */
  function RollOf(s: Student): int {
    s.rollNo
  }

  /** `_id` is unique. */
  predicate IdsUnique(dir: Directory) {
    forall i, j :: 0 <= i < j < |dir| ==> dir[i].id != dir[j].id
  }

  /** The unique index on `rollNo` covers every document, active or not. */
  predicate RollNosUnique(dir: Directory) {
    forall i, j :: 0 <= i < j < |dir| ==> dir[i].rollNo != dir[j].rollNo
  }

  /** `name` is a required field, so it is never empty. */
  predicate NamesPresent(dir: Directory) {
    forall i :: 0 <= i < |dir| ==> dir[i].name != ""
  }

  /** What the store guarantees of its `students` collection. */
  predicate DirectoryWellFormed(dir: Directory) {
    IdsUnique(dir) && RollNosUnique(dir) && NamesPresent(dir)
  }

  predicate HasId(dir: Directory, id: StudentId) {
    exists i :: 0 <= i < |dir| && dir[i].id == id
  }

  /** `findOne({ rollNo })`: whether any student, active or not, holds it. */
  predicate RollNoTaken(dir: Directory, rollNo: int) {
    exists i :: 0 <= i < |dir| && dir[i].rollNo == rollNo
  }

  /** Position of the first student with the given id. */
  function IndexOf(dir: Directory, id: StudentId): (r: Option<nat>)
    ensures r.None? <==> !HasId(dir, id)
    ensures r.Some? ==> r.value < |dir| && dir[r.value].id == id
    ensures r.Some? ==> forall i :: 0 <= i < r.value ==> dir[i].id != id
  {
    if dir == [] then None
    else if dir[0].id == id then Some(0)
    else
      match IndexOf(dir[1..], id)
      case None => None
      case Some(k) => Some(k + 1)
  }

  /** Resolution of a reference by id, as `$lookup` and `populate` do it:
      any student, active or not. */
  function Find(dir: Directory, id: StudentId): (r: Option<Student>)
    ensures r.None? <==> !HasId(dir, id)
    ensures r.Some? ==> r.value in dir && r.value.id == id
  {
    match IndexOf(dir, id)
    case None => None
    case Some(i) => Some(dir[i])
  }

  /** With unique ids, the student found is the only one with that id. */
  lemma FindUnique(dir: Directory, s: Student)
    requires IdsUnique(dir)
    requires s in dir
    ensures Find(dir, s.id) == Some(s)
  {
    var k :| 0 <= k < |dir| && dir[k] == s;
    var i := IndexOf(dir, s.id).value;
    assert !(i < k) && !(k < i);
  }

  /** An id that no student holds: one more than the largest in use. This
      stands in for the store's `ObjectId` generator. */
  function FreshId(dir: Directory): (r: StudentId)
    ensures forall i :: 0 <= i < |dir| ==> dir[i].id < r
    ensures !HasId(dir, r)
  {
    if dir == [] then 0
    else
      var rest := FreshId(dir[1..]);
      var r := if dir[0].id < rest then rest else dir[0].id + 1;
      assert forall i :: 1 <= i < |dir| ==> dir[i].id == dir[1..][i - 1].id;
      r
  }
}
