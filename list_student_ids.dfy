/** `getListStudentIds` of 0x03-ES6_data_manipulation/1-get_list_student_ids.js. */
module ListStudentIds {
  import opened Students

  /** `students.map((student) => student.id)`: a fresh sequence, one id per record, in order. */
  function Ids(students: seq<Student>): (r: seq<int>)
    ensures |r| == |students|
    ensures forall i :: 0 <= i < |students| ==> r[i] == students[i].id
  {
    if students == [] then [] else [students[0].id] + Ids(students[1..])
  }

  /** The empty sequence for anything but an array, otherwise the ids in input order. */
  function GetListStudentIds(input: Input): (r: seq<int>)
    ensures input.NotArray? ==> r == []
    ensures input.Arr? ==>
      |r| == |input.students| &&
      forall i :: 0 <= i < |r| ==> r[i] == input.students[i].id
  {
    match input
    case NotArray => []
    case Arr(students) => Ids(students)
  }

  /** The projection distributes over concatenation. */
  lemma {:induction false} IdsConcat(a: seq<Student>, b: seq<Student>)
    ensures Ids(a + b) == Ids(a) + Ids(b)
  {
    if a != [] {
      assert (a + b)[1..] == a[1..] + b;
      IdsConcat(a[1..], b);
    }
  }
}
