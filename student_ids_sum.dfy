/** `getStudentIdsSum` of 0x03-ES6_data_manipulation/3-get_ids_sum.js. */
module StudentIdsSum {
  import opened Students
  import opened ListStudentIds

  /** The sum of a sequence of integers: the reference the fold is proved equal to. */
  function Sum(xs: seq<int>): int {
    if xs == [] then 0 else xs[0] + Sum(xs[1..])
  }

  /** `Sum` is additive over concatenation. */
  lemma {:induction false} SumConcat(a: seq<int>, b: seq<int>)
    ensures Sum(a + b) == Sum(a) + Sum(b)
  {
    if a == [] {
      assert a + b == b;
    } else {
      assert (a + b)[1..] == a[1..] + b;
      SumConcat(a[1..], b);
    }
  }

  /** `students.reduce((sum, student) => sum + student.id, acc)`: a left fold from `acc`. */
  function Reduce(students: seq<Student>, acc: int): (r: int)
    ensures r == acc + Sum(Ids(students))
  {
    if students == [] then acc
    else
      assert Ids(students)[1..] == Ids(students[1..]);
      Reduce(students[1..], acc + students[0].id)
  }

  /** Zero for anything but an array, otherwise the fold seeded at zero. */
  function GetStudentIdsSum(input: Input): (r: int)
    ensures input.NotArray? ==> r == 0
    ensures input == Arr([]) ==> r == 0
    ensures input.Arr? ==> r == Sum(Ids(input.students))
  {
    match input
    case NotArray => 0
    case Arr(students) => Reduce(students, 0)
  }

  /** The sum is the sum of what `getListStudentIds` returns for the same argument. */
  lemma SumOfListedIds(input: Input)
    ensures GetStudentIdsSum(input) == Sum(GetListStudentIds(input))
  {
    if input.Arr? {
      assert GetListStudentIds(input) == Ids(input.students);
    }
  }

  /** Summing over two arrays joined is summing over each. */
  lemma StudentIdsSumConcat(a: seq<Student>, b: seq<Student>)
    ensures GetStudentIdsSum(Arr(a + b)) == GetStudentIdsSum(Arr(a)) + GetStudentIdsSum(Arr(b))
  {
    IdsConcat(a, b);
    SumConcat(Ids(a), Ids(b));
  }

  /** Only the `id` fields matter: records that agree on them sum alike. */
  lemma OnlyIdsMatter(a: seq<Student>, b: seq<Student>)
    requires |a| == |b|
    requires forall i :: 0 <= i < |a| ==> a[i].id == b[i].id
    ensures GetStudentIdsSum(Arr(a)) == GetStudentIdsSum(Arr(b))
  {
    assert Ids(a) == Ids(b);
  }
}
