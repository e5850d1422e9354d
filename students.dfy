/**
 * The student records that 0x03-ES6_data_manipulation/1-get_list_student_ids.js
 * and 3-get_ids_sum.js read, and the "maybe an array" argument both accept.
 * Their JSDoc names `id`, `firstName` and `location`; only `id` is ever read.
 */
module Students {

  datatype Student = Student(id: int, firstName: string, location: string)

  /** The argument as the runtime sees it: an array of students, or anything else. */
  datatype Input = NotArray | Arr(students: seq<Student>)
}
