# ES6 data-manipulation utilities, modelled in Dafny

This project models the five collection utilities in `0x03-ES6_data_manipulation/`:

- `getListStudentIds(students)` returns the `id` of every student, in order. It returns `[]` when the argument is not an array.
- `getStudentIdsSum(students)` folds the ids into a sum seeded at 0. It returns `0` when the argument is not an array.
- `setFromArray(array)` is `new Set(array)`. Duplicates are dropped and the set iterates in first-insertion order, as the ECMA-262 Set constructor prescribes.
- `hasValuesFromArray(set, array)` is `array.every(e => set.has(e))`.
- `cleanSet(set, startString)` spreads the set into an array and keeps the values that start with `startString`. It removes `startString.length` leading characters from each kept value, applies `trim()` to the rest, and joins the pieces with `'-'`.

All five are pure, and each is modelled as Dafny functions plus lemmas about them.

Modules, one per source file, plus two shared ones:

- `Students` (`students.dfy`): the student record, and `Input = NotArray | Arr(students)`. `Input` stands for the dynamically typed argument that both student functions test with `Array.isArray` / `instanceof Array`.
- `ListStudentIds` (`list_student_ids.dfy`): `getListStudentIds`.
- `StudentIdsSum` (`student_ids_sum.dfy`): `getStudentIdsSum`. The `reduce` is modelled as a left fold (`Reduce`) and proved equal to an independent recursive `Sum`.
- `JsSets` (`js_sets.dfy`): a JS `Set` as `JsSet<T>`, a duplicate-free sequence in iteration order. `Members` gives its `set<T>` view. `Add` models `Set.prototype.add` and `SetFromArray` models `new Set(array)`.
- `HasArrayValues` (`has_array_values.dfy`): `hasValuesFromArray`.
- `JsStrings` (`js_strings.dfy`): `startsWith`, `trim` (with whitespace predicate `IsWs`), `Array.prototype.join`, and `split` on one character. `split` does not occur in the source. It is proved to invert `join`.
- `CleanSet` (`clean_set.dfy`): `cleanSet`, as its three stages. `Matching` is the filter, `Segment`/`Segments` the map, and `CleanSet` the join.

Three properties of the code deserve stating outright, since a quick reading can miss them:

- `cleanSet` has no guard for an empty `startString`. With `""` every element matches, and the result is every element trimmed and joined (`CleanSetEmptyPrefix`).
- `cleanSet` trims each remainder (`8-clean_set.js:15`), and the model trims.
- A JS `Set` iterates in insertion order (ECMA-262), and `cleanSet` exposes that order in the joined string. The model keeps insertion order.

## Model

| member | source | states |
|---|---|---|
| `ListStudentIds.Ids` | 0x03-ES6_data_manipulation/1-get_list_student_ids.js:15 | the projection has one entry per student, and entry i is `students[i].id`, so order is kept and nothing is deduplicated |
| `ListStudentIds.GetListStudentIds` | 0x03-ES6_data_manipulation/1-get_list_student_ids.js:11-16 | a non-array yields `[]`; an array yields a sequence of the same length whose i-th element is the i-th student's id |
| `ListStudentIds.IdsConcat` | 0x03-ES6_data_manipulation/1-get_list_student_ids.js:15 | the projection of `a + b` is the projection of `a` followed by that of `b` |
| `StudentIdsSum.Reduce` | 0x03-ES6_data_manipulation/3-get_ids_sum.js:13 | the left fold from seed `acc` equals `acc` plus the sum of the projected ids |
| `StudentIdsSum.GetStudentIdsSum` | 0x03-ES6_data_manipulation/3-get_ids_sum.js:11-16 | a non-array yields 0, the empty array yields 0, and an array yields the sum of its students' ids |
| `StudentIdsSum.SumConcat` | 0x03-ES6_data_manipulation/3-get_ids_sum.js:13 | the sum of a concatenation is the sum of the sums |
| `StudentIdsSum.StudentIdsSumConcat` | 0x03-ES6_data_manipulation/3-get_ids_sum.js:13 | `getStudentIdsSum` over `a + b` is the sum of its values over `a` and over `b` |
| `StudentIdsSum.SumOfListedIds` | 0x03-ES6_data_manipulation/3-get_ids_sum.js:11-16 | for every argument, the sum equals the sum of what `getListStudentIds` returns for it |
| `StudentIdsSum.OnlyIdsMatter` | 0x03-ES6_data_manipulation/3-get_ids_sum.js:3-13 | two arrays whose records agree on `id` position by position give the same sum, whatever their other fields |
| `JsSets.Members` | 0x03-ES6_data_manipulation/7-has_array_values.js:9 | the values `set.has` answers true for: every element of the sequence is a member, and every member is an element |
| `JsSets.Add` | 0x03-ES6_data_manipulation/6-set.js:8 | adding keeps the set duplicate-free, makes the value a member, keeps the existing elements in their order in front, and grows the size by one exactly when the value was new |
| `JsSets.SetFromArray` | 0x03-ES6_data_manipulation/6-set.js:7-9 | the result is duplicate-free, every element of it occurs in the array, every element of the array is a member, and it is no longer than the array |
| `JsSets.SetFromArrayOrder` | 0x03-ES6_data_manipulation/6-set.js:8 | the set iterates in order of first occurrence in the array |
| `JsSets.SetFromArraySize` | 0x03-ES6_data_manipulation/6-set.js:8 | the size is the number of distinct values of the array, which is at most its length |
| `JsSets.SetFromArrayOfDistinct` | 0x03-ES6_data_manipulation/6-set.js:8 | a duplicate-free array yields a set that iterates exactly as the array |
| `JsSets.SetFromArrayIdempotent` | 0x03-ES6_data_manipulation/6-set.js:8 | building a set from a set's iteration sequence yields the same sequence |
| `HasArrayValues.HasValuesFromArray` | 0x03-ES6_data_manipulation/7-has_array_values.js:8-10 | true exactly when every element of the array is in the set |
| `HasArrayValues.HasValuesFromEmpty` | 0x03-ES6_data_manipulation/7-has_array_values.js:9 | the empty array is vacuously contained in every set |
| `HasArrayValues.FirstMissing` | 0x03-ES6_data_manipulation/7-has_array_values.js:9 | a false result has a witness index whose element is not in the set, and every element before it is (where `every` stops) |
| `HasArrayValues.HasValuesOnlyMembers` | 0x03-ES6_data_manipulation/7-has_array_values.js:9 | two arrays with the same values, in any order and with any repetition, give the same result |
| `HasArrayValues.HasValuesConcat` | 0x03-ES6_data_manipulation/7-has_array_values.js:9 | the result on `a + b` is the conjunction of the results on `a` and on `b` |
| `HasArrayValues.SetFromArrayHasValues` | 0x03-ES6_data_manipulation/7-has_array_values.js:9 | a set built from an array contains every value of that array |
| `JsStrings.StartsWith` | 0x03-ES6_data_manipulation/8-clean_set.js:14 | `s.startsWith(prefix)` holds exactly when the prefix is no longer than `s` and agrees with `s` character by character, and then `s` is the prefix followed by the rest |
| `JsStrings.IsWs` | 0x03-ES6_data_manipulation/8-clean_set.js:15 | the set of characters `trim` strips; each lies in the Basic Multilingual Plane (one UTF-16 code unit), and `-` is not among them (used by `TrimKeepsDash`) |
| `JsStrings.TrimStart` | 0x03-ES6_data_manipulation/8-clean_set.js:15 | the result is a suffix of the input, everything removed is whitespace, and the result does not start with whitespace |
| `JsStrings.TrimEnd` | 0x03-ES6_data_manipulation/8-clean_set.js:15 | the result is a prefix of the input, everything removed is whitespace, and the result does not end with whitespace |
| `JsStrings.Trim` | 0x03-ES6_data_manipulation/8-clean_set.js:15 | the result neither starts nor ends with whitespace and is no longer than the input |
| `JsStrings.TrimSlice` | 0x03-ES6_data_manipulation/8-clean_set.js:15 | the trimmed string is the slice of the input between a whitespace-only head and a whitespace-only tail |
| `JsStrings.TrimKeepsDash` | 0x03-ES6_data_manipulation/8-clean_set.js:15 | `trim` removes only whitespace and `-` is not whitespace, so the result holds a `-` exactly when the input does |
| `JsStrings.TrimOfTrimmed` | 0x03-ES6_data_manipulation/8-clean_set.js:15 | a string without surrounding whitespace is a fixed point of `trim` |
| `JsStrings.TrimIdempotent` | 0x03-ES6_data_manipulation/8-clean_set.js:15 | trimming twice is trimming once |
| `JsStrings.Join` | 0x03-ES6_data_manipulation/8-clean_set.js:18 | `parts.join(sep)`: a non-empty join starts with the first part and is as long as all parts plus one separator between each pair of neighbours; `JoinEmpty`, `SplitJoin` and `JoinSplit` pin it down |
| `JsStrings.JoinEmpty` | 0x03-ES6_data_manipulation/8-clean_set.js:18 | with a non-empty separator the join is `""` exactly when there are no parts or one empty part |
| `JsStrings.SplitJoin` | 0x03-ES6_data_manipulation/8-clean_set.js:18 | splitting the join of separator-free parts on the separator gives the parts back |
| `JsStrings.JoinSplit` | 0x03-ES6_data_manipulation/8-clean_set.js:18 | joining the pieces of a split with the same character gives the string back |
| `CleanSet.Matching` | 0x03-ES6_data_manipulation/8-clean_set.js:13-14 | the filter is no longer than its input and every value it keeps starts with `startString` |
| `CleanSet.MatchingOrder` | 0x03-ES6_data_manipulation/8-clean_set.js:13-14 | the kept values sit at strictly increasing positions of the set's iteration order, and every element that starts with `startString` is kept |
| `CleanSet.MatchingEmpty` | 0x03-ES6_data_manipulation/8-clean_set.js:14 | the filter is empty exactly when no element starts with `startString` |
| `CleanSet.Segment` | 0x03-ES6_data_manipulation/8-clean_set.js:15 | `value.substring(startString.length).trim()` for a matching value: the result has no surrounding whitespace and is no longer than what follows the prefix |
| `CleanSet.Segments` | 0x03-ES6_data_manipulation/8-clean_set.js:13-15 | the mapped array: one segment per kept value, none with surrounding whitespace; `SegmentsOrigin` ties each segment to its element |
| `CleanSet.CleanSet` | 0x03-ES6_data_manipulation/8-clean_set.js:11-19 | the result is `""` when no element starts with `startString`, and it is `""` exactly when there is no segment or the one segment is empty |
| `CleanSet.SegmentsOrigin` | 0x03-ES6_data_manipulation/8-clean_set.js:13-15 | segment k comes from a matching element, at strictly increasing set positions, with exactly as many leading characters removed as `startString` has and then trimmed. Each segment has no surrounding whitespace, and every matching element contributes one |
| `CleanSet.MatchingEmptyPrefix` | 0x03-ES6_data_manipulation/8-clean_set.js:14 | with the empty prefix the filter keeps every element |
| `CleanSet.CleanSetEmptyPrefix` | 0x03-ES6_data_manipulation/8-clean_set.js:13-18 | with the empty prefix the result is every element, trimmed, joined by `-` |
| `CleanSet.ElementEqualToPrefix` | 0x03-ES6_data_manipulation/8-clean_set.js:15 | an element equal to `startString` contributes an empty segment |
| `CleanSet.CleanSetSplit` | 0x03-ES6_data_manipulation/8-clean_set.js:18 | when there are segments and none contains `-`, splitting the result on `-` recovers the segments in order |
| `CleanSet.CleanSetSplitElements` | 0x03-ES6_data_manipulation/8-clean_set.js:13-18 | when some element starts with `startString` and no element of the set holds `-`, no segment holds one either, and splitting the result on `-` recovers the segments in order |

## Left out

- Arguments of other types are not modelled; the Dafny types rule them out. `startString` is always a string, `hasValuesFromArray` always gets a real array, and ids are always integers. JavaScript would coerce or throw on such arguments in many different ways. For example, a non-string `startString` is converted by `startsWith`, while `.length` is read from the original value. So with the array `['fo']`, `'foo'` matches and only one character is stripped, giving `'oo'`.
- `SetFromArray` takes a sequence. `new Set()`, `new Set(undefined)` and `new Set(null)`, which give an empty set, are not modelled. Neither is a string argument, which JavaScript iterates character by character.
- `Input.Arr` holds only well-formed student records. Arrays holding other values are not modelled; JavaScript's behaviour on them varies. For example, a `null` or `undefined` element makes `student.id` throw a TypeError, a record without `id` makes the sum `NaN`, and a hole is skipped by `reduce`.
- IEEE-754 `Number` arithmetic is left out. Ids are unbounded `int`, so the sum never overflows or loses precision.
- `Set` equality is Dafny equality on the element type. SameValueZero details (`NaN`, `+0`/`-0`) and hashing are not modelled.
- JavaScript strings are sequences of UTF-16 code units. Here a string is a sequence of Unicode scalar values (`char`), so `length` and `substring` count surrogate pairs as one character.
- `IsWs` uses the WhiteSpace and LineTerminator code points of ECMA-262 with the current Unicode space separators. Later Unicode revisions to that category are not tracked.
- The difference between `Array.isArray` and `instanceof Array` (arrays from another realm) is not modelled. Both collapse to the `NotArray | Arr` distinction.
- Inputs are never mutated: `map` and the spread in `cleanSet` build fresh arrays. In the model all values are immutable, so "the input is unchanged" holds by construction and has no lemma.
- Module `export default` plumbing and JSDoc are not modelled.
