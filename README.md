# Course catalogue

A model of a small course catalogue in Java. It has two classes.

- `Course` is a record with four fields: id, title, credit and department. Its setters validate what they store:
  - an id has a `length()` of at least 3, counted in UTF-16 code units, and only ASCII letters or digits;
  - a title is not empty;
  - a credit is at least 1;
  - a department may be any string.
- `CourseList` is a fixed-capacity array of courses with a `count`. The residents sit in slots `[0, count)`. It supports:
  - appending a course;
  - removing by id, shifting the later residents left;
  - three kinds of search: by id, by title keyword and by department;
  - the max-credit courses;
  - the department with the most courses;
  - a sorted copy and a plain copy.

The Dafny project has four files:

- `java_strings.dfy` (module `JavaStrings`): the pieces of `java.lang.String` the catalogue uses. These are `toLowerCase`, `contains`, `equalsIgnoreCase` and the order of `compareTo`, with lemmas that this order is a total order.
- `course.dfy` (modules `Exceptions` and `Courses`):
  - the exception cases, one constructor per message;
  - the class `Courses.Course`. Each validating setter is a method that returns `Pass` or `Fail(error)` instead of throwing. The setter assigns only on `Pass`.
  - The four-argument constructor is `Course.Create`. It returns `Result<Course>` and reports the first failing check.
- `course_queries.dfy` (module `CourseQueries`): reference definitions over the sequence of residents, plus the lemmas about them. They cover:
  - the order-preserving filter behind every search;
  - the position of the first id match;
  - distinct ids;
  - the maximum credit;
  - the department tally;
  - a stable insertion sort by title.
- `course_list.dfy` (module `CourseLists`): the class `CourseLists.CourseList`.
  - It keeps an `array<Course?>` and a `count`, and each method works in place as the Java does.
  - Its invariant `Valid()` has four parts:
    - slots `[0, count)` are non-null;
    - slots from `count` on are null;
    - every resident passed the setters' checks;
    - resident ids are pairwise distinct.
  - Each method is proved against the functions of `CourseQueries`, applied to `Contents()`, the sequence `courses[..count]`.

How the model follows the code where its comments say otherwise:

- **Sorting is by title.** The comment on `sortCourses` says the courses are sorted by ID, but the comparator is `Comparator.comparing(Course::getTitle)`. The model sorts by title.
- **Capacity is tested before duplicates.** `addCourse` tests capacity before it scans for a duplicate id, so a full list answers `false` even when the id is a duplicate. `AddCourse` keeps that order.
- **`findDepartmentWithMostCourses` depends on key order.** It walks the keys of a `HashMap` and keeps the first strictly larger count, so the department it returns in a tie depends on iteration order. `MostFrequent` picks each next key by `:|` (any remaining key). Its result is specified relationally: a department that occurs, and that no department outnumbers.
- **Getters are not separate members.** They return the fields, so the model reads the fields directly.

## Model

| member | source | states |
|---|---|---|
| JavaStrings.Utf16Length | CoursePrj/src/edu/iuh/fit/Course.java:51 | `length()` counts UTF-16 code units: at least one and at most two per character |
| JavaStrings.Utf16LengthOfBmp | CoursePrj/src/edu/iuh/fit/Course.java:51-56 | `length()` equals the number of characters exactly when no character is supplementary, so for any string of ASCII letters and digits |
| JavaStrings.ToLowerChar | CoursePrj/src/edu/iuh/fit/CourseList.java:135 | the lower-cased character is never upper case; it is a letter or digit exactly when the original is; a character that is not upper case is unchanged |
| JavaStrings.ToLower | CoursePrj/src/edu/iuh/fit/CourseList.java:135 | lower-casing keeps the length and lower-cases each character in place |
| JavaStrings.Contains | CoursePrj/src/edu/iuh/fit/CourseList.java:135 | `contains` never finds a keyword longer than the title, and always finds the empty keyword |
| JavaStrings.EqualsIgnoreCase | CoursePrj/src/edu/iuh/fit/CourseList.java:150 | `equalsIgnoreCase` holds exactly when both strings have the same length and agree character by character after lower-casing |
| JavaStrings.NotAfter | CoursePrj/src/edu/iuh/fit/CourseList.java:177 | `compareTo <= 0`: a prefix comes first, and a string never comes before its own proper prefix |
| JavaStrings.ContainsAt | CoursePrj/src/edu/iuh/fit/CourseList.java:135 | `contains` holds exactly when the keyword occurs at some offset of the title |
| JavaStrings.ContainsTrivial | CoursePrj/src/edu/iuh/fit/CourseList.java:135 | every title contains the empty keyword and contains itself |
| JavaStrings.NotAfterReflexive | CoursePrj/src/edu/iuh/fit/CourseList.java:177 | each title compares `<= 0` with itself |
| JavaStrings.NotAfterTotal | CoursePrj/src/edu/iuh/fit/CourseList.java:177 | for any two titles, one compares `<= 0` with the other |
| JavaStrings.NotAfterTransitive | CoursePrj/src/edu/iuh/fit/CourseList.java:177 | the title order is transitive |
| JavaStrings.NotAfterAntisymmetric | CoursePrj/src/edu/iuh/fit/CourseList.java:177 | two titles that each compare `<= 0` with the other are equal |
| Courses.CheckId | CoursePrj/src/edu/iuh/fit/Course.java:50-56 | passes exactly for an id whose `length()` in UTF-16 code units is at least 3 and whose characters are letters and digits; the too-short error is reported exactly when `length()` is below 3, before the character test |
| Courses.ValidIdLength | CoursePrj/src/edu/iuh/fit/Course.java:50-57 | a stored id has at least three characters, each one UTF-16 code unit |
| Courses.CheckIdCountsCodeUnits | CoursePrj/src/edu/iuh/fit/Course.java:51-55 | a letter followed by a supplementary character has `length()` 3 and fails the character test, while a two-letter id is too short |
| Courses.CheckTitle | CoursePrj/src/edu/iuh/fit/Course.java:73-76 | passes exactly for a non-empty title; otherwise reports the empty-title error |
| Courses.CheckCredit | CoursePrj/src/edu/iuh/fit/Course.java:93-96 | passes exactly for a credit above 0; otherwise reports the credit error |
| Courses.Course.constructor | CoursePrj/src/edu/iuh/fit/Course.java:18-20 | the no-argument course has blank fields and credit 0, so it does not satisfy `Valid` |
| Courses.Course.Create | CoursePrj/src/edu/iuh/fit/Course.java:30-35 | succeeds exactly when id, title and credit are all valid; otherwise the id error comes first, then the title error, then the credit error; on success a fresh valid course holds exactly the four arguments, the department unchecked |
| Courses.Course.SetId | CoursePrj/src/edu/iuh/fit/Course.java:50-58 | the outcome is the id check; the id changes only when the check passes; the other fields never change; validity is kept |
| Courses.Course.SetTitle | CoursePrj/src/edu/iuh/fit/Course.java:73-78 | the outcome is the title check; the title changes only on success; the other fields never change; validity is kept |
| Courses.Course.SetCredit | CoursePrj/src/edu/iuh/fit/Course.java:93-98 | the outcome is the credit check; on success the stored credit is at least 1; a failure changes nothing; validity is kept |
| Courses.Course.SetDepartment | CoursePrj/src/edu/iuh/fit/Course.java:112-114 | any department is stored; id, title and credit are unchanged, so validity does not change |
| CourseQueries.Matches | CoursePrj/src/edu/iuh/fit/CourseList.java:100-150 | the per-course tests of the scans; the empty keyword selects every course, and a department equal to the argument is selected |
| CourseQueries.Filter | CoursePrj/src/edu/iuh/fit/CourseList.java:132-155 | the courses a scan collects are never more than the residents |
| CourseQueries.FilterMembers | CoursePrj/src/edu/iuh/fit/CourseList.java:133-138 | a course is in the result exactly when it is a resident and satisfies the search predicate |
| CourseQueries.FilterAppend | CoursePrj/src/edu/iuh/fit/CourseList.java:133-138 | filtering a concatenation is concatenating the filtered parts, so survivors keep their relative order |
| CourseQueries.FilterIdempotent | CoursePrj/src/edu/iuh/fit/CourseList.java:133-138 | searching a search result again with the same predicate returns it unchanged |
| CourseQueries.KeepsFilterFixed | CoursePrj/src/edu/iuh/fit/CourseList.java:135-137 | a list the filter leaves unchanged stays unchanged by it when the next scanned course is added exactly when it matches |
| CourseQueries.FilterSingleton | CoursePrj/src/edu/iuh/fit/CourseList.java:135-137 | one course is kept exactly when it matches |
| CourseQueries.FilterEmptyKeyword | CoursePrj/src/edu/iuh/fit/CourseList.java:132-140 | a title search with the empty keyword returns every resident in slot order |
| CourseQueries.Position | CoursePrj/src/edu/iuh/fit/CourseList.java:163-168 | the least index holding the id, or the length when no course has it: no earlier course has the id, and the course found has it |
| CourseQueries.AppendKeepsUnique | CoursePrj/src/edu/iuh/fit/CourseList.java:41-46 | appending a valid course whose id no resident has keeps the ids distinct and all courses valid |
| CourseQueries.RemoveKeepsUnique | CoursePrj/src/edu/iuh/fit/CourseList.java:114-121 | taking one course out keeps the ids distinct and all courses valid |
| CourseQueries.MaxCredit | CoursePrj/src/edu/iuh/fit/CourseList.java:89-95 | the scan's result is at least 0 and at least every credit; when it is positive, some course has exactly that credit |
| CourseQueries.MaxCreditAttained | CoursePrj/src/edu/iuh/fit/CourseList.java:89-103 | when some credit is positive, which every valid course guarantees, the maximum is positive, some course attains it, and the max-credit courses are not empty |
| CourseQueries.DepartmentsOf | CoursePrj/src/edu/iuh/fit/CourseList.java:61-62 | the departments of the courses, one per course, in slot order |
| CourseQueries.Occurrences | CoursePrj/src/edu/iuh/fit/CourseList.java:60-64 | the number of entries equal to a department is at most the length, and is positive exactly when the department occurs |
| CourseQueries.Tally | CoursePrj/src/edu/iuh/fit/CourseList.java:60-64 | the map built with `getOrDefault(d, 0) + 1`; every key in it has a count of at least 1 |
| CourseQueries.TallyStep | CoursePrj/src/edu/iuh/fit/CourseList.java:62-63 | scanning one more department bumps its count in the tally, starting from 0 when it is new |
| CourseQueries.TallyCounts | CoursePrj/src/edu/iuh/fit/CourseList.java:60-64 | the tally built with `getOrDefault(d, 0) + 1` has exactly the occurring departments as keys, each mapped to its number of occurrences |
| CourseQueries.SeedOccurrences | CoursePrj/src/edu/iuh/fit/TestCourse.java:14-20 | among the seed departments "English" occurs twice and every other seed department once |
| CourseQueries.SeedDepartmentsMostCommon | CoursePrj/src/edu/iuh/fit/TestCourse.java:14-20 | for the departments of the demo's five seed courses, "English" is the most common department and the only one |
| CourseQueries.Insert | CoursePrj/src/edu/iuh/fit/CourseList.java:177 | insertion adds one element and introduces no course other than the inserted one |
| CourseQueries.InsertPermutes | CoursePrj/src/edu/iuh/fit/CourseList.java:177 | insertion adds exactly the inserted course to the multiset |
| CourseQueries.SortByTitle | CoursePrj/src/edu/iuh/fit/CourseList.java:176-177 | the sorted copy has the residents' length and only residents |
| CourseQueries.SortByTitlePermutes | CoursePrj/src/edu/iuh/fit/CourseList.java:176-177 | the sorted copy is a permutation of the residents |
| CourseQueries.InsertSorted | CoursePrj/src/edu/iuh/fit/CourseList.java:177 | inserting into a title-sorted list keeps it sorted |
| CourseQueries.SortByTitleSorted | CoursePrj/src/edu/iuh/fit/CourseList.java:177 | the sorted copy is in non-decreasing title order |
| CourseQueries.InsertStable | CoursePrj/src/edu/iuh/fit/CourseList.java:177 | among courses with the same title, the inserted one lands after those already present |
| CourseQueries.SortByTitleStable | CoursePrj/src/edu/iuh/fit/CourseList.java:177 | the sort is stable: courses with equal titles keep their original relative order |
| CourseQueries.SortByTitleOfSorted | CoursePrj/src/edu/iuh/fit/CourseList.java:177 | a list already in title order is returned unchanged |
| CourseQueries.SortByTitleIdempotent | CoursePrj/src/edu/iuh/fit/CourseList.java:177 | sorting the sorted copy again changes nothing |
| CourseQueries.InsertSkipsTail | CoursePrj/src/edu/iuh/fit/CourseList.java:177 | insertion passes over a tail whose titles all come strictly after the new title |
| CourseQueries.InsertLandsAt | CoursePrj/src/edu/iuh/fit/CourseList.java:177 | the new course lands after the last course whose title it does not precede and before all the rest |
| CourseLists.ToArray | CoursePrj/src/edu/iuh/fit/CourseList.java:186 | a fresh array holding exactly the given courses |
| CourseLists.CourseList.constructor | CoursePrj/src/edu/iuh/fit/CourseList.java:25-30 | for a positive capacity, yields a valid empty list with a fresh array of exactly that length |
| CourseLists.CourseList.Create | CoursePrj/src/edu/iuh/fit/CourseList.java:25-30 | a capacity of 0 or less is rejected with the capacity error, and any other is accepted; on success the list is valid and empty with that capacity |
| CourseLists.CourseList.AddCourse | CoursePrj/src/edu/iuh/fit/CourseList.java:37-48 | a full list answers false and changes nothing, even for a duplicate id; otherwise a resident with the same id gives the duplicate error and nothing changes; otherwise the course goes into slot `count`, the count grows by one, nothing else changes, true is returned and the invariant, including distinct ids, is kept |
| CourseLists.CourseList.Append | CoursePrj/src/edu/iuh/fit/CourseList.java:46 | storing a valid course with a fresh id in slot `count` grows the residents by exactly that course, changes no other slot and keeps the invariant |
| CourseLists.CourseList.RemoveCourse | CoursePrj/src/edu/iuh/fit/CourseList.java:113-125 | returns true exactly when some resident has the id; then the first such resident is removed, the others keep their order, the count drops by one and the freed slot is null; otherwise nothing changes; the invariant is kept |
| CourseLists.CourseList.RemoveAt | CoursePrj/src/edu/iuh/fit/CourseList.java:116-121 | removing the resident in slot i leaves the residents before and after it in order, drops the count by one, nulls the freed slot and keeps the invariant |
| CourseLists.CourseList.ShiftDown | CoursePrj/src/edu/iuh/fit/CourseList.java:117-120 | each slot from i to the new count takes its right neighbour, the slots before i and after the old last resident are unchanged, the old last slot becomes null and the count drops by one |
| CourseLists.CourseList.CollectMatching | CoursePrj/src/edu/iuh/fit/CourseList.java:133-138 | the courses the scan collects are the order-preserving filter of the residents |
| CourseLists.CourseList.SearchCourse | CoursePrj/src/edu/iuh/fit/CourseList.java:132-140 | a fresh array of exactly the residents whose lower-cased title contains the lower-cased keyword, in slot order |
| CourseLists.CourseList.SearchCourseByDepartment | CoursePrj/src/edu/iuh/fit/CourseList.java:147-155 | a fresh array of exactly the residents whose department equals the argument, ignoring case, in slot order |
| CourseLists.CourseList.SearchCourseById | CoursePrj/src/edu/iuh/fit/CourseList.java:162-169 | null exactly when no resident has the id; otherwise the resident at the least index with that id |
| CourseLists.CourseList.ScanMaxCredit | CoursePrj/src/edu/iuh/fit/CourseList.java:89-95 | the first loop computes the maximum resident credit, with baseline 0 |
| CourseLists.CourseList.MaxCreditCourses | CoursePrj/src/edu/iuh/fit/CourseList.java:84-103 | the residents whose credit equals the maximum, in slot order; empty exactly when the list is empty |
| CourseLists.CourseList.FindMaxCreditCourses | CoursePrj/src/edu/iuh/fit/CourseList.java:84-106 | a fresh array of the max-credit residents in slot order; of length 0 exactly when the list is empty |
| CourseLists.CourseList.CountByDepartment | CoursePrj/src/edu/iuh/fit/CourseList.java:59-64 | the loop builds the tally of the residents' departments |
| CourseLists.CourseList.FindDepartmentWithMostCourses | CoursePrj/src/edu/iuh/fit/CourseList.java:54-78 | "" for an empty list; otherwise a department of some resident that no department occurs strictly more often than |
| CourseLists.CourseList.SortCourses | CoursePrj/src/edu/iuh/fit/CourseList.java:175-179 | a fresh array holding the stable title sort of the residents; the list is not modified |
| CourseLists.CourseList.GetCourses | CoursePrj/src/edu/iuh/fit/CourseList.java:185-187 | a fresh array of exactly the residents in slot order; the list is not modified |
| CourseLists.SortInPlace | CoursePrj/src/edu/iuh/fit/CourseList.java:177 | sorting the copied array in place leaves it equal to the stable title sort of its old contents |
| CourseLists.SortStep | CoursePrj/src/edu/iuh/fit/CourseList.java:177 | one outer step grows the sorted prefix by one slot and leaves the unsorted suffix as it was |
| CourseLists.InsertAt | CoursePrj/src/edu/iuh/fit/CourseList.java:177 | moving slot i left past the strictly later titles gives the stable insertion of that course into the prefix; later slots are unchanged |
| CourseLists.MostFrequent | CoursePrj/src/edu/iuh/fit/CourseList.java:66-75 | in any key order, the returned count is at least every tallied count; when it is positive, the returned key is tallied with that count; when it is 0, the key is "" |

## Left out

- The console program (`TestCourse.java`) is left out, because it is menu and console I/O. Of its seed data, only the department fact is stated (`SeedDepartmentsMostCommon`). The max-credit pair and the count after a removal are not stated.
- Both `toString` methods are left out, because they only format text.
- Exceptions are return values: `Outcome` for the setters and `Result` for the constructors and `addCourse`. Each setter and `addCourse` throws before it assigns anything. The four-argument constructor may throw after `setId` has already assigned the id, but the half-built object never reaches the caller, so `Create` returning only the error loses nothing observable.
- `null` strings are left out: every string in the model is a value. In Java, `searchCourse(null)` throws once there is at least one resident, because the keyword is lower-cased inside the loop; `searchCourseByDepartment(null)` returns an empty array, because `equalsIgnoreCase(null)` is false.
- Case mapping is ASCII only and assumes a locale such as the root locale. `toLowerCase()` uses the default locale, so under a Turkish locale even the ASCII `'I'` becomes a dotless `'ı'`; non-ASCII letters follow Java's Unicode tables. Neither is modelled.
- `compareTo` compares UTF-16 code units. The model compares Dafny characters, which are Unicode scalar values, so titles that use characters outside the Basic Multilingual Plane may be ordered differently.
- Java's 32-bit `int` is not modelled for credits or counts. An overflow cannot happen for the count, which is bounded by the array length.
- `Arrays.sort` (TimSort) is replaced by an insertion sort. Both are stable sorts, and a stable sort's result under a given comparator is unique, so the returned array is the same.
- The HashMap's iteration order is not modelled. The walk over its keys picks any remaining key, so the tie-break among equally common departments is left unspecified.
- Aliasing of resident courses is left out. Java lets a caller keep a reference to a resident and call `setId` on it, which could break distinct ids. In the model, the list's invariant covers the residents' current fields, so a method cannot be called on a list whose residents have been altered that way.
- CourseLists.CourseList.AddCourse: requires the new course to be a valid, non-null course. Java also accepts a course built by the no-argument constructor, with null fields, or a null reference: on an empty list, `addCourse(null)` stores null in slot 0, and later calls then throw.
- CourseLists.CourseList.FindDepartmentWithMostCourses: does not say which of several equally common departments is returned, because that depends on the HashMap's iteration order.
