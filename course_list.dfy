/** A fixed-capacity list of courses kept in the prefix [0, count) of an array. */
module CourseLists {
  import opened JavaStrings
  import opened Exceptions
  import opened Courses
  import opened CourseQueries

  /** Arrays.copyOf / List.toArray: a fresh array holding exactly `s`. */
  method ToArray(s: seq<Course>) returns (a: array<Course>)
    ensures fresh(a) && a[..] == s
  {
    a := new Course[|s|](i requires 0 <= i < |s| => s[i]);
  }

  class CourseList {
    var count: nat
    var courses: array<Course?>

    /** The residents fill [0, count) of the backing array. */
    ghost predicate Filled()
      reads this, courses
    {
      count <= courses.Length && forall i :: 0 <= i < count ==> courses[i] != null
    }

    /** The residents, in slot order. */
    ghost function Contents(): (s: seq<Course>)
      reads this, courses
      requires Filled()
      ensures |s| == count
    {
      courses[..count]
    }

    /**
     * The residents are validly built courses with pairwise distinct ids;
     * every slot from count on is null.
     */
    ghost predicate Valid()
      reads this, courses, courses[..]
    {
      && Filled()
      && (forall i :: count <= i < courses.Length ==> courses[i] == null)
      && AllValid(Contents())
      && UniqueIds(Contents())
    }

    /** new CourseList(capacity) once the capacity has been checked: an empty list of that capacity. */
    constructor (capacity: nat)
      requires capacity > 0
      ensures Valid() && fresh(courses)
      ensures count == 0 && courses.Length == capacity
      ensures Contents() == []
    {
      count := 0;
      courses := new Course?[capacity](_ => null);
    }

    /** new CourseList(capacity): a capacity of 0 or less throws. */
    static method Create(capacity: int) returns (r: Result<CourseList>)
      ensures r.Failure? <==> capacity <= 0
      ensures r.Failure? ==> r.error == CapacityNotPositive
      ensures r.Success? ==> fresh(r.value) && fresh(r.value.courses) && r.value.Valid()
      ensures r.Success? ==> r.value.count == 0 && r.value.courses.Length == capacity
    {
      if capacity <= 0 {
        return Failure(CapacityNotPositive);
      }
      var list := new CourseList(capacity);
      r := Success(list);
    }

    /**
     * addCourse. The capacity test comes first, so a full list answers
     * false even for a duplicate id; otherwise a resident with the same id
     * makes it throw; otherwise the course goes into slot count.
     */
    method AddCourse(course: Course) returns (r: Result<bool>)
      requires Valid() && course.Valid()
      modifies this, courses
      ensures Valid() && courses == old(courses)
      ensures old(count) == courses.Length ==> r == Success(false)
      ensures old(count) < courses.Length && old(Position(Contents(), course.id)) < old(count) ==>
                r == Failure(DuplicateId)
      ensures old(count) < courses.Length && old(Position(Contents(), course.id)) == old(count) ==>
                r == Success(true)
      ensures r == Success(true) ==> count == old(count) + 1 && courses[..] == old(courses[..])[old(count) := course]
      ensures r != Success(true) ==> count == old(count) && courses[..] == old(courses[..])
      ensures Contents() == if r == Success(true) then old(Contents()) + [course] else old(Contents())
    {
      if count >= courses.Length {
        return Success(false);
      }
      ghost var s := Contents();
      var i := 0;
      while i < count
        invariant 0 <= i <= count
        invariant forall k :: 0 <= k < i ==> courses[k].id != course.id
      {
        if courses[i].id == course.id {
          return Failure(DuplicateId);
        }
        i := i + 1;
      }
      assert Position(s, course.id) == count;
      Append(course);
      r := Success(true);
    }

    /** The storing half of addCourse, once capacity and ids have been checked: `courses[count++] = course`. */
    method Append(course: Course)
      requires Valid() && course.Valid()
      requires count < courses.Length && Position(Contents(), course.id) == count
      modifies this, courses
      ensures Valid() && courses == old(courses) && count == old(count) + 1
      ensures courses[..] == old(courses[..])[old(count) := course]
      ensures Contents() == old(Contents()) + [course]
    {
      ghost var s := Contents();
      AppendKeepsUnique(s, course);
      ghost var before := courses[..];
      courses[count] := course;
      count := count + 1;
      assert courses[..] == before[count - 1 := course];
      assert Contents() == s + [course];
    }

    /**
     * removeCourse: the first resident with the id is taken out, the
     * residents after it move one slot left, and the slot freed at the
     * end is nulled.
     */
    method RemoveCourse(courseId: string) returns (removed: bool)
      requires Valid()
      modifies courses, this
      ensures Valid() && courses == old(courses)
      ensures removed <==> old(Position(Contents(), courseId)) < old(count)
      ensures removed ==> count == old(count) - 1 && courses[count] == null
      ensures removed ==>
                var k := old(Position(Contents(), courseId));
                Contents() == old(Contents())[..k] + old(Contents())[k + 1..]
      ensures !removed ==> count == old(count) && courses[..] == old(courses[..])
    {
      ghost var s := Contents();
      var i := 0;
      while i < count && courses[i].id != courseId
        invariant 0 <= i <= count
        invariant forall k :: 0 <= k < i ==> s[k].id != courseId
      {
        i := i + 1;
      }
      if i == count {
        return false;
      }
      assert i == Position(s, courseId);
      RemoveAt(i);
      removed := true;
    }

    /** The removal half of removeCourse, once the resident in slot `i` has been found. */
    method RemoveAt(i: nat)
      requires Valid() && i < count
      modifies courses, this
      ensures Valid() && courses == old(courses)
      ensures count == old(count) - 1 && courses[count] == null
      ensures Contents() == old(Contents())[..i] + old(Contents())[i + 1..]
    {
      ghost var s := Contents();
      ghost var t := s[..i] + s[i + 1..];
      RemoveKeepsUnique(s, i);
      ShiftDown(i);
      assert courses[..count] == t by {
        assert forall k :: 0 <= k < count ==> courses[k] == s[if k < i then k else k + 1];
      }
    }

    /**
     * The shifting loop of removeCourse: slots i+1 .. count-1 each move one
     * slot left, then the freed last slot is nulled and the count drops.
     */
    method ShiftDown(i: nat)
      requires i < count <= courses.Length
      modifies this, courses
      ensures courses == old(courses) && count == old(count) - 1
      ensures forall k :: 0 <= k < count ==> courses[k] == old(courses[if k < i then k else k + 1])
      ensures courses[count] == null
      ensures forall k :: count < k < courses.Length ==> courses[k] == old(courses[k])
    {
      for j := i to count - 1
        invariant courses == old(courses) && count == old(count)
        invariant forall k :: 0 <= k < i ==> courses[k] == old(courses[k])
        invariant forall k :: i <= k < j ==> courses[k] == old(courses[k + 1])
        invariant forall k :: j <= k < courses.Length ==> courses[k] == old(courses[k])
      {
        courses[j] := courses[j + 1];
      }
      count := count - 1;
      courses[count] := null;
    }

    /** The residents matching `q`, in slot order: the ArrayList each search builds. */
    method CollectMatching(q: Query) returns (result: seq<Course>)
      requires Filled()
      ensures result == Filter(Contents(), q)
    {
      ghost var s := Contents();
      result := [];
      for i := 0 to count
        invariant result == Filter(s[..i], q)
      {
        assert s[..i + 1][..i] == s[..i];
        if Matches(courses[i], q) {
          result := result + [courses[i]];
        }
      }
      assert s[..count] == s;
    }

    /** searchCourse: residents whose lower-cased title contains the lower-cased keyword. */
    method SearchCourse(keyword: string) returns (r: array<Course>)
      requires Valid()
      ensures fresh(r) && r[..] == Filter(Contents(), TitleContains(keyword))
    {
      var found := CollectMatching(TitleContains(keyword));
      r := ToArray(found);
    }

    /** searchCourseByDepartment: residents whose department equals `department` ignoring case. */
    method SearchCourseByDepartment(department: string) returns (r: array<Course>)
      requires Valid()
      ensures fresh(r) && r[..] == Filter(Contents(), DepartmentIs(department))
    {
      var found := CollectMatching(DepartmentIs(department));
      r := ToArray(found);
    }

    /** searchCourseById: the resident with the least slot whose id is `courseId`, or null. */
    method SearchCourseById(courseId: string) returns (r: Course?)
      requires Valid()
      ensures r == null <==> forall c :: c in Contents() ==> c.id != courseId
      ensures r != null ==> r.id == courseId && r == Contents()[Position(Contents(), courseId)]
    {
      for i := 0 to count
        invariant forall k :: 0 <= k < i ==> courses[k].id != courseId
      {
        if courses[i].id == courseId {
          return courses[i];
        }
      }
      return null;
    }

    /** The first loop of findMaxCreditCourses: the largest credit of a resident, starting from 0. */
    method ScanMaxCredit() returns (maxCredit: int)
      requires Filled()
      ensures maxCredit == MaxCredit(Contents())
    {
      ghost var s := Contents();
      maxCredit := 0;
      for i := 0 to count
        invariant maxCredit == MaxCredit(s[..i])
      {
        assert s[..i + 1][..i] == s[..i];
        if courses[i].credit > maxCredit {
          maxCredit := courses[i].credit;
        }
      }
      assert s[..count] == s;
    }

    /**
     * The two loops of findMaxCreditCourses: a scan for the largest credit
     * (from 0), then the residents carrying it; empty exactly when the
     * list is.
     */
    method MaxCreditCourses() returns (found: seq<Course>)
      requires Valid()
      ensures found == Filter(Contents(), CreditIs(MaxCredit(Contents())))
      ensures found == [] <==> count == 0
    {
      ghost var s := Contents();
      if count == 0 {
        return [];
      }
      assert s[0].Valid();
      var maxCredit := ScanMaxCredit();
      assert Contents() == s;
      found := CollectMatching(CreditIs(maxCredit));
      assert Contents() == s;
      assert maxCredit == MaxCredit(s);
      MaxCreditAttained(s);
    }

    /** findMaxCreditCourses: the max-credit residents as a fresh array. */
    method FindMaxCreditCourses() returns (r: array<Course>)
      requires Valid()
      ensures fresh(r)
      ensures r[..] == Filter(Contents(), CreditIs(MaxCredit(Contents())))
      ensures r.Length == 0 <==> count == 0
    {
      var found := MaxCreditCourses();
      ghost var expected := Filter(Contents(), CreditIs(MaxCredit(Contents())));
      assert found == expected;
      r := ToArray(found);
      assert Filter(Contents(), CreditIs(MaxCredit(Contents()))) == expected;
    }

    /** The departmentCount tally: each department of a resident, mapped to how many residents have it. */
    method CountByDepartment() returns (departmentCount: map<string, nat>)
      requires Filled()
      ensures departmentCount == Tally(DepartmentsOf(Contents()))
    {
      ghost var ds := DepartmentsOf(Contents());
      departmentCount := map[];
      for i := 0 to count
        invariant departmentCount == Tally(ds[..i])
      {
        TallyStep(ds, i);
        var department := courses[i].department;
        departmentCount := departmentCount[department :=
          (if department in departmentCount then departmentCount[department] else 0) + 1];
      }
      assert ds[..count] == ds;
    }

    /**
     * findDepartmentWithMostCourses: tally the departments, then walk the
     * tally's keys in an unspecified order keeping the first strictly
     * larger count. The result is "" for an empty list and otherwise a
     * department that no other department outnumbers.
     */
    method FindDepartmentWithMostCourses() returns (r: string)
      requires Valid()
      ensures count == 0 ==> r == ""
      ensures count > 0 ==> IsMostCommon(DepartmentsOf(Contents()), r)
    {
      if count == 0 {
        return "";
      }
      ghost var ds := DepartmentsOf(Contents());
      var departmentCount := CountByDepartment();
      var maxCount;
      r, maxCount := MostFrequent(departmentCount);
      assert DepartmentsOf(Contents()) == ds;
      TallyCounts(ds);
      assert ds[0] in departmentCount;
    }

    /** sortCourses: a copy of the residents, stably sorted by title; the list itself is untouched. */
    method SortCourses() returns (r: array<Course>)
      requires Valid()
      ensures fresh(r) && r[..] == SortByTitle(Contents())
    {
      r := ToArray(courses[..count]);
      SortInPlace(r);
    }

    /** getCourses: a copy of the residents in slot order. */
    method GetCourses() returns (r: array<Course>)
      requires Valid()
      ensures fresh(r) && r[..] == Contents()
    {
      r := ToArray(courses[..count]);
    }
  }

  /** Arrays.sort with a title comparator, as a stable insertion sort. */
  method SortInPlace(r: array<Course>)
    modifies r
    ensures r[..] == SortByTitle(old(r[..]))
  {
    ghost var s := r[..];
    for i := 0 to r.Length
      invariant r[..i] == SortByTitle(s[..i])
      invariant r[i..] == s[i..]
    {
      SortStep(r, i, s);
    }
    assert s[..r.Length] == s;
  }

  /** One pass of the sorting loop: the sorted prefix grows by the course in slot i. */
  method SortStep(r: array<Course>, i: nat, ghost s: seq<Course>)
    requires i < r.Length == |s|
    requires r[..i] == SortByTitle(s[..i]) && r[i..] == s[i..]
    modifies r
    ensures r[..i + 1] == SortByTitle(s[..i + 1]) && r[i + 1..] == s[i + 1..]
  {
    assert s[..i + 1][..i] == s[..i];
    ghost var sorted := SortByTitle(s[..i]);
    InsertAt(r, i);
    assert SortByTitle(s[..i]) == sorted;
    assert SortByTitle(s[..i + 1]) == Insert(sorted, s[i]);
  }

  /**
   * One step of a stable insertion sort: the course in slot i moves left
   * past the courses of [0, i) whose titles come strictly after its own.
   */
  method InsertAt(r: array<Course>, i: nat)
    requires i < r.Length
    modifies r
    ensures r[..i + 1] == Insert(old(r[..i]), old(r[i]))
    ensures r[i + 1..] == old(r[i + 1..])
  {
    ghost var sorted := r[..i];
    var x := r[i];
    var j := i;
    while j > 0 && !NotAfter(r[j - 1].title, x.title)
      invariant 0 <= j <= i
      invariant forall k :: 0 <= k < j ==> r[k] == sorted[k]
      invariant forall k :: j < k <= i ==> r[k] == sorted[k - 1]
      invariant forall k :: j <= k < i ==> !NotAfter(sorted[k].title, x.title)
      invariant r[i + 1..] == old(r[i + 1..])
    {
      r[j] := r[j - 1];
      j := j - 1;
    }
    r[j] := x;
    assert forall k :: 0 <= k < j ==> r[k] == sorted[k];
    assert forall k :: j < k <= i ==> r[k] == sorted[k - 1];
    assert r[..i + 1] == sorted[..j] + [x] + sorted[j..];
    InsertLandsAt(sorted, x, j);
  }

  /**
   * The walk over the tally's keys in findDepartmentWithMostCourses: the
   * keys come in an unspecified order, and a key replaces the current
   * choice only when its count is strictly larger.
   */
  method MostFrequent(tally: map<string, nat>) returns (key: string, maxCount: nat)
    ensures forall d :: d in tally ==> tally[d] <= maxCount
    ensures maxCount > 0 ==> key in tally && tally[key] == maxCount
    ensures maxCount == 0 ==> key == ""
  {
    key, maxCount := "", 0;
    var keys := tally.Keys;
    while keys != {}
      invariant keys <= tally.Keys
      invariant forall d :: d in tally && d !in keys ==> tally[d] <= maxCount
      invariant maxCount > 0 ==> key in tally && tally[key] == maxCount
      invariant maxCount == 0 ==> key == ""
      decreases keys
    {
      var department :| department in keys;
      var currentCount := tally[department];
      if currentCount > maxCount {
        maxCount := currentCount;
        key := department;
      }
      keys := keys - {department};
    }
  }
}
