/**
 * Specifications of the catalogue's queries, stated over the sequence of
 * resident courses (a prefix of the backing array). Courses are objects,
 * so every function here reads the courses it is given.
 */
module CourseQueries {
  import opened JavaStrings
  import opened Courses

  /** The selection criteria of the catalogue's filtering queries. */
  datatype Query =
    | TitleContains(keyword: string)    // searchCourse: lower-cased title contains lower-cased keyword
    | DepartmentIs(department: string)  // searchCourseByDepartment: equalsIgnoreCase
    | CreditIs(credit: int)             // findMaxCreditCourses: credit equals the maximum
    | TitleIs(title: string)            // Comparator.comparing(getTitle) ties: equal titles

  /** Whether course `c` is selected by `q`; the empty keyword selects every course. */
  predicate Matches(c: Course, q: Query)
    reads c
    ensures q == TitleContains("") ==> Matches(c, q)
    ensures q.DepartmentIs? && c.department == q.department ==> Matches(c, q)
    ensures q.DepartmentIs? && Matches(c, q) ==> |c.department| == |q.department|
  {
    match q
    case TitleContains(keyword) => Contains(ToLower(c.title), ToLower(keyword))
    case DepartmentIs(department) => EqualsIgnoreCase(c.department, department)
    case CreditIs(credit) => c.credit == credit
    case TitleIs(title) => c.title == title
  }

  /** The order-preserving filter: the courses of `s` that match `q`, as a result list is built by a scan. */
  function Filter(s: seq<Course>, q: Query): (r: seq<Course>)
    reads s
    ensures |r| <= |s|
  {
    if s == [] then []
    else Filter(s[..|s| - 1], q) + (if Matches(s[|s| - 1], q) then [s[|s| - 1]] else [])
  }

  /** A course is kept by the filter exactly when it is in the list and matches. */
  lemma {:induction false} FilterMembers(s: seq<Course>, q: Query)
    ensures forall c :: c in Filter(s, q) <==> c in s && Matches(c, q)
  {
    if s != [] {
      var n := |s| - 1;
      FilterMembers(s[..n], q);
      assert s == s[..n] + [s[n]];
    }
  }

  /** searchCourse with the empty keyword returns every resident, in order. */
  lemma {:induction false} FilterEmptyKeyword(s: seq<Course>)
    ensures Filter(s, TitleContains("")) == s
  {
    if s != [] {
      var n := |s| - 1;
      FilterEmptyKeyword(s[..n]);
      ContainsTrivial(ToLower(s[n].title));
      assert s[..n] + [s[n]] == s;
    }
  }

  lemma FilterSingleton(x: Course, q: Query)
    ensures Filter([x], q) == if Matches(x, q) then [x] else []
  {
    assert [x][..0] == [];
  }

  lemma AppendAssociative(x: seq<Course>, y: seq<Course>, z: seq<Course>)
    ensures (x + y) + z == x + (y + z)
  {
  }

  /** Filtering distributes over concatenation, so survivors keep their relative order. */
  lemma {:induction false} FilterAppend(a: seq<Course>, b: seq<Course>, q: Query)
    ensures Filter(a + b, q) == Filter(a, q) + Filter(b, q)
  {
    if b != [] {
      var n := |b| - 1;
      assert (a + b)[..|a + b| - 1] == a + b[..n];
      assert (a + b)[|a + b| - 1] == b[n];
      FilterAppend(a, b[..n], q);
      var tail := if Matches(b[n], q) then [b[n]] else [];
      AppendAssociative(Filter(a, q), Filter(b[..n], q), tail);
    } else {
      assert a + b == a;
    }
  }

  /** A filter-fixed list stays filter-fixed when a course that survives the filter is appended. */
  lemma KeepsFilterFixed(f: seq<Course>, x: Course, q: Query)
    requires Filter(f, q) == f
    ensures var t := if Matches(x, q) then [x] else []; Filter(f + t, q) == f + t
  {
    if Matches(x, q) {
      FilterAppend(f, [x], q);
      FilterSingleton(x, q);
    } else {
      assert f + [] == f;
    }
  }

  /** Filtering a filtered list again changes nothing. */
  lemma {:induction false} FilterIdempotent(s: seq<Course>, q: Query)
    ensures Filter(Filter(s, q), q) == Filter(s, q)
  {
    if s != [] {
      var n := |s| - 1;
      FilterIdempotent(s[..n], q);
      KeepsFilterFixed(Filter(s[..n], q), s[n], q);
    }
  }

  /** The index of the first course of `s` whose id is `id`, or |s| when there is none. */
  function Position(s: seq<Course>, id: string): (k: nat)
    reads s
    ensures k <= |s|
    ensures forall j :: 0 <= j < k ==> s[j].id != id
    ensures k < |s| ==> s[k].id == id
  {
    if s == [] then 0
    else if s[0].id == id then 0
    else 1 + Position(s[1..], id)
  }

  /** The id of the course in slot i of `s`. */
  function IdAt(s: seq<Course>, i: nat): string
    reads s
    requires i < |s|
  {
    s[i].id
  }

  /** No two courses of `s` share an id. */
  ghost predicate UniqueIds(s: seq<Course>)
    reads s
  {
    forall i, j :: 0 <= i < j < |s| ==> IdAt(s, i) != IdAt(s, j)
  }

  /** Every course of `s` passed the setters' checks. */
  ghost predicate AllValid(s: seq<Course>)
    reads s
  {
    forall i :: 0 <= i < |s| ==> s[i].Valid()
  }

  /** Appending a valid course whose id no course of `s` has keeps the ids distinct and the courses valid. */
  lemma AppendKeepsUnique(s: seq<Course>, c: Course)
    requires UniqueIds(s) && AllValid(s) && c.Valid() && Position(s, c.id) == |s|
    ensures UniqueIds(s + [c]) && AllValid(s + [c])
  {
    var t := s + [c];
    forall i | 0 <= i < |t|
      ensures t[i].Valid()
    {
      if i < |s| {
        assert t[i] == s[i];
      }
    }
    forall i, j | 0 <= i < j < |t|
      ensures IdAt(t, i) != IdAt(t, j)
    {
      if j < |s| {
        assert IdAt(t, i) == IdAt(s, i) && IdAt(t, j) == IdAt(s, j);
      } else {
        assert IdAt(t, i) == s[i].id && IdAt(t, j) == c.id;
      }
    }
  }

  /** Taking out one course keeps the ids distinct and the courses valid. */
  lemma RemoveKeepsUnique(s: seq<Course>, k: nat)
    requires UniqueIds(s) && AllValid(s) && k < |s|
    ensures UniqueIds(s[..k] + s[k + 1..]) && AllValid(s[..k] + s[k + 1..])
  {
    var t := s[..k] + s[k + 1..];
    forall i, j | 0 <= i < j < |t|
      ensures IdAt(t, i) != IdAt(t, j)
    {
      assert IdAt(t, i) == IdAt(s, if i < k then i else i + 1);
      assert IdAt(t, j) == IdAt(s, if j < k then j else j + 1);
    }
    forall i | 0 <= i < |t|
      ensures t[i].Valid()
    {
      assert t[i] == s[if i < k then i else i + 1];
    }
  }

  /** The maximum credit found by a scan that starts from 0 and replaces on a strictly larger credit. */
  function MaxCredit(s: seq<Course>): (m: int)
    reads s
    ensures m >= 0
    ensures forall i :: 0 <= i < |s| ==> s[i].credit <= m
    ensures m > 0 ==> exists i :: 0 <= i < |s| && s[i].credit == m
  {
    if s == [] then 0
    else
      var m := MaxCredit(s[..|s| - 1]);
      if s[|s| - 1].credit > m then s[|s| - 1].credit else m
  }

  /**
   * Once some course has a positive credit (every validly built course
   * does), the baseline 0 is harmless: the maximum is positive, some course
   * carries it, and so the max-credit courses are not empty.
   */
  lemma MaxCreditAttained(s: seq<Course>)
    requires exists i :: 0 <= i < |s| && s[i].credit > 0
    ensures MaxCredit(s) > 0
    ensures exists i :: 0 <= i < |s| && s[i].credit == MaxCredit(s)
    ensures Filter(s, CreditIs(MaxCredit(s))) != []
  {
    var j :| 0 <= j < |s| && s[j].credit > 0;
    assert s[j].credit <= MaxCredit(s);
    var i :| 0 <= i < |s| && s[i].credit == MaxCredit(s);
    assert Matches(s[i], CreditIs(MaxCredit(s)));
    FilterMembers(s, CreditIs(MaxCredit(s)));
    assert s[i] in s;
  }

  /** The departments of the courses of `s`, in order: the keys the tally is built from. */
  function DepartmentsOf(s: seq<Course>): (ds: seq<string>)
    reads s
    ensures |ds| == |s|
    ensures forall i :: 0 <= i < |s| ==> ds[i] == s[i].department
  {
    if s == [] then [] else DepartmentsOf(s[..|s| - 1]) + [s[|s| - 1].department]
  }

  /** How many entries of `ds` are exactly `d` (the HashMap tally compares with equals). */
  function Occurrences(ds: seq<string>, d: string): (n: nat)
    ensures n <= |ds|
    ensures n > 0 <==> d in ds
  {
    if ds == [] then 0
    else
      assert ds == ds[..|ds| - 1] + [ds[|ds| - 1]];
      Occurrences(ds[..|ds| - 1], d) + (if ds[|ds| - 1] == d then 1 else 0)
  }

  /** The tally a scan over `ds` builds with getOrDefault(d, 0) + 1. */
  function Tally(ds: seq<string>): (t: map<string, nat>)
    ensures forall d :: d in t ==> t[d] >= 1
  {
    if ds == [] then map[]
    else
      var t := Tally(ds[..|ds| - 1]);
      var d := ds[|ds| - 1];
      t[d := (if d in t then t[d] else 0) + 1]
  }

  /** One more entry scanned: the tally of a longer prefix bumps that entry's count. */
  lemma TallyStep(ds: seq<string>, i: nat)
    requires i < |ds|
    ensures Tally(ds[..i + 1]) == Tally(ds[..i])[ds[i] := (if ds[i] in Tally(ds[..i]) then Tally(ds[..i])[ds[i]] else 0) + 1]
  {
    assert ds[..i + 1][..i] == ds[..i];
  }

  /** The tally's keys are the entries of `ds`, and each key is mapped to its number of occurrences. */
  lemma {:induction false} TallyCounts(ds: seq<string>)
    ensures forall d :: d in Tally(ds) <==> d in ds
    ensures forall d :: d in Tally(ds) ==> Tally(ds)[d] == Occurrences(ds, d)
  {
    if ds != [] {
      var n := |ds| - 1;
      TallyCounts(ds[..n]);
      assert ds == ds[..n] + [ds[n]];
    }
  }

  /** `d` occurs in `ds` and no entry occurs strictly more often. */
  ghost predicate IsMostCommon(ds: seq<string>, d: string) {
    d in ds && forall e :: Occurrences(ds, e) <= Occurrences(ds, d)
  }

  /** The departments of the five seed courses of the console demo, in insertion order. */
  const SeedDepartments: seq<string> := ["Computer Science", "Mathematics", "Physics", "English", "English"]

  /** "English" occurs twice among the seed departments, and every other department at most once. */
  lemma SeedOccurrences(e: string)
    ensures Occurrences(SeedDepartments, e) == if e == "English" then 2 else if e in SeedDepartments then 1 else 0
  {
    var d3 := ["Computer Science", "Mathematics", "Physics"];
    var d4 := d3 + ["English"];
    assert SeedDepartments[..4] == d4 && d4[..3] == d3;
    assert d3[..2] == ["Computer Science", "Mathematics"] && d3[..2][..1] == ["Computer Science"];
    assert "Physics"[0] != "English"[0];
  }

  /** Of the seed departments, "English" is the most common one, and the only one. */
  lemma SeedDepartmentsMostCommon()
    ensures IsMostCommon(SeedDepartments, "English")
    ensures forall e :: IsMostCommon(SeedDepartments, e) ==> e == "English"
  {
    forall e
      ensures Occurrences(SeedDepartments, e) <= Occurrences(SeedDepartments, "English")
      ensures e != "English" ==> Occurrences(SeedDepartments, e) < Occurrences(SeedDepartments, "English")
    {
      SeedOccurrences(e);
      SeedOccurrences("English");
    }
  }

  // ---- ordering by title (Arrays.sort with Comparator.comparing(Course::getTitle)) ----

  ghost predicate SortedByTitle(s: seq<Course>)
    reads s
  {
    forall i, j :: 0 <= i < j < |s| ==> NotAfter(s[i].title, s[j].title)
  }

  /**
   * Inserts `x` after the last course whose title is not after x's title,
   * scanning from the back, as a stable insertion does.
   */
  function Insert(s: seq<Course>, x: Course): (r: seq<Course>)
    reads (set c | c in s), x
    ensures |r| == |s| + 1
    ensures forall c :: c in r ==> c in s || c == x
  {
    if s == [] || NotAfter(s[|s| - 1].title, x.title) then s + [x]
    else Insert(s[..|s| - 1], x) + [s[|s| - 1]]
  }

  lemma {:induction false} InsertPermutes(s: seq<Course>, x: Course)
    ensures multiset(Insert(s, x)) == multiset(s) + multiset{x}
  {
    if !(s == [] || NotAfter(s[|s| - 1].title, x.title)) {
      var n := |s| - 1;
      InsertPermutes(s[..n], x);
      assert s == s[..n] + [s[n]];
    }
  }

  /** The stable sort by title, as insertion sort: the reference the sorting method is proved against. */
  function SortByTitle(s: seq<Course>): (r: seq<Course>)
    reads s
    ensures |r| == |s|
    ensures forall c :: c in r ==> c in s
  {
    if s == [] then []
    else Insert(SortByTitle(s[..|s| - 1]), s[|s| - 1])
  }

  /** The sorted copy is a permutation of the residents. */
  lemma {:induction false} SortByTitlePermutes(s: seq<Course>)
    ensures multiset(SortByTitle(s)) == multiset(s)
  {
    if s != [] {
      var n := |s| - 1;
      SortByTitlePermutes(s[..n]);
      InsertPermutes(SortByTitle(s[..n]), s[n]);
      assert s == s[..n] + [s[n]];
    }
  }

  lemma {:induction false} InsertSorted(s: seq<Course>, x: Course)
    requires SortedByTitle(s)
    ensures SortedByTitle(Insert(s, x))
  {
    if s == [] || NotAfter(s[|s| - 1].title, x.title) {
      forall i | 0 <= i < |s|
        ensures NotAfter(s[i].title, x.title)
      {
        if i < |s| - 1 {
          NotAfterTransitive(s[i].title, s[|s| - 1].title, x.title);
        }
      }
    } else {
      var n := |s| - 1;
      var last := s[n];
      InsertSorted(s[..n], x);
      var head := Insert(s[..n], x);
      NotAfterTotal(last.title, x.title);
      forall c | c in head
        ensures NotAfter(c.title, last.title)
      {
        if c != x {
          var i :| 0 <= i < n && s[..n][i] == c;
        }
      }
      forall i, j | 0 <= i < j < |head| + 1
        ensures NotAfter((head + [last])[i].title, (head + [last])[j].title)
      {
        if j == |head| {
          assert head[i] in head;
        }
      }
    }
  }

  lemma {:induction false} SortByTitleSorted(s: seq<Course>)
    ensures SortedByTitle(SortByTitle(s))
  {
    if s != [] {
      SortByTitleSorted(s[..|s| - 1]);
      InsertSorted(SortByTitle(s[..|s| - 1]), s[|s| - 1]);
    }
  }

  /** Insertion never passes over a course with the same title, so ties keep their order. */
  lemma {:induction false} InsertStable(s: seq<Course>, x: Course, t: string)
    ensures Filter(Insert(s, x), TitleIs(t)) == Filter(s, TitleIs(t)) + Filter([x], TitleIs(t))
  {
    var q := TitleIs(t);
    if s == [] || NotAfter(s[|s| - 1].title, x.title) {
      FilterAppend(s, [x], q);
    } else {
      var n := |s| - 1;
      var last := s[n];
      assert Insert(s, x) == Insert(s[..n], x) + [last];
      InsertStable(s[..n], x, t);
      FilterAppend(Insert(s[..n], x), [last], q);
      FilterAppend(s[..n], [last], q);
      assert s[..n] + [last] == s;
      var head, fx, fl := Filter(s[..n], q), Filter([x], q), Filter([last], q);
      assert Filter(Insert(s, x), q) == head + fx + fl;
      assert Filter(s, q) == head + fl;
      FilterSingleton(x, q);
      FilterSingleton(last, q);
      if last.title == t && x.title == t {
        NotAfterReflexive(t);
      }
      if fx == [] {
        assert head + fx == head && (head + fl) + fx == head + fl;
      } else {
        assert fl == [];
        assert (head + fx) + fl == head + fx && head + fl == head;
      }
    }
  }

  /** The sort is stable: courses with equal titles appear in their original order. */
  lemma {:induction false} SortByTitleStable(s: seq<Course>, t: string)
    ensures Filter(SortByTitle(s), TitleIs(t)) == Filter(s, TitleIs(t))
  {
    if s != [] {
      var n := |s| - 1;
      SortByTitleStable(s[..n], t);
      InsertStable(SortByTitle(s[..n]), s[n], t);
      FilterAppend(s[..n], [s[n]], TitleIs(t));
      assert s[..n] + [s[n]] == s;
    }
  }

  /** Sorting a list already in title order returns it unchanged; so sorting is idempotent. */
  lemma {:induction false} SortByTitleOfSorted(s: seq<Course>)
    requires SortedByTitle(s)
    ensures SortByTitle(s) == s
  {
    if s != [] {
      var n := |s| - 1;
      var p := s[..n];
      assert SortedByTitle(p) by {
        forall i, j | 0 <= i < j < n
          ensures NotAfter(p[i].title, p[j].title)
        {
          assert p[i] == s[i] && p[j] == s[j];
        }
      }
      SortByTitleOfSorted(p);
      assert SortByTitle(s) == Insert(p, s[n]);
      if n > 0 {
        assert p[n - 1] == s[n - 1];
        assert NotAfter(p[n - 1].title, s[n].title);
      }
      assert p + [s[n]] == s;
    }
  }

  lemma SortByTitleIdempotent(s: seq<Course>)
    ensures SortByTitle(SortByTitle(s)) == SortByTitle(s)
  {
    SortByTitleSorted(s);
    SortByTitleOfSorted(SortByTitle(s));
  }

  /**
   * Inserting into a list whose tail [j..] lies strictly after x's title
   * is inserting into the head and putting the tail back: the step an
   * in-place insertion makes while it shifts that tail one slot right.
   */
  lemma {:induction false} InsertSkipsTail(s: seq<Course>, x: Course, j: nat)
    requires j <= |s|
    requires forall k :: j <= k < |s| ==> !NotAfter(s[k].title, x.title)
    ensures Insert(s, x) == Insert(s[..j], x) + s[j..]
  {
    if j < |s| {
      var n := |s| - 1;
      var p := s[..n];
      assert !NotAfter(s[n].title, x.title);
      assert Insert(s, x) == Insert(p, x) + [s[n]];
      assert forall k :: j <= k < |p| ==> p[k] == s[k];
      InsertSkipsTail(p, x, j);
      assert p[..j] == s[..j];
      assert p[j..] + [s[n]] == s[j..];
    } else {
      assert s[..j] == s;
    }
  }

  /** Where insertion puts `x`: after the head [0, j) that does not come after it, before the tail that does. */
  lemma InsertLandsAt(s: seq<Course>, x: Course, j: nat)
    requires j <= |s|
    requires j == 0 || NotAfter(s[j - 1].title, x.title)
    requires forall k :: j <= k < |s| ==> !NotAfter(s[k].title, x.title)
    ensures Insert(s, x) == s[..j] + [x] + s[j..]
  {
    InsertSkipsTail(s, x, j);
    assert s[..j] == [] || NotAfter(s[..j][j - 1].title, x.title);
  }
}
