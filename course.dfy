/** The IllegalArgumentException cases of the catalogue, one per message. */
module Exceptions {

  datatype Error =
    | IdTooShort           // "ID must have at least 3 characters"
    | IdNotAlphanumeric    // "ID must contain only letters or digits"
    | TitleEmpty           // "Title must not be empty"
    | CreditNotPositive    // "Credit must be greater than 0"
    | DuplicateId          // "This course ID already exists"
    | CapacityNotPositive  // "Length of the array must be greater than 0"

  /** A void call that either returns normally or throws. */
  datatype Outcome = Pass | Fail(error: Error)

  /** A value-returning call that either returns `value` or throws. */
  datatype Result<+T> = Success(value: T) | Failure(error: Error)
}

/** A course record whose setters re-validate the field they assign. */
module Courses {
  import opened JavaStrings
  import opened Exceptions

  /**
   * An id has a length() of at least 3 and only ASCII letters or digits;
   * such an id has as many characters as UTF-16 code units.
   */
  predicate ValidId(id: string) {
    Utf16Length(id) >= 3 && AllLettersOrDigits(id)
  }

  /** A valid id has at least three characters, each one UTF-16 code unit. */
  lemma ValidIdLength(id: string)
    requires ValidId(id)
    ensures |id| >= 3 && Utf16Length(id) == |id|
  {
    Utf16LengthOfBmp(id);
  }

  predicate ValidTitle(title: string) {
    title != []
  }

  predicate ValidCredit(credit: int) {
    credit > 0
  }

  /** The checks of setId, in the order they are made. */
  function CheckId(id: string): (r: Outcome)
    ensures r.Pass? <==> ValidId(id)
    ensures r.Fail? ==> (r.error == IdTooShort <==> Utf16Length(id) < 3)
    ensures r.Fail? ==> r.error in {IdTooShort, IdNotAlphanumeric}
  {
    if Utf16Length(id) < 3 then Fail(IdTooShort)
    else if !AllLettersOrDigits(id) then Fail(IdNotAlphanumeric)
    else Pass
  }

  /**
   * The length test counts UTF-16 code units: a letter followed by a
   * supplementary character is long enough and fails the character test.
   */
  lemma CheckIdCountsCodeUnits()
    ensures CheckId("a\U{1F600}") == Fail(IdNotAlphanumeric)
    ensures CheckId("ab") == Fail(IdTooShort)
  {
    assert Utf16Length("a\U{1F600}") == 3 by {
      assert "a\U{1F600}"[1..] == "\U{1F600}" && "\U{1F600}"[1..] == [];
    }
    assert !IsLetterOrDigit("a\U{1F600}"[1]);
  }

  function CheckTitle(title: string): (r: Outcome)
    ensures r.Pass? <==> ValidTitle(title)
    ensures r.Fail? ==> r.error == TitleEmpty
  {
    if title == [] then Fail(TitleEmpty) else Pass
  }

  function CheckCredit(credit: int): (r: Outcome)
    ensures r.Pass? <==> ValidCredit(credit)
    ensures r.Fail? ==> r.error == CreditNotPositive
  {
    if credit <= 0 then Fail(CreditNotPositive) else Pass
  }

  /**
   * A course. The getters of the record are the fields themselves;
   * `department` is free-form.
   */
  class Course {
    var id: string
    var title: string
    var credit: int
    var department: string

    /** What the validating setters guarantee of the three checked fields. */
    ghost predicate Valid()
      reads this
    {
      ValidId(id) && ValidTitle(title) && ValidCredit(credit)
    }

    /** The no-argument constructor; Java's null strings are stood in for by "". */
    constructor ()
      ensures id == "" && title == "" && credit == 0 && department == ""
      ensures !Valid()
    {
      id, title, credit, department := "", "", 0, "";
    }

    /**
     * The four-argument constructor: setId, setTitle and setCredit in this
     * order, so the first failing check is the one reported; the department
     * is stored without a check.
     */
    static method Create(id: string, title: string, credit: int, department: string)
      returns (r: Result<Course>)
      ensures r.Success? <==> ValidId(id) && ValidTitle(title) && ValidCredit(credit)
      ensures CheckId(id).Fail? ==> r == Failure(CheckId(id).error)
      ensures CheckId(id).Pass? && CheckTitle(title).Fail? ==> r == Failure(CheckTitle(title).error)
      ensures CheckId(id).Pass? && CheckTitle(title).Pass? && CheckCredit(credit).Fail? ==>
                r == Failure(CheckCredit(credit).error)
      ensures r.Success? ==> fresh(r.value) && r.value.Valid()
      ensures r.Success? ==> r.value.id == id && r.value.title == title &&
                             r.value.credit == credit && r.value.department == department
    {
      var c := new Course();
      var o := c.SetId(id);
      if o.Fail? {
        return Failure(o.error);
      }
      o := c.SetTitle(title);
      if o.Fail? {
        return Failure(o.error);
      }
      o := c.SetCredit(credit);
      if o.Fail? {
        return Failure(o.error);
      }
      c.department := department;
      r := Success(c);
    }

    /** setId: throws before assigning, so a failed call changes nothing. */
    method SetId(newId: string) returns (r: Outcome)
      modifies this
      ensures r == CheckId(newId)
      ensures id == (if r.Pass? then newId else old(id))
      ensures title == old(title) && credit == old(credit) && department == old(department)
      ensures old(Valid()) ==> Valid()
    {
      r := CheckId(newId);
      if r.Pass? {
        id := newId;
      }
    }

    /** setTitle: throws on the empty title, otherwise stores it. */
    method SetTitle(newTitle: string) returns (r: Outcome)
      modifies this
      ensures r == CheckTitle(newTitle)
      ensures title == (if r.Pass? then newTitle else old(title))
      ensures id == old(id) && credit == old(credit) && department == old(department)
      ensures old(Valid()) ==> Valid()
    {
      r := CheckTitle(newTitle);
      if r.Pass? {
        title := newTitle;
      }
    }

    /** setCredit: throws on a credit of 0 or less, so a stored credit is at least 1. */
    method SetCredit(newCredit: int) returns (r: Outcome)
      modifies this
      ensures r == CheckCredit(newCredit)
      ensures credit == (if r.Pass? then newCredit else old(credit))
      ensures r.Pass? ==> credit >= 1
      ensures id == old(id) && title == old(title) && department == old(department)
      ensures old(Valid()) ==> Valid()
    {
      r := CheckCredit(newCredit);
      if r.Pass? {
        credit := newCredit;
      }
    }

    /** setDepartment: any string is accepted and only the department changes. */
    method SetDepartment(newDepartment: string)
      modifies this
      ensures department == newDepartment
      ensures id == old(id) && title == old(title) && credit == old(credit)
      ensures Valid() == old(Valid())
    {
      department := newDepartment;
    }
  }
}
