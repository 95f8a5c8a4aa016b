/**
 * The `Module` entity: a school module with its number (the primary key),
 * its title and two optional grades, the ZP grade (interim exam) and the LB
 * grade (performance assessment). Grades are exact reals.
 */
module Model {
  import opened Wrappers

  /** The column values of one row of the `modules` table. */
  datatype ModuleRecord = ModuleRecord(
    moduleNumber: string,
    moduleTitle: string,
    zpNote: Option<real>,
    lbNote: Option<real>)

  /** Both grades are present. */
  predicate BothGrades(zp: Option<real>, lb: Option<real>) {
    zp.Some? && lb.Some?
  }

  /**
   * The average grade: present exactly when both grades are, and then the
   * midpoint of the two, equally far from each and between them.
   */
  function Average(zp: Option<real>, lb: Option<real>): (r: Option<real>)
    ensures r.Some? <==> BothGrades(zp, lb)
    ensures r.Some? ==> r.value - zp.value == lb.value - r.value
    ensures r.Some? && zp.value <= lb.value ==> zp.value <= r.value <= lb.value
    ensures r.Some? && lb.value <= zp.value ==> lb.value <= r.value <= zp.value
  {
    if zp.Some? && lb.Some? then Some((zp.value + lb.value) / 2.0) else None
  }

  /** Two grades within [1.0, 6.0] have an average within [1.0, 6.0]. */
  lemma AverageOfValidGrades(zp: real, lb: real)
    requires 1.0 <= zp <= 6.0 && 1.0 <= lb <= 6.0
    ensures Average(Some(zp), Some(lb)).Some?
    ensures 1.0 <= Average(Some(zp), Some(lb)).value <= 6.0
  {
  }

  /** The averages the unit tests expect. */
  lemma AverageExamples()
    ensures Average(Some(5.0), Some(5.5)) == Some(5.25)
    ensures Average(Some(4.5), Some(5.0)) == Some(4.75)
    ensures Average(None, None) == None
  {
  }

  class Module {
    var moduleNumber: string
    var moduleTitle: string
    var zpNote: Option<real>
    var lbNote: Option<real>

    /** A new module has the given number and title and no grades. */
    constructor (number: string, title: string)
      ensures moduleNumber == number && moduleTitle == title
      ensures zpNote == None && lbNote == None
    {
      moduleNumber := number;
      moduleTitle := title;
      zpNote := None;
      lbNote := None;
    }

    method SetModuleNumber(number: string)
      modifies this
      ensures moduleNumber == number
      ensures moduleTitle == old(moduleTitle) && zpNote == old(zpNote) && lbNote == old(lbNote)
    {
      moduleNumber := number;
    }

    method SetModuleTitle(title: string)
      modifies this
      ensures moduleTitle == title
      ensures moduleNumber == old(moduleNumber) && zpNote == old(zpNote) && lbNote == old(lbNote)
    {
      moduleTitle := title;
    }

    method SetZpNote(grade: Option<real>)
      modifies this
      ensures zpNote == grade
      ensures moduleNumber == old(moduleNumber) && moduleTitle == old(moduleTitle) && lbNote == old(lbNote)
    {
      zpNote := grade;
    }

    method SetLbNote(grade: Option<real>)
      modifies this
      ensures lbNote == grade
      ensures moduleNumber == old(moduleNumber) && moduleTitle == old(moduleTitle) && zpNote == old(zpNote)
    {
      lbNote := grade;
    }

    /** `hasAllGrades()`: both grades are set, which is exactly when the module has an average. */
    predicate HasAllGrades()
      reads this
      ensures HasAllGrades() <==> zpNote != None && lbNote != None
      ensures HasAllGrades() <==> Average(zpNote, lbNote).Some?
    {
      BothGrades(zpNote, lbNote)
    }

    /** `getAverageGrade()`: present exactly when the module has all grades. */
    function AverageGrade(): (r: Option<real>)
      reads this
      ensures r.Some? <==> HasAllGrades()
      ensures r.Some? ==> r.value - zpNote.value == lbNote.value - r.value
    {
      Average(zpNote, lbNote)
    }

    /** The row that storing this module writes: a copy of its current field values. */
    function Record(): (r: ModuleRecord)
      reads this
      ensures r.moduleNumber == moduleNumber
      ensures Average(r.zpNote, r.lbNote) == AverageGrade()
    {
      ModuleRecord(moduleNumber, moduleTitle, zpNote, lbNote)
    }
  }

  /** Test case 3 of the unit tests, on the class. */
  method GradeUpdateScenario() returns (before: Option<real>, completeBefore: bool, after: Option<real>, complete: bool)
    ensures before == None && !completeBefore
    ensures after == Some(4.75) && complete
  {
    var m := new Module("M456", "Bestehendes Modul");
    before := m.AverageGrade();
    completeBefore := m.HasAllGrades();
    m.SetZpNote(Some(4.5));
    m.SetLbNote(Some(5.0));
    after := m.AverageGrade();
    complete := m.HasAllGrades();
  }
}
