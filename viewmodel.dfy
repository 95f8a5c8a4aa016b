/**
 * `ModuleViewModel.validateModule`: checks the four text fields of the edit
 * form in a fixed order (module number, title, ZP grade, LB grade) and
 * reports the first failure, or nothing when every check passes. A Java
 * `null` argument is `None`.
 */
module ViewModel {
  import opened Wrappers
  import Text
  import Decimal

  /** The six validation failures, one per returned message. */
  datatype ValidationError =
    | ModuleNumberTooShort
    | ModuleTitleTooShort
    | ZpOutOfRange
    | ZpNotANumber
    | LbOutOfRange
    | LbNotANumber

  /** The name of the form field a failure is about, as the messages spell it. */
  function FieldLabel(e: ValidationError): string {
    match e
    case ModuleNumberTooShort => "Modulnummer"
    case ModuleTitleTooShort => "Modultitel"
    case ZpOutOfRange | ZpNotANumber => "ZP-Note"
    case LbOutOfRange | LbNotANumber => "LB-Note"
  }

  /**
   * The message `validateModule` returns for each failure. It opens with the
   * name of the field it is about, the name the edit screen looks for in it.
   */
  function Message(e: ValidationError): (m: string)
    ensures FieldLabel(e) <= m
  {
    FieldLabel(e) + match e
      case ModuleNumberTooShort | ModuleTitleTooShort => " muss mindestens 4 Zeichen lang sein"
      case ZpOutOfRange | LbOutOfRange => " muss zwischen 1.0 und 6.0 liegen"
      case ZpNotANumber | LbNotANumber => " muss eine gültige Zahl sein"
  }

  /** A message opens with the name of exactly one field: no other field's name opens it. */
  lemma MessageNamesOneField(e: ValidationError, other: ValidationError)
    requires FieldLabel(other) <= Message(e)
    ensures FieldLabel(other) == FieldLabel(e)
  {
    var m := Message(e);
    var b := FieldLabel(other);
    assert b[0] == m[0] && b[5] == m[5];
  }

  /** Different failures have different messages. */
  lemma MessagesDistinct(e: ValidationError, other: ValidationError)
    requires e != other
    ensures Message(e) != Message(other)
  {
    var m, n := Message(e), Message(other);
    var a, b := FieldLabel(e), FieldLabel(other);
    if a == b {
      assert m[|a| + 6] != n[|a| + 6];
    } else if m == n {
      assert b <= m;
      MessageNamesOneField(e, other);
    }
  }

  /** Minimum length of the trimmed module number and title. */
  const MinLength := 4

  /** Non-null, and at least `MinLength` characters once trimmed. */
  predicate LongEnough(s: Option<string>) {
    s.Some? && |Text.Trim(s.value)| >= MinLength
  }

  /** A grade field that is null or empty is not checked: grades are optional. */
  predicate Blank(g: Option<string>) {
    g.None? || g.value == []
  }

  /** The allowed grade range, bounds included. */
  predicate InRange(v: real) {
    1.0 <= v <= 6.0
  }

  /** A grade field passes: blank, or a number within the range. */
  predicate GradeAccepted(g: Option<string>) {
    Blank(g) || (Decimal.ParseGrade(g.value).Some? && InRange(Decimal.ParseGrade(g.value).value))
  }

  /** The check of one optional grade field, with that field's two failures. */
  function CheckGrade(g: Option<string>, outOfRange: ValidationError, notANumber: ValidationError)
    : (r: Option<ValidationError>)
    requires outOfRange != notANumber
    ensures r.None? <==> GradeAccepted(g)
    ensures r == Some(notANumber) ==> !Blank(g) && Decimal.ParseGrade(g.value).None?
    ensures !Blank(g) && Decimal.ParseGrade(g.value).None? ==> r == Some(notANumber)
    ensures (!Blank(g) && Decimal.ParseGrade(g.value).Some? && !InRange(Decimal.ParseGrade(g.value).value))
              ==> r == Some(outOfRange)
    ensures r.Some? ==> r == Some(notANumber) || r == Some(outOfRange)
  {
    if Blank(g) then None
    else
      match Decimal.ParseGrade(g.value)
      case None => Some(notANumber)
      case Some(v) => if v < 1.0 || v > 6.0 then Some(outOfRange) else None
  }

  /**
   * `validateModule(moduleNumber, moduleTitle, zpNote, lbNote)`: the first
   * failing check in the order number, title, ZP, LB; `None` exactly when
   * all four pass.
   */
  function ValidateModule(number: Option<string>, title: Option<string>, zp: Option<string>, lb: Option<string>)
    : (r: Option<ValidationError>)
    ensures r.None? <==> LongEnough(number) && LongEnough(title) && GradeAccepted(zp) && GradeAccepted(lb)
    ensures r == Some(ModuleNumberTooShort) <==> !LongEnough(number)
    ensures r == Some(ModuleTitleTooShort) <==> LongEnough(number) && !LongEnough(title)
    ensures r == Some(ZpNotANumber) <==>
              LongEnough(number) && LongEnough(title) && !Blank(zp) && Decimal.ParseGrade(zp.value).None?
    ensures r == Some(ZpOutOfRange) <==>
              LongEnough(number) && LongEnough(title) && !Blank(zp) && Decimal.ParseGrade(zp.value).Some?
              && !InRange(Decimal.ParseGrade(zp.value).value)
    ensures r == Some(LbNotANumber) <==>
              LongEnough(number) && LongEnough(title) && GradeAccepted(zp)
              && !Blank(lb) && Decimal.ParseGrade(lb.value).None?
    ensures r == Some(LbOutOfRange) <==>
              LongEnough(number) && LongEnough(title) && GradeAccepted(zp)
              && !Blank(lb) && Decimal.ParseGrade(lb.value).Some? && !InRange(Decimal.ParseGrade(lb.value).value)
  {
    if number.None? || |Text.Trim(number.value)| < MinLength then Some(ModuleNumberTooShort)
    else if title.None? || |Text.Trim(title.value)| < MinLength then Some(ModuleTitleTooShort)
    else
      var zpCheck := CheckGrade(zp, ZpOutOfRange, ZpNotANumber);
      if zpCheck.Some? then zpCheck else CheckGrade(lb, LbOutOfRange, LbNotANumber)
  }

  /** Once a check fails, nothing the later checks look at changes the result. */
  lemma FirstFailureWins(
    number: Option<string>, title: Option<string>, zp: Option<string>, lb: Option<string>,
    title': Option<string>, zp': Option<string>, lb': Option<string>)
    ensures !LongEnough(number) ==> ValidateModule(number, title, zp, lb) == ValidateModule(number, title', zp', lb')
    ensures LongEnough(number) && !LongEnough(title) ==>
              ValidateModule(number, title, zp, lb) == ValidateModule(number, title, zp', lb')
    ensures LongEnough(number) && LongEnough(title) && !GradeAccepted(zp) ==>
              ValidateModule(number, title, zp, lb) == ValidateModule(number, title, zp, lb')
  {
  }

  /** The grade bounds 1.0 and 6.0 themselves are accepted; 0.9 and 6.1 are not. */
  lemma GradeBounds()
    ensures GradeAccepted(Some("1.0")) && GradeAccepted(Some("6.0"))
    ensures !GradeAccepted(Some("0.9")) && !GradeAccepted(Some("6.1"))
  {
    TenthsGradeAccepted(10, "1.0");
    TenthsGradeAccepted(60, "6.0");
    TenthsGradeAccepted(9, "0.9");
    TenthsGradeAccepted(61, "6.1");
  }

  /** A "d.d" grade text passes exactly when its value in tenths is in [10, 60]. */
  lemma TenthsGradeAccepted(n: nat, text: string)
    requires n < 100 && |text| == 3
    requires text[0] == Decimal.Digit(n / 10) && text[1] == '.' && text[2] == Decimal.Digit(n % 10)
    ensures GradeAccepted(Some(text)) <==> 10 <= n <= 60
  {
    Decimal.TenthsText(n, text);
  }

  /** Every grade written with one decimal place is accepted exactly when it lies in [1.0, 6.0]. */
  lemma TenthsAcceptedIffInRange(n: nat)
    ensures GradeAccepted(Some(Decimal.FormatTenths(n))) <==> 10 <= n <= 60
  {
    Decimal.FormatTenthsRoundTrip(n);
  }

  /** In the plain-decimal grammar of the model, text with a letter in it is never a grade: the field's "valid number" failure. */
  lemma LetterGradeRejected(number: string, title: string, g: string, i: int)
    requires |Text.Trim(number)| >= MinLength && |Text.Trim(title)| >= MinLength
    requires 0 <= i < |g| && ('a' <= g[i] <= 'z' || 'A' <= g[i] <= 'Z')
    ensures ValidateModule(Some(number), Some(title), Some(g), None) == Some(ZpNotANumber)
    ensures ValidateModule(Some(number), Some(title), None, Some(g)) == Some(LbNotANumber)
  {
    Decimal.NonNumericRejected(g, i);
  }

  /** The inputs of the module-number unit test: "M12" is too short, "M123" with a title and no grades passes. */
  lemma ModuleNumberExamples()
    ensures ValidateModule(Some("M12"), Some("Test Module"), None, None) == Some(ModuleNumberTooShort)
    ensures ValidateModule(Some("M123"), Some("Test Module"), None, None) == None
    ensures ValidateModule(Some("M123"), Some("Test Module"), Some(""), Some("")) == None
    ensures ValidateModule(None, None, None, None) == Some(ModuleNumberTooShort)
  {
    Text.TrimUnpadded("M12");
    Text.TrimUnpadded("M123");
    Text.TrimUnpadded("Test Module");
  }
}
