/**
 * The server-side check of the enrolment-instance settings form: the
 * enrolment end date may not precede the start date, and the cost must be
 * a number once the site language's decimal separator is read as a point.
 */
module EditForm {
  import opened PhpStrings
  import opened PhpNumeric

  const EndDateKey := "enrolenddate"
  const CostKey := "cost"
  const EndDateError := "Enrolment end date cannot be before the start date"
  const CostError := "The course fee entered is not a valid number"

  /**
   * The submitted values the check reads: the two optional dates (0 when the
   * date selector is switched off) and the cost exactly as typed.
   */
  datatype Dates = Dates(enrolStartDate: int, enrolEndDate: int)

  /** A set end date that lies before the start date. */
  predicate EndBeforeStart(d: Dates) {
    d.enrolEndDate != 0 && d.enrolEndDate < d.enrolStartDate
  }

  /** The typed cost reads as a number once the local decimal separator becomes a point. */
  predicate CostReadable(cost: string, decsep: char) {
    IsNumeric(ReplaceChar(cost, decsep, '.'))
  }

  /**
   * validation(): the errors the base form reported, with an end-date error
   * and a cost error added where they apply. Both overwrite an error the base
   * form gave under the same name; every other error is kept as it was.
   */
  function Validation(errors: map<string, string>, d: Dates, cost: string, decsep: char): (r: map<string, string>)
    ensures EndBeforeStart(d) ==> EndDateKey in r && r[EndDateKey] == EndDateError
    ensures !CostReadable(cost, decsep) ==> CostKey in r && r[CostKey] == CostError
    ensures forall k :: k in errors ==> k in r
    ensures forall k :: k in r && k !in errors ==>
      (k == EndDateKey && EndBeforeStart(d)) || (k == CostKey && !CostReadable(cost, decsep))
    ensures forall k :: k in errors && k != EndDateKey && k != CostKey ==> r[k] == errors[k]
    ensures !EndBeforeStart(d) && EndDateKey in errors ==> r[EndDateKey] == errors[EndDateKey]
    ensures CostReadable(cost, decsep) && CostKey in errors ==> r[CostKey] == errors[CostKey]
  {
    var dated := if EndBeforeStart(d) then errors[EndDateKey := EndDateError] else errors;
    if !CostReadable(cost, decsep) then dated[CostKey := CostError] else dated
  }

  /**
   * When the base form found nothing, the form passes exactly when the end
   * date is unset or not before the start date and the cost is readable.
   */
  lemma ValidationPasses(d: Dates, cost: string, decsep: char)
    ensures Validation(map[], d, cost, decsep) == map[] <==> !EndBeforeStart(d) && CostReadable(cost, decsep)
  {
    var r := Validation(map[], d, cost, decsep);
    if EndBeforeStart(d) {
      assert EndDateKey in r;
    } else if !CostReadable(cost, decsep) {
      assert CostKey in r;
    }
  }

  /**
   * When the base form reported no date error, a date error appears exactly
   * when the end date is set and strictly before the start date: an end
   * date switched off (0), or equal to the start date, is accepted.
   */
  lemma EndDateRule(errors: map<string, string>, d: Dates, cost: string, decsep: char)
    requires EndDateKey !in errors
    ensures EndDateKey in Validation(errors, d, cost, decsep) <==> d.enrolEndDate != 0 && d.enrolEndDate < d.enrolStartDate
    ensures d.enrolEndDate == 0 || d.enrolEndDate == d.enrolStartDate ==> EndDateKey !in Validation(errors, d, cost, decsep)
  {
    assert EndDateKey != CostKey;
  }

  /**
   * A cost written with the local decimal separator, say "12,50" where it
   * is a comma, is accepted; so is one written with a point.
   */
  lemma LocalDecimalAccepted(whole: nat, fraction: string, mark: char, decsep: char)
    requires AllDigits(fraction) && |fraction| > 0 && !IsDigit(decsep)
    requires mark == decsep || mark == '.'
    ensures CostReadable(NatToString(whole) + [mark] + fraction, decsep)
  {
    var digits := NatToString(whole);
    var cost := digits + [mark] + fraction;
    var read := ReplaceChar(cost, decsep, '.');
    forall i | 0 <= i < |cost|
      ensures read[i] == UnsignedText(whole, fraction)[i]
    {
      if i < |digits| {
        assert cost[i] == digits[i];
      } else if i > |digits| {
        assert cost[i] == fraction[i - |digits| - 1];
      }
    }
    assert read == DecimalText(false, whole, fraction);
    DecimalTextLiteral(false, whole, fraction);
  }

  /**
   * A cost holding any other character that cannot appear in a number, such
   * as a thousands separator or the other convention's decimal mark ("1,000"
   * where the separator is a point), is rejected.
   */
  lemma ForeignMarkRejected(cost: string, decsep: char, i: nat)
    requires i < |cost| && cost[i] != decsep && !NumeralChar(cost[i])
    ensures !CostReadable(cost, decsep)
  {
    var read := ReplaceChar(cost, decsep, '.');
    assert read[i] == cost[i];
    assert !NumeralChars(read);
    if IsNumeric(read) {
      NumericChars(read);
    }
  }
}
