/**
 The terms-of-use page. It reads the picked time and booth from its address, lets the visitor
 tick the individual terms or the "agree to all" box, keeps the next button enabled only while
 the required term is ticked, and hands the time and booth on to the attendee-info page.
 */
module Terms {
  import opened Wrappers

  /** Every box of `states` is ticked (`Array.prototype.every`). */
  predicate AllChecked(states: seq<bool>)
  {
    forall k :: 0 <= k < |states| ==> states[k]
  }

  /** `${value}` for a query parameter: the parameter's text, or `null` when it is absent. */
  function ParamText(value: Option<string>): string
  {
    match value
    case Some(v) => v
    case None => "null"
  }

  /** `./info.html?time=${selectedTime}&booth=${boothId}`. */
  function InfoUrl(time: string, booth: Option<string>): string
  {
    "./info.html?time=" + time + "&booth=" + ParamText(booth)
  }

  class TermsPage {
    /** `.individual-term-check`: the ticked state of each individual term, in page order. */
    const individual: array<bool>
    /** The place of the required term `#term1-agree` among the individual terms, or `None`
        when it is a box of its own outside that class. */
    const requiredAt: Option<nat>
    /** The required term's own box, when it is not one of the individual terms. */
    var separateRequired: bool
    /** `#terms-agree`, the "agree to all" box. */
    var agreeAll: bool
    /** `nextStepBtn.disabled`. */
    var nextDisabled: bool
    /** The `time` parameter of the address, known to be non-empty. */
    const time: string
    /** The `booth` parameter of the address. */
    const booth: Option<string>

    /** The required term names a box that exists. */
    predicate WellFormed()
    {
      requiredAt.Some? ==> requiredAt.value < individual.Length
    }

    /** `requiredTerm.checked`. */
    predicate RequiredChecked()
      requires WellFormed()
      reads this, individual
    {
      match requiredAt
      case Some(i) => individual[i]
      case None => separateRequired
    }

    /** The page's promise when the required term is one of the individual terms: the next
        button is enabled exactly when the required term is ticked, and the "agree to all" box
        is ticked exactly when every individual term is. */
    ghost predicate Consistent()
      reads this, individual
    {
      && WellFormed()
      && requiredAt.Some?
      && nextDisabled == !RequiredChecked()
      && agreeAll == AllChecked(individual[..])
    }

    constructor (time: string, booth: Option<string>, individual: array<bool>,
                 requiredAt: Option<nat>, separateRequired: bool, agreeAll: bool,
                 nextDisabled: bool)
      requires requiredAt.Some? ==> requiredAt.value < individual.Length
      ensures WellFormed()
      ensures this.time == time && this.booth == booth && this.individual == individual
      ensures this.requiredAt == requiredAt && this.separateRequired == separateRequired
      ensures this.agreeAll == agreeAll && this.nextDisabled == nextDisabled
    {
      this.time := time;
      this.booth := booth;
      this.individual := individual;
      this.requiredAt := requiredAt;
      this.separateRequired := separateRequired;
      this.agreeAll := agreeAll;
      this.nextDisabled := nextDisabled;
    }

    /** `checkRequiredTerm`: the next button is disabled exactly when the required term is not
        ticked, and the "agree to all" box is ticked exactly when every individual term is; the
        terms themselves are left alone. */
    method CheckRequiredTerm()
      requires WellFormed()
      modifies this
      ensures nextDisabled == !RequiredChecked()
      ensures agreeAll == AllChecked(individual[..])
      ensures separateRequired == old(separateRequired)
      ensures requiredAt.Some? ==> Consistent()
    {
      nextDisabled := !RequiredChecked();
      var all := true;
      var k := 0;
      while k < individual.Length && all
        invariant 0 <= k <= individual.Length
        invariant all <==> forall j :: 0 <= j < k ==> individual[j]
      {
        all := individual[k];
        k := k + 1;
      }
      agreeAll := all;
    }

    /** A change of the individual term at `i` to `checked`: the box flips, then
        `checkRequiredTerm` runs. */
    method ChangeIndividual(i: nat, checked: bool)
      requires WellFormed() && i < individual.Length
      modifies this, individual
      ensures individual[..] == old(individual[..])[i := checked]
      ensures separateRequired == old(separateRequired)
      ensures nextDisabled == !RequiredChecked()
      ensures agreeAll == AllChecked(individual[..])
      ensures requiredAt.Some? ==> Consistent()
    {
      individual[i] := checked;
      CheckRequiredTerm();
    }

    /** A change of a required term that is not one of the individual terms: no handler listens
        to it, so only the box itself changes and the next button stays as it was. */
    method ChangeSeparateRequired(checked: bool)
      requires WellFormed() && requiredAt.None?
      modifies this
      ensures separateRequired == checked && RequiredChecked() == checked
      ensures nextDisabled == old(nextDisabled) && agreeAll == old(agreeAll)
    {
      separateRequired := checked;
    }

    /** A change of the "agree to all" box to `checked`: every individual term takes that state
        and the next button is enabled exactly when the box is ticked. When the required term is
        one of the individual terms, the page stays consistent. */
    method ToggleAgreeAll(checked: bool)
      requires WellFormed()
      modifies this, individual
      ensures agreeAll == checked && nextDisabled == !checked
      ensures forall k :: 0 <= k < individual.Length ==> individual[k] == checked
      ensures separateRequired == old(separateRequired)
      ensures requiredAt.Some? ==> Consistent()
    {
      agreeAll := checked;
      var k := 0;
      while k < individual.Length
        invariant 0 <= k <= individual.Length
        invariant forall j :: 0 <= j < k ==> individual[j] == checked
        invariant agreeAll == checked && separateRequired == old(separateRequired)
      {
        individual[k] := checked;
        k := k + 1;
      }
      nextDisabled := !checked;
    }

    /** The next button's handler: refused (`None`) while the button is disabled, otherwise the
        attendee-info page's address carrying the time and the booth. */
    method Next() returns (next: Option<string>)
      ensures next.Some? <==> !nextDisabled
      ensures next.Some? ==> next.value == InfoUrl(time, booth)
    {
      if nextDisabled {
        return None;
      }
      next := Some(InfoUrl(time, booth));
    }
  }

  /** The page's set-up: without a non-empty `time` parameter it stops (`null`, and the visitor is
      sent back to the slot page); otherwise it runs `checkRequiredTerm` once, so a page whose
      required term is one of the individual terms starts consistent. */
  method Load(time: Option<string>, booth: Option<string>, individual: array<bool>,
              requiredAt: Option<nat>, separateRequired: bool, agreeAll: bool, nextDisabled: bool)
      returns (page: TermsPage?)
    requires requiredAt.Some? ==> requiredAt.value < individual.Length
    ensures page == null <==> time.None? || time.value == ""
    ensures page != null ==>
              && fresh(page) && page.WellFormed()
              && page.time == time.value && page.booth == booth && page.individual == individual
              && page.nextDisabled == !page.RequiredChecked()
              && page.agreeAll == AllChecked(individual[..])
              && (requiredAt.Some? ==> page.Consistent())
  {
    if time.None? || time.value == "" {
      return null;
    }
    page := new TermsPage(time.value, booth, individual, requiredAt, separateRequired, agreeAll,
                          nextDisabled);
    page.CheckRequiredTerm();
  }
}
