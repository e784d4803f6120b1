/**
  The form that records or edits a contribution (src/components/ContributionForm.jsx): the
  values it starts from, the effect that selects the first traveler once travelers are known,
  the check made on submit, and the record it passes on.

  The amount field holds the stored number when an existing contribution is edited and the
  text of the number input once it is typed into; `FieldValue` keeps both. Today's date comes
  from the clock and is a parameter.
*/
module ContributionForm {
  import opened Builtins
  import opened Records

  /** The form's state: traveler id, amount, date, note. */
  datatype Form = Form(travelerId: string, amount: FieldValue, date: string, note: string)

  /** What `onSave` receives: the form with the amount turned into a number. */
  datatype Submission = Submission(travelerId: string, amount: JsNumber, date: string, note: string)

  const InvalidMessage: string := "Selecciona un viajero y un monto válido."

  /** The initial state (ContributionForm.jsx:6-11): each field from the edited contribution,
      else the first traveler's id, an empty amount, today and an empty note. */
  function InitialForm(travelers: seq<Traveler>, contribution: Option<Contribution>, today: string): (f: Form)
    ensures contribution.Some? ==> && f.travelerId == contribution.value.travelerId
                                   && f.amount == Num(contribution.value.amount)
                                   && f.date == contribution.value.date
                                   && f.note == (if contribution.value.note.Some? then contribution.value.note.value else "")
    ensures contribution.None? ==> && f.travelerId == (if travelers != [] then travelers[0].id else "")
                                   && f.amount == Text("") && f.date == today && f.note == ""
  {
    match contribution
    case Some(c) => Form(c.travelerId, Num(c.amount), c.date, c.note.OrElse(""))
    case None =>
      var first := if travelers != [] then Some(travelers[0].id) else None;
      Form(first.OrElse(""), Text(""), today, "")
  }

  /** The effect on a change of travelers (ContributionForm.jsx:15-19): an empty traveler id
      becomes the first traveler's id, when there is one; nothing else changes. */
  function SyncTraveler(f: Form, travelers: seq<Traveler>): (r: Form)
    ensures r.amount == f.amount && r.date == f.date && r.note == f.note
    ensures f.travelerId == [] && travelers != [] ==> r.travelerId == travelers[0].id
    ensures f.travelerId != [] || travelers == [] ==> r == f
  {
    if f.travelerId == [] && travelers != [] then f.(travelerId := travelers[0].id) else f
  }

  /** Running the effect again changes nothing. */
  lemma SyncTravelerIdempotent(f: Form, travelers: seq<Traveler>)
    ensures SyncTraveler(SyncTraveler(f, travelers), travelers) == SyncTraveler(f, travelers)
  {
  }

  /** A new-contribution form opened before the travelers arrived ends, once they arrive, in
      the state it would have had if they had been known from the start. */
  lemma SyncCatchesUp(travelers: seq<Traveler>, today: string)
    ensures SyncTraveler(InitialForm([], None, today), travelers) == InitialForm(travelers, None, today)
  {
  }

  /** `handleSubmit` (ContributionForm.jsx:26-34): rejected without a traveler, with a falsy
      amount, or with an amount whose number is at most 0; otherwise the form with its amount
      as a number. An amount that is not a number (NaN) passes, as `NaN <= 0` is false. */
  function Submit(f: Form): (r: Outcome<Submission>)
    ensures r.Reject? <==> || f.travelerId == []
                           || !Truthy(f.amount)
                           || (ToNumber(f.amount).Finite? && ToNumber(f.amount).value <= 0)
    ensures r.Reject? ==> r.message == InvalidMessage
    ensures r.Accept? ==> && r.record.travelerId == f.travelerId
                          && r.record.amount == ToNumber(f.amount)
                          && r.record.date == f.date && r.record.note == f.note
  {
    var n := ToNumber(f.amount);
    if f.travelerId == [] || !Truthy(f.amount) || (n.Finite? && n.value <= 0) then Reject(InvalidMessage)
    else Accept(Submission(f.travelerId, n, f.date, f.note))
  }

  /** The falsy-amount test adds nothing: a form is rejected exactly when it has no traveler
      or its amount is a number at most 0. */
  lemma RejectIffNotPositive(f: Form)
    ensures Submit(f).Reject? <==> f.travelerId == [] || (ToNumber(f.amount).Finite? && ToNumber(f.amount).value <= 0)
  {
    if !Truthy(f.amount) {
      FalsyIsZero(f.amount);
    }
  }

  /** Typing the decimal text of a whole amount saves that amount, and is accepted exactly when
      a traveler is chosen and the amount is positive. */
  lemma TypedAmount(f: Form, n: int)
    requires f.amount == Text(IntToDecimal(n))
    ensures Submit(f).Accept? <==> f.travelerId != [] && n > 0
    ensures Submit(f).Accept? ==> Submit(f).record.amount == Finite(n)
  {
    DecimalRoundTrip(n);
  }

  /** Saving an edit form unchanged passes the contribution's own values on (a null note becomes
      the empty note), and is accepted exactly when the contribution has a traveler id and a
      positive amount. */
  lemma ResubmitEdit(travelers: seq<Traveler>, c: Contribution, today: string)
    ensures Submit(InitialForm(travelers, Some(c), today)).Accept? <==> c.travelerId != [] && c.amount > 0
    ensures Submit(InitialForm(travelers, Some(c), today)).Accept? ==>
              Submit(InitialForm(travelers, Some(c), today)).record
                == Submission(c.travelerId, Finite(c.amount), c.date, c.note.OrElse(""))
  {
  }
}
