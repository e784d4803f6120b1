/**
  The form that creates or edits the trip (src/components/TripForm.jsx): the currencies it
  offers, the values it starts from, the required-field check on submit, and the record it
  passes on, in which an empty goal and an empty date become null.
*/
module TripForm {
  import opened Builtins
  import opened Records
  import Dashboard

  /** The currencies of the selector (TripForm.jsx:3). */
  const Currencies: seq<string> := ["COP", "USD", "EUR", "MXN", "ARS", "BRL", "PEN", "CLP"]

  const DefaultCurrency: string := "COP"

  /** The form's state; the goal is the stored number or the text typed into its number input. */
  datatype TripFormState = TripFormState(
    name: string,
    destination: string,
    currency: string,
    targetAmount: FieldValue,
    tripDate: string)

  /** What `onSave` receives. */
  datatype TripRecord = TripRecord(
    name: string,
    destination: string,
    currency: string,
    targetAmount: Option<JsNumber>,
    tripDate: Option<string>)

  const RequiredMessage: string := "El nombre y destino son obligatorios."

  /** The eight codes are distinct, and the default is one of them. */
  lemma CurrencyList()
    ensures |Currencies| == 8
    ensures forall i, j :: 0 <= i < j < |Currencies| ==> Currencies[i] != Currencies[j]
    ensures DefaultCurrency in Currencies && Currencies[0] == DefaultCurrency
  {
  }

  /** The initial state (TripForm.jsx:6-12): each field from the edited trip, else empty, with
      `COP` as the default currency. */
  function InitialTripForm(trip: Option<Trip>): (f: TripFormState)
    ensures trip.None? ==> f == TripFormState("", "", DefaultCurrency, Text(""), "")
    ensures trip.Some? ==> && f.name == trip.value.name && f.destination == trip.value.destination
                           && f.currency == trip.value.currency
                           && (trip.value.targetAmount.None? <==> f.targetAmount == Text(""))
                           && (trip.value.targetAmount.Some? ==> f.targetAmount == Num(trip.value.targetAmount.value))
                           && (trip.value.tripDate.Some? ==> f.tripDate == trip.value.tripDate.value)
                           && (trip.value.tripDate.None? ==> f.tripDate == "")
  {
    match trip
    case None => TripFormState("", "", DefaultCurrency, Text(""), "")
    case Some(t) =>
      var target := match t.targetAmount
        case Some(n) => Num(n)
        case None => Text("");
      TripFormState(t.name, t.destination, t.currency, target, t.tripDate.OrElse(""))
  }

  /** A choice in the currency selector (TripForm.jsx:48-49): one of the listed codes. */
  function SelectCurrency(f: TripFormState, choice: nat): (r: TripFormState)
    requires choice < |Currencies|
    ensures r.currency in Currencies && r.currency == Currencies[choice]
    ensures r == f.(currency := r.currency)
  {
    f.(currency := Currencies[choice])
  }

  /** `handleSubmit` (TripForm.jsx:21-30): rejected when the name or the destination is only
      white space; otherwise the form with a falsy goal as null and any other goal as its
      number, and an empty date as null. Name, destination and currency pass unchanged, not
      trimmed. */
  function SubmitTrip(f: TripFormState): (r: Outcome<TripRecord>)
    ensures r.Reject? <==> AllWhiteSpace(f.name) || AllWhiteSpace(f.destination)
    ensures r.Reject? ==> r.message == RequiredMessage
    ensures r.Accept? ==> && r.record.name == f.name && r.record.destination == f.destination
                          && r.record.currency == f.currency
                          && (r.record.targetAmount.None? <==> !Truthy(f.targetAmount))
                          && (r.record.targetAmount.Some? ==> r.record.targetAmount.value == ToNumber(f.targetAmount))
                          && (r.record.tripDate.None? <==> f.tripDate == [])
                          && (r.record.tripDate.Some? ==> r.record.tripDate.value == f.tripDate)
  {
    TrimEmptyIff(f.name);
    TrimEmptyIff(f.destination);
    if Trim(f.name) == [] || Trim(f.destination) == [] then Reject(RequiredMessage)
    else
      var target := if Truthy(f.targetAmount) then Some(ToNumber(f.targetAmount)) else None;
      var date := if f.tripDate != [] then Some(f.tripDate) else None;
      Accept(TripRecord(f.name, f.destination, f.currency, target, date))
  }

  /** The goal as the dashboard reads it back: a number, or none. */
  function StoredTarget(target: Option<JsNumber>): Option<int> {
    match target
    case Some(Finite(n)) => Some(n)
    case _ => None
  }

  /** Saving an edit form unchanged keeps the trip: the same name, destination and currency, the
      goal unchanged except that a goal of 0 becomes null, and an empty date null. */
  lemma ResaveTrip(t: Trip)
    requires !AllWhiteSpace(t.name) && !AllWhiteSpace(t.destination)
    ensures SubmitTrip(InitialTripForm(Some(t))).Accept?
    ensures var rec := SubmitTrip(InitialTripForm(Some(t))).record;
            && rec.name == t.name && rec.destination == t.destination && rec.currency == t.currency
            && StoredTarget(rec.targetAmount) == (if t.targetAmount == Some(0) then None else t.targetAmount)
            && rec.tripDate == (if t.tripDate == Some("") then None else t.tripDate)
  {
  }

  /** Re-saving therefore leaves the dashboard's progress as it was: a goal of 0 and no goal
      give the same percentage. */
  lemma ResaveKeepsProgress(t: Trip, total: int)
    requires !AllWhiteSpace(t.name) && !AllWhiteSpace(t.destination)
    ensures Dashboard.Percent(total, StoredTarget(SubmitTrip(InitialTripForm(Some(t))).record.targetAmount))
            == Dashboard.Percent(total, t.targetAmount)
  {
    ResaveTrip(t);
  }

  /** A goal typed as the decimal text of a whole number is saved as that number; the text "0"
      is truthy, so it is saved as 0, not as null. */
  lemma TypedTarget(f: TripFormState, n: int)
    requires f.targetAmount == Text(IntToDecimal(n))
    requires SubmitTrip(f).Accept?
    ensures SubmitTrip(f).record.targetAmount == Some(Finite(n))
  {
    DecimalRoundTrip(n);
  }
}
