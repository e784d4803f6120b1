/**
  The three records the trip-savings views work on, as the data store returns them, and
  the two pieces of logic every view shares: resolving a contribution's traveler by id
  (`travelers.find(t => t.id === c.traveler_id)`) and ordering contributions by date.
*/
module Records {
  import opened Builtins
  import opened StableSort

  /** A savings goal. `targetAmount` is absent when no goal was set. */
  datatype Trip = Trip(
    id: string,
    name: string,
    destination: string,
    currency: string,
    targetAmount: Option<int>,
    tripDate: Option<string>)

  /** A participant of a trip. */
  datatype Traveler = Traveler(id: string, tripId: string, name: string, createdAt: string)

  /** One dated amount a traveler paid in; `date` is a `YYYY-MM-DD` string. */
  datatype Contribution = Contribution(
    id: string,
    tripId: string,
    travelerId: string,
    amount: int,
    date: string,
    note: Option<string>)

  /** What a form's submit handler does: shows an error and saves nothing, or passes a record
      to its `onSave` callback. */
  datatype Outcome<R> = Reject(message: string) | Accept(record: R)

  /** `travelers.find(t => t.id === id)`: the first traveler with that id, or none. */
  function FindTraveler(travelers: seq<Traveler>, id: string): (r: Option<Traveler>)
    ensures r.None? <==> (forall i :: 0 <= i < |travelers| ==> travelers[i].id != id)
    ensures r.Some? ==> exists i :: && 0 <= i < |travelers|
                                 && travelers[i] == r.value && r.value.id == id
                                 && (forall j :: 0 <= j < i ==> travelers[j].id != id)
  {
    if travelers == [] then None
    else if travelers[0].id == id then Some(travelers[0])
    else
      var r := FindTraveler(travelers[1..], id);
      assert r.Some? ==> exists i :: && 0 <= i < |travelers|
                                   && travelers[i] == r.value && r.value.id == id
                                   && (forall j :: 0 <= j < i ==> travelers[j].id != id) by {
        if r.Some? {
          var i :| && 0 <= i < |travelers[1..]|
                   && travelers[1..][i] == r.value && r.value.id == id
                   && (forall j :: 0 <= j < i ==> travelers[1..][j].id != id);
          assert travelers[i + 1] == r.value;
          assert forall j :: 1 <= j < i + 1 ==> travelers[j].id == travelers[1..][j - 1].id;
        }
      }
      r
  }

  // ---------------------------------------------------------------------------
  // Dates
  // ---------------------------------------------------------------------------

  /** The sort key of a contribution: its date. */
  function DateOf(c: Contribution): string {
    c.date
  }

  /** The comparators `(a, b) => new Date(b.date) - new Date(a.date)` order date-only strings
      by the instant each denotes (ECMA-262 reads a date-only form as midnight UTC). The model
      orders date strings lexicographically; `IsoDateOrder` shows that the two agree on
      `YYYY-MM-DD` strings that name a calendar date. */
  lemma DateOrderIsStrictTotal()
    ensures StrictTotalOrder(StringLess)
  {
    forall a: string ensures !StringLess(a, a) {
      StringLessIrreflexive(a);
    }
    forall a: string, b: string, c: string | StringLess(a, b) && StringLess(b, c)
      ensures StringLess(a, c)
    {
      StringLessTransitive(a, b, c);
    }
    forall a: string, b: string | a != b ensures StringLess(a, b) || StringLess(b, a) {
      StringLessConnected(a, b);
    }
  }

  /** The string is a `YYYY-MM-DD` date. */
  predicate IsIsoDate(s: string) {
    && |s| == 10 && s[4] == '-' && s[7] == '-'
    && IsDigit(s[0]) && IsDigit(s[1]) && IsDigit(s[2]) && IsDigit(s[3])
    && IsDigit(s[5]) && IsDigit(s[6]) && IsDigit(s[8]) && IsDigit(s[9])
  }

  function Year(s: string): int
    requires IsIsoDate(s)
  {
    1000 * DigitValue(s[0]) + 100 * DigitValue(s[1]) + 10 * DigitValue(s[2]) + DigitValue(s[3])
  }

  function Month(s: string): int
    requires IsIsoDate(s)
  {
    10 * DigitValue(s[5]) + DigitValue(s[6])
  }

  function Day(s: string): int
    requires IsIsoDate(s)
  {
    10 * DigitValue(s[8]) + DigitValue(s[9])
  }

  /** `a` is an earlier calendar day than `b`: by year, then month, then day. */
  predicate CalendarBefore(a: string, b: string)
    requires IsIsoDate(a) && IsIsoDate(b)
  {
    || Year(a) < Year(b)
    || (Year(a) == Year(b) && Month(a) < Month(b))
    || (Year(a) == Year(b) && Month(a) == Month(b) && Day(a) < Day(b))
  }

  /** On `YYYY-MM-DD` strings the lexicographic order is the calendar order. */
  lemma IsoDateOrder(a: string, b: string)
    requires IsIsoDate(a) && IsIsoDate(b)
    ensures StringLess(a, b) <==> CalendarBefore(a, b)
  {
    if StringLess(a, b) {
      LexBeforeIsCalendarBefore(a, b);
    } else if a == b {
    } else {
      StringLessConnected(a, b);
      LexBeforeIsCalendarBefore(b, a);
    }
  }

  lemma LexBeforeIsCalendarBefore(a: string, b: string)
    requires IsIsoDate(a) && IsIsoDate(b) && StringLess(a, b)
    ensures CalendarBefore(a, b)
  {
    FirstDifference(a, b);
    var i :| 0 <= i < |a| && a[..i] == b[..i] && a[i] < b[i];
    assert forall j :: 0 <= j < i ==> a[j] == b[j] by {
      forall j | 0 <= j < i ensures a[j] == b[j] {
        assert a[..i][j] == b[..i][j];
      }
    }
  }

  /** Two strings of equal length in lexicographic order differ first at a position where
      the first has the smaller character. */
  lemma {:induction false} FirstDifference(a: string, b: string)
    requires |a| == |b| && StringLess(a, b)
    ensures exists i :: 0 <= i < |a| && a[..i] == b[..i] && a[i] < b[i]
  {
    if a[0] == b[0] {
      FirstDifference(a[1..], b[1..]);
      var i :| 0 <= i < |a[1..]| && a[1..][..i] == b[1..][..i] && a[1..][i] < b[1..][i];
      assert a[..i + 1] == [a[0]] + a[1..][..i];
      assert b[..i + 1] == [b[0]] + b[1..][..i];
      assert a[i + 1] < b[i + 1];
    } else {
      assert a[..0] == b[..0];
    }
  }
}
