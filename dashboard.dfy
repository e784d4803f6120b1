/**
  The dashboard's derived state (src/components/Dashboard.jsx): the total saved, the progress
  toward the goal and the progress bar, the per-traveler totals ranked by amount, each
  traveler's share of the total, and the contribution history, newest first.

  Everything in the component is an expression over the trip, the travelers and the
  contributions it is given, so it is modelled as functions, and the properties the views
  rely on as lemmas.
*/
module Dashboard {
  import opened Builtins
  import opened StableSort
  import opened Records

  // ---------------------------------------------------------------------------
  // Sums
  // ---------------------------------------------------------------------------

  /** The arithmetic sum of `f` over `s`. */
  function SumBy<T>(s: seq<T>, f: T -> int): int {
    if s == [] then 0 else f(s[0]) + SumBy(s[1..], f)
  }

  function AmountOf(c: Contribution): int {
    c.amount
  }

  /** `cs.reduce((s, c) => s + Number(c.amount), acc)`: the amounts added in from left to right. */
  function ReduceAmounts(acc: int, cs: seq<Contribution>): (r: int)
    ensures r == acc + SumBy(cs, AmountOf)
    decreases |cs|
  {
    if cs == [] then acc else ReduceAmounts(acc + cs[0].amount, cs[1..])
  }

  /** `totalSaved` (Dashboard.jsx:37): the sum of all amounts, 0 for no contributions. */
  function TotalSaved(cs: seq<Contribution>): (r: int)
    ensures r == SumBy(cs, AmountOf)
    ensures cs == [] ==> r == 0
  {
    ReduceAmounts(0, cs)
  }

  lemma {:induction false} SumByAppend<T>(a: seq<T>, b: seq<T>, f: T -> int)
    ensures SumBy(a + b, f) == SumBy(a, f) + SumBy(b, f)
  {
    if a != [] {
      SumByAppend(a[1..], b, f);
      assert (a + b)[1..] == a[1..] + b;
    } else {
      assert a + b == b;
    }
  }

  /** Reordering the elements does not change the sum. */
  lemma {:induction false} SumByPermutation<T>(a: seq<T>, b: seq<T>, f: T -> int)
    requires multiset(a) == multiset(b)
    ensures SumBy(a, f) == SumBy(b, f)
  {
    if a != [] {
      assert a[0] in multiset(b);
      var k :| 0 <= k < |b| && b[k] == a[0];
      var rest := b[..k] + b[k + 1..];
      assert multiset(a[1..]) == multiset(a) - multiset{a[0]} by {
        assert a == [a[0]] + a[1..];
      }
      MultisetRemove(b, k);
      SumByPermutation(a[1..], rest, f);
      SumByRemove(b, k, f);
    }
  }

  /** Taking out the element at `k` takes its value out of the sum. */
  lemma SumByRemove<T>(b: seq<T>, k: nat, f: T -> int)
    requires k < |b|
    ensures SumBy(b, f) == f(b[k]) + SumBy(b[..k] + b[k + 1..], f)
  {
    assert b == (b[..k] + [b[k]]) + b[k + 1..];
    SumByAppend(b[..k] + [b[k]], b[k + 1..], f);
    SumByAppend(b[..k], [b[k]], f);
    SumByAppend(b[..k], b[k + 1..], f);
  }

  lemma MultisetRemove<T>(b: seq<T>, k: nat)
    requires k < |b|
    ensures multiset(b[..k] + b[k + 1..]) == multiset(b) - multiset{b[k]}
  {
    assert b == b[..k] + [b[k]] + b[k + 1..];
  }

  /** The total of a concatenation is the sum of the totals. */
  lemma TotalSavedAppend(a: seq<Contribution>, b: seq<Contribution>)
    ensures TotalSaved(a + b) == TotalSaved(a) + TotalSaved(b)
  {
    SumByAppend(a, b, AmountOf);
  }

  predicate NonNegativeAmounts(cs: seq<Contribution>) {
    forall i :: 0 <= i < |cs| ==> cs[i].amount >= 0
  }

  lemma {:induction false} TotalSavedNonNegative(cs: seq<Contribution>)
    requires NonNegativeAmounts(cs)
    ensures TotalSaved(cs) >= 0
  {
    if cs != [] {
      TotalSavedNonNegative(cs[1..]);
      assert forall i :: 0 <= i < |cs[1..]| ==> cs[1..][i] == cs[i + 1];
    }
  }

  // ---------------------------------------------------------------------------
  // Progress toward the goal
  // ---------------------------------------------------------------------------

  /** `percent` (Dashboard.jsx:38): the total as a percentage of the target, 0 when the target
      is absent or 0; not clamped, so it exceeds 100 when the goal is overshot. */
  function Percent(total: int, target: Option<int>): (r: real)
    ensures target.None? || target.value == 0 ==> r == 0.0
    ensures target.Some? && target.value != 0 ==> r * (target.value as real) == (total as real) * 100.0
  {
    if target.None? || target.value == 0 then 0.0
    else ((total as real) / (target.value as real)) * 100.0
  }

  /** For a positive target the percentage reaches 100 exactly when the total reaches the
      target, and passes 100 exactly when the total passes it. */
  lemma GoalReachedIff(total: int, target: int)
    requires target > 0
    ensures Percent(total, Some(target)) >= 100.0 <==> total >= target
    ensures Percent(total, Some(target)) > 100.0 <==> total > target
  {
    var p := Percent(total, Some(target));
    var t := target as real;
    assert p * t == (total as real) * 100.0;
    if p >= 100.0 {
      assert p * t >= 100.0 * t;
    } else {
      assert p * t < 100.0 * t;
    }
    if p > 100.0 {
      assert p * t > 100.0 * t;
    } else {
      assert p * t <= 100.0 * t;
    }
  }

  /** A non-negative total never gives a negative percentage of a positive target. */
  lemma PercentNonNegative(total: int, target: int)
    requires total >= 0 && target > 0
    ensures Percent(total, Some(target)) >= 0.0
  {
    var p := Percent(total, Some(target));
    assert p * (target as real) >= 0.0;
  }

  /** The colour of the progress bar's fill (Dashboard.jsx:11-13). */
  datatype Fill = GreenGradient | BlueGradient

  /** The bar's width in percent (Dashboard.jsx:10): `Math.min(percent, 100)`. */
  function BarWidth(percent: real): (w: real)
    ensures w <= 100.0 && w <= percent
    ensures w == percent || w == 100.0
  {
    if percent <= 100.0 then percent else 100.0
  }

  /** The fill is green once the percentage reaches 100, blue before (Dashboard.jsx:11). */
  function BarFill(percent: real): (f: Fill)
    ensures f == GreenGradient <==> percent >= 100.0
  {
    if percent >= 100.0 then GreenGradient else BlueGradient
  }

  /** What the goal block shows (Dashboard.jsx:79-108): the percentage, the bar and whether the
      "goal reached" message is displayed. */
  datatype GoalView = GoalView(target: int, percent: real, width: real, fill: Fill, reached: bool)

  /** The goal block, shown only when `trip.target_amount > 0`. */
  function GoalPanel(trip: Trip, cs: seq<Contribution>): (r: Option<GoalView>)
    ensures r.Some? <==> trip.targetAmount.Some? && trip.targetAmount.value > 0
    ensures r.Some? ==> && r.value.target == trip.targetAmount.value
                        && (r.value.reached <==> TotalSaved(cs) >= r.value.target)
                        && (r.value.fill == GreenGradient <==> r.value.reached)
                        && (r.value.width == 100.0 <==> r.value.reached)
                        && r.value.width <= 100.0
                        && r.value.percent * (r.value.target as real) == (TotalSaved(cs) as real) * 100.0
                        && r.value.percent == Percent(TotalSaved(cs), trip.targetAmount)
                        && r.value.width == BarWidth(r.value.percent)
                        && r.value.fill == BarFill(r.value.percent)
  {
    match trip.targetAmount
    case Some(t) =>
      if t > 0 then
        var p := Percent(TotalSaved(cs), trip.targetAmount);
        GoalReachedIff(TotalSaved(cs), t);
        Some(GoalView(t, p, BarWidth(p), BarFill(p), p >= 100.0))
      else None
    case None => None
  }

  // ---------------------------------------------------------------------------
  // Per-traveler totals
  // ---------------------------------------------------------------------------

  /** `contributions.filter(c => c.traveler_id === id)`. */
  function OfTraveler(cs: seq<Contribution>, id: string): (r: seq<Contribution>)
    ensures forall c :: c in r <==> c in cs && c.travelerId == id
    ensures forall c :: multiset(r)[c] == if c.travelerId == id then multiset(cs)[c] else 0
  {
    if cs == [] then []
    else
      assert cs == [cs[0]] + cs[1..];
      (if cs[0].travelerId == id then [cs[0]] else []) + OfTraveler(cs[1..], id)
  }

  /** The amounts of the contributions whose traveler id is in `ids`. */
  function AmountIn(cs: seq<Contribution>, ids: set<string>): int {
    if cs == [] then 0
    else (if cs[0].travelerId in ids then cs[0].amount else 0) + AmountIn(cs[1..], ids)
  }

  /** Filtering by a traveler id and summing gives the amount of that id's contributions. */
  lemma {:induction false} FilterSumIsAmountIn(cs: seq<Contribution>, id: string)
    ensures TotalSaved(OfTraveler(cs, id)) == AmountIn(cs, {id})
  {
    if cs != [] {
      FilterSumIsAmountIn(cs[1..], id);
      var head := if cs[0].travelerId == id then [cs[0]] else [];
      TotalSavedAppend(head, OfTraveler(cs[1..], id));
    }
  }

  /** The total of one traveler (Dashboard.jsx:41-43): the sum of the filtered amounts. */
  function TravelerSum(cs: seq<Contribution>, id: string): (r: int)
    ensures r == AmountIn(cs, {id})
  {
    FilterSumIsAmountIn(cs, id);
    TotalSaved(OfTraveler(cs, id))
  }

  /** `{ ...t, total }`: a traveler with all its fields, plus its total. */
  datatype TravelerTotal = TravelerTotal(traveler: Traveler, total: int)

  function TotalOf(e: TravelerTotal): int {
    e.total
  }

  predicate IntLess(a: int, b: int) {
    a < b
  }

  lemma IntLessIsStrictTotal()
    ensures StrictTotalOrder(IntLess)
  {
  }

  /** `travelers.map(t => ({ ...t, total }))`, before sorting. */
  function WithTotals(travelers: seq<Traveler>, cs: seq<Contribution>): (r: seq<TravelerTotal>)
    ensures |r| == |travelers|
    ensures forall i :: 0 <= i < |r| ==> r[i] == TravelerTotal(travelers[i], TravelerSum(cs, travelers[i].id))
  {
    if travelers == [] then []
    else [TravelerTotal(travelers[0], TravelerSum(cs, travelers[0].id))] + WithTotals(travelers[1..], cs)
  }

  /** `travelerTotals` (Dashboard.jsx:40-45): one entry per traveler, keeping its fields and
      carrying the sum of its contributions, ranked by total, largest first, with tied
      travelers in their input order. */
  function TravelerTotals(travelers: seq<Traveler>, cs: seq<Contribution>): (r: seq<TravelerTotal>)
    ensures |r| == |travelers|
    ensures multiset(r) == multiset(WithTotals(travelers, cs))
    ensures forall e :: e in r ==> e.traveler in travelers && e.total == TravelerSum(cs, e.traveler.id)
    ensures forall i, j :: 0 <= i < j < |r| ==> r[i].total >= r[j].total
    ensures KeepsTieOrder(r, WithTotals(travelers, cs), TotalOf)
  {
    var mapped := WithTotals(travelers, cs);
    IntLessIsStrictTotal();
    SortDescSorted(mapped, TotalOf, IntLess);
    SortDescStable(mapped, TotalOf, IntLess);
    var r := SortDesc(mapped, TotalOf, IntLess);
    assert forall e :: e in r ==> e in multiset(mapped);
    r
  }

  /** A traveler without contributions has total 0. */
  lemma {:induction false} NoContributionsZero(cs: seq<Contribution>, id: string)
    requires forall i :: 0 <= i < |cs| ==> cs[i].travelerId != id
    ensures TravelerSum(cs, id) == 0
  {
    if cs != [] {
      assert forall i :: 0 <= i < |cs[1..]| ==> cs[1..][i] == cs[i + 1];
      NoContributionsZero(cs[1..], id);
      assert cs[0].travelerId != id;
    }
  }

  lemma {:induction false} AmountInUnion(cs: seq<Contribution>, a: set<string>, b: set<string>)
    requires a !! b
    ensures AmountIn(cs, a + b) == AmountIn(cs, a) + AmountIn(cs, b)
  {
    if cs != [] {
      AmountInUnion(cs[1..], a, b);
    }
  }

  /** The ids of the travelers. */
  function Ids(travelers: seq<Traveler>): (r: set<string>)
    ensures forall id :: id in r <==> exists i :: 0 <= i < |travelers| && travelers[i].id == id
  {
    if travelers == [] then {}
    else
      assert forall i :: 1 <= i < |travelers| ==> travelers[i] == travelers[1..][i - 1];
      {travelers[0].id} + Ids(travelers[1..])
  }

  predicate UniqueIds(travelers: seq<Traveler>) {
    forall i, j :: 0 <= i < j < |travelers| ==> travelers[i].id != travelers[j].id
  }

  /** Contributions whose traveler is not among `travelers`: they count toward the total saved
      but toward no traveler's total. */
  function Unmatched(travelers: seq<Traveler>, cs: seq<Contribution>): (r: seq<Contribution>)
    ensures forall c :: c in r <==> c in cs && FindTraveler(travelers, c.travelerId).None?
    ensures forall c :: multiset(r)[c] == if FindTraveler(travelers, c.travelerId).None? then multiset(cs)[c] else 0
  {
    if cs == [] then []
    else
      assert cs == [cs[0]] + cs[1..];
      (if FindTraveler(travelers, cs[0].travelerId).None? then [cs[0]] else []) + Unmatched(travelers, cs[1..])
  }

  function SumTotals(es: seq<TravelerTotal>): int {
    SumBy(es, TotalOf)
  }

  lemma {:induction false} WithTotalsSum(travelers: seq<Traveler>, cs: seq<Contribution>)
    requires UniqueIds(travelers)
    ensures SumTotals(WithTotals(travelers, cs)) == AmountIn(cs, Ids(travelers))
  {
    if travelers != [] {
      var t, rest := travelers[0], travelers[1..];
      assert UniqueIds(rest) by {
        forall i, j | 0 <= i < j < |rest| ensures rest[i].id != rest[j].id {
          assert rest[i] == travelers[i + 1] && rest[j] == travelers[j + 1];
        }
      }
      WithTotalsSum(rest, cs);
      assert t.id !in Ids(rest);
      var all := WithTotals(travelers, cs);
      assert all[1..] == WithTotals(rest, cs);
      assert all[0].total == TravelerSum(cs, t.id);
      assert SumTotals(all) == all[0].total + SumTotals(all[1..]);
      AmountInUnion(cs, {t.id}, Ids(rest));
      assert Ids(travelers) == {t.id} + Ids(rest);
      assert AmountIn(cs, {t.id}) + AmountIn(cs, Ids(rest)) == AmountIn(cs, Ids(travelers));
      assert SumTotals(all[1..]) == AmountIn(cs, Ids(rest));
    } else {
      AmountInNone(cs);
    }
  }

  lemma {:induction false} AmountInNone(cs: seq<Contribution>)
    ensures AmountIn(cs, {}) == 0
  {
    if cs != [] {
      AmountInNone(cs[1..]);
    }
  }

  lemma {:induction false} MatchedPlusUnmatched(travelers: seq<Traveler>, cs: seq<Contribution>)
    ensures TotalSaved(cs) == AmountIn(cs, Ids(travelers)) + TotalSaved(Unmatched(travelers, cs))
  {
    if cs != [] {
      MatchedPlusUnmatched(travelers, cs[1..]);
      var head := if FindTraveler(travelers, cs[0].travelerId).None? then [cs[0]] else [];
      TotalSavedAppend(head, Unmatched(travelers, cs[1..]));
    }
  }

  /** With unique traveler ids, the traveler totals add up to the total saved minus the
      contributions that belong to no listed traveler. */
  lemma TotalsAddUp(travelers: seq<Traveler>, cs: seq<Contribution>)
    requires UniqueIds(travelers)
    ensures SumTotals(TravelerTotals(travelers, cs)) == TotalSaved(cs) - TotalSaved(Unmatched(travelers, cs))
  {
    SumByPermutation(TravelerTotals(travelers, cs), WithTotals(travelers, cs), TotalOf);
    WithTotalsSum(travelers, cs);
    MatchedPlusUnmatched(travelers, cs);
  }

  // ---------------------------------------------------------------------------
  // Participation share
  // ---------------------------------------------------------------------------

  /** `participation` (Dashboard.jsx:129): a traveler's total as a percentage of the total
      saved, 0 unless the total saved is positive. */
  function Participation(total: int, saved: int): (r: real)
    ensures saved <= 0 ==> r == 0.0
    ensures saved > 0 ==> r * (saved as real) == (total as real) * 100.0
  {
    if saved > 0 then ((total as real) / (saved as real)) * 100.0 else 0.0
  }

  lemma {:induction false} AmountInBounded(cs: seq<Contribution>, ids: set<string>)
    requires NonNegativeAmounts(cs)
    ensures 0 <= AmountIn(cs, ids) <= TotalSaved(cs)
  {
    if cs != [] {
      assert NonNegativeAmounts(cs[1..]) by {
        assert forall i :: 0 <= i < |cs[1..]| ==> cs[1..][i] == cs[i + 1];
      }
      AmountInBounded(cs[1..], ids);
      assert TotalSaved(cs) == cs[0].amount + TotalSaved(cs[1..]);
    }
  }

  /** With non-negative amounts every traveler's share lies between 0 and 100. */
  lemma ParticipationBounds(travelers: seq<Traveler>, cs: seq<Contribution>)
    requires NonNegativeAmounts(cs)
    ensures forall e :: e in TravelerTotals(travelers, cs) ==>
                          0.0 <= Participation(e.total, TotalSaved(cs)) <= 100.0
  {
    forall e | e in TravelerTotals(travelers, cs)
      ensures 0.0 <= Participation(e.total, TotalSaved(cs)) <= 100.0
    {
      AmountInBounded(cs, {e.traveler.id});
      ShareBounds(e.total, TotalSaved(cs));
    }
  }

  /** A part between 0 and the whole is a share between 0 and 100 percent. */
  lemma ShareBounds(total: int, saved: int)
    requires 0 <= total <= saved
    ensures 0.0 <= Participation(total, saved) <= 100.0
  {
    if saved > 0 {
      var p := Participation(total, saved);
      var s := saved as real;
      assert p * s == (total as real) * 100.0;
      assert 0.0 <= (total as real) * 100.0 <= s * 100.0;
    }
  }

  // ---------------------------------------------------------------------------
  // Contribution history
  // ---------------------------------------------------------------------------

  /** `sortedContributions` (Dashboard.jsx:47-49): a sorted copy of the contributions, newest
      date first, same-date contributions in their input order. The input is a value and is
      left as it was. */
  function SortedContributions(cs: seq<Contribution>): (r: seq<Contribution>)
    ensures multiset(r) == multiset(cs)
    ensures forall i, j :: 0 <= i < j < |r| && r[i].date != r[j].date ==> StringLess(r[j].date, r[i].date)
    ensures KeepsTieOrder(r, cs, DateOf)
  {
    DateOrderIsStrictTotal();
    SortDescSorted(cs, DateOf, StringLess);
    SortDescStable(cs, DateOf, StringLess);
    var r := SortDesc(cs, DateOf, StringLess);
    assert forall i, j :: 0 <= i < j < |r| && r[i].date != r[j].date ==> StringLess(r[j].date, r[i].date) by {
      forall i, j | 0 <= i < j < |r| && r[i].date != r[j].date ensures StringLess(r[j].date, r[i].date) {
        assert !StringLess(DateOf(r[i]), DateOf(r[j]));
        StringLessConnected(r[i].date, r[j].date);
      }
    }
    r
  }

  /** One line of the history (Dashboard.jsx:163-185). */
  datatype HistoryEntry = HistoryEntry(contribution: Contribution, name: string, initial: string)

  /** The name shown for a contribution: its traveler's, or `'Desconocido'` (Dashboard.jsx:172). */
  function ShownName(travelers: seq<Traveler>, c: Contribution): (r: string)
    ensures (forall i :: 0 <= i < |travelers| ==> travelers[i].id != c.travelerId) ==> r == "Desconocido"
    ensures forall i :: && 0 <= i < |travelers| && travelers[i].id == c.travelerId
                       && (forall j :: 0 <= j < i ==> travelers[j].id != c.travelerId)
                       ==> r == travelers[i].name
  {
    match FindTraveler(travelers, c.travelerId)
    case Some(t) => t.name
    case None => "Desconocido"
  }

  /** The avatar letter: its traveler's initial, or `'?'` (Dashboard.jsx:169). */
  function ShownInitial(travelers: seq<Traveler>, c: Contribution): (r: string)
    ensures (forall i :: 0 <= i < |travelers| ==> travelers[i].id != c.travelerId) ==> r == "?"
    ensures forall i :: && 0 <= i < |travelers| && travelers[i].id == c.travelerId
                       && (forall j :: 0 <= j < i ==> travelers[j].id != c.travelerId)
                       ==> r == Initial(travelers[i].name)
  {
    match FindTraveler(travelers, c.travelerId)
    case Some(t) => Initial(t.name)
    case None => "?"
  }

  /** The history list: every contribution, newest first, with its traveler's name and initial. */
  function History(travelers: seq<Traveler>, cs: seq<Contribution>): (r: seq<HistoryEntry>)
    ensures |r| == |cs|
    ensures forall i :: 0 <= i < |r| ==> r[i].contribution == SortedContributions(cs)[i]
    ensures forall i :: 0 <= i < |r| ==>
              r[i].name == ShownName(travelers, r[i].contribution) && r[i].initial == ShownInitial(travelers, r[i].contribution)
  {
    var sorted := SortedContributions(cs);
    seq(|sorted|, i requires 0 <= i < |sorted| =>
      HistoryEntry(sorted[i], ShownName(travelers, sorted[i]), ShownInitial(travelers, sorted[i])))
  }

  /** A contribution whose traveler is not listed is still shown, under `'Desconocido'` and `'?'`. */
  lemma UnmatchedStillShown(travelers: seq<Traveler>, cs: seq<Contribution>, c: Contribution)
    requires c in cs && FindTraveler(travelers, c.travelerId).None?
    ensures exists i :: && 0 <= i < |History(travelers, cs)|
                       && History(travelers, cs)[i] == HistoryEntry(c, "Desconocido", "?")
  {
    var sorted := SortedContributions(cs);
    assert c in multiset(sorted);
    var i :| 0 <= i < |sorted| && sorted[i] == c;
    assert History(travelers, cs)[i] == HistoryEntry(c, "Desconocido", "?");
  }

  // ---------------------------------------------------------------------------
  // The component
  // ---------------------------------------------------------------------------

  /** Everything the dashboard displays. */
  datatype View = View(
    totalSaved: int,
    percent: real,
    goal: Option<GoalView>,
    totals: seq<TravelerTotal>,
    history: seq<HistoryEntry>)

  /** `Dashboard({ trip, travelers, contributions })`: nothing without a trip. */
  function Render(trip: Option<Trip>, travelers: seq<Traveler>, cs: seq<Contribution>): (r: Option<View>)
    ensures r.None? <==> trip.None?
    ensures r.Some? ==> && r.value.totalSaved == SumBy(cs, AmountOf)
                        && r.value.percent == Percent(TotalSaved(cs), trip.value.targetAmount)
                        && r.value.goal == GoalPanel(trip.value, cs)
                        && r.value.totals == TravelerTotals(travelers, cs)
                        && r.value.history == History(travelers, cs)
  {
    match trip
    case None => None
    case Some(t) =>
      var saved := TotalSaved(cs);
      Some(View(saved, Percent(saved, t.targetAmount), GoalPanel(t, cs),
                TravelerTotals(travelers, cs), History(travelers, cs)))
  }
}
