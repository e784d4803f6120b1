/**
  The derivations of the administrator's page (src/pages/AdminPage.jsx): the CSV export (its
  rows, its text and its file name), the rule for adding a traveler, the public share link
  and the route that opens it, and the list of contributions to manage.

  The export builds its rows by pushing onto an array inside a loop over the contributions;
  `ExportRows` is that loop. The rest are expressions, modelled as functions.
*/
module AdminPage {
  import opened Builtins
  import opened StableSort
  import opened Records
  import opened Csv
  import Dashboard

  // ---------------------------------------------------------------------------
  // CSV export rows
  // ---------------------------------------------------------------------------

  /** The header row: traveler, amount, date, note. */
  const Header: seq<FieldValue> := [Text("Viajero"), Text("Monto"), Text("Fecha"), Text("Nota")]

  /** The row of one contribution: the name of the first traveler with its traveler id (empty
      when there is none), the amount as a number, the date, and the note (empty when null). */
  function ExportRow(travelers: seq<Traveler>, c: Contribution): (r: seq<FieldValue>)
    ensures |r| == 4 && r[1] == Num(c.amount) && r[2] == Text(c.date)
    ensures c.note.None? ==> r[3] == Text("")
    ensures c.note.Some? ==> r[3] == Text(c.note.value)
    ensures (forall i :: 0 <= i < |travelers| ==> travelers[i].id != c.travelerId) ==> r[0] == Text("")
    ensures forall i :: && 0 <= i < |travelers| && travelers[i].id == c.travelerId
                       && (forall j :: 0 <= j < i ==> travelers[j].id != c.travelerId)
                       ==> r[0] == Text(travelers[i].name)
  {
    var name := match FindTraveler(travelers, c.travelerId)
      case Some(t) => t.name
      case None => "";
    [Text(name), Num(c.amount), Text(c.date), Text(c.note.OrElse(""))]
  }

  /** The table `exportCSV` assembles: the header, then one row per contribution, in the order
      of the contributions. */
  function ExportTable(travelers: seq<Traveler>, cs: seq<Contribution>): (r: seq<seq<FieldValue>>)
    ensures |r| == |cs| + 1 && r[0] == Header
    ensures forall i :: 1 <= i <= |cs| ==> r[i] == ExportRow(travelers, cs[i - 1])
  {
    [Header] + seq(|cs|, i requires 0 <= i < |cs| => ExportRow(travelers, cs[i]))
  }

  /** `exportCSV`'s loop (AdminPage.jsx:88-92): starts from the header and pushes one row per
      contribution. */
  method ExportRows(travelers: seq<Traveler>, contributions: seq<Contribution>) returns (rows: seq<seq<FieldValue>>)
    ensures |rows| == |contributions| + 1 && rows[0] == Header
    ensures forall i :: 1 <= i <= |contributions| ==> rows[i] == ExportRow(travelers, contributions[i - 1])
    ensures rows == ExportTable(travelers, contributions)
  {
    rows := [Header];
    var i := 0;
    while i < |contributions|
      invariant 0 <= i <= |contributions|
      invariant |rows| == i + 1 && rows[0] == Header
      invariant forall j :: 1 <= j <= i ==> rows[j] == ExportRow(travelers, contributions[j - 1])
    {
      rows := rows + [ExportRow(travelers, contributions[i])];
      i := i + 1;
    }
    ExportTableUnique(travelers, contributions, rows);
  }

  /** A table with the header and the rows of the contributions in order is the export table. */
  lemma ExportTableUnique(travelers: seq<Traveler>, cs: seq<Contribution>, rows: seq<seq<FieldValue>>)
    requires |rows| == |cs| + 1 && rows[0] == Header
    requires forall i :: 1 <= i <= |cs| ==> rows[i] == ExportRow(travelers, cs[i - 1])
    ensures rows == ExportTable(travelers, cs)
  {
    var t := ExportTable(travelers, cs);
    assert forall k :: 0 <= k < |rows| ==> rows[k] == t[k];
  }

  // ---------------------------------------------------------------------------
  // CSV text, as written
  // ---------------------------------------------------------------------------

  /** A value in a template literal: a string as it is, a number in decimal. */
  function Stringify(v: FieldValue): (r: string)
    ensures v.Text? ==> r == v.text
    ensures v.Num? ==> r != [] && TextToNumber(r) == Finite(v.n)
  {
    match v
    case Text(t) => t
    case Num(n) => DecimalRoundTrip(n); IntToDecimal(n)
  }

  /** `"${v}"`: the value between double quotes, with no escaping of quotes inside it. */
  function QuoteField(v: FieldValue): (r: string)
    ensures |r| == |Stringify(v)| + 2 && r[0] == '"' && r[|r| - 1] == '"'
    ensures r[1..|r| - 1] == Stringify(v)
  {
    "\"" + Stringify(v) + "\""
  }

  /** One row: its quoted values joined by commas. */
  function CsvLine(row: seq<FieldValue>): (r: string)
    ensures row == [] ==> r == []
    ensures |row| == 1 ==> r == QuoteField(row[0])
  {
    JoinWith(row, QuoteField, ",")
  }

  /** The CSV text (AdminPage.jsx:93): quoted fields joined by commas, rows by line feeds. */
  function CsvText(rows: seq<seq<FieldValue>>): (r: string)
    ensures rows == [] ==> r == []
    ensures |rows| == 1 ==> r == CsvLine(rows[0])
  {
    JoinWith(rows, CsvLine, "\n")
  }

  /** The decimal text of a number holds only digits and a minus sign. */
  lemma NumberTextIsPlain(n: int)
    ensures forall k :: 0 <= k < |IntToDecimal(n)| ==> IsDigit(IntToDecimal(n)[k]) || IntToDecimal(n)[k] == '-'
  {
    if n < 0 {
      var d := NatToDecimal(-n);
      assert forall k :: 1 <= k < |"-" + d| ==> ("-" + d)[k] == d[k - 1];
    }
  }

  lemma LineHasNoNewline(row: seq<FieldValue>)
    requires forall j :: 0 <= j < |row| ==> '\n' !in Stringify(row[j])
    ensures '\n' !in CsvLine(row)
  {
    JoinAvoids(row, QuoteField, ",", '\n');
  }

  /** When no value holds a line feed, the text has one line feed between each pair of rows. */
  lemma CsvNewlines(rows: seq<seq<FieldValue>>)
    requires rows != []
    requires forall i, j :: 0 <= i < |rows| && 0 <= j < |rows[i]| ==> '\n' !in Stringify(rows[i][j])
    ensures Count('\n', CsvText(rows)) == |rows| - 1
  {
    forall i | 0 <= i < |rows| ensures '\n' !in CsvLine(rows[i]) {
      LineHasNoNewline(rows[i]);
    }
    JoinCount(rows, CsvLine, '\n');
  }

  /** No traveler name, date or note holds a line feed. */
  predicate SingleLine(travelers: seq<Traveler>, cs: seq<Contribution>) {
    && (forall i :: 0 <= i < |travelers| ==> '\n' !in travelers[i].name)
    && (forall i :: 0 <= i < |cs| ==> '\n' !in cs[i].date)
    && (forall i :: 0 <= i < |cs| ==> cs[i].note.Some? ==> '\n' !in cs[i].note.value)
  }

  /** The exported text then has exactly one line feed per contribution. */
  lemma ExportNewlines(travelers: seq<Traveler>, cs: seq<Contribution>)
    requires SingleLine(travelers, cs)
    ensures Count('\n', CsvText(ExportTable(travelers, cs))) == |cs|
  {
    var rows := ExportTable(travelers, cs);
    forall i | 0 <= i < |rows| ensures forall j :: 0 <= j < |rows[i]| ==> '\n' !in Stringify(rows[i][j]) {
      if i > 0 {
        RowSingleLine(travelers, cs[i - 1]);
      }
    }
    CsvNewlines(rows);
  }

  /** The row of a contribution whose date and note hold no line feed, among travelers whose
      names hold none, has no value holding one. */
  lemma RowSingleLine(travelers: seq<Traveler>, c: Contribution)
    requires forall i :: 0 <= i < |travelers| ==> '\n' !in travelers[i].name
    requires '\n' !in c.date && (c.note.Some? ==> '\n' !in c.note.value)
    ensures forall j :: 0 <= j < |ExportRow(travelers, c)| ==> '\n' !in Stringify(ExportRow(travelers, c)[j])
  {
    var row := ExportRow(travelers, c);
    NumberTextIsPlain(c.amount);
    assert '\n' !in Stringify(row[0]) by {
      match FindTraveler(travelers, c.travelerId)
      case Some(t) =>
      case None =>
    }
  }

  /** The text does not escape quotes, so values holding `","` shift the field boundaries: a
      contribution without a note dated `d","n` exports to the same text as the same
      contribution dated `d` with the note `n","`. */
  lemma ExportCollides(travelers: seq<Traveler>, a: Contribution, d: string, n: string)
    requires a.date == d + "\",\"" + n && a.note.None?
    ensures var b := a.(date := d, note := Some(n + "\",\""));
            && a != b
            && CsvText(ExportTable(travelers, [a])) == CsvText(ExportTable(travelers, [b]))
  {
    var b := a.(date := d, note := Some(n + "\",\""));
    assert |a.date| != |b.date|;
    var ra, rb := ExportRow(travelers, a), ExportRow(travelers, b);
    CollidingLines(ra, rb, d, n);
    assert ExportTable(travelers, [a]) == [Header, ra];
    assert ExportTable(travelers, [b]) == [Header, rb];
    TwoLines(Header, ra);
    TwoLines(Header, rb);
  }

  /** A value with a quote inside it, written unescaped, is not well-formed RFC 4180 when the
      quote is followed by anything but a quote, a comma or a line feed (a note `Pago "1"`, for
      one): that quote closes the field early. */
  lemma UnescapedQuoteUnreadable(p: string, t: string)
    requires '"' !in p
    requires t != [] && t[0] != '"' && t[0] != ',' && t[0] != '\n'
    ensures ParseTable(QuoteField(Text(p + "\"" + t))) == None
  {
    EscapeNoQuote(p);
    var rest := t + "\"";
    ReadQuotedEscaped(p, rest);
    var x := Escape(p) + "\"" + rest;
    assert QuoteField(Text(p + "\"" + t)) == "\"" + x;
    ReadRowStops(x, FieldScan(p, rest));
  }

  /** A quoted field followed by anything but a comma, a line feed or the end is not a row. */
  lemma ReadRowStops(x: string, sc: FieldScan)
    requires ReadQuoted(x) == Some(sc)
    requires sc.rest != [] && sc.rest[0] != ',' && sc.rest[0] != '\n'
    ensures ParseTable("\"" + x) == None
  {
    assert ("\"" + x)[1..] == x;
    assert ReadRow("\"" + x) == None;
  }

  /** Two rows that agree on their first two values, and whose last two values are `d","n`
      and the empty text in one and `d` and `n","` in the other, give the same line. */
  lemma CollidingLines(ra: seq<FieldValue>, rb: seq<FieldValue>, d: string, n: string)
    requires |ra| == 4 && |rb| == 4 && ra[0] == rb[0] && ra[1] == rb[1]
    requires ra[2] == Text(d + "\",\"" + n) && ra[3] == Text("")
    requires rb[2] == Text(d) && rb[3] == Text(n + "\",\"")
    ensures CsvLine(ra) == CsvLine(rb)
  {
    LineOfFour(ra);
    LineOfFour(rb);
    ShiftedBoundary(d, n);
  }

  /** The last two quoted fields of both rows spell the same text. */
  lemma ShiftedBoundary(d: string, n: string)
    ensures QuoteField(Text(d + "\",\"" + n)) + "," + QuoteField(Text(""))
         == QuoteField(Text(d)) + "," + QuoteField(Text(n + "\",\""))
  {
    var q, c := "\"", ",";
    assert "\",\"" == q + c + q;
    assert QuoteField(Text("")) == q + q;
    Regroup(q, c, d, n);
  }

  /** The regrouping behind `ShiftedBoundary`, for any pieces. */
  lemma Regroup<T>(q: seq<T>, c: seq<T>, d: seq<T>, n: seq<T>)
    ensures q + (d + (q + c + q) + n) + q + c + (q + q) == q + d + q + c + (q + (n + (q + c + q)) + q)
  {
  }

  lemma LineOfFour(row: seq<FieldValue>)
    requires |row| == 4
    ensures CsvLine(row) == QuoteField(row[0]) + "," + (QuoteField(row[1]) + "," + (QuoteField(row[2]) + "," + QuoteField(row[3])))
  {
    assert row[1..][1..][1..] == [row[3]];
    assert CsvLine(row[1..][1..]) == QuoteField(row[2]) + "," + QuoteField(row[3]);
    assert CsvLine(row[1..]) == QuoteField(row[1]) + "," + CsvLine(row[1..][1..]);
  }

  lemma TwoLines(first: seq<FieldValue>, second: seq<FieldValue>)
    ensures CsvText([first, second]) == CsvLine(first) + "\n" + CsvLine(second)
  {
    assert [first, second][1..] == [second];
  }

  // ---------------------------------------------------------------------------
  // CSV text, quoted as RFC 4180 requires
  // ---------------------------------------------------------------------------

  function StringRow(row: seq<FieldValue>): (r: seq<string>)
    ensures |r| == |row| && forall j :: 0 <= j < |row| ==> r[j] == Stringify(row[j])
  {
    seq(|row|, j requires 0 <= j < |row| => Stringify(row[j]))
  }

  /** The export table with every value rendered as text. */
  function ExportStrings(travelers: seq<Traveler>, cs: seq<Contribution>): (r: seq<seq<string>>)
    ensures |r| == |cs| + 1 && r[0] == ["Viajero", "Monto", "Fecha", "Nota"]
    ensures forall i :: 1 <= i <= |cs| ==> r[i] == StringRow(ExportRow(travelers, cs[i - 1]))
  {
    var rows := ExportTable(travelers, cs);
    seq(|rows|, i requires 0 <= i < |rows| => StringRow(rows[i]))
  }

  /** The export with quotes inside values doubled. */
  function SafeExport(travelers: seq<Traveler>, cs: seq<Contribution>): string {
    SafeCsvText(ExportStrings(travelers, cs))
  }

  /** Reading the quoted export gives back, for every contribution, the traveler's name, the
      amount, the date and the note, whatever characters they hold. */
  lemma ExportRoundTrip(travelers: seq<Traveler>, cs: seq<Contribution>)
    ensures ParseTable(SafeExport(travelers, cs)) == Some(ExportStrings(travelers, cs))
    ensures var table := ExportStrings(travelers, cs);
            forall i :: 1 <= i <= |cs| ==>
              && |table[i]| == 4
              && table[i][0] == Stringify(ExportRow(travelers, cs[i - 1])[0])
              && TextToNumber(table[i][1]) == Finite(cs[i - 1].amount)
              && table[i][2] == cs[i - 1].date
              && table[i][3] == cs[i - 1].note.OrElse("")
  {
    var strings := ExportStrings(travelers, cs);
    forall i | 1 <= i <= |cs|
      ensures && |strings[i]| == 4
              && strings[i][0] == Stringify(ExportRow(travelers, cs[i - 1])[0])
              && TextToNumber(strings[i][1]) == Finite(cs[i - 1].amount)
              && strings[i][2] == cs[i - 1].date
              && strings[i][3] == cs[i - 1].note.OrElse("")
    {
      ExportStringRow(travelers, cs[i - 1]);
    }
    assert forall i :: 0 <= i < |strings| ==> strings[i] != [] by {
      forall i | 0 <= i < |strings| ensures strings[i] != [] {
        if i > 0 {
          ExportStringRow(travelers, cs[i - 1]);
        }
      }
    }
    TableRoundTrip(strings);
  }

  lemma ExportStringRow(travelers: seq<Traveler>, c: Contribution)
    ensures var r := StringRow(ExportRow(travelers, c));
            && |r| == 4
            && r[0] == Stringify(ExportRow(travelers, c)[0])
            && TextToNumber(r[1]) == Finite(c.amount)
            && r[2] == c.date
            && r[3] == c.note.OrElse("")
  {
    DecimalRoundTrip(c.amount);
  }

  // ---------------------------------------------------------------------------
  // File name, share link, adding a traveler
  // ---------------------------------------------------------------------------

  const CsvSuffix: string := "-abonos.csv"

  /** The download name (AdminPage.jsx:98): the trip's name, or `viaje` without a trip, then
      `-abonos.csv`. */
  function DownloadName(trip: Option<Trip>): (r: string)
    ensures |r| >= |CsvSuffix| && r[|r| - |CsvSuffix|..] == CsvSuffix
    ensures trip.Some? ==> r[..|r| - |CsvSuffix|] == trip.value.name
    ensures trip.None? ==> r == "viaje-abonos.csv"
  {
    var base := match trip
      case Some(t) => t.name
      case None => "viaje";
    base + CsvSuffix
  }

  const PublicPrefix: string := "/viaje-publico/"

  /** The path of the share link (AdminPage.jsx:104); without a trip, `trip?.id` renders as
      `undefined`. */
  function SharePath(trip: Option<Trip>): (r: string)
    ensures |r| >= |PublicPrefix| && r[..|PublicPrefix|] == PublicPrefix
    ensures r[|PublicPrefix|..] == if trip.Some? then trip.value.id else "undefined"
  {
    PublicPrefix + match trip
      case Some(t) => t.id
      case None => "undefined"
  }

  /** The link: the page's origin followed by the share path. */
  function ShareLink(origin: string, trip: Option<Trip>): (r: string)
    ensures |r| >= |origin| && r[..|origin|] == origin && r[|origin|..] == SharePath(trip)
  {
    origin + SharePath(trip)
  }

  /** The route `/viaje-publico/:tripId` (app.jsx:39): the path is the prefix followed by one
      non-empty segment and at most one trailing slash; the result is the segment. */
  function MatchPublicRoute(path: string): (r: Option<string>)
    ensures r.Some? ==> r.value != [] && '/' !in r.value
  {
    if |path| < |PublicPrefix| || path[..|PublicPrefix|] != PublicPrefix then None
    else
      var rest := path[|PublicPrefix|..];
      var segment := if rest != [] && rest[|rest| - 1] == '/' then rest[..|rest| - 1] else rest;
      if segment != [] && '/' !in segment then Some(segment) else None
  }

  /** A trip id that fits in one path segment. */
  predicate IsSegment(id: string) {
    id != [] && '/' !in id
  }

  /** The share link of a trip opens the public page of that trip. */
  lemma ShareLinkOpensPublicPage(t: Trip)
    requires IsSegment(t.id)
    ensures MatchPublicRoute(SharePath(Some(t))) == Some(t.id)
  {
    var p := SharePath(Some(t));
    assert p[|PublicPrefix|..] == t.id;
  }

  /** Every path the public route accepts is the share path of its id, possibly with a trailing
      slash. */
  lemma PublicRouteIsSharePath(path: string, id: string)
    requires MatchPublicRoute(path) == Some(id)
    ensures path == PublicPrefix + id || path == PublicPrefix + id + "/"
  {
    var rest := path[|PublicPrefix|..];
    assert path == path[..|PublicPrefix|] + rest;
    if rest != [] && rest[|rest| - 1] == '/' {
      assert rest == rest[..|rest| - 1] + "/";
    }
  }

  /** The record inserted for a new traveler. */
  datatype NewTraveler = NewTraveler(name: string, tripId: string)

  /** `handleAddTraveler` (AdminPage.jsx:60-62): nothing when the name is only white space,
      otherwise the trimmed name in the current trip. */
  function AddTraveler(name: string, tripId: string): (r: Option<NewTraveler>)
    ensures r.None? <==> AllWhiteSpace(name)
    ensures r.Some? ==> && r.value.name == Trim(name) && r.value.tripId == tripId
                        && r.value.name != [] && IsTrimmed(r.value.name)
  {
    TrimEmptyIff(name);
    TrimSpec(name);
    if Trim(name) == [] then None else Some(NewTraveler(Trim(name), tripId))
  }

  /** Adding a traveler under a stored name stores the same name. */
  lemma AddTravelerStable(name: string, tripId: string)
    requires AddTraveler(name, tripId).Some?
    ensures AddTraveler(AddTraveler(name, tripId).value.name, tripId) == AddTraveler(name, tripId)
  {
    TrimIdempotent(name);
  }

  // ---------------------------------------------------------------------------
  // The list of contributions to manage
  // ---------------------------------------------------------------------------

  /** One line of the list: the contribution and its traveler's name, if any. */
  datatype ManageEntry = ManageEntry(contribution: Contribution, name: Option<string>)

  function Contributions(entries: seq<ManageEntry>): (r: seq<Contribution>)
    ensures |r| == |entries| && forall i :: 0 <= i < |r| ==> r[i] == entries[i].contribution
  {
    seq(|entries|, i requires 0 <= i < |entries| => entries[i].contribution)
  }

  /** The traveler name shown in the list (AdminPage.jsx:188), none when not listed. */
  function NameOf(travelers: seq<Traveler>, c: Contribution): (r: Option<string>)
    ensures r.None? <==> forall i :: 0 <= i < |travelers| ==> travelers[i].id != c.travelerId
    ensures forall i :: && 0 <= i < |travelers| && travelers[i].id == c.travelerId
                       && (forall j :: 0 <= j < i ==> travelers[j].id != c.travelerId)
                       ==> r == Some(travelers[i].name)
  {
    match FindTraveler(travelers, c.travelerId)
    case Some(t) => Some(t.name)
    case None => None
  }

  /** The manage list (AdminPage.jsx:186-189): a sorted copy of the contributions, newest
      first, same-date ones in their input order, each with its traveler's name. */
  function ManageList(travelers: seq<Traveler>, cs: seq<Contribution>): (r: seq<ManageEntry>)
    ensures multiset(Contributions(r)) == multiset(cs)
    ensures forall i, j :: 0 <= i < j < |r| && r[i].contribution.date != r[j].contribution.date ==>
              StringLess(r[j].contribution.date, r[i].contribution.date)
    ensures KeepsTieOrder(Contributions(r), cs, DateOf)
    ensures forall i :: 0 <= i < |r| ==> r[i].name == NameOf(travelers, r[i].contribution)
  {
    var sorted := Dashboard.SortedContributions(cs);
    var r := seq(|sorted|, i requires 0 <= i < |sorted| => ManageEntry(sorted[i], NameOf(travelers, sorted[i])));
    assert Contributions(r) == sorted;
    r
  }

  /** The manage list and the dashboard's history show the contributions in the same order. */
  lemma ManageListMatchesHistory(travelers: seq<Traveler>, cs: seq<Contribution>)
    ensures |ManageList(travelers, cs)| == |Dashboard.History(travelers, cs)|
    ensures forall i :: 0 <= i < |ManageList(travelers, cs)| ==>
              ManageList(travelers, cs)[i].contribution == Dashboard.History(travelers, cs)[i].contribution
  {
  }
}
