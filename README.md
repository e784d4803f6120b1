# Trip savings tracker: a verified model of its core

This project is a Dafny model of the logic inside a small trip-savings tracker. In the tracker, an administrator creates one trip with an optional savings goal, adds travelers, and records dated contributions. A public page then shows progress toward the goal.

The model covers the part of the React front end that computes something:

- **The dashboard** (`Dashboard` module):
  - the total saved and the percentage of the goal;
  - the progress bar's width and colour;
  - the travelers ranked by how much each has contributed, and each traveler's share;
  - the contribution history, newest first, with its "unknown traveler" placeholders.
- **The administrator's page** (`AdminPage` module):
  - the CSV export: its rows, its text and its file name;
  - the rule for adding a traveler;
  - the public share link and the route that opens it;
  - the list of contributions to manage.
- **The contribution form** (`ContributionForm` module): its initial values, the effect that selects a traveler, the check made on submit, and the record it saves.
- **The trip form** (`TripForm` module): its currencies, its initial values, its required fields, and the record it saves.

Four modules hold what these share:

- `Records`: the three records (trip, traveler, contribution), the lookup of a traveler by id, and the order on dates.
- `StableSort`: the stable sort that `Array.prototype.sort` performs. ECMA-262 has required this sort to be stable since its 2019 edition.
- `Builtins`: the JavaScript built-ins the code relies on:
  - `trim`;
  - `Number(text)`;
  - the decimal text of a number;
  - truthiness;
  - `toUpperCase` of an initial;
  - string order.
- `Csv`: the join of rendered values, and quoting as section 2 of RFC 4180 prescribes, with a reader for it.

Every view is an expression over the trip, the travelers and the contributions, so most of the model is functions with lemmas about them. The CSV rows are the one place where the source builds a result step by step: it pushes rows onto an array inside a loop. `AdminPage.ExportRows` is that loop, proved against `AdminPage.ExportTable`.

Three behaviours of the code are worth stating up front:

- **The goal percentage falls back to 0 only when the goal is missing or 0.** Any other goal is a divisor, so a negative goal with a positive total gives a negative percentage. That percentage is never shown, because the goal block needs a positive goal (src/components/Dashboard.jsx:79).
- **The export header is in Spanish.** It reads `Viajero, Monto, Fecha, Nota`.
- **The export does not escape quotes inside values,** which section 2 of RFC 4180 requires. This is the finding below.

## Model

| member | source | states |
|---|---|---|
| `Records.FindTraveler` | src/components/Dashboard.jsx:164 | The lookup gives nothing exactly when no traveler has the id. Otherwise it gives the first traveler with that id. |
| `Records.DateOrderIsStrictTotal` | src/components/Dashboard.jsx:47-49 | The order on date strings is irreflexive, transitive and total, so it is a valid comparator for a sort. |
| `Records.IsoDateOrder` | src/components/Dashboard.jsx:48 | On `YYYY-MM-DD` strings, the string order is the calendar order: year, then month, then day. |
| `StableSort.SortDesc` | src/components/Dashboard.jsx:45 | The sort returns a permutation of its input. `SortDescSorted`, `SortDescStable` and `SortDescIsTheStableSort` state its order. |
| `StableSort.SortDescSorted` | src/components/Dashboard.jsx:45 | Keys never increase along the sorted sequence. |
| `StableSort.SortDescStable` | src/components/Dashboard.jsx:45 | Elements with equal keys keep their input order. |
| `StableSort.SortDescIsTheStableSort` | src/components/Dashboard.jsx:47-49 | Any arrangement that is sorted and keeps tie order is the model's result. So the model is the only result a stable sort can give. |
| `Builtins.Trim` | src/pages/AdminPage.jsx:60 | `trim` returns a text no longer than its input, with no white space at either end. `TrimSpec` shows it is the middle of the input. |
| `Builtins.SkipLeading` | src/pages/AdminPage.jsx:60 | The index reached skips only white space and stops at the first character that is not white space, or at the end. |
| `Builtins.SkipTrailing` | src/pages/AdminPage.jsx:60 | The index reached skips only trailing white space and stops just after the last character that is not white space, or at the lower bound. |
| `Builtins.TrimOfTrimmed` | src/components/TripForm.jsx:21 | A text without white space at either end is its own trim. |
| `Builtins.TrimSpec` | src/pages/AdminPage.jsx:60 | `trim` returns the middle of the text between two runs of white space, and the result has no white space at either end. |
| `Builtins.TrimIdempotent` | src/components/TripForm.jsx:21 | Trimming twice is the same as trimming once. |
| `Builtins.TextToNumber` | src/components/ContributionForm.jsx:26 | `Number` of a text that is only white space (the empty text included) is 0. `DecimalRoundTrip` shows that the decimal text of an integer reads back as that integer. |
| `Builtins.Truthy` | src/components/ContributionForm.jsx:26 | The falsy amounts are exactly the empty text and the number 0. |
| `Builtins.ToNumber` | src/components/ContributionForm.jsx:26 | The two falsy amounts have the number 0, and a stored number is itself. |
| `Builtins.DecimalRoundTrip` | src/components/ContributionForm.jsx:33 | `Number` of an integer's decimal text gives back the integer. |
| `Builtins.FalsyIsZero` | src/components/ContributionForm.jsx:26 | A falsy amount (the empty text or 0) has the number 0. |
| `Builtins.IntToDecimal` | src/pages/AdminPage.jsx:93 | The decimal text of an integer is non-empty and has no white space at its ends. It is all digits exactly when the integer is non-negative. |
| `Builtins.UpperCase` | src/components/Dashboard.jsx:169 | An ASCII lower-case letter becomes its capital and an ASCII capital stays as it is. |
| `Builtins.UpperCaseIdempotent` | src/components/Dashboard.jsx:169 | Upper-casing an upper-cased letter again changes nothing. |
| `Builtins.Initial` | src/components/Dashboard.jsx:169 | The initial is empty exactly when the name is empty. Otherwise it is the upper-case form of the first character, and it is itself upper case. |
| `Dashboard.ReduceAmounts` | src/components/Dashboard.jsx:37 | The left-to-right sum of the amounts from an accumulator is the accumulator plus the sum of the amounts. |
| `Dashboard.TotalSaved` | src/components/Dashboard.jsx:37 | The total saved is the sum of all amounts, and 0 when there are no contributions. |
| `Dashboard.TotalSavedAppend` | src/components/Dashboard.jsx:37 | The total of two lists joined together is the sum of their totals. |
| `Dashboard.TotalSavedNonNegative` | src/components/Dashboard.jsx:37 | With non-negative amounts, the total is non-negative. |
| `Dashboard.SumByPermutation` | src/components/Dashboard.jsx:40-45 | Reordering the elements does not change a sum. |
| `Dashboard.Percent` | src/components/Dashboard.jsx:38 | The percentage is 0 when the goal is missing or 0. Otherwise, multiplied by the goal, it equals the total times 100. |
| `Dashboard.GoalReachedIff` | src/components/Dashboard.jsx:38 | For a positive goal, the percentage reaches 100 exactly when the total reaches the goal, and passes 100 exactly when the total passes it. |
| `Dashboard.PercentNonNegative` | src/components/Dashboard.jsx:38 | A non-negative total gives a non-negative percentage of a positive goal. |
| `Dashboard.BarWidth` | src/components/Dashboard.jsx:10 | The bar width is the smaller of the percentage and 100. |
| `Dashboard.BarFill` | src/components/Dashboard.jsx:11-13 | The fill is green exactly when the percentage is at least 100. |
| `Dashboard.GoalPanel` | src/components/Dashboard.jsx:79-107 | The goal block is shown exactly when the goal is positive. When shown: its percentage is the dashboard's percentage, its bar width is the smaller of that percentage and 100, and its fill is green exactly when the percentage reaches 100. Its "goal reached" message, green fill and full bar each appear exactly when the total reaches the goal. |
| `Dashboard.OfTraveler` | src/components/Dashboard.jsx:42 | The filter keeps exactly the contributions of the given traveler, each as many times as it occurs in the input. |
| `Dashboard.FilterSumIsAmountIn` | src/components/Dashboard.jsx:41-43 | Filtering by a traveler id and summing gives the amount of the contributions with that id. |
| `Dashboard.TravelerSum` | src/components/Dashboard.jsx:41-43 | A traveler's total is the amount of the contributions carrying its id. |
| `Dashboard.WithTotals` | src/components/Dashboard.jsx:40-44 | There is one entry per traveler, in order, with the traveler's own fields and its sum. |
| `Dashboard.TravelerTotals` | src/components/Dashboard.jsx:40-45 | The ranking has one entry per traveler and is a permutation of the mapped travelers. Each entry keeps its traveler and carries the sum of that traveler's contributions. Totals never increase along the list, and equal totals keep their input order. |
| `Dashboard.NoContributionsZero` | src/components/Dashboard.jsx:41-43 | A traveler with no contributions has total 0. |
| `Dashboard.AmountInUnion` | src/components/Dashboard.jsx:41-43 | The amounts for two disjoint sets of ids add up. |
| `Dashboard.Ids` | src/components/Dashboard.jsx:40 | An id is in the set exactly when some traveler has it. |
| `Dashboard.Unmatched` | src/components/Dashboard.jsx:164 | The result holds exactly the contributions whose traveler the lookup does not find, each as many times as it occurs in the input. |
| `Dashboard.WithTotalsSum` | src/components/Dashboard.jsx:40-44 | With unique ids, the totals add up to the amount of the contributions whose traveler is listed. |
| `Dashboard.MatchedPlusUnmatched` | src/components/Dashboard.jsx:37 | The total saved is the listed travelers' amount plus the amount of the unmatched contributions. |
| `Dashboard.TotalsAddUp` | src/components/Dashboard.jsx:40-45 | With unique traveler ids, the traveler totals sum to the total saved minus the unmatched amounts. |
| `Dashboard.Participation` | src/components/Dashboard.jsx:129 | The share is 0 unless the total saved is positive. Otherwise, multiplied by the total saved, it equals the traveler's total times 100. |
| `Dashboard.ShareBounds` | src/components/Dashboard.jsx:129 | A part between 0 and the whole is a share between 0 and 100. |
| `Dashboard.AmountInBounded` | src/components/Dashboard.jsx:41-43 | With non-negative amounts, any traveler's amount lies between 0 and the total saved. |
| `Dashboard.ParticipationBounds` | src/components/Dashboard.jsx:129 | With non-negative amounts, every ranked traveler's share lies between 0 and 100. |
| `Dashboard.SortedContributions` | src/components/Dashboard.jsx:47-49 | The history order is a permutation of the contributions: a later date always comes before an earlier one, and same-date entries keep their input order. |
| `Dashboard.ShownName` | src/components/Dashboard.jsx:172 | The name shown is that of the first traveler with the contribution's traveler id, or `Desconocido` when no traveler has it. |
| `Dashboard.ShownInitial` | src/components/Dashboard.jsx:169 | The letter shown is the initial of the first traveler with the contribution's traveler id, or `?` when no traveler has it. |
| `Dashboard.History` | src/components/Dashboard.jsx:163-172 | There is one line per contribution, in history order. Each line shows the name and initial of its traveler. |
| `Dashboard.UnmatchedStillShown` | src/components/Dashboard.jsx:169-172 | A contribution whose traveler is not listed is still shown, as `Desconocido` with the initial `?`. |
| `Dashboard.Render` | src/components/Dashboard.jsx:34-49 | Nothing is shown without a trip. Otherwise the view shows the sum of the amounts, the goal percentage, the goal block, the ranking of `TravelerTotals` and the lines of `History`. |
| `Csv.JoinWith` | src/pages/AdminPage.jsx:93 | Joining a single element gives that element rendered. |
| `Csv.CountAppend` | src/pages/AdminPage.jsx:93 | Counting a character in two joined texts gives the sum of the two counts. |
| `Csv.JoinCount` | src/pages/AdminPage.jsx:93 | Joining pieces free of a character, with that character as separator, puts exactly one of it between each pair of neighbours. |
| `Csv.JoinAvoids` | src/pages/AdminPage.jsx:93 | Joining pieces free of a character, with a separator free of it, gives a text free of it. |
| `Csv.QuoteAll` | src/pages/AdminPage.jsx:93 | A field quoted as RFC 4180 prescribes starts and ends with a double quote. |
| `Csv.EscapeNoQuote` | src/pages/AdminPage.jsx:93 | A text without double quotes is unchanged by escaping. |
| `Csv.ReadQuotedEscaped` | src/pages/AdminPage.jsx:93 | Reading an escaped field back gives the field and stops just after its closing quote. |
| `Csv.ReadRowSafe` | src/pages/AdminPage.jsx:93 | Reading an RFC 4180 row back gives its fields. |
| `Csv.TableRoundTrip` | src/pages/AdminPage.jsx:93 | Reading the RFC 4180 text of a table gives the table back, whatever characters its fields hold. |
| `AdminPage.ExportRow` | src/pages/AdminPage.jsx:90-91 | A row holds four values: the name of the first traveler with the contribution's traveler id (empty when there is none), the amount, the date, and the note (empty when null). |
| `AdminPage.ExportTable` | src/pages/AdminPage.jsx:88-92 | The table has the header first, then one row per contribution in input order, so it has one row more than there are contributions. |
| `AdminPage.ExportTableUnique` | src/pages/AdminPage.jsx:88-92 | A table with the header first and each contribution's row in its place is the export table. |
| `AdminPage.ExportRows` | src/pages/AdminPage.jsx:88-92 | The loop returns the header followed by one row per contribution, in order. |
| `AdminPage.Stringify` | src/pages/AdminPage.jsx:93 | A text value is rendered as it is. A number is rendered as a non-empty text that reads back as that number. |
| `AdminPage.QuoteField` | src/pages/AdminPage.jsx:93 | A quoted value is the rendered value, unchanged, between two double quotes. |
| `AdminPage.CsvLine` | src/pages/AdminPage.jsx:93 | A row of one value is that value quoted; an empty row is the empty text. `LineOfFour` gives the shape of a four-value line. |
| `AdminPage.CsvText` | src/pages/AdminPage.jsx:93 | A table of one row is that row's line; no rows give the empty text. `TwoLines` and `CsvNewlines` give the line feeds between rows. |
| `AdminPage.NumberTextIsPlain` | src/pages/AdminPage.jsx:93 | A rendered amount holds only digits and a minus sign. |
| `AdminPage.LineHasNoNewline` | src/pages/AdminPage.jsx:93 | A line whose values hold no line feed holds none. |
| `AdminPage.LineOfFour` | src/pages/AdminPage.jsx:93 | A line of four values is the four quoted values with commas between them. |
| `AdminPage.TwoLines` | src/pages/AdminPage.jsx:93 | The text of two rows is the first line, a line feed, and the second line. |
| `AdminPage.CsvNewlines` | src/pages/AdminPage.jsx:93 | When no value holds a line feed, the text has exactly one line feed fewer than it has rows. |
| `AdminPage.ExportNewlines` | src/pages/AdminPage.jsx:88-93 | When no name, date or note holds a line feed, the export holds exactly one line feed per contribution. |
| `AdminPage.ExportCollides` | src/pages/AdminPage.jsx:93 | For any texts `d` and `n` and any travelers, a contribution without a note dated `d","n` and the same contribution dated `d` with the note `n","` differ but export to the same CSV text, because quotes are not escaped. |
| `AdminPage.UnescapedQuoteUnreadable` | src/pages/AdminPage.jsx:93 | A value holding a quote followed by anything but a quote, a comma or a line feed (a note `Pago "1"`, say), written unescaped, is text an RFC 4180 reader rejects. |
| `AdminPage.CollidingLines` | src/pages/AdminPage.jsx:93 | Two rows that share their first two values, one ending in `d","n` and the empty text and the other in `d` and `n","`, give the same line. |
| `AdminPage.ShiftedBoundary` | src/pages/AdminPage.jsx:93 | Unescaped, the quoted values `d","n` and the empty note spell the same text as the quoted values `d` and `n","`. |
| `AdminPage.ExportStrings` | src/pages/AdminPage.jsx:88-93 | The rendered table has the header texts first, then the rendered row of each contribution in input order. |
| `AdminPage.StringRow` | src/pages/AdminPage.jsx:93 | Each value of a row is rendered as text, in place. |
| `AdminPage.ExportStringRow` | src/pages/AdminPage.jsx:90-91 | A rendered row has four texts, and its amount text reads back as the amount. |
| `AdminPage.ExportRoundTrip` | src/pages/AdminPage.jsx:88-93 | Reading back the export with quotes doubled gives the header and, for every contribution, its traveler name, amount, date and note. |
| `AdminPage.DownloadName` | src/pages/AdminPage.jsx:98 | The file name ends in `-abonos.csv`, preceded by the trip name, or by `viaje` when there is no trip. |
| `AdminPage.SharePath` | src/pages/AdminPage.jsx:104 | The share path is `/viaje-publico/` followed by the trip's id, or by `undefined` when there is no trip. |
| `AdminPage.ShareLink` | src/pages/AdminPage.jsx:104 | The link is the origin followed by the share path. |
| `AdminPage.MatchPublicRoute` | src/app.jsx:39 | An accepted path yields a non-empty id with no slash. |
| `AdminPage.ShareLinkOpensPublicPage` | src/pages/AdminPage.jsx:104 | When a trip's id is a single non-empty path segment, its share path opens the public page of that id. |
| `AdminPage.PublicRouteIsSharePath` | src/app.jsx:39 | Every path the public route accepts is the share path of its id, possibly with one trailing slash. |
| `AdminPage.AddTraveler` | src/pages/AdminPage.jsx:60-62 | Adding is refused exactly when the name is only white space. Otherwise the stored name is the trimmed name (non-empty and trimmed), in the current trip. |
| `AdminPage.AddTravelerStable` | src/pages/AdminPage.jsx:60-62 | Adding a traveler under an already stored name stores the same name. |
| `AdminPage.Contributions` | src/pages/AdminPage.jsx:188 | This lists the contributions of the entries, in order. |
| `AdminPage.NameOf` | src/pages/AdminPage.jsx:189 | The name is that of the first traveler with the contribution's traveler id, and none exactly when no traveler has that id. |
| `AdminPage.ManageList` | src/pages/AdminPage.jsx:186-189 | The manage list is a permutation of the contributions: newest date first, same-date entries in input order, each with its traveler's name. |
| `AdminPage.ManageListMatchesHistory` | src/pages/AdminPage.jsx:186-187 | The manage list and the dashboard history show the contributions in the same order. |
| `ContributionForm.InitialForm` | src/components/ContributionForm.jsx:6-11 | Each field starts from the edited contribution. Otherwise: the first traveler's id (or empty), an empty amount, today's date, and an empty note. |
| `ContributionForm.SyncTraveler` | src/components/ContributionForm.jsx:15-19 | An empty traveler id becomes the first traveler's id when there is one. Nothing else changes. |
| `ContributionForm.SyncTravelerIdempotent` | src/components/ContributionForm.jsx:15-19 | Running the effect again changes nothing. |
| `ContributionForm.SyncCatchesUp` | src/components/ContributionForm.jsx:7 | A new form opened before the travelers arrived becomes, once they arrive, the form it would have been had they been known. |
| `ContributionForm.Submit` | src/components/ContributionForm.jsx:26-34 | Submission is rejected exactly when there is no traveler, the amount is falsy, or the amount's number is at most 0. Otherwise the saved record is the form with its amount as a number. |
| `ContributionForm.RejectIffNotPositive` | src/components/ContributionForm.jsx:26 | The falsy test is redundant. A form is rejected exactly when it has no traveler or its amount is a number at most 0. |
| `ContributionForm.TypedAmount` | src/components/ContributionForm.jsx:26-34 | A typed whole amount is saved as that amount. It is accepted exactly when a traveler is chosen and the amount is positive. |
| `ContributionForm.ResubmitEdit` | src/components/ContributionForm.jsx:7-10 | Saving an edit form unchanged passes the contribution's own values on. It is accepted exactly when the contribution has a traveler id and a positive amount. |
| `TripForm.CurrencyList` | src/components/TripForm.jsx:3 | There are eight distinct codes, and the default `COP` is the first. |
| `TripForm.InitialTripForm` | src/components/TripForm.jsx:6-12 | Each field starts from the edited trip. Otherwise it is empty, and the currency is `COP`. |
| `TripForm.SelectCurrency` | src/components/TripForm.jsx:48-49 | A choice in the selector sets the chosen listed currency and changes nothing else. |
| `TripForm.SubmitTrip` | src/components/TripForm.jsx:21-30 | Submission is rejected exactly when the name or the destination is only white space. Otherwise the goal is null exactly when it is falsy (else its number), the date is null exactly when it is empty, and name, destination and currency pass unchanged. |
| `TripForm.ResaveTrip` | src/components/TripForm.jsx:26-30 | Saving an edit form unchanged keeps name, destination and currency. The goal is kept except that 0 becomes null, and the date is kept except that an empty date becomes null. |
| `TripForm.ResaveKeepsProgress` | src/components/TripForm.jsx:28 | Re-saving a trip leaves the dashboard's percentage unchanged. |
| `TripForm.TypedTarget` | src/components/TripForm.jsx:28 | A goal typed as a whole number is saved as that number. The text `0` is saved as 0, not as null. |

## Left out

- **Reads and writes of the hosted database** (src/pages/AdminPage.jsx:28-85): inserting, updating and deleting trips, travelers and contributions is network I/O. The model takes the records as they arrive, and stops at the record each form or handler would send.
- **Authentication and the other routes** (src/app.jsx): these are wrappers around the router and an authentication context. Only the public route's pattern is modelled.
- **The public page** (src/components/pages/PublicPage.jsx) is not part of this model.
- **Number and date formatting** (`Dashboard.jsx:21-32`, the date formats at `Dashboard.jsx:63` and `:181`, and `AdminPage.jsx:198`): the money amounts and dates shown depend on `Intl.NumberFormat`, `toLocaleString` and locale tables.
- **The one-decimal rounding of the shown percentages** (`toFixed(1)`) depends on floating point.
- **The download and the clipboard**: the file download (Blob, object URL, anchor click) and the clipboard write with its 2.5-second "copied" flag are browser I/O and a timer.
- **Component state and UI plumbing**:
  - React state updates, loading flags and modal dialogs;
  - the disabled state of the "record contribution" button when there are no travelers;
  - the browser's own checks for `required` fields;
  - error messages from the store.

  `AdminPage.AddTraveler` and the two submit functions model only what the handlers compute.
- **Today's date** comes from the clock. It is the parameter `today` of `ContributionForm.InitialForm`.
- **The page origin** comes from the browser. It is the parameter `origin` of `AdminPage.ShareLink`.
- `Builtins.TextToNumber`: models `Number` only on whole decimal numbers with an optional sign and surrounding white space (empty text is 0). Fractions, exponents, hexadecimal, `Infinity` and every other text are NaN in the model, although `Number` reads some of them, and a number input with `step="any"` can produce fractions.
- `Dashboard.TotalSaved`: amounts are unbounded integers, so the model ignores the rounding of JavaScript's double-precision numbers for sums past 2^53.
- `Builtins.IntToDecimal`: always writes plain decimal digits. `String(n)` switches to exponent notation for magnitudes of 1e21 and above, so the rendered amount in the export differs there.
- `ContributionForm.Submit`: because `Builtins.TextToNumber` reads fractional texts as NaN, the model accepts non-positive fractions such as `0.0` or `-2.5`, which the handler rejects, since `Number` gives 0 and -2.5 and both are at most 0. The number input's `min="1"` (src/components/ContributionForm.jsx:50) makes the browser block such values before the handler runs; the model does not include that browser check.
- `Dashboard.Percent` and `Dashboard.Participation`: use exact rational arithmetic instead of double-precision division.
- `Records.DateOf`: orders all date strings by character. `new Date` turns a string that is not a date into NaN, which makes the source's comparator inconsistent. `Records.IsoDateOrder` shows the two orders agree on `YYYY-MM-DD` strings that name a calendar date.
- `AdminPage.MatchPublicRoute`: accepts at most one trailing slash, while the router accepts any run of trailing slashes (so `/viaje-publico/abc//` opens the page there but not in the model). It also matches the prefix with its exact case and does not decode percent escapes, while the router matches without regard to case and decodes the segment. For an id with a capital letter or a `%`, the two can differ.
- `Builtins.UpperCase`: upper-cases Basic Latin and Latin-1 letters only. Other characters are returned unchanged, where JavaScript applies the full Unicode case mapping.
- `Builtins.Initial`: takes the first character as a whole code point. `charAt(0)` takes the first UTF-16 code unit, so for a name starting outside the Basic Multilingual Plane the source shows half a surrogate pair.

## Findings

| source | as written | input that shows it | evidently intended | confidence | as-written member | corrected member |
|---|---|---|---|---|---|---|
| src/pages/AdminPage.jsx:93 | each value is wrapped in double quotes as it is, so a quote inside a value ends the field early | for any texts D and N, a contribution dated `D","N` with no note, and one dated `D` with note `N","` (same traveler and amount), both export the same text; with amount 10 and the traveler not listed, both export the data line `"","10","D","N",""`. Dates come from a date input, so a realistic case is a note such as `Pago "1"`: it is written as `"Pago "1""`, which an RFC 4180 reader rejects (`AdminPage.UnescapedQuoteUnreadable`) | quotes inside values doubled (section 2 of RFC 4180), so reading the file back gives every name, amount, date and note | not executed | `AdminPage.ExportCollides` | `AdminPage.ExportRoundTrip` |
