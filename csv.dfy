/**
  Delimited text. `JoinWith` is `xs.map(render).join(sep)`, the shape the export uses at both
  levels (fields joined by `,`, rows by a line feed). `QuoteAll` is the quoting of a field
  that RFC 4180 (section 2, rules 5 to 7) prescribes: the field in double quotes, with every
  double quote inside it written twice. `ParseTable` reads such text back, and
  `TableRoundTrip` shows that it recovers every field exactly, whatever characters the fields
  hold.
*/
module Csv {
  import opened Builtins

  /** `xs.map(render).join(sep)`: the rendered elements with `sep` between neighbours; the
      empty text for no elements. */
  function JoinWith<T>(xs: seq<T>, render: T -> string, sep: string): (r: string)
    ensures |xs| == 1 ==> r == render(xs[0])
  {
    if xs == [] then ""
    else if |xs| == 1 then render(xs[0])
    else render(xs[0]) + sep + JoinWith(xs[1..], render, sep)
  }

  /** The number of occurrences of `c` in `s`. */
  function Count(c: char, s: string): nat {
    if s == [] then 0 else (if s[0] == c then 1 else 0) + Count(c, s[1..])
  }

  lemma {:induction false} CountAppend(c: char, a: string, b: string)
    ensures Count(c, a + b) == Count(c, a) + Count(c, b)
  {
    if a == [] {
      assert a + b == b;
    } else {
      assert (a + b)[1..] == a[1..] + b;
      CountAppend(c, a[1..], b);
    }
  }

  lemma {:induction false} CountAbsent(c: char, s: string)
    requires c !in s
    ensures Count(c, s) == 0
  {
    if s != [] {
      assert c != s[0] && c !in s[1..];
      CountAbsent(c, s[1..]);
    }
  }

  /** Joining pieces free of `c` with the one-character separator `[c]` puts exactly one `c`
      between each pair of neighbours. */
  lemma {:induction false} JoinCount<T>(xs: seq<T>, render: T -> string, c: char)
    requires xs != []
    requires forall i :: 0 <= i < |xs| ==> c !in render(xs[i])
    ensures Count(c, JoinWith(xs, render, [c])) == |xs| - 1
  {
    CountAbsent(c, render(xs[0]));
    if |xs| > 1 {
      JoinCount(xs[1..], render, c);
      var tail := JoinWith(xs[1..], render, [c]);
      CountAppend(c, render(xs[0]) + [c], tail);
      CountAppend(c, render(xs[0]), [c]);
    }
  }

  /** Joining pieces free of `c` with a separator free of `c` gives a text free of `c`. */
  lemma {:induction false} JoinAvoids<T>(xs: seq<T>, render: T -> string, sep: string, c: char)
    requires c !in sep
    requires forall i :: 0 <= i < |xs| ==> c !in render(xs[i])
    ensures c !in JoinWith(xs, render, sep)
  {
    if |xs| > 1 {
      JoinAvoids(xs[1..], render, sep, c);
    }
  }

  // ---------------------------------------------------------------------------
  // RFC 4180 quoting
  // ---------------------------------------------------------------------------

  /** Every double quote of `s` written twice. */
  function Escape(s: string): (r: string)
    ensures |r| >= |s|
  {
    if s == [] then ""
    else if s[0] == '"' then "\"\"" + Escape(s[1..])
    else [s[0]] + Escape(s[1..])
  }

  /** A text without double quotes needs no escaping. */
  lemma {:induction false} EscapeNoQuote(s: string)
    requires '"' !in s
    ensures Escape(s) == s
  {
    if s != [] {
      assert s[0] != '"' && '"' !in s[1..];
      EscapeNoQuote(s[1..]);
      assert [s[0]] + s[1..] == s;
    }
  }

  /** A field as RFC 4180 writes it when it is quoted. */
  function QuoteAll(field: string): (r: string)
    ensures |r| >= 2 && r[0] == '"' && r[|r| - 1] == '"'
  {
    "\"" + Escape(field) + "\""
  }

  function SafeRow(row: seq<string>): string {
    JoinWith(row, QuoteAll, ",")
  }

  /** A table as RFC 4180 text: quoted fields separated by commas, rows by line feeds. */
  function SafeCsvText(rows: seq<seq<string>>): string {
    JoinWith(rows, SafeRow, "\n")
  }

  // ---------------------------------------------------------------------------
  // Reading it back
  // ---------------------------------------------------------------------------

  datatype FieldScan = FieldScan(field: string, rest: string)

  /** Reads the inside of a quoted field, `s` starting just after its opening quote: a doubled
      quote stands for one quote, a single quote closes the field. None when the field is not
      closed. */
  function ReadQuoted(s: string): (r: Option<FieldScan>)
    ensures r.Some? ==> |r.value.rest| < |s|
  {
    if s == [] then None
    else if s[0] == '"' then
      if |s| > 1 && s[1] == '"' then
        match ReadQuoted(s[2..])
        case Some(sc) => Some(FieldScan("\"" + sc.field, sc.rest))
        case None => None
      else Some(FieldScan("", s[1..]))
    else
      match ReadQuoted(s[1..])
      case Some(sc) => Some(FieldScan([s[0]] + sc.field, sc.rest))
      case None => None
  }

  datatype RowScan = RowScan(fields: seq<string>, rest: string)

  /** Reads one row of quoted fields, up to (not including) the line feed or the end. */
  function ReadRow(s: string): (r: Option<RowScan>)
    ensures r.Some? ==> |r.value.rest| < |s|
    decreases |s|
  {
    if s == [] || s[0] != '"' then None
    else
      match ReadQuoted(s[1..])
      case None => None
      case Some(sc) =>
        if sc.rest != [] && sc.rest[0] == ',' then
          match ReadRow(sc.rest[1..])
          case Some(rs) => Some(RowScan([sc.field] + rs.fields, rs.rest))
          case None => None
        else if sc.rest == [] || sc.rest[0] == '\n' then Some(RowScan([sc.field], sc.rest))
        else None
  }

  /** Reads a whole text of rows; None when it is not well-formed quoted CSV. */
  function ParseTable(s: string): Option<seq<seq<string>>>
    decreases |s|
  {
    match ReadRow(s)
    case None => None
    case Some(rs) =>
      if rs.rest == [] then Some([rs.fields])
      else
        match ParseTable(rs.rest[1..])
        case Some(rows) => Some([rs.fields] + rows)
        case None => None
  }

  lemma {:induction false} ReadQuotedEscaped(f: string, rest: string)
    requires rest == [] || rest[0] != '"'
    ensures ReadQuoted(Escape(f) + "\"" + rest) == Some(FieldScan(f, rest))
  {
    if f == [] {
      ReadQuotedClose(rest);
      assert Escape(f) + "\"" + rest == "\"" + rest;
    } else {
      var x := Escape(f[1..]) + "\"" + rest;
      ReadQuotedEscaped(f[1..], rest);
      if f[0] == '"' {
        ReadQuotedPair(x, FieldScan(f[1..], rest));
        Regroup3("\"\"", Escape(f[1..]), "\"", rest);
      } else {
        ReadQuotedChar(f[0], x, FieldScan(f[1..], rest));
        Regroup3([f[0]], Escape(f[1..]), "\"", rest);
      }
      assert [f[0]] + f[1..] == f;
    }
  }

  /** `(a + b) + c + d` and `a + (b + c + d)` are the same sequence. */
  lemma Regroup3<T>(a: seq<T>, b: seq<T>, c: seq<T>, d: seq<T>)
    ensures a + b + c + d == a + (b + c + d)
  {
  }

  lemma ReadQuotedClose(rest: string)
    requires rest == [] || rest[0] != '"'
    ensures ReadQuoted("\"" + rest) == Some(FieldScan("", rest))
  {
    assert ("\"" + rest)[1..] == rest;
  }

  lemma ReadQuotedPair(x: string, sc: FieldScan)
    requires ReadQuoted(x) == Some(sc)
    ensures ReadQuoted("\"\"" + x) == Some(FieldScan("\"" + sc.field, sc.rest))
  {
    assert ("\"\"" + x)[2..] == x;
  }

  lemma ReadQuotedChar(c: char, x: string, sc: FieldScan)
    requires c != '"' && ReadQuoted(x) == Some(sc)
    ensures ReadQuoted([c] + x) == Some(FieldScan([c] + sc.field, sc.rest))
  {
    assert ([c] + x)[1..] == x;
  }

  lemma {:induction false} ReadRowSafe(row: seq<string>, rest: string)
    requires row != []
    requires rest == [] || rest[0] == '\n'
    ensures ReadRow(SafeRow(row) + rest) == Some(RowScan(row, rest))
  {
    if |row| == 1 {
      ReadRowSafeOne(row[0], rest);
      assert [row[0]] == row;
    } else {
      ReadRowSafe(row[1..], rest);
      ReadRowSafeMore(row[0], row[1..], rest);
      assert [row[0]] + row[1..] == row;
    }
  }

  lemma ReadRowSafeOne(f: string, rest: string)
    requires rest == [] || rest[0] == '\n'
    ensures ReadRow(SafeRow([f]) + rest) == Some(RowScan([f], rest))
  {
    var e := Escape(f);
    assert SafeRow([f]) == "\"" + e + "\"";
    Regroup3("\"", e, "\"", rest);
    ReadQuotedEscaped(f, rest);
    ReadRowLast(e + "\"" + rest, FieldScan(f, rest));
  }

  lemma ReadRowSafeMore(f: string, row: seq<string>, rest: string)
    requires row != []
    requires ReadRow(SafeRow(row) + rest) == Some(RowScan(row, rest))
    ensures ReadRow(SafeRow([f] + row) + rest) == Some(RowScan([f] + row, rest))
  {
    var e := Escape(f);
    var tail := SafeRow(row);
    var after := "," + tail + rest;
    assert ([f] + row)[1..] == row;
    assert SafeRow([f] + row) == QuoteAll(f) + "," + tail;
    assert QuoteAll(f) == "\"" + e + "\"";
    Regroup3(QuoteAll(f), ",", tail, rest);
    Regroup3("\"", e, "\"", after);
    assert SafeRow([f] + row) + rest == "\"" + (e + "\"" + after);
    ReadQuotedEscaped(f, after);
    assert after[1..] == tail + rest;
    ReadRowNext(e + "\"" + after, FieldScan(f, after), RowScan(row, rest));
  }

  lemma ReadRowLast(x: string, sc: FieldScan)
    requires ReadQuoted(x) == Some(sc)
    requires sc.rest == [] || sc.rest[0] == '\n'
    ensures ReadRow("\"" + x) == Some(RowScan([sc.field], sc.rest))
  {
    assert ("\"" + x)[1..] == x;
  }

  lemma ReadRowNext(x: string, sc: FieldScan, rs: RowScan)
    requires ReadQuoted(x) == Some(sc)
    requires sc.rest != [] && sc.rest[0] == ','
    requires ReadRow(sc.rest[1..]) == Some(rs)
    ensures ReadRow("\"" + x) == Some(RowScan([sc.field] + rs.fields, rs.rest))
  {
    assert ("\"" + x)[1..] == x;
  }

  /** Reading the RFC 4180 text of a table gives the table back, for tables of at least one
      row each holding at least one field (the text of a row without fields is empty). */
  lemma {:induction false} TableRoundTrip(rows: seq<seq<string>>)
    requires rows != []
    requires forall i :: 0 <= i < |rows| ==> rows[i] != []
    ensures ParseTable(SafeCsvText(rows)) == Some(rows)
  {
    if |rows| == 1 {
      assert SafeCsvText(rows) == SafeRow(rows[0]) + "";
      ReadRowSafe(rows[0], "");
      assert [rows[0]] == rows;
    } else {
      var tail := SafeCsvText(rows[1..]);
      var text := SafeRow(rows[0]) + ("\n" + tail);
      assert SafeCsvText(rows) == text by {
        assert SafeCsvText(rows) == SafeRow(rows[0]) + "\n" + tail;
      }
      ReadRowSafe(rows[0], "\n" + tail);
      assert ("\n" + tail)[1..] == tail;
      TableRoundTrip(rows[1..]);
      ParseTableNext(text, RowScan(rows[0], "\n" + tail), rows[1..]);
      assert [rows[0]] + rows[1..] == rows;
    }
  }

  lemma ParseTableNext(s: string, rs: RowScan, rows: seq<seq<string>>)
    requires ReadRow(s) == Some(rs) && rs.rest != []
    requires ParseTable(rs.rest[1..]) == Some(rows)
    ensures ParseTable(s) == Some([rs.fields] + rows)
  {
  }
}
