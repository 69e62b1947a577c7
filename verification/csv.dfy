/** CSV export (`exportCSV`): every field wrapped in double quotes with inner quotes doubled, fields
    joined by commas, rows joined by a single space. A reader for that exact layout is defined
    alongside as the exporter's inverse. */
module Csv {
  import opened Wrappers
  import Text
  import opened Patients

  /** `String(c).replace(/"/g, '""')`: every double quote doubled. */
  function DoubleQuotes(s: string): (r: string)
    ensures |r| >= |s|
  {
    if |s| == 0 then []
    else (if s[0] == '"' then "\"\"" else [s[0]]) + DoubleQuotes(s[1..])
  }

  /** One exported field: an opening quote, the field with quotes doubled, a closing quote. */
  function Quote(f: string): (r: string)
    ensures |r| >= 2 && r[0] == '"' && r[|r| - 1] == '"'
  {
    "\"" + DoubleQuotes(f) + "\""
  }

  /** Reads the inside of a quoted field from `t`, which starts just after the opening quote: a doubled
      quote stands for one quote and a single quote closes the field. Yields the field's text and what
      follows the closing quote; `None` when the closing quote is missing. */
  function ReadQuoted(t: string): (r: Option<(string, string)>)
    ensures r.Some? ==> |r.value.1| < |t|
  {
    if |t| == 0 then None
    else if t[0] == '"' then
      if |t| >= 2 && t[1] == '"' then
        match ReadQuoted(t[2..])
        case None => None
        case Some(fr) => Some(("\"" + fr.0, fr.1))
      else Some(([], t[1..]))
    else
      match ReadQuoted(t[1..])
      case None => None
      case Some(fr) => Some(([t[0]] + fr.0, fr.1))
  }

  /** Removes the outer quotes of one exported field and halves the doubled quotes inside. */
  function Unquote(q: string): Option<string> {
    if |q| > 0 && q[0] == '"' then
      match ReadQuoted(q[1..])
      case Some(fr) => if fr.1 == [] then Some(fr.0) else None
      case None => None
    else None
  }

  lemma {:induction false} ReadQuotedDoubled(f: string, rest: string)
    requires |rest| == 0 || rest[0] != '"'
    ensures ReadQuoted(DoubleQuotes(f) + "\"" + rest) == Some((f, rest))
  {
    var t := DoubleQuotes(f) + "\"" + rest;
    if |f| == 0 {
      assert t == "\"" + rest;
      assert t[1..] == rest;
    } else {
      ReadQuotedDoubled(f[1..], rest);
      var tail := DoubleQuotes(f[1..]) + "\"" + rest;
      if f[0] == '"' {
        assert t == "\"\"" + tail;
        assert t[2..] == tail;
        assert "\"" + f[1..] == f;
      } else {
        assert t == [f[0]] + tail;
        assert t[1..] == tail;
        assert [f[0]] + f[1..] == f;
      }
    }
  }

  /** Quoting round-trips: stripping the outer quotes and halving the inner ones gives back the field. */
  lemma UnquoteQuote(f: string)
    ensures Unquote(Quote(f)) == Some(f)
  {
    ReadQuotedDoubled(f, []);
    assert Quote(f)[1..] == DoubleQuotes(f) + "\"" + [];
  }

  /** The fields of each record quoted and joined by commas. */
  function QuoteAll(fields: seq<string>): (r: seq<string>)
    ensures |r| == |fields| && forall i :: 0 <= i < |r| ==> r[i] == Quote(fields[i])
  {
    if |fields| == 0 then [] else [Quote(fields[0])] + QuoteAll(fields[1..])
  }

  function Row(fields: seq<string>): string {
    Text.Join(QuoteAll(fields), ",")
  }

  /** Reads one row of quoted, comma-separated fields from the front of `t`; yields the fields and what
      follows the row. */
  function ReadRow(t: string): (r: Option<(seq<string>, string)>)
    ensures r.Some? ==> |r.value.0| > 0 && |r.value.1| < |t|
    decreases |t|
  {
    if |t| == 0 || t[0] != '"' then None
    else
      match ReadQuoted(t[1..])
      case None => None
      case Some(fr) =>
        if |fr.1| > 0 && fr.1[0] == ',' then
          match ReadRow(fr.1[1..])
          case None => None
          case Some(rr) => Some(([fr.0] + rr.0, rr.1))
        else Some(([fr.0], fr.1))
  }

  /** Reads space-separated rows until the text is used up. */
  function ReadRows(t: string): (r: Option<seq<seq<string>>>)
    decreases |t|
  {
    match ReadRow(t)
    case None => None
    case Some(rr) =>
      if |rr.1| == 0 then Some([rr.0])
      else if rr.1[0] == ' ' then
        match ReadRows(rr.1[1..])
        case None => None
        case Some(rows) => Some([rr.0] + rows)
      else None
  }

  lemma RowCons(fields: seq<string>)
    requires |fields| >= 2
    ensures Row(fields) == Quote(fields[0]) + "," + Row(fields[1..])
  {
    assert QuoteAll(fields)[1..] == QuoteAll(fields[1..]);
  }

  /** Reading a quoted field at the front of `Quote(f) + rest` yields `f` and leaves `rest`. */
  lemma ReadQuotedAfterQuote(f: string, rest: string)
    requires |rest| == 0 || rest[0] != '"'
    ensures var t := Quote(f) + rest; |t| > 0 && t[0] == '"' && ReadQuoted(t[1..]) == Some((f, rest))
  {
    var t := Quote(f) + rest;
    assert t[1..] == DoubleQuotes(f) + "\"" + rest;
    ReadQuotedDoubled(f, rest);
  }

  lemma {:induction false} ReadRowOfRow(fields: seq<string>, rest: string)
    requires |fields| > 0
    requires |rest| == 0 || (rest[0] != ',' && rest[0] != '"')
    ensures ReadRow(Row(fields) + rest) == Some((fields, rest))
  {
    var f := fields[0];
    if |fields| == 1 {
      assert Row(fields) == Quote(f);
      ReadQuotedAfterQuote(f, rest);
      assert fields == [f];
    } else {
      var more := Row(fields[1..]) + rest;
      RowCons(fields);
      assert Row(fields) + rest == Quote(f) + ("," + more);
      ReadQuotedAfterQuote(f, "," + more);
      assert ("," + more)[1..] == more;
      ReadRowOfRow(fields[1..], rest);
      assert [f] + fields[1..] == fields;
    }
  }

  /** A field without double quotes is only wrapped, not altered. */
  lemma {:induction false} DoubleQuotesPlain(f: string)
    requires forall i :: 0 <= i < |f| ==> f[i] != '"'
    ensures DoubleQuotes(f) == f
  {
    if |f| > 0 {
      DoubleQuotesPlain(f[1..]);
      assert [f[0]] + f[1..] == f;
    }
  }

  /** Each row rendered, for the rows of a table. */
  function Rows(table: seq<seq<string>>): (r: seq<string>)
    ensures |r| == |table| && forall i :: 0 <= i < |r| ==> r[i] == Row(table[i])
  {
    if |table| == 0 then [] else [Row(table[0])] + Rows(table[1..])
  }

  /** A table whose every row has at least one field reads back from its space-joined rendering. */
  lemma {:induction false} ReadRowsOfRows(table: seq<seq<string>>)
    requires |table| > 0 && forall i :: 0 <= i < |table| ==> |table[i]| > 0
    ensures ReadRows(Text.Join(Rows(table), " ")) == Some(table)
  {
    if |table| == 1 {
      assert Text.Join(Rows(table), " ") == Row(table[0]) + [];
      ReadRowOfRow(table[0], []);
      assert Row(table[0]) + [] == Row(table[0]);
      assert table == [table[0]];
    } else {
      var more := Text.Join(Rows(table[1..]), " ");
      assert Rows(table)[1..] == Rows(table[1..]);
      assert Text.Join(Rows(table), " ") == Row(table[0]) + (" " + more);
      ReadRowOfRow(table[0], " " + more);
      assert (" " + more)[1..] == more;
      ReadRowsOfRows(table[1..]);
      assert [table[0]] + table[1..] == table;
    }
  }

  const Header: seq<string> := ["Name", "Gender", "Age", "Condition", "Added"]

  /** `row` holds, in header order, the record's name, gender, age as a decimal numeral, condition
      and creation stamp. */
  ghost predicate ExportsAs(row: seq<string>, p: Patient) {
    && |row| == |Header|
    && row[0] == p.name && row[1] == p.gender && row[3] == p.condition && row[4] == p.added
    && Text.AllDigits(row[2]) && Text.DecimalValue(row[2]) == p.age
  }

  /** The exported fields of a record. */
  function Fields(p: Patient): (r: seq<string>)
    ensures ExportsAs(r, p)
  {
    [p.name, p.gender, Text.NatToString(p.age), p.condition, p.added]
  }

  /** The header followed by one row per record, in store order. */
  function Table(s: seq<Patient>): (r: seq<seq<string>>)
    ensures |r| == |s| + 1 && r[0] == Header
    ensures forall i :: 0 <= i < |s| ==> ExportsAs(r[i + 1], s[i])
  {
    [Header] + seq(|s|, i requires 0 <= i < |s| => Fields(s[i]))
  }

  /** Why an export was refused: the store is empty. */
  datatype ExportError = NoData

  /** `exportCSV`: nothing for an empty store; otherwise the quoted rows joined by single spaces.
      The text reads back as the header followed by every record's fields in store order. */
  function Export(s: seq<Patient>): (r: Result<string, ExportError>)
    ensures r.Failure? <==> |s| == 0
    ensures r.Success? ==> ReadRows(r.value) == Some(Table(s))
  {
    if |s| == 0 then Failure(NoData)
    else
      ReadRowsOfRows(Table(s));
      Success(Text.Join(Rows(Table(s)), " "))
  }

  /** Every exported field, read back, gives the record's value; the age reads back as its number. */
  lemma ExportFields(s: seq<Patient>, i: nat)
    requires i < |s|
    ensures Export(s).Success?
    ensures var row := ReadRows(Export(s).value).value[i + 1];
      && row[0] == s[i].name && row[1] == s[i].gender && row[3] == s[i].condition && row[4] == s[i].added
      && Text.AllDigits(row[2]) && Text.DecimalValue(row[2]) == s[i].age
  {
  }
}
