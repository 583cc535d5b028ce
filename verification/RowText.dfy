/**
 The text of multi-row INSERT statements. The C code renders each row with asprintf and
 accumulates the rows with "%s,%s"; SQLite reads the text back. ReadRows is the reader's
 side, written without looking at the writer: a recursive descent over the VALUES list.
 */
module RowText {
  import opened Text

  datatype Field = Quoted(s: string) | Num(n: int)

  type Row = seq<Field>

  ghost predicate Renderable(row: Row) {
    row != [] && forall i :: 0 <= i < |row| ==> row[i].Quoted? ==> QuoteFree(row[i].s)
  }

  ghost predicate AllRenderable(rows: seq<Row>) { forall i :: 0 <= i < |rows| ==> Renderable(rows[i]) }

  // ---- writing ----

  function Digit(d: nat): char requires d < 10 { ('0' as int + d) as char }

  function Digits(n: nat): string {
    if n < 10 then [Digit(n)] else Digits(n / 10) + [Digit(n % 10)]
  }

  /** "%d" */
  function Decimal(n: int): string { if n < 0 then "-" + Digits(-n) else Digits(n) }

  function RenderField(f: Field): string {
    match f
    case Quoted(s) => "\"" + s + "\""
    case Num(n) => Decimal(n)
  }

  function RenderFields(fs: Row): string {
    if fs == [] then ")"
    else RenderField(fs[0]) + if |fs| == 1 then ")" else ", " + RenderFields(fs[1..])
  }

  function RenderRow(row: Row): string { "(" + RenderFields(row) }

  /** The comma join: what the accumulation is meant to be. */
  function JoinRows(rows: seq<Row>): string
    requires rows != []
  {
    RenderRow(rows[0]) + if |rows| == 1 then "" else "," + JoinRows(rows[1..])
  }

  /** One accumulation step, NULL being None. */
  function Accumulate(text: Option<string>, val: string): Option<string> {
    match text
    case None => Some(val)
    case Some(t) => Some(t + "," + val)
  }

  function TextOf(rows: seq<Row>): Option<string>
  {
    if rows == [] then None else Some(JoinRows(rows))
  }

  /** Accumulating one row after another is the comma join. */
  lemma {:induction false} AccumulateRow(rows: seq<Row>, row: Row)
    ensures Accumulate(TextOf(rows), RenderRow(row)) == TextOf(rows + [row])
  {
    if rows == [] {
      JoinOne(row);
    } else if |rows| == 1 {
      JoinOne(row);
      JoinOne(rows[0]);
      JoinCons(rows[0], [row]);
      assert rows == [rows[0]];
      assert [rows[0]] + [row] == rows + [row];
      Assoc(RenderRow(rows[0]), ",", RenderRow(row));
    } else {
      var first, rest := rows[0], rows[1..];
      AccumulateRow(rest, row);
      JoinCons(first, rest);
      JoinCons(first, rest + [row]);
      assert [first] + rest == rows && [first] + (rest + [row]) == rows + [row];
      AssocFive(RenderRow(first), ",", JoinRows(rest), ",", RenderRow(row));
    }
  }

  lemma JoinOne(row: Row)
    ensures JoinRows([row]) == RenderRow(row)
  {
    assert RenderRow(row) + "" == RenderRow(row);
  }

  lemma JoinCons(row: Row, rows: seq<Row>)
    requires rows != []
    ensures JoinRows([row] + rows) == RenderRow(row) + ("," + JoinRows(rows))
  {
    assert ([row] + rows)[1..] == rows;
  }

  lemma Assoc(a: string, b: string, c: string)
    ensures a + b + c == a + (b + c)
  {
  }

  lemma AssocFive(a: string, b: string, c: string, d: string, e: string)
    ensures a + (b + c) + d + e == a + (b + (c + d + e))
  {
    Assoc(a, b + c, d);
    Assoc(a, b + c + d, e);
    Assoc(b, c, d);
    Assoc(b, c + d, e);
  }

  // ---- reading ----

  datatype Reading<+T> = Bad | Got(value: T, rest: string)

  /** Characters up to the next double quote, which is dropped. */
  function ReadQuoted(s: string): (r: Reading<string>)
    ensures r.Got? ==> |r.rest| < |s|
  {
    if s == "" then Bad
    else if s[0] == '"' then Got("", s[1..])
    else match ReadQuoted(s[1..])
      case Bad => Bad
      case Got(v, rest) => Got([s[0]] + v, rest)
  }

  predicate StartsWithDigit(s: string) { s != "" && '0' <= s[0] <= '9' }

  function ReadDigits(s: string, acc: nat): (r: (nat, string))
    ensures |r.1| <= |s|
    ensures StartsWithDigit(s) ==> |r.1| < |s|
  {
    if StartsWithDigit(s) then ReadDigits(s[1..], acc * 10 + (s[0] as int - '0' as int)) else (acc, s)
  }

  function ReadField(s: string): (r: Reading<Field>)
    ensures r.Got? ==> |r.rest| < |s|
  {
    if s == "" then Bad
    else if s[0] == '"' then
      match ReadQuoted(s[1..])
      case Bad => Bad
      case Got(v, rest) => Got(Quoted(v), rest)
    else if s[0] == '-' && StartsWithDigit(s[1..]) then
      var (n, rest) := ReadDigits(s[1..], 0); Got(Num(0 - n), rest)
    else if StartsWithDigit(s) then
      var (n, rest) := ReadDigits(s, 0); Got(Num(n), rest)
    else Bad
  }

  function ReadFields(s: string): (r: Reading<Row>)
    ensures r.Got? ==> |r.rest| < |s|
    decreases |s|
  {
    match ReadField(s)
    case Bad => Bad
    case Got(f, rest) =>
      if rest != "" && rest[0] == ')' then Got([f], rest[1..])
      else if |rest| >= 2 && rest[..2] == ", " then
        match ReadFields(rest[2..])
        case Bad => Bad
        case Got(fs, rest') => Got([f] + fs, rest')
      else Bad
  }

  function ReadRows(s: string): Option<seq<Row>>
    decreases |s|
  {
    if s == "" || s[0] != '(' then None
    else match ReadFields(s[1..])
      case Bad => None
      case Got(row, rest) =>
        if rest == "" then Some([row])
        else if rest[0] == ',' then
          match ReadRows(rest[1..])
          case None => None
          case Some(rows) => Some([row] + rows)
        else None
  }

  // ---- round trips ----

  lemma {:induction false} ReadQuotedBack(v: string, rest: string)
    requires QuoteFree(v)
    ensures ReadQuoted(v + "\"" + rest) == Got(v, rest)
  {
    if v == "" {
      assert v + "\"" + rest == "\"" + rest;
    } else {
      assert (v + "\"" + rest)[1..] == v[1..] + "\"" + rest;
      ReadQuotedBack(v[1..], rest);
      assert [v[0]] + v[1..] == v;
    }
  }


  lemma {:induction false} ReadDigitsSplit(n: nat, rest: string)
    requires !StartsWithDigit(rest)
    ensures StartsWithDigit(Digits(n) + rest)
    ensures ReadDigits(Digits(n) + rest, 0) == (n, rest)
  {
    ReadDigitsThen(n, rest);
    assert ReadDigits(rest, n) == (n, rest);
  }

  lemma {:induction false} ReadDigitsThen(n: nat, rest: string)
    ensures |Digits(n)| > 0 && '0' <= Digits(n)[0] <= '9'
    ensures ReadDigits(Digits(n) + rest, 0) == ReadDigits(rest, n)
  {
    if n < 10 {
      assert (Digits(n) + rest)[1..] == rest;
    } else {
      var d := [Digit(n % 10)];
      ReadDigitsThen(n / 10, d + rest);
      assert Digits(n) + rest == Digits(n / 10) + (d + rest);
      assert (d + rest)[1..] == rest;
    }
  }

  lemma ReadFieldBack(f: Field, rest: string)
    requires f.Quoted? ==> QuoteFree(f.s)
    requires !StartsWithDigit(rest)
    ensures ReadField(RenderField(f) + rest) == Got(f, rest)
  {
    hide ReadDigits, ReadQuoted, Digits;
    match f
    case Quoted(v) =>
      assert (RenderField(f) + rest)[1..] == v + "\"" + rest;
      ReadQuotedBack(v, rest);
    case Num(n) =>
      if n < 0 {
        ReadDigitsSplit(-n, rest);
        assert (RenderField(f) + rest)[1..] == Digits(-n) + rest;
      } else {
        ReadDigitsSplit(n, rest);
      }
  }

  lemma ReadLastField(s: string, f: Field, rest: string)
    requires ReadField(s) == Got(f, ")" + rest)
    ensures ReadFields(s) == Got([f], rest)
  {
    assert (")" + rest)[1..] == rest;
  }

  lemma ReadOneMoreField(s: string, f: Field, t: string, fs: Row, rest: string)
    requires ReadField(s) == Got(f, ", " + t) && ReadFields(t) == Got(fs, rest)
    ensures ReadFields(s) == Got([f] + fs, rest)
  {
    assert (", " + t)[2..] == t && (", " + t)[..2] == ", ";
  }

  lemma RenderFieldsSplit(row: Row, rest: string)
    requires row != []
    ensures RenderFields(row) + rest ==
            RenderField(row[0]) + if |row| == 1 then ")" + rest else ", " + (RenderFields(row[1..]) + rest)
  {
    hide RenderField;
    var f := RenderField(row[0]);
    if |row| == 1 {
      Assoc(f, ")", rest);
    } else {
      var t := RenderFields(row[1..]);
      Assoc(", ", t, rest);
      Assoc(f, ", " + t, rest);
    }
  }

  lemma {:induction false} ReadFieldsBack(row: Row, rest: string)
    requires Renderable(row)
    ensures ReadFields(RenderFields(row) + rest) == Got(row, rest)
  {
    hide ReadFields, ReadField, RenderField, RenderFields;
    var s, f := RenderFields(row) + rest, row[0];
    RenderFieldsSplit(row, rest);
    if |row| == 1 {
      ReadFieldBack(f, ")" + rest);
      ReadLastField(s, f, rest);
      assert [f] == row;
    } else {
      var t := RenderFields(row[1..]) + rest;
      ReadFieldBack(f, ", " + t);
      ReadFieldsBack(row[1..], rest);
      ReadOneMoreField(s, f, t, row[1..], rest);
      assert [f] + row[1..] == row;
    }
  }

  lemma ReadLastRow(s: string, row: Row)
    requires ReadFields(s) == Got(row, "")
    ensures ReadRows("(" + s) == Some([row])
  {
    assert ("(" + s)[1..] == s;
  }

  lemma ReadOneMoreRow(s: string, row: Row, t: string, rows: seq<Row>)
    requires ReadFields(s) == Got(row, "," + t) && ReadRows(t) == Some(rows)
    ensures ReadRows("(" + s) == Some([row] + rows)
  {
    assert ("(" + s)[1..] == s && ("," + t)[1..] == t;
  }

  /** The statement text of any list of quote-free rows reads back as that list. */
  lemma {:induction false} ReadRowsBack(rows: seq<Row>)
    requires rows != [] && AllRenderable(rows)
    ensures ReadRows(JoinRows(rows)) == Some(rows)
  {
    var row, fields := rows[0], RenderFields(rows[0]);
    assert Renderable(row);
    if |rows| == 1 {
      ReadFieldsBack(row, "");
      assert fields + "" == fields;
      ReadLastRow(fields, row);
      JoinOne(row);
      assert [row] == rows;
    } else {
      var t := JoinRows(rows[1..]);
      ReadFieldsBack(row, "," + t);
      ReadRowsBack(rows[1..]);
      ReadOneMoreRow(fields + ("," + t), row, t, rows[1..]);
      JoinCons(row, rows[1..]);
      assert [row] + rows[1..] == rows;
      Assoc("(", fields, "," + t);
    }
  }

  /** Distinct row lists give distinct statements. */
  lemma JoinRowsInjective(rows: seq<Row>, others: seq<Row>)
    requires rows != [] && AllRenderable(rows) && others != [] && AllRenderable(others)
    ensures JoinRows(rows) == JoinRows(others) <==> rows == others
  {
    ReadRowsBack(rows);
    ReadRowsBack(others);
  }
}
