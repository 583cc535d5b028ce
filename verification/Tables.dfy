/** The four tables chericat fills, and the database object that holds them. */
module Tables {
  import opened Text
  import opened RowText

  /** A row of cap_info; the addresses are text. */
  datatype CapRow = CapRow(locAddr: string, locPath: string, addr: string, perms: string, base: string, top: string)

  /** The four columns the UPDATE pass fills together. */
  datatype SectionColumns = SectionColumns(pltAddr: string, pltSize: string, gotAddr: string, gotSize: string)

  /** A row of vm. */
  datatype VmRow = VmRow(
    start: string, end: string, path: string, compartId: int,
    protection: int, flags: int, vnodeType: int, sections: Option<SectionColumns>)

  /** A row of elf_sym. */
  datatype SymRow = SymRow(
    source: string, name: string, value: string, shndx: string, kind: string, bind: string, addr: string)

  /** A row of comparts, under its key compart_id. */
  datatype CompartRow = CompartRow(
    name: Option<string>, library: Option<string>, start: Option<string>, end: Option<string>,
    isDefault: bool, parent: Option<int>)

  datatype Contents = Contents(vm: seq<VmRow>, caps: seq<CapRow>, syms: seq<SymRow>, comparts: map<int, CompartRow>)

  predicate PathIn(vm: seq<VmRow>, path: string) { exists i :: 0 <= i < |vm| && vm[i].path == path }

  const EMPTY: Contents := Contents([], [], [], map[])

  // ---- rows as fields of an INSERT statement ----

  function CapFields(r: CapRow): Row {
    [Quoted(r.locAddr), Quoted(r.locPath), Quoted(r.addr), Quoted(r.perms), Quoted(r.base), Quoted(r.top)]
  }

  predicate AllQuoted(f: Row) { forall i :: 0 <= i < |f| ==> f[i].Quoted? }

  function FieldsCap(f: Row): Option<CapRow> {
    if |f| == 6 && AllQuoted(f)
    then Some(CapRow(f[0].s, f[1].s, f[2].s, f[3].s, f[4].s, f[5].s))
    else None
  }

  /** The INSERT names seven columns; the section columns stay NULL. */
  function VmFields(r: VmRow): Row {
    [Quoted(r.start), Quoted(r.end), Quoted(r.path),
     Num(r.compartId), Num(r.protection), Num(r.flags), Num(r.vnodeType)]
  }

  function FieldsVm(f: Row): Option<VmRow> {
    if |f| == 7 && f[0].Quoted? && f[1].Quoted? && f[2].Quoted? && f[3].Num? && f[4].Num? && f[5].Num? && f[6].Num?
    then Some(VmRow(f[0].s, f[1].s, f[2].s, f[3].n, f[4].n, f[5].n, f[6].n, None))
    else None
  }

  function SymFields(r: SymRow): Row {
    [Quoted(r.source), Quoted(r.name), Quoted(r.value), Quoted(r.shndx), Quoted(r.kind), Quoted(r.bind), Quoted(r.addr)]
  }

  function FieldsSym(f: Row): Option<SymRow> {
    if |f| == 7 && AllQuoted(f)
    then Some(SymRow(f[0].s, f[1].s, f[2].s, f[3].s, f[4].s, f[5].s, f[6].s))
    else None
  }

  function Encode<R>(rows: seq<R>, fields: R -> Row): seq<Row> {
    if rows == [] then [] else [fields(rows[0])] + Encode(rows[1..], fields)
  }

  lemma {:induction false} EncodeSnoc<R>(rows: seq<R>, row: R, fields: R -> Row)
    ensures Encode(rows + [row], fields) == Encode(rows, fields) + [fields(row)]
  {
    if rows != [] {
      EncodeSnoc(rows[1..], row, fields);
      assert (rows + [row])[1..] == rows[1..] + [row];
    }
  }

  /** All rows, or none when one of them does not fit the table. */
  function Decode<R>(rows: seq<Row>, read: Row -> Option<R>): Option<seq<R>> {
    if rows == [] then Some([])
    else match (read(rows[0]), Decode(rows[1..], read))
      case (Some(r), Some(rs)) => Some([r] + rs)
      case _ => None
  }

  lemma {:induction false} DecodeEncode<R>(rows: seq<R>, fields: R -> Row, read: Row -> Option<R>)
    requires forall i :: 0 <= i < |rows| ==> Renderable(fields(rows[i])) && read(fields(rows[i])) == Some(rows[i])
    ensures Decode(Encode(rows, fields), read) == Some(rows)
    ensures AllRenderable(Encode(rows, fields)) && |Encode(rows, fields)| == |rows|
  {
    if rows != [] {
      DecodeEncode(rows[1..], fields, read);
      assert [rows[0]] + rows[1..] == rows;
      assert Encode(rows, fields)[1..] == Encode(rows[1..], fields);
    }
  }

  /** The rows a VALUES text stands for; a text that is not a list of such rows inserts nothing. */
  function RowsIn<R>(values: string, read: Row -> Option<R>): seq<R> {
    match ReadRows(values)
    case None => []
    case Some(rows) => Decode(rows, read).GetOr([])
  }

  lemma RowsInText<R>(rows: seq<R>, fields: R -> Row, read: Row -> Option<R>)
    requires rows != []
    requires forall i :: 0 <= i < |rows| ==> Renderable(fields(rows[i])) && read(fields(rows[i])) == Some(rows[i])
    ensures Encode(rows, fields) != []
    ensures RowsIn(JoinRows(Encode(rows, fields)), read) == rows
  {
    DecodeEncode(rows, fields, read);
    ReadRowsBack(Encode(rows, fields));
  }

  predicate CapQuotable(r: CapRow) {
    && QuoteFree(r.locAddr) && QuoteFree(r.locPath) && QuoteFree(r.addr)
    && QuoteFree(r.perms) && QuoteFree(r.base) && QuoteFree(r.top)
  }

  predicate SymQuotable(r: SymRow) {
    && QuoteFree(r.source) && QuoteFree(r.name) && QuoteFree(r.value) && QuoteFree(r.shndx)
    && QuoteFree(r.kind) && QuoteFree(r.bind) && QuoteFree(r.addr)
  }

  /** A row of vm as scan_mem inserts it. */
  predicate VmInsertable(r: VmRow) {
    QuoteFree(r.start) && QuoteFree(r.end) && QuoteFree(r.path) && r.sections == None
  }

  lemma CapRowBack(r: CapRow)
    requires CapQuotable(r)
    ensures Renderable(CapFields(r)) && FieldsCap(CapFields(r)) == Some(r)
  {
  }

  /** The accumulated cap_info text inserts exactly the rows it was accumulated from. */
  lemma CapTextInserts(rows: seq<CapRow>)
    requires rows != [] && forall i :: 0 <= i < |rows| ==> CapQuotable(rows[i])
    ensures Encode(rows, CapFields) != []
    ensures RowsIn(JoinRows(Encode(rows, CapFields)), FieldsCap) == rows
  {
    forall i | 0 <= i < |rows|
      ensures Renderable(CapFields(rows[i])) && FieldsCap(CapFields(rows[i])) == Some(rows[i])
    {
      CapRowBack(rows[i]);
    }
    RowsInText(rows, CapFields, FieldsCap);
  }

  lemma VmRowBack(r: VmRow)
    requires VmInsertable(r)
    ensures Renderable(VmFields(r)) && FieldsVm(VmFields(r)) == Some(r)
  {
  }

  lemma VmTextInserts(rows: seq<VmRow>)
    requires rows != [] && forall i :: 0 <= i < |rows| ==> VmInsertable(rows[i])
    ensures Encode(rows, VmFields) != []
    ensures RowsIn(JoinRows(Encode(rows, VmFields)), FieldsVm) == rows
  {
    forall i | 0 <= i < |rows|
      ensures Renderable(VmFields(rows[i])) && FieldsVm(VmFields(rows[i])) == Some(rows[i])
    {
      VmRowBack(rows[i]);
    }
    RowsInText(rows, VmFields, FieldsVm);
  }

  lemma SymRowBack(r: SymRow)
    requires SymQuotable(r)
    ensures Renderable(SymFields(r)) && FieldsSym(SymFields(r)) == Some(r)
  {
  }

  lemma SymTextInserts(rows: seq<SymRow>)
    requires rows != [] && forall i :: 0 <= i < |rows| ==> SymQuotable(rows[i])
    ensures Encode(rows, SymFields) != []
    ensures RowsIn(JoinRows(Encode(rows, SymFields)), FieldsSym) == rows
  {
    forall i | 0 <= i < |rows|
      ensures Renderable(SymFields(rows[i])) && FieldsSym(SymFields(rows[i])) == Some(rows[i])
    {
      SymRowBack(rows[i]);
    }
    RowsInText(rows, SymFields, FieldsSym);
  }

  // ---- the texts, written out ----

  function InQuotes(s: string): string { "\"" + s + "\"" }

  function Separated(parts: seq<string>): string {
    if parts == [] then "" else if |parts| == 1 then parts[0] else parts[0] + ", " + Separated(parts[1..])
  }

  lemma {:induction false} RenderIs(f: Row, parts: seq<string>)
    requires f != [] && |parts| == |f| && forall i :: 0 <= i < |f| ==> parts[i] == RenderField(f[i])
    ensures RenderFields(f) == Separated(parts) + ")"
  {
    hide RenderField;
    if |f| > 1 {
      RenderIs(f[1..], parts[1..]);
      assert parts[0] + ", " + (Separated(parts[1..]) + ")") == Separated(parts) + ")";
    }
  }

  /** The text of a cap_info row. */
  lemma CapRowText(r: CapRow)
    ensures var parts := [InQuotes(r.locAddr), InQuotes(r.locPath), InQuotes(r.addr),
                          InQuotes(r.perms), InQuotes(r.base), InQuotes(r.top)];
            RenderRow(CapFields(r)) == "(" + (Separated(parts) + ")")
  {
    hide RenderFields, Separated;
    RenderIs(CapFields(r), [InQuotes(r.locAddr), InQuotes(r.locPath), InQuotes(r.addr),
                            InQuotes(r.perms), InQuotes(r.base), InQuotes(r.top)]);
  }

  /** Of a vm row, with its four integers. */
  lemma VmRowText(r: VmRow)
    ensures var parts := [InQuotes(r.start), InQuotes(r.end), InQuotes(r.path), Decimal(r.compartId),
                          Decimal(r.protection), Decimal(r.flags), Decimal(r.vnodeType)];
            RenderRow(VmFields(r)) == "(" + (Separated(parts) + ")")
  {
    hide RenderFields, Separated, Decimal;
    RenderIs(VmFields(r), [InQuotes(r.start), InQuotes(r.end), InQuotes(r.path), Decimal(r.compartId),
                           Decimal(r.protection), Decimal(r.flags), Decimal(r.vnodeType)]);
  }

  /** Of an elf_sym row. */
  lemma SymRowText(r: SymRow)
    ensures var parts := [InQuotes(r.source), InQuotes(r.name), InQuotes(r.value), InQuotes(r.shndx),
                          InQuotes(r.kind), InQuotes(r.bind), InQuotes(r.addr)];
            RenderRow(SymFields(r)) == "(" + (Separated(parts) + ")")
  {
    hide RenderFields, Separated;
    RenderIs(SymFields(r), [InQuotes(r.source), InQuotes(r.name), InQuotes(r.value), InQuotes(r.shndx),
                            InQuotes(r.kind), InQuotes(r.bind), InQuotes(r.addr)]);
  }

  /** The open SQLite database. Statements are executed whole. */
  class Database {
    var vm: seq<VmRow>
    var caps: seq<CapRow>
    var syms: seq<SymRow>
    var comparts: map<int, CompartRow>

    constructor ()
      ensures Now() == EMPTY
    {
      vm, caps, syms, comparts := [], [], [], map[];
    }

    function Now(): Contents
      reads this
    {
      Contents(vm, caps, syms, comparts)
    }

    /** "INSERT INTO cap_info VALUES" and the text. */
    method InsertCaps(values: string)
      modifies this
      ensures Now() == old(Now()).(caps := old(caps) + RowsIn(values, FieldsCap))
    {
      caps := caps + RowsIn(values, FieldsCap);
    }

    method InsertVm(values: string)
      modifies this
      ensures Now() == old(Now()).(vm := old(vm) + RowsIn(values, FieldsVm))
    {
      vm := vm + RowsIn(values, FieldsVm);
    }

    method InsertSyms(values: string)
      modifies this
      ensures Now() == old(Now()).(syms := old(syms) + RowsIn(values, FieldsSym))
    {
      syms := syms + RowsIn(values, FieldsSym);
    }
  }
}
