/**
 src/db_process.c: a fetch counts the rows, allocates, and lets the row callback store each row
 at a global index, which is reset when the query is over. get_all_cap_info and
 get_cap_info_for_lib use the same index.
 */
module Fetch {
  import opened Arith
  import opened Text
  import opened Tables

  /** A row of comparts as the callback converts it: convert_str_to_int makes 0 of a NULL parent_id. */
  datatype CompInfo = CompInfo(
    id: int, name: Option<string>, library: Option<string>, start: Option<string>, end: Option<string>,
    isDefault: bool, parentId: int)

  function ToCompInfo(id: int, r: CompartRow): CompInfo {
    CompInfo(id, r.name, r.library, r.start, r.end, r.isDefault, r.parent.GetOr(0))
  }

  /** The conversion forgets exactly the difference between a NULL parent and parent 0. */
  lemma CompInfoForgets(id: int, r: CompartRow, r': CompartRow)
    ensures ToCompInfo(id, r) == ToCompInfo(id, r') <==>
            r.(parent := None) == r'.(parent := None)
            && (r.parent == r'.parent || {r.parent, r'.parent} == {None, Some(0)})
  {
    assert r == r.(parent := None).(parent := r.parent) && r' == r'.(parent := None).(parent := r'.parent);
    if {r.parent, r'.parent} == {None, Some(0)} {
      assert r.parent in {None, Some(0)} && r'.parent in {None, Some(0)};
    }
  }

  /** Which column becomes which field. */
  lemma CompInfoExact(id: int, r: CompartRow)
    ensures var x := ToCompInfo(id, r);
            && x.id == id && x.name == r.name && x.library == r.library && x.start == r.start && x.end == r.end
            && x.isDefault == r.isDefault && x.parentId == if r.parent.Some? then r.parent.value else 0
  {
  }

  /** The keys of comparts as SELECT * delivers them: compart_id is the integer primary key. */
  function Keys(t: map<int, CompartRow>): (keys: seq<int>)
    ensures |keys| == |t| && forall k :: k in keys <==> k in t
    ensures forall i, j :: 0 <= i < j < |keys| ==> keys[i] < keys[j]
  {
    InOrder(t.Keys)
  }

  /** SELECT * FROM comparts, converted row by row. */
  function CompRows(t: map<int, CompartRow>): (rows: seq<CompInfo>)
    ensures |rows| == |t|
  {
    var keys := Keys(t);
    seq(|keys|, i requires 0 <= i < |keys| => ToCompInfo(keys[i], t[keys[i]]))
  }

  predicate AscendingIds(rows: seq<CompInfo>) { forall i, j :: 0 <= i < j < |rows| ==> rows[i].id < rows[j].id }

  predicate OnlyRowsOf(t: map<int, CompartRow>, rows: seq<CompInfo>) {
    forall i :: 0 <= i < |rows| ==> rows[i].id in t && rows[i] == ToCompInfo(rows[i].id, t[rows[i].id])
  }

  predicate HasId(rows: seq<CompInfo>, id: int) { exists i :: 0 <= i < |rows| && rows[i].id == id }

  /** The fetched records are those of all rows of the table, each once, by ascending id; no other list is that. */
  lemma CompRowsExact(t: map<int, CompartRow>, rows: seq<CompInfo>)
    ensures rows == CompRows(t) <==>
            AscendingIds(rows) && OnlyRowsOf(t, rows) && forall k :: k in t ==> HasId(rows, k)
  {
    CompRowsComplete(t);
    if AscendingIds(rows) && OnlyRowsOf(t, rows) && forall k :: k in t ==> HasId(rows, k) {
      CompRowsOnly(t, rows);
    }
  }

  lemma CompRowsComplete(t: map<int, CompartRow>)
    ensures AscendingIds(CompRows(t)) && OnlyRowsOf(t, CompRows(t)) && forall k :: k in t ==> HasId(CompRows(t), k)
  {
    hide InOrder;
    var rows, keys := CompRows(t), Keys(t);
    forall k | k in t
      ensures HasId(rows, k)
    {
      var i :| 0 <= i < |keys| && keys[i] == k;
      assert rows[i].id == k;
    }
    assert forall i :: 0 <= i < |rows| ==> rows[i] == ToCompInfo(keys[i], t[keys[i]]);
  }

  lemma CompRowsOnly(t: map<int, CompartRow>, rows: seq<CompInfo>)
    requires AscendingIds(rows) && OnlyRowsOf(t, rows) && forall k :: k in t ==> HasId(rows, k)
    ensures rows == CompRows(t)
  {
    hide Keys, ToCompInfo;
    forall k
      ensures k in Ids(rows) <==> k in Keys(t)
    {
      IdsMember(rows, k);
    }
    InOrderUnique(Ids(rows), Keys(t));
    assert forall i :: 0 <= i < |rows| ==> rows[i].id == Keys(t)[i];
  }

  function Ids(rows: seq<CompInfo>): (ids: seq<int>)
    ensures |ids| == |rows| && forall i :: 0 <= i < |rows| ==> ids[i] == rows[i].id
  {
    seq(|rows|, i requires 0 <= i < |rows| => rows[i].id)
  }

  lemma IdsMember(rows: seq<CompInfo>, k: int)
    ensures k in Ids(rows) <==> HasId(rows, k)
  {
    if HasId(rows, k) {
      var i :| 0 <= i < |rows| && rows[i].id == k;
      assert Ids(rows)[i] == k;
    }
  }

  /** WHERE cap_loc_path LIKE "%lib%" */
  function CapsForLib(caps: seq<CapRow>, lib: string): seq<CapRow> {
    if caps == [] then []
    else
      var c := caps[|caps| - 1];
      CapsForLib(caps[..|caps| - 1], lib) + if Contains(c.locPath, lib) then [c] else []
  }

  /** The number of rows the filter keeps among the first n. */
  function Kept(caps: seq<CapRow>, lib: string, n: nat): nat
    requires n <= |caps|
  {
    if n == 0 then 0 else Kept(caps, lib, n - 1) + if Contains(caps[n - 1].locPath, lib) then 1 else 0
  }

  /** The rows kept stay in their order: a row comes after as many as were kept before it. */
  lemma {:induction false} CapsForLibAt(caps: seq<CapRow>, lib: string, n: nat, i: nat)
    requires n <= |caps|
    ensures |CapsForLib(caps[..n], lib)| == Kept(caps, lib, n)
    ensures i < n && Contains(caps[i].locPath, lib) ==>
              Kept(caps, lib, i) < Kept(caps, lib, n) && CapsForLib(caps[..n], lib)[Kept(caps, lib, i)] == caps[i]
  {
    hide Contains;
    if n > 0 {
      assert caps[..n][..n - 1] == caps[..n - 1];
      CapsForLibAt(caps, lib, n - 1, i);
    }
  }

  /** A global index. */
  class Cursor {
    var index: nat

    constructor ()
      ensures index == 0
    {
      index := 0;
    }
  }

  /** How sqlite3_exec ends: it may stop with an error before row n. */
  datatype Execution = Complete | StopsAt(n: nat)

  predicate Succeeds(e: Execution, rows: nat) { e.Complete? || e.n >= rows }

  /**
   One fetch of the rows a query selects. Entered with index 0 and left with index 0; every callback
   writes below the allocated count; success returns exactly the rows, in order.
   */
  method FetchRows<T>(cursor: Cursor, rows: seq<T>, zero: T, e: Execution) returns (count: int, result: array<T>)
    requires cursor.index == 0
    modifies cursor
    ensures cursor.index == 0 && fresh(result)
    ensures count == if Succeeds(e, |rows|) then |rows| else -1
    ensures count != -1 ==> result[..] == rows
  {
    result := new T[|rows|](_ => zero);
    var rc := 0;
    var i := 0;
    while i < |rows|
      invariant cursor.index == i <= |rows| && rc == 0
      invariant e.StopsAt? ==> i <= e.n
      invariant result[..i] == rows[..i]
      modifies cursor, result
    {
      if e == StopsAt(i) {
        rc := 1;
        break;
      }
      result[cursor.index] := rows[i];
      cursor.index := cursor.index + 1;
      i := i + 1;
    }
    cursor.index := 0;
    count := if rc == 0 then |rows| else -1;
  }

  const ZERO_VM: VmRow := VmRow("", "", "", 0, 0, 0, 0, None)
  const ZERO_CAP: CapRow := CapRow("", "", "", "", "", "")
  const ZERO_SYM: SymRow := SymRow("", "", "", "", "", "", "")
  const ZERO_COMP: CompInfo := CompInfo(0, None, None, None, None, false, 0)

  /** db_process with its four global indices. */
  class DbProcess {
    const db: Database
    const vmIndex: Cursor
    const capIndex: Cursor
    const symIndex: Cursor
    const compIndex: Cursor

    /** Between calls every index is 0. */
    ghost predicate Valid()
      reads vmIndex, capIndex, symIndex, compIndex
    {
      vmIndex.index == 0 && capIndex.index == 0 && symIndex.index == 0 && compIndex.index == 0
    }

    ghost function Indices(): set<object> { {vmIndex, capIndex, symIndex, compIndex} }

    constructor (db: Database)
      ensures Valid() && this.db == db && fresh(Indices())
    {
      this.db := db;
      vmIndex := new Cursor();
      capIndex := new Cursor();
      symIndex := new Cursor();
      compIndex := new Cursor();
    }

    method GetAllVmInfo(e: Execution) returns (count: int, rows: array<VmRow>)
      requires Valid()
      modifies Indices()
      ensures Valid() && fresh(rows) && count == (if Succeeds(e, |db.vm|) then |db.vm| else -1)
      ensures count != -1 ==> rows[..] == db.vm
    {
      count, rows := FetchRows(vmIndex, db.vm, ZERO_VM, e);
    }

    method GetAllCapInfo(e: Execution) returns (count: int, rows: array<CapRow>)
      requires Valid()
      modifies Indices()
      ensures Valid() && fresh(rows) && count == (if Succeeds(e, |db.caps|) then |db.caps| else -1)
      ensures count != -1 ==> rows[..] == db.caps
    {
      count, rows := FetchRows(capIndex, db.caps, ZERO_CAP, e);
    }

    method GetCapInfoForLib(lib: string, e: Execution) returns (count: int, rows: array<CapRow>)
      requires Valid()
      modifies Indices()
      ensures Valid() && fresh(rows)
      ensures count == if Succeeds(e, |CapsForLib(db.caps, lib)|) then |CapsForLib(db.caps, lib)| else -1
      ensures count != -1 ==> rows[..] == CapsForLib(db.caps, lib)
    {
      count, rows := FetchRows(capIndex, CapsForLib(db.caps, lib), ZERO_CAP, e);
    }

    method GetAllSymInfo(e: Execution) returns (count: int, rows: array<SymRow>)
      requires Valid()
      modifies Indices()
      ensures Valid() && fresh(rows) && count == (if Succeeds(e, |db.syms|) then |db.syms| else -1)
      ensures count != -1 ==> rows[..] == db.syms
    {
      count, rows := FetchRows(symIndex, db.syms, ZERO_SYM, e);
    }

    method GetAllCompInfo(e: Execution) returns (count: int, rows: array<CompInfo>)
      requires Valid()
      modifies Indices()
      ensures Valid() && fresh(rows) && count == (if Succeeds(e, |db.comparts|) then |db.comparts| else -1)
      ensures count != -1 ==> rows[..] == CompRows(db.comparts)
    {
      count, rows := FetchRows(compIndex, CompRows(db.comparts), ZERO_COMP, e);
    }
  }

  // ---- runs ----

  /** What can happen to the database between and during complete fetches. */
  datatype Op =
    | AddVm(vmRow: VmRow)
    | AddCap(capRow: CapRow)
    | AddSym(symRow: SymRow)
    | PutComp(id: int, compRow: CompartRow)
    | FetchVm(e: Execution)
    | FetchCaps(e: Execution)
    | FetchLib(lib: string, e: Execution)
    | FetchSyms(e: Execution)
    | FetchComps(e: Execution)

  datatype Fetched =
    | NoFetch
    | Failed
    | VmResult(vm: seq<VmRow>)
    | CapResult(caps: seq<CapRow>)
    | SymResult(syms: seq<SymRow>)
    | CompResult(comps: seq<CompInfo>)

  function After(c: Contents, op: Op): Contents {
    match op
    case AddVm(r) => c.(vm := c.vm + [r])
    case AddCap(r) => c.(caps := c.caps + [r])
    case AddSym(r) => c.(syms := c.syms + [r])
    case PutComp(id, r) => c.(comparts := c.comparts[id := r])
    case _ => c
  }

  /** What a fetch is to return, with no index in sight. */
  function Answer(c: Contents, op: Op): Fetched {
    match op
    case FetchVm(e) => if Succeeds(e, |c.vm|) then VmResult(c.vm) else Failed
    case FetchCaps(e) => if Succeeds(e, |c.caps|) then CapResult(c.caps) else Failed
    case FetchLib(lib, e) =>
      var rows := CapsForLib(c.caps, lib); if Succeeds(e, |rows|) then CapResult(rows) else Failed
    case FetchSyms(e) => if Succeeds(e, |c.syms|) then SymResult(c.syms) else Failed
    case FetchComps(e) => if Succeeds(e, |c.comparts|) then CompResult(CompRows(c.comparts)) else Failed
    case _ => NoFetch
  }

  function AfterAll(c: Contents, ops: seq<Op>): Contents {
    if ops == [] then c else After(AfterAll(c, ops[..|ops| - 1]), ops[|ops| - 1])
  }

  function Answers(c: Contents, ops: seq<Op>): seq<Fetched> {
    if ops == [] then []
    else Answers(c, ops[..|ops| - 1]) + [Answer(AfterAll(c, ops[..|ops| - 1]), ops[|ops| - 1])]
  }

  method Perform(p: DbProcess, op: Op) returns (r: Fetched)
    requires p.Valid() && p.db !in p.Indices()
    modifies p.db, p.Indices()
    ensures p.Valid() && r == Answer(old(p.db.Now()), op) && p.db.Now() == After(old(p.db.Now()), op)
  {
    match op
    case AddVm(row) =>
      p.db.vm := p.db.vm + [row];
      r := NoFetch;
    case AddCap(row) =>
      p.db.caps := p.db.caps + [row];
      r := NoFetch;
    case AddSym(row) =>
      p.db.syms := p.db.syms + [row];
      r := NoFetch;
    case PutComp(id, row) =>
      p.db.comparts := p.db.comparts[id := row];
      r := NoFetch;
    case FetchVm(e) =>
      var count, rows := p.GetAllVmInfo(e);
      r := if count == -1 then Failed else VmResult(rows[..]);
    case FetchCaps(e) =>
      var count, rows := p.GetAllCapInfo(e);
      r := if count == -1 then Failed else CapResult(rows[..]);
    case FetchLib(lib, e) =>
      var count, rows := p.GetCapInfoForLib(lib, e);
      r := if count == -1 then Failed else CapResult(rows[..]);
    case FetchSyms(e) =>
      var count, rows := p.GetAllSymInfo(e);
      r := if count == -1 then Failed else SymResult(rows[..]);
    case FetchComps(e) =>
      var count, rows := p.GetAllCompInfo(e);
      r := if count == -1 then Failed else CompResult(rows[..]);
  }

  /** Any interleaving of inserts and complete fetches, failed ones included, answers like the plain tables. */
  method Run(p: DbProcess, ops: seq<Op>) returns (out: seq<Fetched>)
    requires p.Valid() && p.db !in p.Indices()
    modifies p.db, p.Indices()
    ensures p.Valid() && out == Answers(old(p.db.Now()), ops) && p.db.Now() == AfterAll(old(p.db.Now()), ops)
  {
    out := [];
    for i := 0 to |ops|
      invariant p.Valid()
      invariant out == Answers(old(p.db.Now()), ops[..i]) && p.db.Now() == AfterAll(old(p.db.Now()), ops[..i])
    {
      assert ops[..i + 1][..i] == ops[..i];
      var r := Perform(p, ops[i]);
      out := out + [r];
    }
    assert ops[..|ops|] == ops;
  }

  /** The library filter keeps exactly the rows whose path contains the name, in row order. */
  lemma {:induction false} CapsForLibExact(caps: seq<CapRow>, lib: string)
    ensures multiset(CapsForLib(caps, lib)) <= multiset(caps)
    ensures forall r :: multiset(CapsForLib(caps, lib))[r] == if Contains(r.locPath, lib) then multiset(caps)[r] else 0
  {
    if caps != [] {
      var before, last := caps[..|caps| - 1], caps[|caps| - 1];
      CapsForLibExact(before, lib);
      assert caps == before + [last];
    }
  }
}
