/**
 src/rtld_linkmap_scan.c: the comparts table, filled from the run-time linker's link map by
 "INSERT OR REPLACE" and named by "UPDATE", and the list of default compartments that
 scan_mem searches for the owner of a block.
 */
module Comparts {
  import opened Text
  import opened Hex
  import opened Tables

  datatype SubCompart = SubCompart(id: int, name: string, start: nat, end: nat)

  /** One Obj_Entry of the link map. */
  datatype LinkEntry = LinkEntry(id: int, path: string, base: nat, size: nat, subs: seq<SubCompart>)

  datatype CompartData = CompartData(id: int, path: string, start: nat, end: nat)

  /** The linked list of default compartments, grown at the head. */
  datatype CompartList = Nil | Cons(data: CompartData, next: CompartList)

  type Table = map<int, CompartRow>

  // ---- the statements ----

  /** INSERT OR REPLACE of a whole row: columns not named become NULL. */
  datatype Upsert = Upsert(id: int, row: CompartRow)

  function DefaultRow(e: LinkEntry): CompartRow {
    CompartRow(None, Some(BaseName(e.path)), Some(PrintHex(e.base)), Some(PrintHex(e.base + e.size)), true, None)
  }

  function SubRow(s: SubCompart, parent: int): CompartRow {
    CompartRow(Some(BaseName(s.name)), None, Some(PrintHex(s.start)), Some(PrintHex(s.end)), false, Some(parent))
  }

  function SubUpserts(subs: seq<SubCompart>, parent: int): seq<Upsert> {
    if subs == [] then []
    else SubUpserts(subs[..|subs| - 1], parent) + [Upsert(subs[|subs| - 1].id, SubRow(subs[|subs| - 1], parent))]
  }

  function EntryUpserts(e: LinkEntry): seq<Upsert> { [Upsert(e.id, DefaultRow(e))] + SubUpserts(e.subs, e.id) }

  /** All upserts of a link-map scan, in the order they are executed. */
  function Upserts(links: seq<LinkEntry>): seq<Upsert> {
    if links == [] then [] else Upserts(links[..|links| - 1]) + EntryUpserts(links[|links| - 1])
  }

  function Apply(ups: seq<Upsert>, t: Table): Table {
    if ups == [] then t
    else var u := ups[|ups| - 1]; Apply(ups[..|ups| - 1], t)[u.id := u.row]
  }

  lemma {:induction false} ApplyConcat(a: seq<Upsert>, b: seq<Upsert>, t: Table)
    ensures Apply(a + b, t) == Apply(b, Apply(a, t))
  {
    if b == [] {
      assert a + b == a;
    } else {
      ApplyConcat(a, b[..|b| - 1], t);
      assert (a + b)[..|a + b| - 1] == a + b[..|b| - 1];
    }
  }

  /** The row the upserts leave under a key, if any of them has it: the last one's. */
  function LastRow(ups: seq<Upsert>, k: int): Option<CompartRow> {
    if ups == [] then None
    else if ups[|ups| - 1].id == k then Some(ups[|ups| - 1].row)
    else LastRow(ups[..|ups| - 1], k)
  }

  lemma {:induction false} ApplyAt(ups: seq<Upsert>, t: Table, k: int)
    ensures k in Apply(ups, t) <==> k in t || LastRow(ups, k).Some?
    ensures k in Apply(ups, t) ==> Apply(ups, t)[k] == if LastRow(ups, k).Some? then LastRow(ups, k).value else t[k]
  {
    if ups != [] { ApplyAt(ups[..|ups| - 1], t, k); }
  }

  /** UPDATE comparts SET compart_name WHERE compart_id = i: touches nothing when the key is absent. */
  function Rename(t: Table, i: int, name: string): Table {
    if i in t then t[i := t[i].(name := Some(BaseName(name)))] else t
  }

  /** The r_comparts array: the i-th name goes to id i, a NULL name is passed over. */
  function NameAll(names: seq<Option<string>>, t: Table): Table {
    if names == [] then t
    else
      var n := |names| - 1;
      var named := NameAll(names[..n], t);
      if names[n].Some? then Rename(named, n, names[n].value) else named
  }

  /** The row under key k once the names are in. */
  function Named(names: seq<Option<string>>, k: int, row: CompartRow): CompartRow {
    if 0 <= k < |names| && names[k].Some? then row.(name := Some(BaseName(names[k].value))) else row
  }

  lemma {:induction false} NameAllAt(names: seq<Option<string>>, t: Table)
    ensures NameAll(names, t).Keys == t.Keys
    ensures forall k :: k in t ==> NameAll(names, t)[k] == Named(names, k, t[k])
  {
    if names != [] { NameAllAt(names[..|names| - 1], t); }
  }

  /** A link-map scan followed by the name update. */
  function ScanTable(links: seq<LinkEntry>, names: seq<Option<string>>, t: Table): Table {
    NameAll(names, Apply(Upserts(links), t))
  }

  // ---- the scans ----

  function ListToSeq(l: CompartList): seq<CompartData> {
    if l.Nil? then [] else ListToSeq(l.next) + [l.data]
  }

  function DataOf(e: LinkEntry): CompartData { CompartData(e.id, e.path, e.base, e.base + e.size) }

  function DataOfAll(links: seq<LinkEntry>): seq<CompartData> {
    if links == [] then [] else DataOfAll(links[..|links| - 1]) + [DataOf(links[|links| - 1])]
  }

  /** The list names every entry of the link map by its id and its whole path, with its range. */
  lemma {:induction false} DataAt(links: seq<LinkEntry>)
    ensures |DataOfAll(links)| == |links|
    ensures forall i :: 0 <= i < |links| ==>
              var d := DataOfAll(links)[i];
              && d.id == links[i].id && d.path == links[i].path
              && d.start == links[i].base && d.end == links[i].base + links[i].size
  {
    if links != [] { DataAt(links[..|links| - 1]); }
  }

  /** Executes one upsert. */
  method InsertOrReplace(db: Database, u: Upsert)
    modifies db
    ensures db.Now() == old(db.Now()).(comparts := old(db.comparts)[u.id := u.row])
  {
    db.comparts := db.comparts[u.id := u.row];
  }

  /** The sub-compartments of one link-map entry. */
  method InsertSubs(db: Database, subs: seq<SubCompart>, parent: int)
    modifies db
    ensures db.Now() == old(db.Now()).(comparts := Apply(SubUpserts(subs, parent), old(db.comparts)))
  {
    ghost var t := db.comparts;
    var i := 0;
    while i < |subs|
      invariant i <= |subs| && db.Now() == old(db.Now()).(comparts := Apply(SubUpserts(subs[..i], parent), t))
    {
      assert subs[..i + 1][..i] == subs[..i];
      ghost var ups := SubUpserts(subs[..i + 1], parent);
      assert ups[..|ups| - 1] == SubUpserts(subs[..i], parent);
      InsertOrReplace(db, Upsert(subs[i].id, SubRow(subs[i], parent)));
      i := i + 1;
    }
    assert subs[..i] == subs;
  }

  /** Walks the link map: upserts every entry and its sub-compartments, and prepends the entry to the list. */
  method ScanRtldLinkmap(db: Database, links: seq<LinkEntry>) returns (head: CompartList)
    modifies db
    ensures db.Now() == old(db.Now()).(comparts := Apply(Upserts(links), old(db.comparts)))
    ensures ListToSeq(head) == DataOfAll(links)
  {
    ghost var t := db.comparts;
    head := Nil;
    var i := 0;
    while i < |links|
      invariant i <= |links| && db.Now() == old(db.Now()).(comparts := Apply(Upserts(links[..i]), t))
      invariant ListToSeq(head) == DataOfAll(links[..i])
    {
      var entry := links[i];
      head := Cons(DataOf(entry), head);
      EntryStep(links, i, t);
      InsertOrReplace(db, Upsert(entry.id, DefaultRow(entry)));
      InsertSubs(db, entry.subs, entry.id);
      i := i + 1;
    }
    assert links[..i] == links;
  }

  lemma EntryStep(links: seq<LinkEntry>, i: nat, t: Table)
    requires i < |links|
    ensures DataOfAll(links[..i + 1]) == DataOfAll(links[..i]) + [DataOf(links[i])]
    ensures var e := links[i];
            Apply(Upserts(links[..i + 1]), t) ==
            Apply(SubUpserts(e.subs, e.id), Apply(Upserts(links[..i]), t)[e.id := DefaultRow(e)])
  {
    var e := links[i];
    assert links[..i + 1][..i] == links[..i];
    ApplyConcat(Upserts(links[..i]), EntryUpserts(e), t);
    ApplyConcat([Upsert(e.id, DefaultRow(e))], SubUpserts(e.subs, e.id), Apply(Upserts(links[..i]), t));
  }

  /** Gives compartment i the i-th name. */
  method ScanRComparts(db: Database, names: seq<Option<string>>)
    modifies db
    ensures db.Now() == old(db.Now()).(comparts := NameAll(names, old(db.comparts)))
  {
    ghost var t := db.comparts;
    for i := 0 to |names|
      invariant db.Now() == old(db.Now()).(comparts := NameAll(names[..i], t))
    {
      assert names[..i + 1][..i] == names[..i];
      if names[i].Some? {
        db.comparts := Rename(db.comparts, i, names[i].value);
      }
    }
    assert names[..|names|] == names;
  }

  // ---- convergence ----

  /** Scanning twice with the same inputs gives the table of one scan, whatever it held before. */
  lemma RescanConverges(links: seq<LinkEntry>, names: seq<Option<string>>, t: Table)
    ensures ScanTable(links, names, ScanTable(links, names, t)) == ScanTable(links, names, t)
  {
    var ups := Upserts(links);
    var once := ScanTable(links, names, t);
    var twice := ScanTable(links, names, once);
    NameAllAt(names, Apply(ups, t));
    NameAllAt(names, Apply(ups, once));
    forall k
      ensures k in once <==> k in twice
      ensures k in once ==> once[k] == twice[k]
    {
      ApplyAt(ups, t, k);
      ApplyAt(ups, once, k);
    }
  }

  // ---- referential integrity ----

  /** Every parent_id that is not NULL is a key. */
  predicate ParentsExist(t: Table) { forall k :: k in t && t[k].parent.Some? ==> t[k].parent.value in t }

  /** In a run of upserts each parent is a key of the table or upserted before. */
  ghost predicate ParentsFirst(ups: seq<Upsert>, keys: set<int>) {
    forall i :: 0 <= i < |ups| && ups[i].row.parent.Some? ==>
      ups[i].row.parent.value in keys || exists j :: 0 <= j < i && ups[j].id == ups[i].row.parent.value
  }

  lemma {:induction false} ApplyKeys(ups: seq<Upsert>, t: Table)
    ensures forall k :: k in Apply(ups, t) <==> k in t || exists j :: 0 <= j < |ups| && ups[j].id == k
  {
    if ups != [] {
      ApplyKeys(ups[..|ups| - 1], t);
      forall k
        ensures k in Apply(ups, t) <==> k in t || exists j :: 0 <= j < |ups| && ups[j].id == k
      {
        if exists j :: 0 <= j < |ups| && ups[j].id == k {
          var j :| 0 <= j < |ups| && ups[j].id == k;
          if j < |ups| - 1 { assert ups[..|ups| - 1][j].id == k; }
        }
      }
    }
  }

  lemma {:induction false} ApplyKeepsParents(ups: seq<Upsert>, t: Table)
    requires ParentsExist(t) && ParentsFirst(ups, t.Keys)
    ensures ParentsExist(Apply(ups, t))
  {
    if ups != [] {
      var before := ups[..|ups| - 1];
      assert ParentsFirst(before, t.Keys) by {
        forall i | 0 <= i < |before| && before[i].row.parent.Some? && before[i].row.parent.value !in t.Keys
          ensures exists j :: 0 <= j < i && before[j].id == before[i].row.parent.value
        {
          assert ups[i] == before[i];
          var j :| 0 <= j < i && ups[j].id == ups[i].row.parent.value;
          assert before[j] == ups[j];
        }
      }
      ApplyKeepsParents(before, t);
      ApplyKeys(before, t);
      var u := ups[|ups| - 1];
      if u.row.parent.Some? {
        if u.row.parent.value !in t.Keys {
          var j :| 0 <= j < |ups| - 1 && ups[j].id == u.row.parent.value;
          assert before[j].id == u.row.parent.value;
        }
        assert u.row.parent.value in Apply(before, t);
      }
    }
  }

  lemma {:induction false} SubsAt(subs: seq<SubCompart>, parent: int)
    ensures |SubUpserts(subs, parent)| == |subs|
    ensures forall i :: 0 <= i < |subs| ==>
              SubUpserts(subs, parent)[i] == Upsert(subs[i].id, SubRow(subs[i], parent))
  {
    if subs != [] { SubsAt(subs[..|subs| - 1], parent); }
  }

  lemma {:induction false} LinkMapParentsFirst(links: seq<LinkEntry>, keys: set<int>)
    ensures ParentsFirst(Upserts(links), keys)
  {
    if links != [] {
      var before, e := Upserts(links[..|links| - 1]), links[|links| - 1];
      var ups := before + EntryUpserts(e);
      LinkMapParentsFirst(links[..|links| - 1], keys);
      SubsAt(e.subs, e.id);
      forall i | 0 <= i < |ups| && ups[i].row.parent.Some? && ups[i].row.parent.value !in keys
        ensures exists j :: 0 <= j < i && ups[j].id == ups[i].row.parent.value
      {
        if i < |before| {
          assert ups[i] == before[i];
          var j :| 0 <= j < i && before[j].id == before[i].row.parent.value;
          assert ups[j] == before[j];
        } else {
          assert ups[i] == EntryUpserts(e)[i - |before|];
          assert ups[|before|].id == e.id;
        }
      }
    }
  }

  /** After every single upsert of a link-map scan, all parents exist; no step removes a key. */
  lemma EveryUpsertKeepsParents(links: seq<LinkEntry>, t: Table, n: nat)
    requires ParentsExist(t) && n <= |Upserts(links)|
    ensures ParentsExist(Apply(Upserts(links)[..n], t))
    ensures t.Keys <= Apply(Upserts(links)[..n], t).Keys
  {
    var ups := Upserts(links);
    LinkMapParentsFirst(links, t.Keys);
    assert ParentsFirst(ups[..n], t.Keys) by {
      forall i | 0 <= i < n && ups[..n][i].row.parent.Some? && ups[..n][i].row.parent.value !in t.Keys
        ensures exists j :: 0 <= j < i && ups[..n][j].id == ups[..n][i].row.parent.value
      {
        var j :| 0 <= j < i && ups[j].id == ups[i].row.parent.value;
        assert ups[..n][j] == ups[j];
      }
    }
    ApplyKeepsParents(ups[..n], t);
    ApplyKeys(ups[..n], t);
    var after := Apply(ups[..n], t);
    assert forall k :: k in t.Keys ==> k in after;
  }

  /** A whole scan keeps the parents, keeps every key, and makes the id of every link-map entry a key. */
  lemma ScanTableIntegrity(links: seq<LinkEntry>, names: seq<Option<string>>, t: Table)
    requires ParentsExist(t)
    ensures ParentsExist(ScanTable(links, names, t))
    ensures t.Keys <= ScanTable(links, names, t).Keys
    ensures forall i :: 0 <= i < |links| ==> links[i].id in ScanTable(links, names, t)
  {
    var ups := Upserts(links);
    EveryUpsertKeepsParents(links, t, |ups|);
    assert ups[..|ups|] == ups;
    NameAllAt(names, Apply(ups, t));
    ApplyKeys(ups, t);
    forall i | 0 <= i < |links|
      ensures links[i].id in ScanTable(links, names, t)
    {
      EntryUpserted(links, i);
    }
  }

  lemma {:induction false} EntryUpserted(links: seq<LinkEntry>, i: nat)
    requires i < |links|
    ensures exists j :: 0 <= j < |Upserts(links)| && Upserts(links)[j].id == links[i].id
  {
    var n := |links| - 1;
    var before := Upserts(links[..n]);
    if i == n {
      assert Upserts(links)[|before|].id == links[i].id;
    } else {
      EntryUpserted(links[..n], i);
      var j :| 0 <= j < |before| && before[j].id == links[..n][i].id;
      assert Upserts(links)[j] == before[j];
    }
  }

  // ---- the owner of a block ----

  /** The id of the last link-map entry whose path is a prefix of the block's, else -1. */
  function Owner(links: seq<LinkEntry>, path: string): int {
    if links == [] then -1
    else if links[|links| - 1].path <= path then links[|links| - 1].id
    else Owner(links[..|links| - 1], path)
  }

  /** The search of the list in scan_mem, from the head. */
  method CompartOf(head: CompartList, path: string, ghost links: seq<LinkEntry>) returns (compartId: int)
    requires ListToSeq(head) == DataOfAll(links)
    ensures compartId == Owner(links, path)
  {
    compartId := -1;
    var l := head;
    ghost var rest := links;
    while l != Nil
      invariant ListToSeq(l) == DataOfAll(rest)
      invariant compartId == -1 && Owner(rest, path) == Owner(links, path)
      decreases l
    {
      assert rest != [] && l.data == DataOf(rest[|rest| - 1]) by { assert ListToSeq(l)[|ListToSeq(l)| - 1] == l.data; }
      if l.data.path <= path {
        return l.data.id;
      }
      assert ListToSeq(l.next) == ListToSeq(l)[..|ListToSeq(l)| - 1] == DataOfAll(rest[..|rest| - 1]);
      l := l.next;
      rest := rest[..|rest| - 1];
    }
  }

  predicate Owns(links: seq<LinkEntry>, path: string, j: nat) { j < |links| && links[j].path <= path }

  /** Owner says what it should: an entry that matches, and after which none does, is the chosen one. */
  lemma {:induction false} OwnerExact(links: seq<LinkEntry>, path: string, j: nat)
    requires Owns(links, path, j) && forall i :: j < i < |links| ==> !Owns(links, path, i)
    ensures Owner(links, path) == links[j].id
  {
    var n := |links| - 1;
    if j < n {
      assert !Owns(links, path, n);
      assert forall i :: 0 <= i < n ==> (Owns(links[..n], path, i) <==> Owns(links, path, i));
      OwnerExact(links[..n], path, j);
    }
  }

  /** And -1 stands for no match at all. */
  lemma {:induction false} NoOwner(links: seq<LinkEntry>, path: string)
    requires forall i :: 0 <= i < |links| ==> !Owns(links, path, i)
    ensures Owner(links, path) == -1
  {
    var n := |links| - 1;
    if links != [] {
      assert !Owns(links, path, n);
      assert forall i :: 0 <= i < n ==> (Owns(links[..n], path, i) <==> Owns(links, path, i));
      NoOwner(links[..n], path);
    }
  }

  /** Either it is -1 or the id of some entry. */
  lemma {:induction false} OwnerIsEntry(links: seq<LinkEntry>, path: string)
    ensures Owner(links, path) == -1 || exists i :: 0 <= i < |links| && links[i].id == Owner(links, path)
  {
    if links != [] && !(links[|links| - 1].path <= path) {
      OwnerIsEntry(links[..|links| - 1], path);
      if Owner(links, path) != -1 {
        var i :| 0 <= i < |links| - 1 && links[..|links| - 1][i].id == Owner(links, path);
        assert links[i].id == Owner(links, path);
      }
    }
  }

  lemma PrefixBeforeParenthesis(p: string, path: string, suffix: string)
    requires '(' !in p && (suffix == "" || suffix[0] == '(')
    ensures p <= path + suffix <==> p <= path
  {
    assert forall i :: 0 <= i < |p| ==> p[i] in p;
    if suffix == "" {
      assert path + suffix == path;
    } else {
      assert (path + suffix)[|path|] == '(';
      assert forall i :: 0 <= i < |path| ==> (path + suffix)[i] == path[i];
    }
  }

  /** Appending a section suffix never changes the owner when no link-map path contains '('. */
  lemma {:induction false} SuffixKeepsOwner(links: seq<LinkEntry>, path: string, suffix: string)
    requires forall i :: 0 <= i < |links| ==> '(' !in links[i].path
    requires suffix == "" || suffix[0] == '('
    ensures Owner(links, path + suffix) == Owner(links, path)
  {
    if links != [] {
      var p := links[|links| - 1].path;
      SuffixKeepsOwner(links[..|links| - 1], path, suffix);
      PrefixBeforeParenthesis(p, path, suffix);
    }
  }
}
