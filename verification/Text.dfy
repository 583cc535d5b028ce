/** Strings as the C code and the Python scripts compare, cut and search them. */
module Text {
  datatype Option<+T> = None | Some(value: T) {
    function GetOr(default: T): T { if None? then default else value }
  }

  /** The text fields that can be pasted between double quotes into an SQL statement. */
  predicate QuoteFree(s: string) { '"' !in s }

  type SqlText = s: string | QuoteFree(s) witness ""

  /** Python's <= on str: code point by code point, a proper prefix first. */
  predicate StrLe(a: string, b: string) {
    a == "" || (b != "" && (a[0] < b[0] || (a[0] == b[0] && StrLe(a[1..], b[1..]))))
  }

  predicate OccursAt(s: string, sub: string, i: nat) {
    i + |sub| <= |s| && s[i..i + |sub|] == sub
  }

  /** LIKE '%sub%', as substring containment. */
  predicate Contains(s: string, sub: string) {
    exists i :: 0 <= i <= |s| && OccursAt(s, sub, i)
  }

  /** What follows the last slash: os.path.basename and get_filename_from_path. */
  function BaseName(s: string): (r: string)
    ensures '/' !in r
    ensures r == s || exists i :: 0 <= i < |s| && s[i] == '/' && r == s[i + 1..]
  {
    if s == "" then ""
    else if '/' in s[1..] then BaseName(s[1..])
    else if s[0] == '/' then s[1..]
    else s
  }

  lemma ContainsSelf(s: string)
    ensures Contains(s, s)
  {
    assert OccursAt(s, s, 0);
  }

  /** A row found by LIKE on a full path is found by LIKE on the path's last component. */
  lemma ContainsBaseName(s: string, path: string)
    requires Contains(s, path)
    ensures Contains(s, BaseName(path))
  {
    var b := BaseName(path);
    var i :| 0 <= i <= |s| && OccursAt(s, path, i);
    var k := |path| - |b|;
    assert path[k..] == b;
    assert s[i + k..(i + k) + |b|] == path[k..];
    assert OccursAt(s, b, i + k);
  }
}
