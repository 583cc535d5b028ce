/**
 python/full_graph.py and python/comparts_graph.py: the four comparisons that are to keep a
 library from being connected to itself or to its own (.plt) and (.got) blocks.
 */
module SuffixFilter {
  /** s[:-6] */
  function Stem(s: string): string { if |s| < 6 then "" else s[..|s| - 6] }

  /** The capability's path and the target's path pass all four comparisons. */
  predicate Accepted(capPath: string, path: string) {
    && capPath != path
    && capPath != Stem(path)
    && Stem(capPath) != path
    && Stem(capPath) != Stem(path)
  }

  /** s is c, or c with six more characters. */
  predicate Extends(s: string, c: string) { s == c || (|s| == |c| + 6 && c <= s) }

  ghost predicate CommonBase(a: string, b: string) { exists c :: Extends(a, c) && Extends(b, c) }

  /** Exactly which pairs are rejected: two short names, or one string extended by nothing or six characters. */
  lemma RejectedIff(a: string, b: string)
    ensures !Accepted(a, b) <==> (|a| <= 6 && |b| <= 6) || CommonBase(a, b)
  {
    if !Accepted(a, b) && !(|a| <= 6 && |b| <= 6) {
      var c := if a == b || a == Stem(b) then a else if Stem(a) == b then b else Stem(a);
      assert Extends(a, c) && Extends(b, c);
    }
    if CommonBase(a, b) {
      var c :| Extends(a, c) && Extends(b, c);
      assert |a| == |c| + 6 ==> Stem(a) == c;
      assert |b| == |c| + 6 ==> Stem(b) == c;
    }
  }

  /** The suffixes scan_mem appends: none, one of the two, or both in this order. */
  datatype Sections = Plain | Plt | Got | PltGot

  function SuffixOf(s: Sections): string {
    match s
    case Plain => ""
    case Plt => "(.plt)"
    case Got => "(.got)"
    case PltGot => "(.plt)(.got)"
  }

  /**
   Two blocks of one library, over every library path: the filter lets the pair through exactly when
   one block carries both suffixes and the other is plain or carries (.got) only.
   */
  lemma OneLibrary(base: string, s: Sections, t: Sections)
    ensures Accepted(base + SuffixOf(s), base + SuffixOf(t)) <==>
            (s == PltGot && t in {Plain, Got}) || (t == PltGot && s in {Plain, Got})
  {
    OneLibraryStem(base, s);
    OneLibraryStem(base, t);
    Different(base, s, t);
    Different(base, t, s);
    hide Stem;
    assert base + "" == base;
    assert |base + "(.plt)"| == |base| + 6;
  }

  /** So blocks with at most one suffix each are never connected. */
  lemma SingleSuffixRejected(base: string, s: Sections, t: Sections)
    requires s != PltGot && t != PltGot
    ensures !Accepted(base + SuffixOf(s), base + SuffixOf(t))
  {
    OneLibrary(base, s, t);
  }

  lemma OneLibraryStem(base: string, s: Sections)
    ensures s in {Plt, Got} ==> Stem(base + SuffixOf(s)) == base
    ensures s == PltGot ==> Stem(base + SuffixOf(s)) == base + "(.plt)"
    ensures s == Plain ==> |Stem(base + SuffixOf(s))| < |base| || (base == "" && Stem(base + SuffixOf(s)) == "")
  {
    var x := base + SuffixOf(s);
    if s != Plain { assert x[..|x| - 6] == base + SuffixOf(s)[..|SuffixOf(s)| - 6]; }
  }

  lemma Different(base: string, s: Sections, t: Sections)
    ensures base + SuffixOf(s) == base + SuffixOf(t) <==> s == t
    ensures base + "(.plt)" == base + SuffixOf(t) <==> t == Plt
  {
    var x, y := base + SuffixOf(s), base + SuffixOf(t);
    assert x[|base|..] == SuffixOf(s) && y[|base|..] == SuffixOf(t);
    assert (base + "(.plt)")[|base|..] == "(.plt)";
    assert SuffixOf(s) == SuffixOf(t) <==> s == t by {
      if |SuffixOf(s)| == 6 && |SuffixOf(t)| == 6 {
        assert SuffixOf(s)[2] == SuffixOf(t)[2] <==> s == t;
      }
    }
    assert "(.plt)" == SuffixOf(t) <==> t == Plt by {
      if |SuffixOf(t)| == 6 { assert SuffixOf(t)[2] == 'p' <==> t == Plt; }
    }
  }

  /** A block with both suffixes is connected to its own library. */
  lemma DoublySuffixedAccepted(base: string)
    ensures Accepted(base + "(.plt)(.got)", base) && Accepted(base, base + "(.plt)(.got)")
  {
    OneLibrary(base, PltGot, Plain);
    OneLibrary(base, Plain, PltGot);
    assert base + "" == base;
  }

  /** Two different libraries that agree up to their last six characters are never connected. */
  lemma DistinctLibrariesRejected()
    ensures "/lib/libx.so.1" != "/lib/liby.so.2" && !Accepted("/lib/libx.so.1", "/lib/liby.so.2")
  {
    var a, b := "/lib/libx.so.1", "/lib/liby.so.2";
    assert a[8] != b[8];
    assert a[..8] == "/lib/lib" == b[..8];
    assert Stem(a) == Stem(b);
  }

  /** Nor are the stack and the guard blocks. */
  lemma StackAndGuardRejected()
    ensures !Accepted("Stack", "Guard")
  {
    RejectedIff("Stack", "Guard");
  }
}
