/**
 Addresses on their way through the database: printed with "0x%lx" or "%p", read
 back with strtol(s, NULL, 0), and compared as text by the graph scripts.
 */
module Hex {
  import opened Text

  const LONG_MAX: int := 0x7fff_ffff_ffff_ffff
  const WORD: int := 0x1_0000_0000_0000_0000

  function DigitChar(d: nat): (c: char)
    requires d < 16
    ensures DigitValue(c) == d && QuoteFree([c])
  {
    if d < 10 then ('0' as int + d) as char else ('a' as int + d - 10) as char
  }

  /** The digits of "%lx": lower case, no leading zero. */
  function HexDigits(n: nat): (s: SqlText)
    ensures |s| > 0
  {
    if n < 16 then [DigitChar(n)] else HexDigits(n / 16) + [DigitChar(n % 16)]
  }

  function PrintHex(n: nat): SqlText { "0x" + HexDigits(n) }

  // ---- strtol with base 0 (section 7.22.1.4 of ISO/IEC 9899:2011) ----

  predicate IsSpace(c: char) { c == ' ' || '\t' <= c <= '\r' }

  function SkipSpace(s: string): string {
    if s != "" && IsSpace(s[0]) then SkipSpace(s[1..]) else s
  }

  /** The value of a letter or digit, 36 for anything else. */
  function DigitValue(c: char): nat {
    if '0' <= c <= '9' then c as int - '0' as int
    else if 'a' <= c <= 'z' then c as int - 'a' as int + 10
    else if 'A' <= c <= 'Z' then c as int - 'A' as int + 10
    else 36
  }

  predicate AllDigits(s: string, base: nat) { forall i :: 0 <= i < |s| ==> DigitValue(s[i]) < base }

  /** The longest run of digits at the front of s, appended to acc. */
  function Accumulate(s: string, base: nat, acc: nat): nat {
    if s != "" && DigitValue(s[0]) < base
    then Accumulate(s[1..], base, acc * base + DigitValue(s[0]))
    else acc
  }

  function Magnitude(s: string): nat {
    if |s| >= 3 && s[0] == '0' && s[1] in "xX" && DigitValue(s[2]) < 16 then Accumulate(s[2..], 16, 0)
    else if s != "" && s[0] == '0' then Accumulate(s, 8, 0)
    else Accumulate(s, 10, 0)
  }

  function Strtol(s: string): int {
    var t := SkipSpace(s);
    if t != "" && t[0] == '-' then
      var m: int := Magnitude(t[1..]); if m > LONG_MAX + 1 then -LONG_MAX - 1 else -m
    else
      var m := Magnitude(if t != "" && t[0] == '+' then t[1..] else t);
      if m > LONG_MAX then LONG_MAX else m
  }

  /** (uintptr_t)strtol(s, NULL, 0) */
  function ParseAddr(s: string): nat { Strtol(s) % WORD }

  lemma {:induction false} AccumulateSnoc(s: string, c: char, base: nat, acc: nat)
    requires AllDigits(s, base) && DigitValue(c) < base
    ensures Accumulate(s + [c], base, acc) == Accumulate(s, base, acc) * base + DigitValue(c)
    decreases |s|
  {
    if s == "" {
      assert ([c])[1..] == "";
    } else {
      assert (s + [c])[1..] == s[1..] + [c];
      AccumulateSnoc(s[1..], c, base, acc * base + DigitValue(s[0]));
    }
  }

  lemma {:induction false} HexDigitsValue(n: nat)
    ensures AllDigits(HexDigits(n), 16)
    ensures Accumulate(HexDigits(n), 16, 0) == n
  {
    if n < 16 {
      assert HexDigits(n)[1..] == "";
    } else {
      HexDigitsValue(n / 16);
      AccumulateSnoc(HexDigits(n / 16), DigitChar(n % 16), 16, 0);
    }
  }

  /** strtol gives back what was printed, up to LONG_MAX, where it saturates. */
  lemma ParsePrint(n: nat)
    ensures ParseAddr(PrintHex(n)) == if n <= LONG_MAX then n else LONG_MAX
  {
    HexDigitsValue(n);
    var s := PrintHex(n);
    assert s[2..] == HexDigits(n) && s[2] == HexDigits(n)[0];
  }

  /** "0x%lx": the prefix, lower-case digits without a leading zero, and the value. */
  lemma PrintHexExact(n: nat)
    ensures var s := PrintHex(n);
            && |s| >= 3 && s[..2] == "0x" && (forall i :: 2 <= i < |s| ==> s[i] in "0123456789abcdef")
            && (s[2] == '0' ==> s == "0x0") && Accumulate(s[2..], 16, 0) == n
  {
    HexDigitsValue(n);
    LowerCase(n);
    assert PrintHex(n)[2..] == HexDigits(n);
  }

  lemma {:induction false} LowerCase(n: nat)
    ensures forall i :: 0 <= i < |HexDigits(n)| ==> HexDigits(n)[i] in "0123456789abcdef"
    ensures HexDigits(n)[0] == '0' <==> n == 0
  {
    if n < 16 {
      LowerDigit(n);
    } else {
      LowerCase(n / 16);
      LowerDigit(n % 16);
    }
  }

  lemma LowerDigit(d: nat)
    requires d < 16
    ensures DigitChar(d) in "0123456789abcdef" && (DigitChar(d) == '0' <==> d == 0)
  {
    assert DigitChar(d) == "0123456789abcdef"[d];
  }

  /** A printed address as the views read it. */
  function ReadBack(n: nat): nat { if n <= LONG_MAX then n else LONG_MAX }

  /** The round trip is exact for the addresses below 2^63 and for no others. */
  lemma RoundTripIff(n: nat)
    ensures ParseAddr(PrintHex(n)) == n <==> n < 0x8000_0000_0000_0000
  {
    ParsePrint(n);
  }

  // ---- string order of printed addresses ----

  function Width(n: nat): nat { |HexDigits(n)| }

  /** n shifted right by k hex digits. */
  function Shr(n: nat, k: nat): nat { if k == 0 then n else Shr(n / 16, k - 1) }

  lemma {:induction false} WidthMonotone(m: nat, n: nat)
    requires Width(m) < Width(n)
    ensures m < n
  {
    if n >= 16 && m >= 16 { WidthMonotone(m / 16, n / 16); }
  }

  lemma {:induction false} HexPrefix(n: nat, k: nat)
    requires k < Width(n)
    ensures HexDigits(n)[..Width(n) - k] == HexDigits(Shr(n, k))
  {
    if k == 0 {
      assert HexDigits(n)[..Width(n)] == HexDigits(n);
    } else {
      HexPrefix(n / 16, k - 1);
      assert HexDigits(n)[..Width(n) - k] == HexDigits(n / 16)[..Width(n / 16) - (k - 1)];
    }
  }

  /** Lexicographic order of equally long strings is settled by the last character where the rest agree. */
  lemma {:induction false} StrLeSnoc(s: string, t: string, c: char, d: char)
    requires |s| == |t|
    ensures StrLe(s + [c], t + [d]) <==> (if s == t then c <= d else StrLe(s, t))
  {
    if s == "" {
      assert ([c])[1..] == "" && ([d])[1..] == "";
    } else {
      assert (s + [c])[1..] == s[1..] + [c] && (t + [d])[1..] == t[1..] + [d];
      StrLeSnoc(s[1..], t[1..], c, d);
      assert s == t <==> s[0] == t[0] && s[1..] == t[1..] by {
        assert s == [s[0]] + s[1..] && t == [t[0]] + t[1..];
      }
    }
  }

  lemma {:induction false} StrLePrefix(s: string, t: string, k: nat)
    requires k <= |s| && k <= |t| && (k == |s| || k == |t|)
    ensures StrLe(s, t) <==>
            StrLe(s[..k], t[..k]) && (k < |s| ==> s[..k] != t[..k])
  {
    if k == 0 {
    } else {
      var s', t' := s[1..], t[1..];
      StrLePrefix(s', t', k - 1);
      assert s[..k][1..] == s'[..k - 1] && t[..k][1..] == t'[..k - 1];
      assert s[..k] == t[..k] <==> s[0] == t[0] && s'[..k - 1] == t'[..k - 1] by {
        assert s[..k] == [s[0]] + s'[..k - 1] && t[..k] == [t[0]] + t'[..k - 1];
      }
    }
  }

  lemma {:induction false} SameWidthOrder(m: nat, n: nat)
    requires Width(m) == Width(n)
    ensures StrLe(HexDigits(m), HexDigits(n)) <==> m <= n
    ensures HexDigits(m) == HexDigits(n) <==> m == n
  {
    HexDigitsValue(m);
    HexDigitsValue(n);
    hide StrLe, Accumulate;
    var c, d := DigitChar(m % 16), DigitChar(n % 16);
    if m < 16 {
      StrLeSnoc("", "", c, d);
      assert "" + [c] == [c] && "" + [d] == [d];
    } else {
      SameWidthOrder(m / 16, n / 16);
      StrLeSnoc(HexDigits(m / 16), HexDigits(n / 16), c, d);
    }
  }

  lemma StrLeTagged(s: string, t: string)
    ensures StrLe("0x" + s, "0x" + t) <==> StrLe(s, t)
  {
    assert ("0x" + s)[1..] == "x" + s && ("0x" + t)[1..] == "x" + t;
    assert ("x" + s)[1..] == s && ("x" + t)[1..] == t;
  }

  /** Text comparison of two printed addresses, exactly: the longer one is cut to the shorter one's width. */
  lemma StringOrderExact(m: nat, n: nat)
    ensures StrLe(PrintHex(m), PrintHex(n)) <==>
            if Width(m) <= Width(n) then m <= Shr(n, Width(n) - Width(m))
            else Shr(m, Width(m) - Width(n)) < n
  {
    var s, t := HexDigits(m), HexDigits(n);
    StrLeTagged(s, t);
    hide StrLe, HexDigits;
    if Width(m) <= Width(n) {
      var k := Width(n) - Width(m);
      StrLePrefix(s, t, |s|);
      HexPrefix(n, k);
      assert s[..|s|] == s;
      SameWidthOrder(m, Shr(n, k));
    } else {
      var k := Width(m) - Width(n);
      StrLePrefix(s, t, |t|);
      HexPrefix(m, k);
      assert t[..|t|] == t;
      SameWidthOrder(Shr(m, k), n);
    }
  }

  /** Whether the text comparison of m and n gives the numeric answer, said on the numbers. */
  predicate TextOrderSound(m: nat, n: nat) {
    || Width(m) == Width(n)
    || (Width(m) < Width(n) && m <= Shr(n, Width(n) - Width(m)))
    || (Width(m) > Width(n) && Shr(m, Width(m) - Width(n)) >= n)
  }

  lemma TextOrderIff(m: nat, n: nat)
    ensures (StrLe(PrintHex(m), PrintHex(n)) <==> m <= n) <==> TextOrderSound(m, n)
  {
    StringOrderExact(m, n);
    if Width(m) < Width(n) { WidthMonotone(m, n); }
    if Width(n) < Width(m) { WidthMonotone(n, m); }
  }

  /** The graph scripts' range test on text. */
  predicate TextInRange(addr: string, start: string, end: string) {
    StrLe(start, addr) && StrLe(addr, end)
  }

  /** The views' range test: both ends and the address are parsed, the ends are inclusive. */
  predicate ViewInRange(addr: string, start: string, end: string) {
    ParseAddr(start) <= ParseAddr(addr) <= ParseAddr(end)
  }

  /** For any three addresses, what the two text comparisons together say about the numbers. */
  lemma TextRangeIff(addr: nat, start: nat, end: nat)
    ensures (TextInRange(PrintHex(addr), PrintHex(start), PrintHex(end)) <==> start <= addr <= end) <==>
            if start <= addr <= end then TextOrderSound(start, addr) && TextOrderSound(addr, end)
            else !((TextOrderSound(start, addr) <==> start <= addr) && (TextOrderSound(addr, end) <==> addr <= end))
  {
    hide PrintHex, TextOrderSound, StrLe;
    TextOrderIff(start, addr);
    TextOrderIff(addr, end);
  }

  /** The views see the addresses cut at LONG_MAX. */
  lemma ViewRange(addr: nat, start: nat, end: nat)
    ensures ViewInRange(PrintHex(addr), PrintHex(start), PrintHex(end)) <==>
            ReadBack(start) <= ReadBack(addr) <= ReadBack(end)
  {
    hide PrintHex, ParseAddr;
    ParsePrint(addr);
    ParsePrint(start);
    ParsePrint(end);
  }

  /** The text comparison, said on the numbers. */
  predicate TextLe(m: nat, n: nat) {
    if Width(m) <= Width(n) then m <= Shr(n, Width(n) - Width(m)) else Shr(m, Width(m) - Width(n)) < n
  }

  /** Whether the scripts' text test and the views' test give one answer for an address and a range. */
  predicate TestsAgree(addr: nat, start: nat, end: nat) {
    TextInRange(PrintHex(addr), PrintHex(start), PrintHex(end)) <==>
    ViewInRange(PrintHex(addr), PrintHex(start), PrintHex(end))
  }

  /**
   Both tests of any address and any range, said on the numbers: one cuts the longer address to the width of the
   shorter one, the other cuts every address at LONG_MAX.
   */
  lemma RangeTestsAgreeIff(addr: nat, start: nat, end: nat)
    ensures TestsAgree(addr, start, end) <==>
            ((TextLe(start, addr) && TextLe(addr, end)) <==> ReadBack(start) <= ReadBack(addr) <= ReadBack(end))
  {
    hide PrintHex, ViewInRange, StrLe, Width, Shr;
    ViewRange(addr, start, end);
    StringOrderExact(start, addr);
    StringOrderExact(addr, end);
  }

  /**
   An address of the width of both ends is in the range, or it is outside and not both it and the end it passes
   are cut to LONG_MAX. One of another width falls between the ends, the longer ones cut to the shorter width,
   exactly when the view takes it for the end it passes.
   */
  predicate TextRangeSound(addr: nat, start: nat, end: nat)
    requires Width(start) == Width(end)
  {
    if Width(addr) == Width(start) then
      start <= addr <= end || (addr < start && addr < LONG_MAX) || (end < addr && end < LONG_MAX)
    else if Width(addr) < Width(start) then
      var k := Width(start) - Width(addr); (Shr(start, k) < addr <= Shr(end, k) <==> addr >= LONG_MAX)
    else
      var k := Width(addr) - Width(start); (start <= Shr(addr, k) < end <==> end >= LONG_MAX)
  }

  /** For a block whose ends have one width: the tests agree exactly when TextRangeSound says so. */
  lemma BlockTestsAgreeIff(addr: nat, start: nat, end: nat)
    requires start <= end && Width(start) == Width(end)
    ensures TestsAgree(addr, start, end) <==> TextRangeSound(addr, start, end)
  {
    hide PrintHex, TestsAgree, Shr;
    RangeTestsAgreeIff(addr, start, end);
    SameWidthShr(start, addr, end);
    if Width(addr) < Width(start) { WidthMonotone(addr, start); }
    if Width(addr) > Width(end) { WidthMonotone(end, addr); }
  }

  lemma SameWidthShr(a: nat, b: nat, c: nat)
    ensures Shr(a, 0) == a && Shr(b, 0) == b && Shr(c, 0) == c
  {
  }

  /** So on addresses of one width they disagree exactly when an address outside and the end it passes are both cut. */
  lemma OneWidthTestsAgreeIff(addr: nat, start: nat, end: nat)
    requires start <= end && Width(addr) == Width(start) == Width(end)
    ensures TestsAgree(addr, start, end) <==>
            start <= addr <= end || (addr < start && addr < LONG_MAX) || (end < addr && end < LONG_MAX)
  {
    hide TestsAgree;
    BlockTestsAgreeIff(addr, start, end);
  }

  /** And up to LONG_MAX, where nothing is cut, never. */
  lemma RangeTestsAgree(addr: nat, start: nat, end: nat)
    requires Width(addr) == Width(start) == Width(end) && addr <= LONG_MAX && start <= LONG_MAX && end <= LONG_MAX
    ensures TestsAgree(addr, start, end)
  {
    hide TestsAgree, Shr;
    RangeTestsAgreeIff(addr, start, end);
    SameWidthShr(start, addr, end);
  }

  /** Of two widths: 0x200 lies between 0x1000 and 0x3000 as text, not as a number. */
  lemma RangeTestsCanDisagree()
    ensures TextInRange(PrintHex(0x200), PrintHex(0x1000), PrintHex(0x3000))
    ensures !ViewInRange(PrintHex(0x200), PrintHex(0x1000), PrintHex(0x3000))
  {
    ParsePrint(0x200);
    ParsePrint(0x1000);
    ParsePrint(0x3000);
    StringOrderExact(0x1000, 0x200);
    StringOrderExact(0x200, 0x3000);
    assert Width(0x200) == 3 && Width(0x1000) == 4 && Width(0x3000) == 4;
    assert Shr(0x1000, 1) == 0x100 && Shr(0x3000, 1) == 0x300;
  }

  /** Of one width: an address that starts behind a block with the end LONG_MAX is inside for the views alone. */
  lemma CutTestsDisagree()
    ensures var addr, start, end := 0x8000_0000_0000_0000, 0x4000_0000_0000_0000, 0x7fff_ffff_ffff_ffff;
            && !TextInRange(PrintHex(addr), PrintHex(start), PrintHex(end))
            && ViewInRange(PrintHex(addr), PrintHex(start), PrintHex(end))
  {
    hide PrintHex, ParseAddr, StrLe, Width;
    var addr, start, end := 0x8000_0000_0000_0000, 0x4000_0000_0000_0000, 0x7fff_ffff_ffff_ffff;
    ViewRange(addr, start, end);
    StringOrderExact(addr, end);
    SixteenDigits(addr);
    SixteenDigits(end);
  }

  lemma SixteenDigits(n: nat)
    requires 0x1000_0000_0000_0000 <= n < WORD
    ensures Width(n) == 16
  {
    WidthIs(n, 15);
  }

  lemma {:induction false} WidthIs(n: nat, k: nat)
    requires Power16(k) <= n < 16 * Power16(k)
    ensures Width(n) == k + 1
  {
    if k > 0 { WidthIs(n / 16, k - 1); }
  }

  function Power16(k: nat): nat { if k == 0 then 1 else 16 * Power16(k - 1) }
}
