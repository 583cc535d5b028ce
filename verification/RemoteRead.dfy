/**
 src/ptrace_utils.c: copying strings and words out of the traced process. Remote memory is
 a byte at every address; whether a read or an allocation fails is up to the environment.
 */
module RemoteRead {
  import opened Arith

  const MAXSIZE: nat := 4096 // PTRACE_READ_STRING_MAXSIZE

  const NUL: char := '\0'

  datatype Remote = Remote(byteAt: nat -> char, readFails: (nat, nat) -> bool, allocFails: nat -> bool)

  /** One PIOD_READ_D request. */
  datatype Request = Request(addr: nat, len: nat)

  function Bytes(r: Remote, addr: nat, n: nat): seq<char> { seq(n, i requires 0 <= i < n => r.byteAt(addr + i)) }

  /** The bytes before the first NUL, or all of them. */
  function CString(s: seq<char>): (t: seq<char>)
    ensures |t| <= |s| && t == s[..|t|] && NUL !in t
    ensures |t| < |s| ==> s[|t|] == NUL
  {
    if s == [] || s[0] == NUL then [] else [s[0]] + CString(s[1..])
  }

  lemma {:induction false} CStringUnique(s: seq<char>, k: nat)
    requires k <= |s| && NUL !in s[..k] && (k < |s| ==> s[k] == NUL)
    ensures CString(s) == s[..k]
  {
    if k > 0 {
      assert s[..k][0] == s[0] && s[1..][..k - 1] == s[..k][1..];
      CStringUnique(s[1..], k - 1);
    }
  }

  /** What a buffer of n bytes is to hold as a C string: the remote string, cut to fit. */
  function Fitted(r: Remote, addr: nat, n: nat): seq<char>
    requires n > 0
  {
    var t := CString(Bytes(r, addr, n));
    if |t| < n then t else t[..n - 1]
  }

  // ---- pages ----

  /** The request stays inside one page. */
  predicate InOnePage(q: Request, page: nat)
    requires page > 0
  {
    0 < q.len <= page && q.addr % page + q.len <= page
  }

  lemma OnePage(q: Request, page: nat)
    requires page > 0 && InOnePage(q, page)
    ensures q.addr / page == (q.addr + q.len - 1) / page
  {
    DivUnique(q.addr + q.len - 1, page, q.addr / page, q.addr % page + q.len - 1);
  }

  lemma ToPageEnd(a: nat, page: nat)
    requires page > 0
    ensures (a + (page - a % page)) % page == 0
  {
    assert a + (page - a % page) == page * (a / page + 1) + 0;
    DivUnique(a + (page - a % page), page, a / page + 1, 0);
  }

  // ---- requests of a call ----

  /** The requests read on from addr without gap or overlap, total bytes in all. */
  ghost predicate Consecutive(asked: seq<Request>, addr: nat, total: nat) {
    if asked == [] then total == 0
    else
      var q := asked[|asked| - 1];
      q.len <= total && q.addr == addr + total - q.len && Consecutive(asked[..|asked| - 1], addr, total - q.len)
  }

  predicate Quiet(r: Remote, from: nat, to: nat) { forall a :: from <= a < to ==> r.byteAt(a) != NUL }

  function LastPage(q: Request, page: nat): nat
    requires page > 0
  {
    if q.len == 0 then q.addr / page else (q.addr + q.len - 1) / page
  }

  /** No page is touched after the page of any NUL at or after addr. */
  ghost predicate StopsAtTerminator(r: Remote, addr: nat, asked: seq<Request>, page: nat)
    requires page > 0
  {
    forall a, i :: addr <= a && r.byteAt(a) == NUL && 0 <= i < |asked| ==> LastPage(asked[i], page) <= a / page
  }

  lemma ReadBeforeTerminator(r: Remote, addr: nat, asked: seq<Request>, q: Request, page: nat)
    requires page > 0 && addr <= q.addr && InOnePage(q, page)
    requires Quiet(r, addr, q.addr)
    requires StopsAtTerminator(r, addr, asked, page)
    ensures StopsAtTerminator(r, addr, asked + [q], page)
  {
    OnePage(q, page);
    forall a: nat | addr <= a && r.byteAt(a) == NUL
      ensures LastPage(q, page) <= a / page
    {
      DivMono(q.addr, a, page);
    }
  }

  // ---- the library calls ----

  method PtIo(r: Remote, q: Request, buf: array<char>, offset: nat) returns (ok: bool)
    requires offset + q.len <= buf.Length
    modifies buf
    ensures ok == !r.readFails(q.addr, q.len)
    ensures ok ==> buf[offset..offset + q.len] == Bytes(r, q.addr, q.len)
    ensures buf[..offset] == old(buf[..offset]) && buf[offset + q.len..] == old(buf[offset + q.len..])
  {
    if r.readFails(q.addr, q.len) {
      return false;
    }
    for i := 0 to q.len
      invariant buf[offset..offset + i] == Bytes(r, q.addr, i)
      invariant buf[..offset] == old(buf[..offset]) && buf[offset + q.len..] == old(buf[offset + q.len..])
    {
      buf[offset + i] := r.byteAt(q.addr + i);
    }
    return true;
  }

  method MemChr(buf: array<char>, offset: nat, size: nat) returns (found: bool)
    requires offset + size <= buf.Length
    ensures found <==> NUL in buf[offset..offset + size]
  {
    for i := 0 to size
      invariant NUL !in buf[offset..offset + i]
    {
      if buf[offset + i] == NUL {
        assert buf[offset..offset + size][i] == NUL;
        return true;
      }
    }
    return false;
  }

  method Malloc(r: Remote, size: nat) returns (buf: array?<char>)
    ensures buf == null <==> r.allocFails(size)
    ensures buf != null ==> fresh(buf) && buf.Length == size
  {
    if r.allocFails(size) { return null; }
    buf := new char[size];
  }

  method Realloc(r: Remote, buf: array<char>, size: nat) returns (nbuf: array?<char>)
    requires buf.Length <= size
    ensures nbuf == null <==> r.allocFails(size)
    ensures nbuf != null ==> fresh(nbuf) && nbuf.Length == size && nbuf[..buf.Length] == buf[..]
  {
    nbuf := Malloc(r, size);
    if nbuf != null {
      for i := 0 to buf.Length
        invariant nbuf[..i] == buf[..i]
      {
        nbuf[i] := buf[i];
      }
    }
  }

  // ---- get_string ----

  function FirstSize(addr: nat, max: nat, page: nat): nat
    requires page > 0
  {
    if max != 0 then max + 1
    else if page - addr % page > MAXSIZE then MAXSIZE else page - addr % page
  }

  lemma FirstSizeInPage(addr: nat, page: nat)
    requires page > 0
    ensures var size := FirstSize(addr, 0, page);
            && InOnePage(Request(addr, size), page) && size <= MAXSIZE
            && (size < MAXSIZE ==> (addr + size) % page == 0)
  {
    ToPageEnd(addr, page);
  }

  lemma NextSizeInPage(a: nat, size: nat, page: nat)
    requires page > 0 && a % page == 0 && 0 < size <= page
    ensures InOnePage(Request(a, size), page)
    ensures size == page ==> (a + size) % page == 0
  {
    ToPageEnd(a, page);
  }

  /** A buffer whose bytes are the remote ones up to a NUL in it. */
  lemma BufferWithNul(r: Remote, addr: nat, s: seq<char>)
    requires s == Bytes(r, addr, |s|) && NUL in s
    ensures CString(s) == Fitted(r, addr, |s|) && |CString(s)| < |s|
  {
    assert s[..|s|] == s;
  }

  /** A buffer of NUL-free remote bytes whose last byte is overwritten with NUL. */
  lemma BufferCut(r: Remote, addr: nat, s: seq<char>)
    requires |s| > 0 && s[..|s| - 1] == Bytes(r, addr, |s|)[..|s| - 1] && s[|s| - 1] == NUL
    requires NUL !in Bytes(r, addr, |s|)
    ensures CString(s) == Fitted(r, addr, |s|) && |CString(s)| == |s| - 1
  {
    var n, b := |s|, Bytes(r, addr, |s|);
    assert b[..n] == b;
    CStringUnique(b, n);
    assert NUL !in s[..n - 1];
    CStringUnique(s, n - 1);
  }

  lemma BytesConcat(r: Remote, addr: nat, n: nat, k: nat)
    ensures Bytes(r, addr, n) + Bytes(r, addr + n, k) == Bytes(r, addr, n + k)
  {
  }

  lemma NoNulBelow(r: Remote, addr: nat, n: nat)
    requires NUL !in Bytes(r, addr, n)
    ensures Quiet(r, addr, addr + n)
  {
    forall a | addr <= a < addr + n
      ensures r.byteAt(a) != NUL
    {
      assert Bytes(r, addr, n)[a - addr] == r.byteAt(a);
    }
  }

  /** What the requests of a call with max = 0 keep: in-page, gapless up to offset, none past a terminator. */
  ghost predicate Paged(r: Remote, addr: nat, asked: seq<Request>, page: nat)
    requires page > 0
  {
    (forall i :: 0 <= i < |asked| ==> InOnePage(asked[i], page)) && StopsAtTerminator(r, addr, asked, page)
  }

  lemma AskNext(r: Remote, addr: nat, asked: seq<Request>, offset: nat, size: nat, page: nat)
    requires page > 0 && NUL !in Bytes(r, addr, offset) && Consecutive(asked, addr, offset)
    ensures var q := Request(addr + offset, size);
            && Consecutive(asked + [q], addr, offset + size)
            && (Paged(r, addr, asked, page) && InOnePage(q, page) ==> Paged(r, addr, asked + [q], page))
  {
    var q := Request(addr + offset, size);
    NoNulBelow(r, addr, offset);
    assert (asked + [q])[..|asked + [q]| - 1] == asked;
    if Paged(r, addr, asked, page) && InOnePage(q, page) {
      ReadBeforeTerminator(r, addr, asked, q, page);
    }
  }

  /** One turn of the loop up to memchr: reads a chunk behind the bytes already there. */
  method ReadChunk(r: Remote, addr: nat, buf: array<char>, offset: nat, size: nat) returns (ok: bool, found: bool)
    requires buf.Length == offset + size && buf[..offset] == Bytes(r, addr, offset) && NUL !in buf[..offset]
    modifies buf
    ensures ok == !r.readFails(addr + offset, size)
    ensures ok ==> buf[..] == Bytes(r, addr, offset + size)
    ensures ok ==> (found <==> NUL in Bytes(r, addr, offset + size))
  {
    found := false;
    ok := PtIo(r, Request(addr + offset, size), buf, offset);
    if ok {
      BytesConcat(r, addr, offset, size);
      assert buf[..] == buf[..offset] + buf[offset..offset + size];
      found := MemChr(buf, offset, size);
    }
  }

  /** buf[totalsize - 1] = NUL on a buffer in which no NUL was found. */
  method Cut(r: Remote, addr: nat, buf: array<char>)
    requires buf.Length > 0 && buf[..] == Bytes(r, addr, buf.Length) && NUL !in buf[..]
    modifies buf
    ensures CString(buf[..]) == Fitted(r, addr, buf.Length) && |CString(buf[..])| == buf.Length - 1
  {
    var n := buf.Length;
    ghost var s := buf[..];
    buf[n - 1] := NUL;
    assert buf[..n - 1] == s[..n - 1];
    BufferCut(r, addr, buf[..]);
  }

  /** The next chunk: at most a page, at most up to MAXSIZE; the bytes so far are kept. */
  method Grow(r: Remote, addr: nat, buf: array<char>, page: nat) returns (nbuf: array?<char>, size: nat)
    requires page > 0 && buf.Length < MAXSIZE && (addr + buf.Length) % page == 0
    ensures 0 < size && buf.Length + size <= MAXSIZE
    ensures InOnePage(Request(addr + buf.Length, size), page)
    ensures buf.Length + size < MAXSIZE ==> (addr + buf.Length + size) % page == 0
    ensures nbuf == null <==> r.allocFails(buf.Length + size)
    ensures nbuf != null ==> fresh(nbuf) && nbuf.Length == buf.Length + size && nbuf[..buf.Length] == buf[..]
  {
    size := MAXSIZE - buf.Length;
    if size > page {
      size := page;
    }
    NextSizeInPage(addr + buf.Length, size, page);
    nbuf := Realloc(r, buf, buf.Length + size);
  }

  lemma NothingAsked(r: Remote, addr: nat)
    ensures Bytes(r, addr, 0) == []
    ensures forall page :: page > 0 ==> Paged(r, addr, [], page)
  {
  }

  /** A result holds the remote string cut to its size, NUL-terminated, read without gap or overlap. */
  ghost predicate Delivered(r: Remote, addr: nat, asked: seq<Request>, s: seq<char>) {
    |CString(s)| < |s| && CString(s) == Fitted(r, addr, |s|) && Consecutive(asked, addr, |s|)
  }

  /**
   Copies a C string, page by page when max is 0. The result is NULL only when the first allocation
   or a read fails; else it is terminated inside the buffer and is the remote string cut to fit.
   */
  method GetString(r: Remote, addr: nat, max: nat, page: nat) returns (res: array?<char>, ghost asked: seq<Request>)
    requires page > 0
    ensures res == null ==>
              r.allocFails(FirstSize(addr, max, page)) || exists q :: q in asked && r.readFails(q.addr, q.len)
    ensures res != null ==> fresh(res) && Delivered(r, addr, asked, res[..])
    ensures res != null && max != 0 ==> res.Length == max + 1
    ensures res != null && max == 0 ==>
              && res.Length <= 4096
              && (NUL in Bytes(r, addr, res.Length) || res.Length == 4096 ||
                  exists n: nat :: n > res.Length && r.allocFails(n))
    ensures max == 0 ==> Paged(r, addr, asked, page)
  {
    hide Bytes, CString, Fitted, StopsAtTerminator, InOnePage;
    asked := [];
    NothingAsked(r, addr);
    var offset: nat := 0;
    var size := FirstSize(addr, max, page);
    if max == 0 { FirstSizeInPage(addr, page); }
    var totalsize := size;
    var buf := Malloc(r, totalsize);
    if buf == null {
      return null, asked;
    }
    while true
      invariant fresh(buf) && buf.Length == totalsize == offset + size && size > 0
      invariant buf[..offset] == Bytes(r, addr, offset) && NUL !in Bytes(r, addr, offset)
      invariant Consecutive(asked, addr, offset)
      invariant max != 0 ==> totalsize == max + 1
      invariant max == 0 ==> totalsize <= MAXSIZE && InOnePage(Request(addr + offset, size), page)
      invariant max == 0 && totalsize < MAXSIZE ==> (addr + totalsize) % page == 0
      invariant max == 0 ==> Paged(r, addr, asked, page)
      decreases MAXSIZE - totalsize
    {
      ghost var q := Request(addr + offset, size);
      AskNext(r, addr, asked, offset, size, page);
      asked := asked + [q];
      assert q in asked;
      var ok, found := ReadChunk(r, addr, buf, offset, size);
      if !ok {
        return null, asked;
      }
      if found {
        BufferWithNul(r, addr, buf[..]);
        return buf, asked;
      }
      offset := offset + size;
      if totalsize < MAXSIZE && max == 0 {
        var nbuf;
        nbuf, size := Grow(r, addr, buf, page);
        if nbuf == null {
          Cut(r, addr, buf);
          return buf, asked;
        }
        buf := nbuf;
        totalsize := totalsize + size;
      } else {
        Cut(r, addr, buf);
        return buf, asked;
      }
    }
  }

  // ---- read_data ----

  function WordsFor(len: int): nat { if len <= 0 then 0 else (len + 3) / 4 }

  /**
   Reads words until len bytes are covered: the words of [addr, addr+len) rounded up to whole
   words, so exactly len bytes are written if and only if len is a non-negative multiple of four.
   */
  method ReadData(wordAt: nat -> int, addr: nat, ptr: array<int>, len: int)
    requires WordsFor(len) <= ptr.Length
    modifies ptr
    ensures forall i :: 0 <= i < WordsFor(len) ==> ptr[i] == wordAt(addr + 4 * i)
    ensures forall i :: WordsFor(len) <= i < ptr.Length ==> ptr[i] == old(ptr[i])
  {
    var i, count := 0, 0;
    while count < len
      invariant count == 4 * i && i <= WordsFor(len)
      invariant forall k :: 0 <= k < i ==> ptr[k] == wordAt(addr + 4 * k)
      invariant forall k :: i <= k < ptr.Length ==> ptr[k] == old(ptr[k])
    {
      var word := wordAt(addr + count);
      count := count + 4;
      ptr[i] := word;
      i := i + 1;
    }
  }

  lemma ReadDataExtent(len: nat)
    ensures len <= 4 * WordsFor(len) < len + 4
    ensures 4 * WordsFor(len) == len <==> len % 4 == 0
  {
  }
}
