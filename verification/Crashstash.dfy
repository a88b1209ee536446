/** A kernel-side byte log kept in a list of pages, behind a file that one process at
    a time may hold open, and the reader that recovers the log from a crash dump. */
module Crashstash {
  import opened Bytes

  type Page = seq<Byte>

  const MAXSIZE: nat := 10 * 1024 * 1024

  datatype Mode = ReadOnly | WriteOnly | ReadWrite

  /** What a call returns to its caller. */
  datatype Reply =
    | Opened
    | Closed
    | Busy
    | Invalid
    | NoSpace
    | Fault
    | NotOpen
    | Wrote(n: nat)
    | Got(data: seq<Byte>)

  function Min(a: nat, b: nat): (m: nat)
    ensures m <= a && m <= b && (m == a || m == b)
  {
    if a <= b then a else b
  }

  // ----- pages laid end to end

  function Joined(list: seq<Page>): seq<Byte> {
    if list == [] then [] else Joined(list[..|list| - 1]) + list[|list| - 1]
  }

  ghost predicate AllOf(list: seq<Page>, size: nat) {
    forall i :: 0 <= i < |list| ==> |list[i]| == size
  }

  lemma {:induction false} JoinedLength(list: seq<Page>, size: nat)
    requires AllOf(list, size)
    ensures |Joined(list)| == |list| * size
  {
    if list != [] {
      JoinedLength(list[..|list| - 1], size);
      assert (|list| - 1) * size + size == |list| * size;
    }
  }

  lemma {:induction false} JoinedPage(list: seq<Page>, size: nat, k: nat)
    requires AllOf(list, size) && k < |list|
    ensures 0 <= k * size && (k + 1) * size <= |Joined(list)|
    ensures Joined(list)[k * size..(k + 1) * size] == list[k]
  {
    var n := |list| - 1;
    JoinedLength(list[..n], size);
    JoinedLength(list, size);
    assert (k + 1) * size == k * size + size;
    if k < n {
      JoinedPage(list[..n], size, k);
      SliceOfPrefix(Joined(list[..n]), list[n], k * size, (k + 1) * size);
    } else {
      SliceOfSuffix(Joined(list[..n]), list[n]);
    }
  }

  lemma SliceOfPrefix(a: seq<Byte>, b: seq<Byte>, lo: nat, hi: nat)
    requires lo <= hi <= |a|
    ensures (a + b)[lo..hi] == a[lo..hi]
  {
  }

  lemma SliceOfSuffix(a: seq<Byte>, b: seq<Byte>)
    ensures (a + b)[|a|..|a| + |b|] == b
  {
  }

  function CeilDiv(a: nat, b: nat): nat
    requires b > 0
  {
    (a + b - 1) / b
  }

  /** The page count that a size calls for, told from both sides. */
  lemma CeilDivIs(a: nat, b: nat, k: nat)
    requires b > 0
    ensures k == CeilDiv(a, b) <==> (k == 0 && a == 0) || (k > 0 && (k - 1) * b < a <= k * b)
  {
    var q := CeilDiv(a, b);
    DivBounds(a + b - 1, b);
    assert q * b <= a + b - 1 < q * b + b;
    if k > q {
      assert (k - 1) * b >= q * b by { MulOrder(q, k - 1, b); }
    } else if k < q {
      assert k * b <= (q - 1) * b by { MulOrder(k, q - 1, b); }
      assert (q - 1) * b == q * b - b;
    }
    if k > 0 {
      assert (k - 1) * b == k * b - b;
    }
  }

  lemma MulOrder(x: int, y: int, b: nat)
    requires x <= y
    ensures x * b <= y * b
  {
  }

  lemma DivBounds(a: nat, b: nat)
    requires b > 0
    ensures a / b * b <= a < a / b * b + b && a == a / b * b + a % b
  {
  }

  lemma ModIs(k: nat, b: nat, r: nat)
    requires r < b
    ensures (k * b + r) % b == r && (k * b + r) / b == k
  {
    var a := k * b + r;
    DivBounds(a, b);
    if a / b < k {
      MulOrder(a / b + 1, k, b);
    } else if a / b > k {
      MulOrder(k + 1, a / b, b);
    }
  }

  /** Full pages, counted right, and at least as many as the size calls for. */
  ghost predicate Padded(list: seq<Page>, pages: nat, size: nat, pageSize: nat) {
    && pageSize > 0 && size <= MAXSIZE
    && AllOf(list, pageSize) && |list| == pages && CeilDiv(size, pageSize) <= pages
  }

  /** Where a page starts. */
  function Start(at: nat, pageSize: nat): nat {
    at * pageSize
  }

  /** The offset within a page. */
  function Offset(a: nat, pageSize: nat): (r: nat)
    requires pageSize > 0
    ensures r < pageSize
  {
    a % pageSize
  }

  // ----- chunks

  /** The copies that moving `amt` bytes takes, from `pgoff` within a page on. */
  function Copies(pgoff: nat, amt: nat, pageSize: nat): nat
    requires pageSize > 0
  {
    if amt == 0 then 0 else CeilDiv(pgoff + amt, pageSize)
  }

  /** The bytes moved by the first `k` of them. */
  function Sent(pgoff: nat, amt: nat, pageSize: nat, k: nat): (n: nat)
    requires pgoff < pageSize
    ensures n <= amt
  {
    if k == 0 then 0
    else
      MulOrder(1, k, pageSize);
      Min(amt, k * pageSize - pgoff)
  }

  /** The first of `n` copies that fails, or `n`. */
  function FirstBad(copies: nat -> bool, n: nat): (k: nat)
    ensures k <= n && (forall j :: 0 <= j < k ==> copies(j)) && (k < n ==> !copies(k))
  {
    if n == 0 then 0
    else
      var k := FirstBad(copies, n - 1);
      if k < n - 1 || !copies(k) then k else n
  }

  lemma FirstBadIs(copies: nat -> bool, n: nat, k: nat)
    requires k <= n && (forall j :: 0 <= j < k ==> copies(j)) && (k < n ==> !copies(k))
    ensures FirstBad(copies, n) == k
  {
  }

  /** All bytes are moved exactly if all copies are made. */
  lemma SentDone(pgoff: nat, amt: nat, pageSize: nat, k: nat)
    requires pgoff < pageSize && k <= Copies(pgoff, amt, pageSize)
    ensures Sent(pgoff, amt, pageSize, k) < amt <==> k < Copies(pgoff, amt, pageSize)
  {
    if amt > 0 {
      var n := CeilDiv(pgoff + amt, pageSize);
      CeilDivIs(pgoff + amt, pageSize, n);
      if k < n {
        MulOrder(k, n - 1, pageSize);
      }
    }
  }

  /** Every copy but the first starts at a page boundary, and takes what is left or fits. */
  lemma SentNext(off: nat, amt: nat, pageSize: nat, k: nat)
    requires pageSize > 0 && k < Copies(Offset(off, pageSize), amt, pageSize)
    ensures var pgoff := Offset(off, pageSize); var sent := Sent(pgoff, amt, pageSize, k);
      var here := Offset(off + sent, pageSize);
      && here == (if k == 0 then pgoff else 0) && sent < amt
      && Sent(pgoff, amt, pageSize, k + 1) == sent + Min(amt - sent, pageSize - here)
  {
    var pgoff := Offset(off, pageSize);
    SentDone(pgoff, amt, pageSize, k);
    if k > 0 {
      MulOrder(1, k, pageSize);
      Boundary(off, pageSize, k);
    }
    MulNext(k, pageSize);
    hide Offset;
    hide Copies;
  }

  lemma MulNext(k: nat, b: nat)
    ensures (k + 1) * b == k * b + b
  {
  }

  /** `k` pages past the start of an offset's page is a page boundary. */
  lemma Boundary(off: nat, pageSize: nat, k: nat)
    requires pageSize > 0 && k > 0
    ensures k * pageSize >= Offset(off, pageSize)
    ensures Offset(off + (k * pageSize - Offset(off, pageSize)), pageSize) == 0
  {
    var q := off / pageSize;
    DivBounds(off, pageSize);
    MulOrder(1, k, pageSize);
    assert (q + k) * pageSize == q * pageSize + k * pageSize;
    ModIs(q + k, pageSize, 0);
  }

  /** After `k` copies, all made, `sent` bytes are moved. */
  ghost predicate Sending(copies: nat -> bool, pgoff: nat, amt: nat, pageSize: nat, k: nat, sent: nat) {
    && pgoff < pageSize && k <= Copies(pgoff, amt, pageSize) && sent == Sent(pgoff, amt, pageSize, k)
    && forall j :: 0 <= j < k ==> copies(j)
  }

  lemma SendStart(copies: nat -> bool, pgoff: nat, amt: nat, pageSize: nat)
    requires pgoff < pageSize
    ensures Sending(copies, pgoff, amt, pageSize, 0, 0)
  {
  }

  /** The next copy. */
  lemma SendStep(copies: nat -> bool, off: nat, amt: nat, pageSize: nat, k: nat, sent: nat)
    requires pageSize > 0 && Sending(copies, Offset(off, pageSize), amt, pageSize, k, sent) && sent < amt
    ensures var pgoff := Offset(off, pageSize); var here := Offset(off + sent, pageSize);
      var n := Copies(pgoff, amt, pageSize);
      && k < n && here == (if k == 0 then pgoff else 0)
      && if copies(k) then Sending(copies, pgoff, amt, pageSize, k + 1, sent + Min(amt - sent, pageSize - here))
         else FirstBad(copies, n) == k
  {
    var pgoff := Offset(off, pageSize);
    SentDone(pgoff, amt, pageSize, k);
    SentNext(off, amt, pageSize, k);
    if !copies(k) {
      FirstBadIs(copies, Copies(pgoff, amt, pageSize), k);
    }
    hide Sent;
    hide Copies;
    hide Offset;
  }

  lemma SendEnd(copies: nat -> bool, pgoff: nat, amt: nat, pageSize: nat, k: nat)
    requires Sending(copies, pgoff, amt, pageSize, k, amt)
    ensures pgoff < pageSize && k == Copies(pgoff, amt, pageSize) && FirstBad(copies, k) == k
  {
    SentDone(pgoff, amt, pageSize, k);
    FirstBadIs(copies, k, k);
    hide Sent;
    hide Copies;
  }

  lemma SendMeans(copies: nat -> bool, pgoff: nat, amt: nat, pageSize: nat, k: nat, sent: nat)
    requires Sending(copies, pgoff, amt, pageSize, k, sent)
    ensures pgoff < pageSize && sent == Sent(pgoff, amt, pageSize, k) <= amt
  {
  }

  /** Where the next byte goes, by the pages there are. */
  lemma TailPlace(size: nat, pageSize: nat, pages: nat, stray: nat)
    requires pageSize > 0 && pages == CeilDiv(size, pageSize) + stray
    ensures var used := Offset(size, pageSize);
      if used == 0 then size + stray * pageSize == pages * pageSize
      else pages > 0 && size + stray * pageSize == (pages - 1) * pageSize + used
  {
    var q := size / pageSize;
    CeilSplit(size, pageSize);
    assert (q + stray) * pageSize == q * pageSize + stray * pageSize;
  }

  lemma AllButLast(list: seq<Page>, pageSize: nat)
    requires list != [] && AllOf(list, pageSize)
    ensures |Joined(list[..|list| - 1])| == (|list| - 1) * pageSize && |list[|list| - 1]| == pageSize
  {
    JoinedLength(list[..|list| - 1], pageSize);
  }

  /** The first `n` bytes of `data` were put after `raw0`. */
  ghost predicate Grown(raw: seq<Byte>, raw0: seq<Byte>, data: seq<Byte>, n: nat) {
    n <= |data| && raw == raw0 + data[..n]
  }

  lemma GrowStart(raw0: seq<Byte>, data: seq<Byte>)
    ensures Grown(raw0, raw0, data, 0)
  {
  }

  lemma GrowStep(raw: seq<Byte>, raw0: seq<Byte>, data: seq<Byte>, n: nat, m: nat)
    requires Grown(raw, raw0, data, n) && n + m <= |data|
    ensures Grown(raw + data[n..n + m], raw0, data, n + m)
  {
    assert data[..n] + data[n..n + m] == data[..n + m];
  }

  lemma GrownMeans(raw: seq<Byte>, raw0: seq<Byte>, data: seq<Byte>, n: nat)
    requires Grown(raw, raw0, data, n)
    ensures n <= |data| && raw == raw0 + data[..n]
  {
  }

  /** The bytes of `log` from `a` to `b`. */
  ghost predicate IsSlice(data: seq<Byte>, log: seq<Byte>, a: nat, b: nat) {
    a <= b <= |log| && data == log[a..b]
  }

  lemma IsSliceMeans(data: seq<Byte>, log: seq<Byte>, a: nat, b: nat)
    requires IsSlice(data, log, a, b)
    ensures a <= b <= |log| && data == log[a..b]
  {
  }

  lemma SliceStart(log: seq<Byte>, a: nat)
    requires a <= |log|
    ensures IsSlice([], log, a, a)
  {
  }

  lemma SliceStep(data: seq<Byte>, log: seq<Byte>, a: nat, b: nat, c: nat)
    requires IsSlice(data, log, a, b) && b <= c <= |log|
    ensures IsSlice(data + log[b..c], log, a, c)
  {
  }

  // ----- the stash

  /** The module's globals. */
  class Stash {
    const pageSize: nat
    var count: nat
    var size: nat
    var pages: nat
    var list: seq<Page>

    /** At most one holder, and pages enough; a failed copy may have left some too many. */
    ghost predicate Loose()
      reads this
    {
      count <= 1 && Padded(list, pages, size, pageSize)
    }

    /** The pages too many. */
    ghost function Stray(): nat
      requires Loose()
      reads this
    {
      pages - CeilDiv(size, pageSize)
    }

    /** Just the pages that the size calls for. */
    ghost predicate Valid()
      reads this
    {
      Loose() && Stray() == 0
    }

    /** What a reader gets to see. */
    ghost function Contents(): seq<Byte>
      requires Loose()
      reads this
    {
      if size <= |Joined(list)| then Joined(list)[..size] else []
    }

    /** Where the next byte goes: past the pages too many. */
    ghost function End(): nat
      requires Loose()
      reads this
    {
      size + Stray() * pageSize
    }

    /** All that was put into pages, those too many included. */
    ghost function Raw(): seq<Byte>
      requires Loose()
      reads this
    {
      if End() <= |Joined(list)| then Joined(list)[..End()] else []
    }

    constructor (pageSize: nat)
      requires pageSize > 0
      ensures Valid() && count == 0 && size == 0 && Contents() == [] && this.pageSize == pageSize
    {
      this.pageSize := pageSize;
      count, size, pages, list := 0, 0, 0, [];
      new;
      CeilDivIs(0, pageSize, 0);
    }

    lemma Sized()
      requires Loose()
      ensures |Joined(list)| == pages * pageSize && size <= End() <= |Joined(list)|
      ensures |Contents()| == size && |Raw()| == End() && Contents() == Raw()[..size]
      ensures Valid() ==> Raw() == Contents()
    {
      JoinedLength(list, pageSize);
      var n := CeilDiv(size, pageSize);
      CeilDivIs(size, pageSize, n);
      assert pages * pageSize == n * pageSize + (pages - n) * pageSize;
      MulOrder(0, pages - n, pageSize);
    }

    /** Releases every page. */
    method Free()
      requires Loose()
      modifies this
      ensures Valid() && Contents() == [] && size == 0 && count == old(count)
    {
      while list != []
        invariant count == old(count)
        decreases |list|
      {
        list := list[1..];
      }
      size := 0;
      pages := 0;
      CeilDivIs(0, pageSize, 0);
    }

    /** Opening is refused while anyone holds the file, and for both directions at
        once; a writer starts from an empty stash. */
    method Open(mode: Mode) returns (r: Reply)
      requires Loose()
      modifies this
      ensures Loose() && (old(Valid()) || (r == Opened && mode == WriteOnly) ==> Valid())
      ensures r == if old(count) > 0 then Busy else if mode == ReadWrite then Invalid else Opened
      ensures r != Opened ==> unchanged(this)
      ensures r == Opened ==> count == 1
      ensures r == Opened && mode == WriteOnly ==> Contents() == [] && size == 0
      ensures r == Opened && mode == ReadOnly ==> unchanged(`size) && unchanged(`pages) && unchanged(`list)
    {
      if count != 0 {
        return Busy;
      }
      if mode == ReadWrite {
        return Invalid;
      }
      if mode == WriteOnly {
        Free();
      }
      count := count + 1;
      return Opened;
    }

    method Release()
      requires Loose() && count > 0
      modifies this`count
      ensures Loose() && count == 0 && (old(Valid()) ==> Valid())
    {
      count := count - 1;
    }

    /** Where the next byte goes: past the bytes used of the last page, or to a page
        yet to be added. */
    lemma Tail()
      requires Loose()
      ensures var used := Offset(size, pageSize);
        if used == 0 then End() == |Joined(list)|
        else list != [] && End() == |Joined(list[..|list| - 1])| + used && used < |list[|list| - 1]|
    {
      hide *;
      Told();
      JoinedLength(list, pageSize);
      TailPlace(size, pageSize, pages, Stray());
      if Offset(size, pageSize) != 0 {
        AllButLast(list, pageSize);
      }
    }

    /** Picks the page for the next byte: the last one, or a new one if it is full. */
    method PickPage(pgoff: nat)
      requires Loose() && pgoff == Offset(size, pageSize)
      modifies this`list, this`pages
      ensures list != [] && AllOf(list, pageSize) && |list| == pages && pgoff < pageSize
      ensures pages == old(pages) + if pgoff == 0 then 1 else 0
      ensures old(End()) == |Joined(list[..|list| - 1])| + pgoff
      ensures old(End()) <= |Joined(list)| && Joined(list)[..old(End())] == old(Raw())
    {
      Tail();
      Sized();
      if pgoff == 0 {
        ghost var before := list;
        var pg := Garbage(pageSize);
        JoinedPush(list, pg);
        list := list + [pg];
        pages := pages + 1;
        assert list[..|list| - 1] == before;
      }
    }

    /** Copies one chunk to the page picked for it; a failed copy spoils its target, and
        leaves a page too many if that was a new one. */
    method PutChunk(pgoff: nat, piece: seq<Byte>, copied: bool)
      requires Loose() && pgoff == Offset(size, pageSize) && 0 < |piece| <= pageSize - pgoff &&
          size + |piece| <= MAXSIZE
      modifies this`list, this`pages, this`size
      ensures Loose()
      ensures copied ==>
        size == old(size) + |piece| && Stray() == old(Stray()) && Raw() == old(Raw()) + piece
      ensures !copied ==>
        && size == old(size) && Stray() == old(Stray()) + (if pgoff == 0 then 1 else 0) && old(Raw()) <= Raw()
    {
      hide *;
      Told();
      PickPage(pgoff);
      var last := |list| - 1;
      var target := piece;
      if !copied {
        target := Garbage(|piece|);
      }
      LastPage(list, pageSize);
      PagesGrow(size, |piece|, pageSize, pgoff);
      SpliceJoined(list, pgoff, target);
      StaysFull(list, pageSize, pgoff, target);
      list := list[last := Overwrite(list[last], pgoff, target)];
      if copied {
        size := size + |piece|;
      }
      Told();
      MulOrder(old(Stray()), Stray(), pageSize);
      RawIs(old(End()) + if copied then |piece| else 0);
    }

    /** What the state amounts to, in terms of its fields. */
    lemma Told()
      ensures Loose() <==> count <= 1 && Padded(list, pages, size, pageSize)
      ensures Padded(list, pages, size, pageSize) <==>
        && pageSize > 0 && size <= MAXSIZE && AllOf(list, pageSize) && |list| == pages &&
          CeilDiv(size, pageSize) <= pages
      ensures Loose() ==> Stray() == pages - CeilDiv(size, pageSize) && (Valid() <==> Stray() == 0)
      ensures Loose() ==> End() == size + Stray() * pageSize
    {
    }

    /** A prefix of the pages that reaches no further than their end is one of what was
        put there. */
    lemma RawIs(n: nat)
      requires Loose() && n <= End()
      ensures n <= |Joined(list)| && n <= |Raw()| && Raw()[..n] == Joined(list)[..n]
      ensures n == End() ==> Raw() == Joined(list)[..n]
    {
      Sized();
    }

    /** The copying loop of a write: takes `amt0` bytes chunk by chunk, or fewer if a
        copy fails. */
    method Fill(data: seq<Byte>, amt0: nat, off0: nat, copies: nat -> bool)
      returns (fault: bool, off: nat, written: nat)
      requires Loose() && off0 == size && amt0 <= |data| && size + amt0 <= MAXSIZE
      modifies this`list, this`pages, this`size
      ensures pageSize > 0 && Loose()
      ensures var pgoff := Offset(old(size), pageSize); var n := Copies(pgoff, amt0, pageSize);
        var k := FirstBad(copies, n);
        && fault == (k < n) && written == Sent(pgoff, amt0, pageSize, k) && size == off == old(size) + written
        && (!fault ==> written == amt0)
        && Stray() == old(Stray()) + (if fault && (k > 0 || pgoff == 0) then 1 else 0)
        && exists raw :: raw <= Raw() && Grown(raw, old(Raw()), data, written)
    {
      hide *;
      var amt: nat, k: nat := amt0, 0;
      off, written, fault := off0, 0, false;
      ghost var raw0 := Raw();
      Told();
      ghost var pgoff0 := Offset(size, pageSize);
      GrowStart(raw0, data);
      SendStart(copies, pgoff0, amt0, pageSize);
      while amt > 0
        invariant Loose() && Stray() == old(Stray()) && off == size == off0 + written && amt == amt0 - written
        invariant Sending(copies, pgoff0, amt0, pageSize, k, written)
        invariant Grown(Raw(), raw0, data, written)
        decreases amt
      {
        SendStep(copies, off0, amt0, pageSize, k, written);
        SendMeans(copies, pgoff0, amt0, pageSize, k, written);
        var pgoff := Offset(off, pageSize);
        var chunk := Min(amt, pageSize - pgoff);
        var piece := data[written..written + chunk];
        var copied := copies(k);
        GrowStep(Raw(), raw0, data, written, chunk);
        PutChunk(pgoff, piece, copied);
        if !copied {
          fault := true;
          return;
        }
        amt := amt - chunk;
        off := off + chunk;
        written := written + chunk;
        k := k + 1;
      }
      SendEnd(copies, pgoff0, amt0, pageSize, k);
      SendMeans(copies, pgoff0, amt0, pageSize, k, written);
    }

    /** Appends at the end of the file, up to capacity. `copies` tells which copies from
        the caller's memory succeed. With `k` the first that fails of the `n` copies the
        write takes, one for each page it touches, there is a fault exactly if `k < n`;
        the bytes before it stay. It leaves a page too many exactly if it hits a new
        page: one after the first, or the first at a page boundary. From then on what is
        written lands behind that page, and readers get to see the page instead. */
    method Write(data: seq<Byte>, off0: nat, copies: nat -> bool) returns (r: Reply, off: nat)
      requires Loose()
      modifies this`list, this`pages, this`size
      ensures pageSize > 0 && Loose()
      ensures off0 != old(size) ==> r == Invalid && unchanged(this) && off == off0
      ensures off0 == old(size) >= MAXSIZE ==> r == NoSpace && unchanged(this) && off == off0
      ensures off0 == old(size) < MAXSIZE ==>
        var amt := Min(|data|, MAXSIZE - old(size)); var pgoff := Offset(old(size), pageSize);
        var n := Copies(pgoff, amt, pageSize); var k := FirstBad(copies, n); var sent := Sent(pgoff, amt, pageSize, k);
        && r == (if k < n then Fault else Wrote(amt)) && (k == n ==> sent == amt)
        && size == off == old(size) + sent
        && Stray() == old(Stray()) + (if k < n && (k > 0 || pgoff == 0) then 1 else 0)
        && old(Raw()) + data[..sent] <= Raw()
        && |Contents()| == size && Contents() <= old(Raw()) + data[..sent]
        && (old(Valid()) ==> Contents() == old(Contents()) + data[..sent])
    {
      hide *;
      Told();
      Sized();
      off := off0;
      if off != size {
        return Invalid, off;
      }
      if size >= MAXSIZE {
        return NoSpace, off;
      }
      var amt := if size + |data| > MAXSIZE then MAXSIZE - size else |data|;
      var fault, written;
      ghost var raw0 := Raw();
      fault, off, written := Fill(data, amt, off, copies);
      Sized();
      ghost var raw :| raw <= Raw() && Grown(raw, raw0, data, written);
      GrownMeans(raw, raw0, data, written);
      r := if fault then Fault else Wrote(written);
    }

    /** Reads on from `off0`: the next bytes of the log, as many as there are and the
        caller has room for. There is a fault exactly if one of the copies that takes
        fails; the offset has then moved past the copies before it. */
    method Read(room: nat, off0: nat, copies: nat -> bool) returns (r: Reply, off: nat)
      requires Loose() && off0 <= size
      ensures pageSize > 0 && |Contents()| == size
      ensures var amt := Min(room, size - off0); var pgoff := Offset(off0, pageSize);
        var n := Copies(pgoff, amt, pageSize); var k := FirstBad(copies, n);
        && off == off0 + Sent(pgoff, amt, pageSize, k) && (k == n ==> off == off0 + amt)
        && r == if k < n then Fault else Got(Contents()[off0..off])
    {
      Sized();
      hide *;
      Told();
      var amt := if off0 + room > size then size - off0 else room;
      var at := Seek(list, PageNumber(off0, pageSize));
      StartPage(list, pageSize, pages, size, off0, at);
      var fault, data;
      fault, off, data := CopyOut(list, pages, size, pageSize, at, off0, amt, copies);
      IsSliceMeans(data, Joined(list), off0, off);
      assert off <= size ==> Contents()[off0..off] == Joined(list)[off0..off];
      r := if fault then Fault else Got(data);
    }
  }

  /** The number of the page that holds an offset. */
  function PageNumber(a: nat, pageSize: nat): nat
    requires pageSize > 0
  {
    a / pageSize
  }

  /** Walks the list to the given page, or to its end. */
  method Seek(list: seq<Page>, pgnum0: nat) returns (at: nat)
    ensures at == Min(pgnum0, |list|)
  {
    at := 0;
    var pgnum := pgnum0;
    while at < |list| && pgnum > 0
      invariant at + pgnum == pgnum0 && at <= |list|
    {
      at := at + 1;
      pgnum := pgnum - 1;
    }
  }

  /** Offset `off` is on page `at`. */
  predicate OnPage(list: seq<Page>, pageSize: nat, at: nat, off: nat) {
    at < |list| && Start(at, pageSize) <= off < Start(at, pageSize) + pageSize
  }

  /** The copying loop of a read, page by page. */
  method CopyOut(list: seq<Page>, ghost pages: nat, ghost size: nat, pageSize: nat, at0: nat, off0: nat, amt0: nat,
                 copies: nat -> bool)
    returns (fault: bool, off: nat, data: seq<Byte>)
    requires Padded(list, pages, size, pageSize) && off0 + amt0 <= size <= |Joined(list)|
    requires amt0 > 0 ==> OnPage(list, pageSize, at0, off0)
    ensures pageSize > 0
    ensures var pgoff := Offset(off0, pageSize); var n := Copies(pgoff, amt0, pageSize); var k := FirstBad(copies, n);
      && fault == (k < n) && off == off0 + Sent(pgoff, amt0, pageSize, k) && (!fault ==> off == off0 + amt0)
      && IsSlice(data, Joined(list), off0, off)
  {
    hide *;
    PaddedMeans(list, pages, size, pageSize);
    var at: nat, k: nat, amt: nat := at0, 0, amt0;
    off, data, fault := off0, [], false;
    ghost var pgoff0 := Offset(off0, pageSize);
    SendStart(copies, pgoff0, amt0, pageSize);
    SliceStart(Joined(list), off0);
    while amt > 0
      invariant off0 <= off && off + amt == off0 + amt0 && Sending(copies, pgoff0, amt0, pageSize, k, off - off0)
      invariant IsSlice(data, Joined(list), off0, off)
      invariant amt > 0 ==> OnPage(list, pageSize, at, off)
      decreases amt
    {
      SendStep(copies, off0, amt0, pageSize, k, off - off0);
      SendMeans(copies, pgoff0, amt0, pageSize, k, off - off0);
      var pgoff := Offset(off, pageSize);
      var chunk := Min(amt, pageSize - pgoff);
      if !copies(k) {
        fault := true;
        return;
      }
      OneChunk(list, pageSize, pages, size, at, off, amt);
      var piece := list[at][pgoff..pgoff + chunk];
      SliceStep(data, Joined(list), off0, off, off + chunk);
      at := at + 1;
      off := off + chunk;
      amt := amt - chunk;
      data := data + piece;
      k := k + 1;
    }
    SendEnd(copies, pgoff0, amt0, pageSize, k);
    SendMeans(copies, pgoff0, amt0, pageSize, k, off - off0);
  }

  lemma PaddedMeans(list: seq<Page>, pages: nat, size: nat, pageSize: nat)
    requires Padded(list, pages, size, pageSize)
    ensures pageSize > 0 && AllOf(list, pageSize)
  {
  }

  /** One chunk of a read: the rest of a page, or of the bytes asked for. If some are
      left, they start on the next page. */
  lemma OneChunk(list: seq<Page>, pageSize: nat, pages: nat, size: nat, at: nat, off: nat, amt: nat)
    requires Padded(list, pages, size, pageSize) && OnPage(list, pageSize, at, off)
    requires 0 < amt && off + amt <= size
    ensures var pgoff := Offset(off, pageSize); var chunk := Min(amt, pageSize - pgoff);
      && chunk > 0 && at < |list| && pgoff + chunk <= |list[at]| && off + chunk <= |Joined(list)|
      && Joined(list)[off..off + chunk] == list[at][pgoff..pgoff + chunk]
      && (amt > chunk ==> OnPage(list, pageSize, at + 1, off + chunk))
  {
    var pgoff := Offset(off, pageSize);
    InPage(at, pageSize, off);
    PageSlice(list, pageSize, at, pgoff, Min(amt, pageSize - pgoff));
    NextPage(list, pageSize, pages, size, at);
    hide Joined;
    hide AllOf;
    hide CeilDiv;
    hide Offset;
    hide Start;
  }

  /** The seek stops at the page the offset is in. */
  lemma StartPage(list: seq<Page>, pageSize: nat, pages: nat, size: nat, off: nat, at: nat)
    requires Padded(list, pages, size, pageSize) && off <= size && at == Min(PageNumber(off, pageSize), |list|)
    ensures off < size ==> OnPage(list, pageSize, at, off)
  {
    DivBounds(off, pageSize);
    var n := CeilDiv(size, pageSize);
    CeilDivIs(size, pageSize, n);
    if off < size && off / pageSize >= n {
      MulOrder(n, off / pageSize, pageSize);
    }
  }

  lemma InPage(at: nat, pageSize: nat, off: nat)
    requires pageSize > 0 && Start(at, pageSize) <= off < Start(at, pageSize) + pageSize
    ensures off == Start(at, pageSize) + Offset(off, pageSize)
  {
    ModIs(at, pageSize, off - at * pageSize);
  }

  /** Past the end of a page the next one starts. */
  lemma NextPage(list: seq<Page>, pageSize: nat, pages: nat, size: nat, at: nat)
    requires Padded(list, pages, size, pageSize) && at < |list|
    ensures Start(at + 1, pageSize) == Start(at, pageSize) + pageSize
    ensures Start(at + 1, pageSize) < size ==> at + 1 < |list|
  {
    var n := CeilDiv(size, pageSize);
    CeilDivIs(size, pageSize, n);
    assert (at + 1) * pageSize == at * pageSize + pageSize;
    if at + 1 >= |list| {
      MulOrder(n, at + 1, pageSize);
    }
  }

  /** Part of a page is part of the pages laid end to end. */
  lemma PageSlice(list: seq<Page>, pageSize: nat, at: nat, pgoff: nat, chunk: nat)
    requires AllOf(list, pageSize) && at < |list| && pgoff + chunk <= pageSize
    ensures |list[at]| == pageSize
    ensures var lo := Start(at, pageSize) + pgoff;
      lo + chunk <= |Joined(list)| && Joined(list)[lo..lo + chunk] == list[at][pgoff..pgoff + chunk]
  {
    JoinedPage(list, pageSize, at);
    var lo := Start(at, pageSize);
    assert (at + 1) * pageSize == lo + pageSize;
    SliceOfSlice(Joined(list), lo, lo + pageSize, pgoff, pgoff + chunk);
  }

  lemma SliceOfSlice(s: seq<Byte>, lo: nat, hi: nat, from: nat, to: nat)
    requires lo <= hi <= |s| && from <= to <= hi - lo
    ensures s[lo..hi][from..to] == s[lo + from..lo + to]
  {
    var a, b := s[lo..hi][from..to], s[lo + from..lo + to];
    forall i | 0 <= i < to - from ensures a[i] == b[i] {
      assert a[i] == s[lo..hi][from + i] == s[lo + from + i];
    }
  }

  // ----- the offline reader

  datatype Recovery = Recovered(data: seq<Byte>) | Inconsistent

  /** Recovers the log from the pages, page count and size found in a dump. */
  method Recover(list: seq<Page>, pageCount: nat, size0: nat, pageSize: nat) returns (r: Recovery)
    requires pageSize > 0 && AllOf(list, pageSize)
    ensures r.Recovered? <==> |list| == pageCount == CeilDiv(size0, pageSize)
    ensures r.Recovered? ==> size0 <= |Joined(list)| && r.data == Joined(list)[..size0]
  {
    if |list| != pageCount || pageCount != CeilDiv(size0, pageSize) {
      return Inconsistent;
    }
    var data, size, i := [], size0, 0;
    JoinedLength(list, pageSize);
    CeilDivIs(size0, pageSize, |list|);
    assert list[..0] == [];
    while i < |list|
      invariant 0 <= i <= |list|
      invariant if i < |list| then data == Joined(list[..i]) && |data| + size == size0
                else size0 <= |Joined(list)| && data == Joined(list)[..size0]
    {
      RecoverStep(list, pageSize, size0, i, size);
      var chunk := Min(pageSize, size);
      data := data + list[i][..chunk];
      size := size - chunk;
      i := i + 1;
    }
    assert list[..|list|] == list;
    r := Recovered(data);
  }

  /** Each page but the last is taken whole. */
  lemma RecoverStep(list: seq<Page>, pageSize: nat, size0: nat, i: nat, size: nat)
    requires pageSize > 0 && AllOf(list, pageSize) && i < |list|
    requires (|list| - 1) * pageSize < size0 <= |list| * pageSize
    requires |Joined(list[..i])| + size == size0
    ensures |list[i]| == pageSize
    ensures i + 1 < |list| ==> size > pageSize && Joined(list[..i + 1]) == Joined(list[..i]) + list[i]
    ensures i + 1 == |list| ==> size <= pageSize && Joined(list) == Joined(list[..i]) + list[i]
  {
    JoinedLength(list[..i], pageSize);
    assert list[..i + 1][..i] == list[..i];
    assert (i + 1) * pageSize == i * pageSize + pageSize;
    if i + 1 < |list| {
      MulOrder(i + 1, |list| - 1, pageSize);
    }
  }

  lemma CeilSplit(size: nat, pageSize: nat)
    requires pageSize > 0
    ensures var q, used := size / pageSize, Offset(size, pageSize);
      size == q * pageSize + used && CeilDiv(size, pageSize) == if used == 0 then q else q + 1
  {
    var q := size / pageSize;
    DivBounds(size, pageSize);
    assert (q + 1) * pageSize == q * pageSize + pageSize;
    if q > 0 {
      assert (q - 1) * pageSize == q * pageSize - pageSize;
    }
    CeilDivIs(size, pageSize, if Offset(size, pageSize) == 0 then q else q + 1);
  }

  /** Filling up the last page, or starting a new one, keeps the page count right. */
  lemma PagesGrow(size: nat, chunk: nat, pageSize: nat, pgoff: nat)
    requires pageSize > 0 && pgoff == Offset(size, pageSize) && 0 < chunk <= pageSize - pgoff
    ensures CeilDiv(size + chunk, pageSize) == CeilDiv(size, pageSize) + if pgoff == 0 then 1 else 0
  {
    var q := size / pageSize;
    CeilSplit(size, pageSize);
    assert (q + 1) * pageSize == q * pageSize + pageSize;
    CeilDivIs(size + chunk, pageSize, q + 1);
  }

  lemma LastPage(list: seq<Page>, pageSize: nat)
    requires list != [] && AllOf(list, pageSize)
    ensures |list[|list| - 1]| == pageSize
  {
  }

  lemma StaysFull(list: seq<Page>, pageSize: nat, at: nat, piece: seq<Byte>)
    requires list != [] && AllOf(list, pageSize) && at + |piece| <= |list[|list| - 1]|
    ensures AllOf(list[|list| - 1 := Overwrite(list[|list| - 1], at, piece)], pageSize)
  {
  }

  /** Memory nobody has initialised: callers know its length only. */
  method Garbage(n: nat) returns (pg: Page)
    ensures |pg| == n
  {
    pg := seq(n, (_: nat) => 0);
  }

  lemma JoinedPush(list: seq<Page>, pg: Page)
    ensures Joined(list + [pg]) == Joined(list) + pg
  {
    assert (list + [pg])[..|list|] == list;
  }

  /** Writing into the last page right after the bytes in use appends to them. */
  lemma SpliceJoined(list: seq<Page>, at: nat, piece: seq<Byte>)
    requires list != [] && at + |piece| <= |list[|list| - 1]|
    ensures var n := |list| - 1; var size := |Joined(list[..n])| + at;
      var list' := list[n := Overwrite(list[n], at, piece)];
      && size + |piece| <= |Joined(list')| == |Joined(list)|
      && Joined(list')[..size] == Joined(list)[..size]
      && Joined(list')[..size + |piece|] == Joined(list)[..size] + piece
  {
    var n := |list| - 1;
    var list' := list[n := Overwrite(list[n], at, piece)];
    assert list'[..n] == list[..n];
  }
}
