/** Whole runs of the crashstash: whatever is done to the file, in whatever chunks, it
    behaves like one sequence of bytes, and the offline reader recovers just that, until
    a write fails on a new page. */
module CrashstashRuns {
  import opened Bytes
  import opened Crashstash

  /** `copies` tells which copies to or from the caller's memory succeed. */
  datatype Event =
    | Open(mode: Mode)
    | Write(data: seq<Byte>, copies: nat -> bool)
    | Read(room: nat, copies: nat -> bool)
    | Release

  /** The file while someone holds it open. */
  datatype Holder = Nobody | Holder(mode: Mode, pos: nat)

  /** The log as its users see it: the bytes written, and the pages left behind by writes
      that failed. */
  datatype Log = Log(holder: Holder, bytes: seq<Byte>, stray: nat)

  function Next(a: Log, e: Event, pageSize: nat): (Log, Reply)
    requires pageSize > 0
  {
    match e
    case Open(mode) =>
      if a.holder.Holder? then (a, Busy)
      else if mode == ReadWrite then (a, Invalid)
      else if mode == WriteOnly then (Log(Holder(mode, 0), [], 0), Opened)
      else (a.(holder := Holder(mode, 0)), Opened)
    case Write(data, copies) =>
      if !a.holder.Holder? || a.holder.mode != WriteOnly then (a, NotOpen)
      else if |a.bytes| >= MAXSIZE then (a, NoSpace)
      else
        var amt, pgoff := Min(|data|, MAXSIZE - |a.bytes|), Offset(|a.bytes|, pageSize);
        var n := Copies(pgoff, amt, pageSize);
        var k := FirstBad(copies, n);
        var sent := Sent(pgoff, amt, pageSize, k);
        (Log(Holder(WriteOnly, a.holder.pos + sent), a.bytes + data[..sent],
             a.stray + if k < n && (k > 0 || pgoff == 0) then 1 else 0),
         if k < n then Fault else Wrote(amt))
    case Read(room, copies) =>
      if !a.holder.Holder? || a.holder.mode != ReadOnly || a.holder.pos > |a.bytes| then (a, NotOpen)
      else
        var pos := a.holder.pos;
        var amt, pgoff := Min(room, |a.bytes| - pos), Offset(pos, pageSize);
        var n := Copies(pgoff, amt, pageSize);
        var k := FirstBad(copies, n);
        (a.(holder := Holder(ReadOnly, pos + Sent(pgoff, amt, pageSize, k))),
         if k < n then Fault else Got(a.bytes[pos..pos + amt]))
    case Release =>
      if a.holder.Holder? then (a.(holder := Nobody), Closed) else (a, NotOpen)
  }

  function After(a: Log, events: seq<Event>, pageSize: nat): Log
    requires pageSize > 0
  {
    if events == [] then a
    else Next(After(a, events[..|events| - 1], pageSize), events[|events| - 1], pageSize).0
  }

  const Fresh := Log(Nobody, [], 0)

  /** A reader is somewhere in the log; a writer is at its end. */
  ghost predicate Sane(a: Log) {
    && |a.bytes| <= MAXSIZE
    && (a.holder.Holder? ==>
          && a.holder.mode != ReadWrite && a.holder.pos <= |a.bytes|
          && (a.holder.mode == WriteOnly ==> a.holder.pos == |a.bytes|))
  }

  lemma NextSane(a: Log, e: Event, pageSize: nat)
    requires pageSize > 0 && Sane(a)
    ensures Sane(Next(a, e, pageSize).0)
  {
    hide Copies;
    hide Sent;
    hide FirstBad;
    hide Offset;
  }

  lemma {:induction false} AlwaysSane(a: Log, events: seq<Event>, pageSize: nat)
    requires pageSize > 0 && Sane(a)
    ensures Sane(After(a, events, pageSize))
  {
    hide Next;
    hide Sane;
    if events != [] {
      var n := |events| - 1;
      AlwaysSane(a, events[..n], pageSize);
      NextSane(After(a, events[..n], pageSize), events[n], pageSize);
    }
  }

  // ----- when a page is left behind

  /** The write fails on a new page: its first copy at a page boundary, or a later one. */
  predicate FailsOnNewPage(a: Log, e: Event, pageSize: nat)
    requires pageSize > 0
  {
    && e.Write? && a.holder.Holder? && a.holder.mode == WriteOnly && |a.bytes| < MAXSIZE
    && var amt, pgoff := Min(|e.data|, MAXSIZE - |a.bytes|), Offset(|a.bytes|, pageSize);
    var n := Copies(pgoff, amt, pageSize);
    var k := FirstBad(e.copies, n);
    k < n && (k > 0 || pgoff == 0)
  }

  /** The file is opened for writing, which empties it. */
  predicate Empties(a: Log, e: Event) {
    e.Open? && e.mode == WriteOnly && a.holder.Nobody?
  }

  lemma StrayNext(a: Log, e: Event, pageSize: nat)
    requires pageSize > 0
    ensures Next(a, e, pageSize).0.stray ==
      if Empties(a, e) then 0 else a.stray + if FailsOnNewPage(a, e, pageSize) then 1 else 0
  {
    hide Copies;
    hide Sent;
    hide FirstBad;
    hide Offset;
  }

  /** Event `j` left a page behind that is still there after the last event. */
  ghost predicate LeftAt(events: seq<Event>, j: nat, pageSize: nat)
    requires pageSize > 0 && j < |events|
  {
    && FailsOnNewPage(After(Fresh, events[..j], pageSize), events[j], pageSize)
    && forall k :: j < k < |events| ==> !Empties(After(Fresh, events[..k], pageSize), events[k])
  }

  /** A write has failed on a new page since the file was last emptied. */
  ghost predicate PageLeft(events: seq<Event>, pageSize: nat)
    requires pageSize > 0
  {
    exists j :: 0 <= j < |events| && LeftAt(events, j, pageSize)
  }

  /** There are pages left behind if and only if a write has failed on a new page since
      the file was last emptied. */
  lemma {:induction false} StrayWhen(events: seq<Event>, pageSize: nat)
    requires pageSize > 0
    ensures After(Fresh, events, pageSize).stray > 0 <==> PageLeft(events, pageSize)
  {
    hide Next;
    hide FailsOnNewPage;
    hide Empties;
    if events != [] {
      var n := |events| - 1;
      var front := events[..n];
      var a := After(Fresh, front, pageSize);
      StrayWhen(front, pageSize);
      StrayNext(a, events[n], pageSize);
      forall j | 0 <= j < n
        ensures LeftAt(events, j, pageSize) <==> LeftAt(front, j, pageSize) && !Empties(a, events[n])
      {
        LeftFront(events, j, pageSize);
      }
      assert LeftAt(events, n, pageSize) <==> FailsOnNewPage(a, events[n], pageSize);
      NotBoth(a, events[n], pageSize);
      if FailsOnNewPage(a, events[n], pageSize) {
        assert LeftAt(events, n, pageSize);
      }
      if a.stray > 0 && !Empties(a, events[n]) {
        var j :| 0 <= j < |front| && LeftAt(front, j, pageSize);
        assert LeftAt(events, j, pageSize);
      }
    }
  }

  lemma NotBoth(a: Log, e: Event, pageSize: nat)
    requires pageSize > 0
    ensures !(FailsOnNewPage(a, e, pageSize) && Empties(a, e))
  {
  }

  lemma LeftFront(events: seq<Event>, j: nat, pageSize: nat)
    requires pageSize > 0 && j + 1 < |events|
    ensures var n := |events| - 1; var front := events[..n];
      LeftAt(events, j, pageSize) <==>
      LeftAt(front, j, pageSize) && !Empties(After(Fresh, front, pageSize), events[n])
  {
    hide After;
    hide FailsOnNewPage;
    hide Empties;
    var n := |events| - 1;
    var front := events[..n];
    assert forall k :: 0 <= k <= n ==> front[..k] == events[..k];
    assert forall k :: 0 <= k < n ==> front[k] == events[k];
  }

  // ----- a run

  /** What is replied to event `i`. With pages left behind a reader gets as many bytes as
      it should, but not the right ones. */
  ghost predicate Answered(events: seq<Event>, pageSize: nat, i: nat, r: Reply)
    requires pageSize > 0 && i < |events|
  {
    var a := After(Fresh, events[..i], pageSize);
    Replied(a, Next(a, events[i], pageSize).1, r)
  }

  ghost predicate Replied(a: Log, right: Reply, r: Reply) {
    if a.stray == 0 || !right.Got? then r == right else r.Got? && |r.data| == |right.data|
  }

  /** The dump taken after event `i` shows the log, or is refused if pages were left
      behind. */
  ghost predicate Dumped(events: seq<Event>, pageSize: nat, i: nat, d: Recovery)
    requires pageSize > 0 && i < |events|
  {
    Shows(After(Fresh, events[..i + 1], pageSize), d)
  }

  ghost predicate Shows(a: Log, d: Recovery) {
    d == if a.stray == 0 then Recovered(a.bytes) else Inconsistent
  }

  lemma OneMore(events: seq<Event>, pageSize: nat, i: nat)
    requires pageSize > 0 && i < |events|
    ensures After(Fresh, events[..i + 1], pageSize) == Next(After(Fresh, events[..i], pageSize), events[i], pageSize).0
    ensures Sane(After(Fresh, events[..i], pageSize))
  {
    assert events[..i + 1][..i] == events[..i];
    AlwaysSane(Fresh, events[..i], pageSize);
    hide Next;
  }

  /** The kernel's side of a run: one file, handed to at most one holder, with an offset
      of its own. Any copy may fail. After every call the dump is read as well. Every
      reply and every dump is what the log says. */
  method Run(events: seq<Event>, pageSize: nat) returns (replies: seq<Reply>, dumps: seq<Recovery>)
    requires pageSize > 0
    ensures |replies| == |events| && |dumps| == |events|
    ensures forall i :: 0 <= i < |events| ==>
      Answered(events, pageSize, i, replies[i]) && Dumped(events, pageSize, i, dumps[i])
  {
    hide *;
    var stash := new Stash(pageSize);
    var holder := Nobody;
    replies, dumps := [], [];
    var i := 0;
    assert events[..0] == [];
    FollowsFresh(stash);
    while i < |events|
      invariant 0 <= i <= |events| && |replies| == i && |dumps| == i && stash.pageSize == pageSize
      invariant fresh(stash) && Follows(stash, holder, After(Fresh, events[..i], pageSize))
      invariant forall k :: 0 <= k < i ==>
        Answered(events, pageSize, k, replies[k]) && Dumped(events, pageSize, k, dumps[k])
    {
      OneMore(events, pageSize, i);
      var r, d;
      r, d, holder := Turn(stash, holder, events[i], After(Fresh, events[..i], pageSize));
      assert Answered(events, pageSize, i, r) by { IsAnswered(events, pageSize, i, r); }
      assert Dumped(events, pageSize, i, d) by { IsDumped(events, pageSize, i, d); }
      replies := replies + [r];
      dumps := dumps + [d];
      i := i + 1;
    }
  }

  lemma FollowsFresh(stash: Stash)
    requires stash.Valid() && stash.count == 0 && stash.size == 0 && stash.Contents() == []
    ensures Follows(stash, Nobody, After(Fresh, [], stash.pageSize))
  {
  }

  lemma IsAnswered(events: seq<Event>, pageSize: nat, i: nat, r: Reply)
    requires pageSize > 0 && i < |events|
    requires var a := After(Fresh, events[..i], pageSize); Replied(a, Next(a, events[i], pageSize).1, r)
    ensures Answered(events, pageSize, i, r)
  {
  }

  lemma IsDumped(events: seq<Event>, pageSize: nat, i: nat, d: Recovery)
    requires pageSize > 0 && i < |events| && Shows(After(Fresh, events[..i + 1], pageSize), d)
    ensures Dumped(events, pageSize, i, d)
  {
  }

  /** The dump after event `i` is refused if and only if a write has failed on a new page
      since the file was last emptied. */
  lemma RefusedWhen(events: seq<Event>, pageSize: nat, i: nat, d: Recovery)
    requires pageSize > 0 && i < |events| && Dumped(events, pageSize, i, d)
    ensures d == Inconsistent <==> PageLeft(events[..i + 1], pageSize)
  {
    StrayWhen(events[..i + 1], pageSize);
    hide After;
    hide PageLeft;
  }

  /** One call, and the dump after it. */
  method Turn(stash: Stash, holder0: Holder, e: Event, ghost a: Log) returns (r: Reply, d: Recovery, holder: Holder)
    requires Follows(stash, holder0, a) && Sane(a)
    modifies stash
    ensures stash.pageSize > 0 && Follows(stash, holder, Next(a, e, stash.pageSize).0)
    ensures Replied(a, Next(a, e, stash.pageSize).1, r) && Shows(Next(a, e, stash.pageSize).0, d)
  {
    hide *;
    r, holder := Serve(stash, holder0, e, a);
    FollowsMeans(stash, holder, Next(a, e, stash.pageSize).0);
    stash.Sized();
    stash.Told();
    d := Recover(stash.list, stash.pages, stash.size, stash.pageSize);
    ShowsIf(stash, holder, Next(a, e, stash.pageSize).0, d);
  }

  /** The stash and the file's state are the log's. */
  ghost predicate Follows(stash: Stash, holder: Holder, a: Log)
    reads stash
  {
    && stash.Loose() && stash.Stray() == a.stray && stash.size == |a.bytes| && holder == a.holder
    && (a.stray == 0 ==> stash.Contents() == a.bytes)
    && stash.count == (if holder.Holder? then 1 else 0)
  }

  lemma FollowsMeans(stash: Stash, holder: Holder, a: Log)
    requires Follows(stash, holder, a)
    ensures stash.Loose() && stash.pageSize > 0
  {
  }

  lemma ShowsIf(stash: Stash, holder: Holder, a: Log, d: Recovery)
    requires Follows(stash, holder, a) && |stash.Contents()| == stash.size && stash.size <= |Joined(stash.list)|
    requires d.Recovered? <==> |stash.list| == stash.pages == CeilDiv(stash.size, stash.pageSize)
    requires d.Recovered? ==> d.data == Joined(stash.list)[..stash.size]
    ensures Shows(a, d)
  {
    hide CeilDiv;
    hide Joined;
    hide AllOf;
  }

  /** One call, as the kernel dispatches it. */
  method Serve(stash: Stash, holder0: Holder, e: Event, ghost a: Log) returns (r: Reply, holder: Holder)
    requires Follows(stash, holder0, a) && Sane(a)
    modifies stash
    ensures stash.pageSize > 0 && Follows(stash, holder, Next(a, e, stash.pageSize).0)
    ensures Replied(a, Next(a, e, stash.pageSize).1, r)
  {
    hide Copies;
    hide Sent;
    hide FirstBad;
    hide Offset;
    hide Joined;
    hide AllOf;
    hide CeilDiv;
    holder := holder0;
    match e {
      case Open(mode) =>
        r := stash.Open(mode);
        if r == Opened {
          holder := Holder(mode, 0);
        }
      case Write(data, copies) =>
        if !holder.Holder? || holder.mode != WriteOnly {
          r := NotOpen;
        } else {
          var off;
          r, off := stash.Write(data, holder.pos, copies);
          holder := Holder(WriteOnly, off);
        }
      case Read(room, copies) =>
        if !holder.Holder? || holder.mode != ReadOnly {
          r := NotOpen;
        } else {
          var off;
          r, off := stash.Read(room, holder.pos, copies);
          holder := Holder(ReadOnly, off);
        }
      case Release =>
        if !holder.Holder? {
          r := NotOpen;
        } else {
          stash.Release();
          r, holder := Closed, Nobody;
        }
    }
  }

  // ----- what the log is for

  /** All copies succeed. */
  const SOUND: nat -> bool := (_: nat) => true

  lemma {:induction false} SoundAll(n: nat)
    ensures FirstBad(SOUND, n) == n
  {
    if n > 0 {
      SoundAll(n - 1);
    }
  }

  /** Then all bytes are moved. */
  lemma SoundMoves(at: nat, amt: nat, pageSize: nat)
    requires pageSize > 0
    ensures var pgoff := Offset(at, pageSize); var n := Copies(pgoff, amt, pageSize);
      FirstBad(SOUND, n) == n && Sent(pgoff, amt, pageSize, n) == amt
  {
    var pgoff := Offset(at, pageSize);
    SoundAll(Copies(pgoff, amt, pageSize));
    SentDone(pgoff, amt, pageSize, Copies(pgoff, amt, pageSize));
  }

  function Flat(pieces: seq<seq<Byte>>): seq<Byte> {
    if pieces == [] then [] else Flat(pieces[..|pieces| - 1]) + pieces[|pieces| - 1]
  }

  function Writes(pieces: seq<seq<Byte>>): (r: seq<Event>)
    ensures |r| == |pieces|
  {
    seq(|pieces|, (i: nat) requires i < |pieces| => Write(pieces[i], SOUND))
  }

  function Capped(s: seq<Byte>): seq<Byte> {
    s[..Min(|s|, MAXSIZE)]
  }

  /** A writer's pieces, however cut, end up as one, up to capacity. */
  lemma {:induction false} WritesAppend(pieces: seq<seq<Byte>>, a: Log, pageSize: nat)
    requires pageSize > 0 && a == Log(Holder(WriteOnly, 0), [], 0)
    ensures var b := Capped(Flat(pieces));
      After(a, Writes(pieces), pageSize) == Log(Holder(WriteOnly, |b|), b, 0)
  {
    if pieces != [] {
      var n := |pieces| - 1;
      assert Writes(pieces)[..n] == Writes(pieces[..n]);
      WritesAppend(pieces[..n], a, pageSize);
      WriteOnce(Flat(pieces[..n]), pieces[n], pageSize);
      hide Next;
      hide Capped;
    }
  }

  /** Writing once more to a log that is capped. */
  lemma WriteOnce(s: seq<Byte>, piece: seq<Byte>, pageSize: nat)
    requires pageSize > 0
    ensures var b, c := Capped(s), Capped(s + piece);
      Next(Log(Holder(WriteOnly, |b|), b, 0), Write(piece, SOUND), pageSize).0 == Log(Holder(WriteOnly, |c|), c, 0)
  {
    if |s| < MAXSIZE {
      var amt := Min(|piece|, MAXSIZE - |s|);
      assert s + piece[..amt] == Capped(s + piece);
      SoundMoves(|s|, amt, pageSize);
    }
    hide Copies;
    hide Sent;
    hide FirstBad;
    hide Offset;
  }

  function Reads(rooms: seq<nat>): (r: seq<Event>)
    ensures |r| == |rooms|
  {
    seq(|rooms|, (i: nat) requires i < |rooms| => Read(rooms[i], SOUND))
  }

  /** What a reader has got after `rooms`, all replies put together. */
  function Taken(a: Log, rooms: seq<nat>, pageSize: nat): seq<Byte>
    requires pageSize > 0
  {
    if rooms == [] then []
    else
      var n := |rooms| - 1;
      Taken(a, rooms[..n], pageSize) +
      match Next(After(a, Reads(rooms[..n]), pageSize), Read(rooms[n], SOUND), pageSize).1
      case Got(data) => data
      case _ => []
  }

  function Sum(rooms: seq<nat>): nat {
    if rooms == [] then 0 else Sum(rooms[..|rooms| - 1]) + rooms[|rooms| - 1]
  }

  /** A reader's calls, whatever their sizes, return the log from its start, gap-free,
      and leave it as it is. */
  lemma {:induction false} ReadsCover(rooms: seq<nat>, bytes: seq<Byte>, stray: nat, pageSize: nat)
    requires pageSize > 0
    ensures var a := Log(Holder(ReadOnly, 0), bytes, stray);
      && Taken(a, rooms, pageSize) == bytes[..Min(Sum(rooms), |bytes|)]
      && After(a, Reads(rooms), pageSize) == Log(Holder(ReadOnly, Min(Sum(rooms), |bytes|)), bytes, stray)
  {
    if rooms != [] {
      var n := |rooms| - 1;
      ReadsCover(rooms[..n], bytes, stray, pageSize);
      assert Reads(rooms)[..n] == Reads(rooms[..n]);
      ReadOnce(bytes, stray, Sum(rooms[..n]), rooms[n], pageSize);
      hide Next;
    }
  }

  lemma ReadOnce(bytes: seq<Byte>, stray: nat, before: nat, room: nat, pageSize: nat)
    requires pageSize > 0
    ensures var p := Min(before, |bytes|); var q := Min(before + room, |bytes|);
      && p <= q && bytes[..q] == bytes[..p] + bytes[p..q]
      && Next(Log(Holder(ReadOnly, p), bytes, stray), Read(room, SOUND), pageSize)
         == (Log(Holder(ReadOnly, q), bytes, stray), Got(bytes[p..q]))
  {
    var p := Min(before, |bytes|);
    SoundMoves(p, Min(room, |bytes| - p), pageSize);
    hide Copies;
    hide Sent;
    hide FirstBad;
    hide Offset;
  }

  lemma {:induction false} AfterAppend(a: Log, xs: seq<Event>, ys: seq<Event>, pageSize: nat)
    requires pageSize > 0
    ensures After(a, xs + ys, pageSize) == After(After(a, xs, pageSize), ys, pageSize)
  {
    hide Next;
    if ys == [] {
      assert xs + ys == xs;
    } else {
      var n := |ys| - 1;
      assert (xs + ys)[..|xs| + n] == xs + ys[..n];
      AfterAppend(a, xs, ys[..n], pageSize);
    }
  }

  /** Write a file, close it, open it and read it, all copies succeeding: one gets back
      what was written, up to capacity, in however many pieces either is done, from any
      state in which nobody holds the file, and no page is left behind. */
  lemma WriteThenRead(a: Log, pieces: seq<seq<Byte>>, rooms: seq<nat>, pageSize: nat)
    requires pageSize > 0 && a.holder.Nobody?
    requires Sum(rooms) >= |Flat(pieces)|
    ensures var b := After(a, [Open(WriteOnly)] + Writes(pieces) + [Release, Open(ReadOnly)], pageSize);
      Taken(b, rooms, pageSize) == Capped(Flat(pieces)) && b.stray == 0
  {
    hide *;
    OpensAndCloses(a, pageSize);
    var writing := Log(Holder(WriteOnly, 0), [], 0);
    var xs := [Open(WriteOnly)] + Writes(pieces);
    OneEvent(a, Open(WriteOnly), pageSize);
    AfterAppend(a, [Open(WriteOnly)], Writes(pieces), pageSize);
    WritesAppend(pieces, writing, pageSize);
    var full := After(a, xs, pageSize);
    AfterAppend(a, xs, [Release, Open(ReadOnly)], pageSize);
    assert [Release, Open(ReadOnly)] == [Release] + [Open(ReadOnly)];
    AfterAppend(full, [Release], [Open(ReadOnly)], pageSize);
    OneEvent(full, Release, pageSize);
    OpensAndCloses(full, pageSize);
    var closed := Log(Nobody, full.bytes, full.stray);
    OpensAndCloses(closed, pageSize);
    OneEvent(closed, Open(ReadOnly), pageSize);
    ReadsCover(rooms, full.bytes, 0, pageSize);
    CappedAll(Flat(pieces), Sum(rooms));
  }

  lemma OpensAndCloses(a: Log, pageSize: nat)
    requires pageSize > 0
    ensures a.holder.Nobody? ==> Next(a, Open(WriteOnly), pageSize).0 == Log(Holder(WriteOnly, 0), [], 0)
    ensures a.holder.Nobody? ==> Next(a, Open(ReadOnly), pageSize).0 == Log(Holder(ReadOnly, 0), a.bytes, a.stray)
    ensures a.holder.Holder? ==> Next(a, Release, pageSize).0 == Log(Nobody, a.bytes, a.stray)
  {
  }

  lemma CappedAll(s: seq<Byte>, room: nat)
    requires room >= |s|
    ensures var b := Capped(s); b[..Min(room, |b|)] == b
  {
  }

  lemma OneEvent(a: Log, e: Event, pageSize: nat)
    requires pageSize > 0
    ensures After(a, [e], pageSize) == Next(a, e, pageSize).0
  {
    hide Next;
    assert [e][..0] == [];
  }

  /** The limit is ten mebibytes: so much of the data is taken at once, and when it is
      reached no more is. */
  lemma LimitIs(data: seq<Byte>, more: seq<Byte>, pageSize: nat)
    requires pageSize > 0
    ensures var kept := if |data| <= 10485760 then data else data[..10485760];
      var b := Next(Log(Holder(WriteOnly, 0), [], 0), Write(data, SOUND), pageSize);
      && b == (Log(Holder(WriteOnly, |kept|), kept, 0), Wrote(|kept|))
      && (|data| >= 10485760 ==> Next(b.0, Write(more, SOUND), pageSize) == (b.0, NoSpace))
  {
    var amt := Min(|data|, MAXSIZE);
    SoundMoves(0, amt, pageSize);
    assert [] + data[..amt] == if |data| <= 10485760 then data else data[..10485760];
    hide Copies;
    hide Sent;
    hide FirstBad;
    hide Offset;
  }

  // ----- a failed copy

  /** A copy that fails right after a page was added leaves the page count wrong, and
      the offline reader gives up. */
  method FaultBreaksDump(pageSize: nat, data: seq<Byte>) returns (r: Recovery)
    requires pageSize > 0 && data != []
    ensures r == Inconsistent
  {
    var stash := new Stash(pageSize);
    var reply := stash.Open(WriteOnly);
    var never := (_: nat) => false;
    NoneMade(never, pageSize, Min(|data|, MAXSIZE));
    var written, off := stash.Write(data, 0, never);
    r := Recover(stash.list, stash.pages, stash.size, pageSize);
  }

  lemma NoneMade(copies: nat -> bool, pageSize: nat, amt: nat)
    requires pageSize > 0 && amt > 0 && !copies(0)
    ensures Offset(0, pageSize) == 0 && Copies(0, amt, pageSize) > 0
    ensures FirstBad(copies, Copies(0, amt, pageSize)) == 0
  {
    CeilDivIs(amt, pageSize, Copies(0, amt, pageSize));
    ModIs(0, pageSize, 0);
    FirstBadIs(copies, Copies(0, amt, pageSize), 0);
  }

  /** With a page too many, what is written next is not what is read back: the bytes
      land past that page, and the reader gets what the page was left with. */
  method WriteAndReadBack(stash: Stash, data: seq<Byte>) returns (wrote: Reply, got: Reply)
    requires stash.Loose() && stash.Stray() > 0
    requires stash.size < MAXSIZE && stash.size + |data| <= MAXSIZE && |data| <= stash.pageSize
    modifies stash
    ensures stash.Loose() && wrote == Wrote(|data|)
    ensures old(stash.Raw()) + data <= stash.Raw()
    ensures old(stash.size) + |data| <= |old(stash.Raw())|
    ensures got == Got(old(stash.Raw())[old(stash.size)..old(stash.size) + |data|])
  {
    var always := (_: nat) => true;
    var at := stash.size;
    stash.Sized();
    MulOrder(1, stash.Stray(), stash.pageSize);
    var off;
    assert data[..|data|] == data;
    wrote, off := stash.Write(data, at, always);
    got, off := stash.Read(|data|, at, always);
  }
}
