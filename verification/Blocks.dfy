/** Splitting a stream at a separator while it is being read. */
module Blocks {
  import opened Bytes

  /** `sep` occurs in `s` at `i`. */
  predicate At(s: seq<Byte>, sep: seq<Byte>, i: nat) {
    i + |sep| <= |s| && s[i..i + |sep|] == sep
  }

  datatype Found = Nowhere | Index(i: nat)

  /** The lowest position at which `sep` occurs. */
  function Find(s: seq<Byte>, sep: seq<Byte>): (r: Found)
    ensures r == Nowhere ==> forall i: nat :: !At(s, sep, i)
    ensures r.Index? ==> At(s, sep, r.i) && forall i: nat :: i < r.i ==> !At(s, sep, i)
  {
    FindFrom(s, sep, 0)
  }

  function FindFrom(s: seq<Byte>, sep: seq<Byte>, k: nat): (r: Found)
    requires forall i: nat :: i < k ==> !At(s, sep, i)
    ensures r == Nowhere ==> forall i: nat :: !At(s, sep, i)
    ensures r.Index? ==> At(s, sep, r.i) && forall i: nat :: i < r.i ==> !At(s, sep, i)
    decreases |s| - k
  {
    if k + |sep| > |s| then Nowhere
    else if At(s, sep, k) then Index(k)
    else FindFrom(s, sep, k + 1)
  }

  // ----- splitting what is there

  datatype Split = Split(pieces: seq<seq<Byte>>, rest: seq<Byte>)

  /** The pieces that end in a separator, and what is left after the last one. */
  function Cut(s: seq<Byte>, sep: seq<Byte>): Split
    requires sep != []
    decreases |s|
  {
    match Find(s, sep)
    case Nowhere => Split([], s)
    case Index(i) =>
      var more := Cut(s[i + |sep|..], sep);
      Split([s[..i]] + more.pieces, more.rest)
  }

  /** What splitting the whole stream gives, minus an empty final piece. */
  function Blocks(s: seq<Byte>, sep: seq<Byte>): seq<seq<Byte>>
    requires sep != []
  {
    var c := Cut(s, sep);
    if c.rest == [] then c.pieces else c.pieces + [c.rest]
  }

  lemma AtPrefix(a: seq<Byte>, b: seq<Byte>, sep: seq<Byte>, j: nat)
    requires j + |sep| <= |a|
    ensures At(a + b, sep, j) <==> At(a, sep, j)
  {
    assert (a + b)[j..j + |sep|] == a[j..j + |sep|];
  }

  /** An occurrence found in what has been read so far is the first one of the whole. */
  lemma FindMore(a: seq<Byte>, b: seq<Byte>, sep: seq<Byte>)
    requires Find(a, sep).Index?
    ensures Find(a + b, sep) == Find(a, sep)
  {
    var i := Find(a, sep).i;
    AtPrefix(a, b, sep, i);
    forall j: nat | j < i ensures !At(a + b, sep, j) {
      AtPrefix(a, b, sep, j);
    }
    assert Find(a + b, sep).Index?;
  }

  /** Cutting can stop anywhere and go on with the rest. */
  lemma {:induction false} CutMore(a: seq<Byte>, b: seq<Byte>, sep: seq<Byte>)
    requires sep != []
    ensures var c := Cut(a, sep); var d := Cut(c.rest + b, sep);
      Cut(a + b, sep) == Split(c.pieces + d.pieces, d.rest)
    decreases |a|
  {
    hide Cut;
    hide Find;
    hide At;
    match Find(a, sep)
    case Nowhere =>
      CutNone(a, sep);
      var d := Cut(a + b, sep);
      assert [] + d.pieces == d.pieces;
    case Index(i) =>
      FindMore(a, b, sep);
      CutAt(a, sep, i);
      CutAt(a + b, sep, i);
      var tail := a[i + |sep|..];
      assert (a + b)[i + |sep|..] == tail + b && (a + b)[..i] == a[..i];
      CutMore(tail, b, sep);
      var c, d := Cut(tail, sep), Cut(Cut(tail, sep).rest + b, sep);
      assert [a[..i]] + (c.pieces + d.pieces) == ([a[..i]] + c.pieces) + d.pieces;
  }

  lemma CutNone(s: seq<Byte>, sep: seq<Byte>)
    requires sep != [] && Find(s, sep) == Nowhere
    ensures Cut(s, sep) == Split([], s)
  {
  }

  lemma CutEmpty(sep: seq<Byte>)
    requires sep != []
    ensures Cut([], sep) == Split([], [])
  {
  }

  lemma CutAt(s: seq<Byte>, sep: seq<Byte>, i: nat)
    requires sep != [] && Find(s, sep) == Index(i)
    ensures i + |sep| <= |s|
    ensures var more := Cut(s[i + |sep|..], sep);
      Cut(s, sep) == Split([s[..i]] + more.pieces, more.rest)
  {
  }

  // ----- what a split is

  function Rejoined(pieces: seq<seq<Byte>>, sep: seq<Byte>, rest: seq<Byte>): seq<Byte>
    decreases |pieces|
  {
    if pieces == [] then rest else pieces[0] + sep + Rejoined(pieces[1..], sep, rest)
  }

  /** In each piece, followed by its separator, the separator comes only at the end;
      in what is left it does not come at all. */
  ghost predicate Leftmost(pieces: seq<seq<Byte>>, sep: seq<Byte>, rest: seq<Byte>) {
    && Find(rest, sep) == Nowhere
    && forall k :: 0 <= k < |pieces| ==> Find(pieces[k] + sep, sep) == Index(|pieces[k]|)
  }

  /** The cut puts the stream back together and is leftmost. */
  lemma {:induction false} CutIsLeftmost(s: seq<Byte>, sep: seq<Byte>)
    requires sep != []
    ensures var c := Cut(s, sep);
      Rejoined(c.pieces, sep, c.rest) == s && Leftmost(c.pieces, sep, c.rest)
    decreases |s|
  {
    hide Cut;
    hide Find;
    hide At;
    match Find(s, sep)
    case Nowhere =>
      CutNone(s, sep);
    case Index(i) =>
      CutAt(s, sep, i);
      var tail := s[i + |sep|..];
      CutIsLeftmost(tail, sep);
      var c, d := Cut(s, sep), Cut(tail, sep);
      assert c.pieces[1..] == d.pieces;
      FindAt(s, sep, i);
      assert s == s[..i] + sep + tail;
      FirstPiece(s, sep, i);
      forall k | 0 <= k < |c.pieces| ensures Find(c.pieces[k] + sep, sep) == Index(|c.pieces[k]|) {
        assert k > 0 ==> c.pieces[k] == d.pieces[k - 1];
      }
  }

  lemma FindAt(s: seq<Byte>, sep: seq<Byte>, i: nat)
    requires Find(s, sep) == Index(i)
    ensures i + |sep| <= |s| && s[i..i + |sep|] == sep
  {
    assert At(s, sep, i);
  }

  lemma FirstPiece(s: seq<Byte>, sep: seq<Byte>, i: nat)
    requires Find(s, sep) == Index(i)
    ensures Find(s[..i] + sep, sep) == Index(i)
  {
    var p, tail := s[..i] + sep, s[i + |sep|..];
    assert s == p + tail;
    AtPrefix(p, tail, sep, i);
    forall j: nat | j < i ensures !At(p, sep, j) {
      AtPrefix(p, tail, sep, j);
    }
    assert Find(p, sep).Index?;
  }

  /** Nothing else does. */
  lemma {:induction false} LeftmostIsCut(pieces: seq<seq<Byte>>, sep: seq<Byte>, rest: seq<Byte>)
    requires sep != [] && Leftmost(pieces, sep, rest)
    ensures Cut(Rejoined(pieces, sep, rest), sep) == Split(pieces, rest)
    decreases |pieces|
  {
    if pieces != [] {
      var p, tail := pieces[0], Rejoined(pieces[1..], sep, rest);
      LeftmostIsCut(pieces[1..], sep, rest);
      FindMore(p + sep, tail, sep);
      var s := (p + sep) + tail;
      assert Rejoined(pieces, sep, rest) == s;
      assert s[..|p|] == p && s[|p| + |sep|..] == tail;
      assert [p] + pieces[1..] == pieces;
    }
  }

  // ----- the generator

  /** The bytes read up to the end of file, which an empty read announces. */
  function Stream(chunks: seq<seq<Byte>>): seq<Byte>
    decreases |chunks|
  {
    if chunks == [] || chunks[0] == [] then [] else chunks[0] + Stream(chunks[1..])
  }

  /** There is one leftmost split of a stream, and its blocks are the pieces and, unless
      it is empty, what is left. */
  lemma BlocksAre(s: seq<Byte>, sep: seq<Byte>)
    requires sep != []
    ensures exists pieces, rest :: Splits(s, pieces, sep, rest)
    ensures forall pieces, rest :: Splits(s, pieces, sep, rest) ==>
      Blocks(s, sep) == pieces + if rest == [] then [] else [rest]
  {
    var c := Cut(s, sep);
    CutIsLeftmost(s, sep);
    assert Splits(s, c.pieces, sep, c.rest);
    forall pieces, rest | Splits(s, pieces, sep, rest)
      ensures Blocks(s, sep) == pieces + if rest == [] then [] else [rest]
    {
      LeftmostIsCut(pieces, sep, rest);
    }
  }

  ghost predicate Splits(s: seq<Byte>, pieces: seq<seq<Byte>>, sep: seq<Byte>, rest: seq<Byte>) {
    Leftmost(pieces, sep, rest) && Rejoined(pieces, sep, rest) == s
  }

  /** Yields the blocks while reading. However the stream is cut into reads, they are
      those of the whole stream: the pieces of its leftmost split, and then what is left,
      if anything is. */
  method YieldBlocks(chunks: seq<seq<Byte>>, sep: seq<Byte>) returns (out: seq<seq<Byte>>)
    requires sep != []
    ensures out == Blocks(Stream(chunks), sep)
    ensures exists pieces, rest :: Splits(Stream(chunks), pieces, sep, rest)
    ensures forall pieces, rest :: Splits(Stream(chunks), pieces, sep, rest) ==>
      out == pieces + if rest == [] then [] else [rest]
  {
    hide *;
    CutEmpty(sep);
    var buf: seq<Byte> := [];
    out := [];
    ghost var all, seen := Stream(chunks), [];
    var n := 0;
    assert chunks[0..] == chunks;
    while true
      invariant 0 <= n <= |chunks|
      invariant seen + Stream(chunks[n..]) == all
      invariant Cut(seen, sep) == Split(out, buf)
      decreases |chunks| - n
    {
      var data := if n < |chunks| then chunks[n] else [];
      StreamStep(chunks, n, seen);
      if |data| == 0 {
        BlocksIs(all, sep);
        BlocksAre(all, sep);
        if buf != [] {
          out := out + [buf];
        }
        return;
      }
      CutMore(seen, data, sep);
      n := n + 1;
      seen := seen + data;
      buf := buf + data;
      out, buf := Drain(out, buf, sep);
    }
  }

  /** The next read, or the end of the stream. */
  lemma StreamStep(chunks: seq<seq<Byte>>, n: nat, seen: seq<Byte>)
    requires n <= |chunks|
    ensures seen + Stream(chunks[n..]) ==
      if n < |chunks| && chunks[n] != [] then (seen + chunks[n]) + Stream(chunks[n + 1..]) else seen
  {
    assert n < |chunks| ==> chunks[n..][1..] == chunks[n + 1..];
  }

  lemma BlocksIs(s: seq<Byte>, sep: seq<Byte>)
    requires sep != []
    ensures var c := Cut(s, sep); Blocks(s, sep) == if c.rest == [] then c.pieces else c.pieces + [c.rest]
  {
  }

  /** Yields and deletes every complete block in the buffer. */
  method Drain(out0: seq<seq<Byte>>, buf0: seq<Byte>, sep: seq<Byte>) returns (out: seq<seq<Byte>>, buf: seq<Byte>)
    requires sep != []
    ensures out == out0 + Cut(buf0, sep).pieces && buf == Cut(buf0, sep).rest
  {
    out, buf := out0, buf0;
    while true
      invariant out + Cut(buf, sep).pieces == out0 + Cut(buf0, sep).pieces
      invariant Cut(buf, sep).rest == Cut(buf0, sep).rest
      decreases |buf|
    {
      var ix := Find(buf, sep);
      if ix == Nowhere {
        return;
      }
      assert Cut(buf, sep).pieces == [buf[..ix.i]] + Cut(buf[ix.i + |sep|..], sep).pieces;
      out := out + [buf[..ix.i]];
      buf := buf[ix.i + |sep|..];
    }
  }

  // ----- streams spelled out

  /** Nothing can be told apart in less than a separator. */
  lemma TooShort(s: seq<Byte>, sep: seq<Byte>)
    requires |s| < |sep|
    ensures Find(s, sep) == Nowhere
  {
  }

  /** "abc" without a separator is one block. */
  method LastBlockKept() returns (out: seq<seq<Byte>>)
    ensures out == [[97, 98, 99]]
  {
    var sep: seq<Byte> := [124, 124, 124, 124];
    TooShort([97, 98, 99], sep);
    StreamOfTwo([97], [98, 99]);
    assert [97] + [98, 99] == [97, 98, 99];
    assert Splits([97, 98, 99], [], sep, [97, 98, 99]);
    out := YieldBlocks([[97], [98, 99]], sep);
  }

  /** "a||||b" read in two halves is two blocks. */
  method SeparatorAcrossReads() returns (out: seq<seq<Byte>>)
    ensures out == [[97], [98]]
  {
    var sep: seq<Byte> := [124, 124, 124, 124];
    var s: seq<Byte> := [97, 124, 124, 124, 124, 98];
    TooShort([98], sep);
    StreamOfTwo([97, 124, 124], [124, 124, 98]);
    FoundAtOne();
    assert [97, 124, 124] + [124, 124, 98] == s;
    assert Rejoined([[97]], sep, [98]) == s by {
      assert [[97]][1..] == [];
    }
    assert Splits(s, [[97]], sep, [98]);
    out := YieldBlocks([[97, 124, 124], [124, 124, 98]], sep);
  }

  lemma FoundAtOne()
    ensures Find([97] + [124, 124, 124, 124], [124, 124, 124, 124]) == Index(1)
  {
    var s: seq<Byte> := [97] + [124, 124, 124, 124];
    var sep: seq<Byte> := [124, 124, 124, 124];
    assert At(s, sep, 1);
    assert s[0..4][0] == 97;
    assert !At(s, sep, 0);
  }

  lemma StreamOfTwo(a: seq<Byte>, b: seq<Byte>)
    requires a != [] && b != []
    ensures Stream([a, b]) == a + b
  {
    assert [a, b][1..] == [b] && [b][1..] == [];
    assert Stream([b]) == b + Stream([]) && Stream([]) == [];
    assert Stream([a, b]) == a + Stream([b]);
  }
}
