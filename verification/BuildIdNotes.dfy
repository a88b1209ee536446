/** What the build ID search finds in notes, in either encoding. */
module BuildIdNotes {
  import opened Bytes
  import opened Notes
  import opened BuildId
  import opened BuildIdProofs

  /** Sizes fit 16 bits. */
  predicate Short(n: Note) {
    Sized(n) && |n.name| < 0x1_0000 && |n.desc| < 0x1_0000
  }

  /** A build ID can be read: if it is not oversized, its name's size fits 16 bits. */
  predicate IdOk(n: Note) {
    Sized(n) && (|n.desc| <= MAX_SIZE ==> |n.name| < 0x1_0000)
  }

  /** The walk can get to the first build ID. What follows that may be anything. */
  predicate Walkable(notes: seq<Note>)
    decreases |notes|
  {
    notes != [] ==> if Is(notes[0], ID) then IdOk(notes[0]) else Short(notes[0]) && Walkable(notes[1..])
  }

  /** Up to the first build ID no other note passes for one, nor runs off the end. */
  predicate Told(notes: seq<Note>, msb: bool)
    decreases |notes|
  {
    || notes == [] || Is(notes[0], ID)
    || (!Passes(notes, ID, msb) && !RunsOff(notes, ID, msb) && Told(notes[1..], msb))
  }

  function IdOf(n: Note, at: nat): Outcome {
    if |n.desc| > MAX_SIZE then Hang else Hit(at + HEADER + |NameField(n)|, |n.desc|, Hex(n.desc))
  }

  /** The first build ID note, if its descriptor is of a sane size. */
  function FirstId(notes: seq<Note>, at: nat): Outcome
    decreases |notes|
  {
    if notes == [] then Miss
    else if Is(notes[0], ID) then IdOf(notes[0], at)
    else FirstId(notes[1..], at + Size(notes[0]))
  }

  /** What the search makes of the notes. */
  function Sees(notes: seq<Note>, at: nat, msb: bool): Outcome
    decreases |notes|
  {
    if notes == [] then Miss
    else if RunsOff(notes, ID, msb) then Overrun
    else if Passes(notes, ID, msb) then IdOf(notes[0], at)
    else Sees(notes[1..], at + Size(notes[0]), msb)
  }

  // ----- one note

  /** The walk steps from a note to the next exactly if both its sizes fit 16 bits. */
  lemma StepsRight(s: seq<Byte>, off: nat, n: Note, msb: bool)
    requires Lies(s, off, n, msb)
    ensures off + 12 <= |s|
    ensures NextAt(s, off, msb) == off + Size(n) <==> Short(n)
    ensures NextAt(s, off, msb) <= off + Size(n)
    ensures |n.name| < 0x1_0000 ==> DescAt(s, off, msb) == off + HEADER + |NameField(n)|
  {
    ReadNote(s, off, n, msb);
    NarrowExact(|n.name|);
    NarrowExact(|n.desc|);
    hide Number;
    hide NoteBytes;
    hide Narrow;
    hide Pad4;
  }

  lemma Taken(s: seq<Byte>, base: nat, off: nat, n: Note, msb: bool)
    requires Lies(s, off, n, msb) && IdOk(n)
    ensures off + 12 <= |s| && Take(s, base, off, msb) == IdOf(n, base + off)
  {
    hide *;
    ReadNote(s, off, n, msb);
    StepsRight(s, off, n, msb);
    TakeIs(s, base, off, n, msb);
  }

  lemma TakeIs(s: seq<Byte>, base: nat, off: nat, n: Note, msb: bool)
    requires off + 12 <= |s| && Number(s, off + 4, 4, msb) == |n.desc| && IdOk(n)
    requires var m := off + HEADER + |NameField(n)|;
      && (|n.name| < 0x1_0000 ==> DescAt(s, off, msb) == m)
      && m + |n.desc| <= |s| && s[m..m + |n.desc|] == n.desc
    ensures Take(s, base, off, msb) == IdOf(n, base + off)
  {
    hide Number;
    hide DescAt;
    hide Hex;
    hide NameField;
    hide Sized;
  }

  /** What the loop sees of the first note. */
  lemma SeenId(s: seq<Byte>, base: nat, off: nat, notes: seq<Note>, msb: bool)
    requires notes != [] && Sized(notes[0]) && off <= |s| && s[off..] == Flat(notes, msb)
    ensures off + 12 <= off + Size(notes[0]) <= |s| && s[off + Size(notes[0])..] == Flat(notes[1..], msb)
    ensures Notes.Judge(s, off, ID, msb) ==
      if RunsOff(notes, ID, msb) then PastEnd else if Passes(notes, ID, msb) then Same else Different
    ensures Short(notes[0]) ==> NextAt(s, off, msb) == off + Size(notes[0])
    ensures IdOk(notes[0]) ==> Take(s, base, off, msb) == IdOf(notes[0], base + off)
  {
    hide *;
    Seen(s, off, notes, ID, msb);
    StepsRight(s, off, notes[0], msb);
    if IdOk(notes[0]) {
      Taken(s, base, off, notes[0], msb);
    }
  }

  lemma ShortIsOk(n: Note)
    requires Short(n)
    ensures IdOk(n) && Sized(n)
  {
  }

  lemma SizeCovers(n: Note)
    requires Sized(n)
    ensures HEADER + |NameField(n)| + |n.desc| <= Size(n)
    ensures Is(n, ID) ==> |NameField(n)| >= 4
  {
  }

  // ----- the search in notes

  lemma {:induction false} ScanSees(s: seq<Byte>, base: nat, off: nat, notes: seq<Note>, msb: bool)
    requires Walkable(notes) && off <= |s| && s[off..] == Flat(notes, msb)
    ensures ScanNotes(s, base, off, msb) == Sees(notes, base + off, msb)
    decreases |notes|
  {
    hide Short;
    hide IdOk;
    hide Notes.Judge;
    hide Take;
    hide NextAt;
    hide Is;
    hide Passes;
    hide RunsOff;
    hide IdOf;
    hide NoteBytes;
    if notes != [] {
      var n := notes[0];
      if Is(n, ID) {
        IsPasses(notes, ID, msb);
        OkIsSized(n);
      } else {
        ShortIsOk(n);
      }
      SeenId(s, base, off, notes, msb);
      hide Flat;
      hide Size;
      if !RunsOff(notes, ID, msb) && !Passes(notes, ID, msb) {
        ScanSees(s, base, off + Size(n), notes[1..], msb);
      }
    }
  }

  lemma OkIsSized(n: Note)
    requires IdOk(n)
    ensures Sized(n)
  {
  }

  /** A name field is enough to tell. */
  lemma {:induction false} NamedAreTold(notes: seq<Note>, msb: bool)
    requires AllSized(notes) && forall i :: 0 <= i < |notes| ==> notes[i].name != []
    ensures Told(notes, msb)
    decreases |notes|
  {
    if notes != [] {
      var n := notes[0];
      assert Sized(n) && |NameField(n)| >= 4;
      NameTells(notes, ID, msb);
      assert forall i :: 0 <= i < |notes[1..]| ==> notes[1..][i] == notes[i + 1];
      NamedAreTold(notes[1..], msb);
    }
  }

  lemma {:induction false} FirstIdAt(notes: seq<Note>, at: nat)
    requires Walkable(notes)
    ensures var r := FirstId(notes, at);
      && (r == Miss || r == Hang || r.Hit?)
      && (r.Hit? ==> at + 16 <= r.at && r.size <= MAX_SIZE)
    decreases |notes|
  {
    hide Hex;
    hide Short;
    if notes != [] {
      if Is(notes[0], ID) {
        SizeCovers(notes[0]);
      } else {
        FirstIdAt(notes[1..], at + Size(notes[0]));
      }
    }
  }

  lemma {:induction false} SeesFirst(notes: seq<Note>, at: nat, msb: bool)
    requires Walkable(notes)
    ensures Told(notes, msb) ==> Sees(notes, at, msb) == FirstId(notes, at)
    ensures FirstId(notes, at) != Hang && Sees(notes, at, msb) == FirstId(notes, at) ==> Told(notes, msb)
    decreases |notes|
  {
    hide Passes;
    hide RunsOff;
    hide Hex;
    hide Short;
    hide Is;
    if notes != [] {
      var n := notes[0];
      if Is(n, ID) {
        IsPasses(notes, ID, msb);
      } else {
        ShortIsOk(n);
        SizeCovers(n);
        FirstIdAt(notes[1..], at + Size(n));
        if !RunsOff(notes, ID, msb) && !Passes(notes, ID, msb) {
          SeesFirst(notes[1..], at + Size(n), msb);
        }
      }
    }
  }

  /** Reading up to the first build ID, the walk keeps clear of its bytes. */
  lemma {:induction false} ClearOfId(s: seq<Byte>, base: nat, off: nat, notes: seq<Note>, msb: bool)
    requires Walkable(notes) && off <= |s| && s[off..] == Flat(notes, msb) && Told(notes, msb)
    ensures var r := FirstId(notes, base + off);
      r.Hit? ==> NotesClear(s, base, off, msb, r.at, r.at + r.size) && r.at + r.size <= base + |s|
    decreases |notes|
  {
    hide Short;
    hide Notes.Judge;
    hide NextAt;
    hide Passes;
    hide RunsOff;
    hide Hex;
    hide NoteBytes;
    hide Is;
    if notes != [] {
      var n := notes[0];
      FirstIdAt(notes, base + off);
      if Is(n, ID) {
        IsPasses(notes, ID, msb);
        SizeCovers(n);
        SeenId(s, base, off, notes, msb);
      } else {
        ShortIsOk(n);
        SeenId(s, base, off, notes, msb);
        ClearOfId(s, base, off + Size(n), notes[1..], msb);
      }
    }
  }

  /** The search finds the first build ID, unless it is oversized: then the loop does not
      end. It does so exactly if no note before passes for one or runs off the end (an
      oversized ID apart, which one that passes for it can also be). And it reads
      nothing of that ID on the way, so writing another one leaves it findable. */
  lemma FirstIdFound(notes: seq<Note>, base: nat, msb: bool)
    requires Walkable(notes)
    ensures Told(notes, msb) ==> ScanNotes(Flat(notes, msb), base, 0, msb) == FirstId(notes, base)
    ensures FirstId(notes, base) != Hang && ScanNotes(Flat(notes, msb), base, 0, msb) == FirstId(notes, base) ==>
      Told(notes, msb)
    ensures var r := FirstId(notes, base);
      Told(notes, msb) && r.Hit? ==>
        && NotesClear(Flat(notes, msb), base, 0, msb, r.at, r.at + r.size)
        && r.at + r.size <= base + |Flat(notes, msb)|
  {
    hide *;
    var s := Flat(notes, msb);
    assert s[0..] == s;
    ScanSees(s, base, 0, notes, msb);
    SeesFirst(notes, base, msb);
    if Told(notes, msb) {
      ClearOfId(s, base, 0, notes, msb);
    }
  }
}
