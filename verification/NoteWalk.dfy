/** The walk of the vmcoreinfo editor over the notes of a segment. */
module NoteWalk {
  import opened Bytes
  import opened Notes

  /** The ten letters VMCOREINFO and a terminator. */
  const VMCOREINFO: seq<Byte> := [86, 77, 67, 79, 82, 69, 73, 78, 70, 79, 0]

  const INFO: Target := Target(VMCOREINFO, 0)

  function NameSize(s: seq<Byte>, off: nat): nat
    requires off + HEADER <= |s|
  {
    Number(s, off, 4, false)
  }

  function DescSize(s: seq<Byte>, off: nat): nat
    requires off + HEADER <= |s|
  {
    Number(s, off + 4, 4, false)
  }

  function NextNote(s: seq<Byte>, off: nat): nat
    requires off + HEADER <= |s|
  {
    off + HEADER + Pad4(NameSize(s, off)) + Pad4(DescSize(s, off))
  }

  /** What the walk has found: where the last matching note starts and ends, and the
      size of its descriptor. */
  datatype Search = Absent | Found(start: nat, end: nat, descSize: nat)

  /** How the walk ends: what it found and where it stopped, or a read past the end of
      the notes. */
  datatype Walk = Walk(search: Search, stop: nat) | Overrun

  function Scan(s: seq<Byte>, off: nat, best: Search): Walk
    decreases |s| - off
  {
    if off >= |s| then Walk(best, off)
    else if off + HEADER > |s| then Overrun
    else match Judge(s, off, INFO, false)
      case PastEnd => Overrun
      case Same => Scan(s, NextNote(s, off), Found(off, NextNote(s, off), DescSize(s, off)))
      case Different => Scan(s, NextNote(s, off), best)
  }

  /** The loop over the notes. */
  method FindInfo(s: seq<Byte>) returns (w: Walk)
    ensures w == Scan(s, 0, Absent)
  {
    var off, best := 0, Absent;
    while off < |s|
      invariant Scan(s, off, best) == Scan(s, 0, Absent)
      decreases |s| - off
    {
      if off + HEADER > |s| {
        return Overrun;
      }
      var c := Compare(s, off + HEADER, VMCOREINFO);
      if c == PastEnd {
        return Overrun;
      }
      if c == Same && Number(s, off + 8, 4, false) == 0 {
        best := Found(off, NextNote(s, off), DescSize(s, off));
      }
      off := NextNote(s, off);
    }
    w := Walk(best, off);
  }

  /** From note `k` on, none passes for the one looked for, nor runs off the end. */
  ghost predicate Plain(notes: seq<Note>, k: nat) {
    forall j :: k <= j < |notes| ==> !Passes(notes[j..], INFO, false) && !RunsOff(notes[j..], INFO, false)
  }

  // ----- the walk over the notes

  /** The best match after the first note. */
  function Better(notes: seq<Note>, off: nat, best: Search): Search
    requires notes != []
  {
    if Passes(notes, INFO, false) then Found(off, off + Size(notes[0]), |notes[0].desc|) else best
  }

  /** What the walk makes of the notes. */
  function Sees(notes: seq<Note>, off: nat, best: Search): Walk
    decreases |notes|
  {
    if notes == [] then Walk(best, off)
    else if RunsOff(notes, INFO, false) then Overrun
    else Sees(notes[1..], off + Size(notes[0]), Better(notes, off, best))
  }

  lemma {:induction false} ScanNotes(s: seq<Byte>, off: nat, notes: seq<Note>, best: Search)
    requires AllSized(notes) && off <= |s| && s[off..] == Flat(notes, false)
    ensures Scan(s, off, best) == Sees(notes, off, best)
    decreases |notes|
  {
    hide NoteBytes;
    hide Sized;
    hide Passes;
    hide RunsOff;
    hide Judge;
    hide Scan;
    if notes == [] {
      ScanEnd(s, off, best);
    } else {
      var n := notes[0];
      assert Sized(n);
      ScanStep(s, off, notes, best);
      if !RunsOff(notes, INFO, false) {
        assert forall i :: 0 <= i < |notes[1..]| ==> notes[1..][i] == notes[i + 1];
        ScanNotes(s, off + Size(n), notes[1..], Better(notes, off, best));
      }
    }
  }

  lemma ScanEnd(s: seq<Byte>, off: nat, best: Search)
    requires off == |s|
    ensures Scan(s, off, best) == Walk(best, off)
  {
  }

  /** One turn of the loop. */
  lemma ScanStep(s: seq<Byte>, off: nat, notes: seq<Note>, best: Search)
    requires notes != [] && Sized(notes[0]) && off <= |s| && s[off..] == Flat(notes, false)
    ensures off + Size(notes[0]) <= |s| && s[off + Size(notes[0])..] == Flat(notes[1..], false)
    ensures Scan(s, off, best) ==
      if RunsOff(notes, INFO, false) then Overrun
      else Scan(s, off + Size(notes[0]), Better(notes, off, best))
  {
    hide *;
    Seen(s, off, notes, INFO, false);
    StepIs(s, off, notes[0]);
    BetterIs(notes, off, best);
    ScanUnfold(s, off, best);
  }

  lemma BetterIs(notes: seq<Note>, off: nat, best: Search)
    requires notes != []
    ensures Better(notes, off, best) ==
      if Passes(notes, INFO, false) then Found(off, off + Size(notes[0]), |notes[0].desc|) else best
  {
  }

  lemma StepIs(s: seq<Byte>, off: nat, n: Note)
    requires Lies(s, off, n, false)
    ensures off + HEADER <= |s| && NextNote(s, off) == off + Size(n)
    ensures NameSize(s, off) == |n.name| && DescSize(s, off) == |n.desc|
  {
    ReadNote(s, off, n, false);
    hide Number;
    hide Lies;
    hide Pad4;
  }

  lemma ScanUnfold(s: seq<Byte>, off: nat, best: Search)
    requires off + HEADER <= |s|
    ensures Scan(s, off, best) ==
      match Judge(s, off, INFO, false)
      case PastEnd => Overrun
      case Same => Scan(s, NextNote(s, off), Found(off, NextNote(s, off), DescSize(s, off)))
      case Different => Scan(s, NextNote(s, off), best)
  {
    hide Judge;
    hide DescSize;
  }

  /** With the best match so far behind it, the walk keeps it to the end exactly if all
      that follows is plain. */
  lemma {:induction false} SeesRest(notes: seq<Note>, off: nat, best: Search)
    requires AllSized(notes) && (best.Found? ==> best.start < off)
    ensures Sees(notes, off, best) == Walk(best, off + |Flat(notes, false)|) <==> Plain(notes, 0)
    ensures var w := Sees(notes, off, best);
      w.Walk? ==> w.search == best || (w.search.Found? && w.search.start >= off)
    decreases |notes|
  {
    hide Sized;
    hide NoteBytes;
    hide Passes;
    hide RunsOff;
    if notes != [] {
      var n, rest := notes[0], notes[1..];
      assert Sized(n);
      NoteParts(n, false);
      SizeIs(n);
      hide Size;
      PlainRest(notes);
      if !RunsOff(notes, INFO, false) {
        SeesRest(rest, off + Size(n), Better(notes, off, best));
      }
    }
  }

  lemma PlainRest(notes: seq<Note>)
    requires notes != []
    ensures Plain(notes, 0) <==> !Passes(notes, INFO, false) && !RunsOff(notes, INFO, false) && Plain(notes[1..], 0)
  {
    hide Passes;
    hide RunsOff;
    assert notes[0..] == notes;
    assert forall j :: 0 <= j < |notes| - 1 ==> notes[1..][j..] == notes[j + 1..];
    if Plain(notes[1..], 0) {
      assert forall j :: 1 <= j < |notes| ==> notes[j..] == notes[1..][j - 1..];
    }
  }

  /** The walk gets to the note looked for, whatever it makes of those before it. */
  lemma {:induction false} SeesUpTo(notes: seq<Note>, off: nat, best: Search, k: nat)
    requires AllSized(notes) && k < |notes| && Is(notes[k], INFO)
    ensures var start := off + |Flat(notes[..k], false)|; var end := start + Size(notes[k]);
      && Sees(notes, off, best) == Sees(notes[k + 1..], end, Found(start, end, |notes[k].desc|))
      && off + |Flat(notes, false)| == end + |Flat(notes[k + 1..], false)|
    decreases |notes|
  {
    hide *;
    var n, rest := notes[0], notes[1..];
    SeesFirst(notes, off, best);
    if k == 0 {
      IsPasses(notes, INFO, false);
      BetterIs(notes, off, best);
      FlatOf([]);
      assert notes[..0] == [];
    } else {
      assert rest[k - 1] == notes[k] && rest[..k - 1] == notes[..k][1..] && rest[k..] == notes[k + 1..];
      assert notes[..k][0] == n;
      SizedRest(notes);
      FlatOf(notes[..k]);
      ReachesOn(notes);
      SeesUpTo(rest, off + Size(n), Better(notes, off, best), k - 1);
    }
  }

  lemma SizedRest(notes: seq<Note>)
    requires AllSized(notes) && |notes| > 1
    ensures AllSized(notes[1..]) && Sized(notes[0]) && Sized(notes[1])
  {
    hide Sized;
  }

  lemma FlatOf(notes: seq<Note>)
    requires notes != [] ==> Sized(notes[0])
    ensures |Flat(notes, false)| == if notes == [] then 0 else Size(notes[0]) + |Flat(notes[1..], false)|
  {
    if notes != [] {
      NoteParts(notes[0], false);
    }
  }

  /** The first step of the walk. */
  lemma SeesFirst(notes: seq<Note>, off: nat, best: Search)
    requires AllSized(notes) && notes != []
    ensures !RunsOff(notes, INFO, false) ==>
      Sees(notes, off, best) == Sees(notes[1..], off + Size(notes[0]), Better(notes, off, best))
    ensures |Flat(notes, false)| == Size(notes[0]) + |Flat(notes[1..], false)|
  {
    hide RunsOff;
    hide Better;
    hide NoteBytes;
    hide Sized;
    assert Sized(notes[0]);
    FlatOf(notes);
  }

  /** With another note to come there is enough to compare with. */
  lemma ReachesOn(notes: seq<Note>)
    requires |notes| > 1 && Sized(notes[1])
    ensures !RunsOff(notes, INFO, false)
  {
    FlatFirst(notes[1..], false);
  }

  /** On any notes the walk stops exactly at the end, never reads past it, and finds the
      last note that is what is looked for, if and only if no later note passes for it
      or runs off the end. */
  lemma WalkFinds(notes: seq<Note>, k: nat)
    requires AllSized(notes) && k < |notes| && Is(notes[k], INFO)
    ensures var start := |Flat(notes[..k], false)|;
      var found := Found(start, start + Size(notes[k]), |notes[k].desc|);
      Scan(Flat(notes, false), 0, Absent) == Walk(found, |Flat(notes, false)|) <==> Plain(notes, k + 1)
  {
    hide *;
    var s, rest := Flat(notes, false), notes[k + 1..];
    var start := |Flat(notes[..k], false)|;
    var end := start + Size(notes[k]);
    assert s[0..] == s;
    ScanNotes(s, 0, notes, Absent);
    SeesUpTo(notes, 0, Absent, k);
    SizeIs(notes[k]);
    AllSizedFrom(notes, k + 1);
    SeesRest(rest, end, Found(start, end, |notes[k].desc|));
    PlainFrom(notes, k + 1);
  }

  lemma AllSizedFrom(notes: seq<Note>, k: nat)
    requires AllSized(notes) && k <= |notes|
    ensures AllSized(notes[k..])
  {
    hide Sized;
  }

  lemma PlainFrom(notes: seq<Note>, k: nat)
    requires k <= |notes|
    ensures Plain(notes, k) <==> Plain(notes[k..], 0)
  {
    hide Passes;
    hide RunsOff;
    assert forall j :: 0 <= j < |notes| - k ==> notes[k..][j..] == notes[k + j..];
    if Plain(notes[k..], 0) {
      assert forall j :: k <= j < |notes| ==> notes[j..] == notes[k..][j - k..];
    }
  }

  /** It finds none, and stops exactly at the end, if and only if all notes are plain. */
  lemma WalkFindsNone(notes: seq<Note>)
    requires AllSized(notes)
    ensures Scan(Flat(notes, false), 0, Absent) == Walk(Absent, |Flat(notes, false)|) <==> Plain(notes, 0)
  {
    hide *;
    var s := Flat(notes, false);
    assert s[0..] == s;
    ScanNotes(s, 0, notes, Absent);
    SeesRest(notes, 0, Absent);
  }
}
