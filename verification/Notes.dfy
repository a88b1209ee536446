/** ELF notes in either encoding: a header of three 32-bit words, the name and the
    descriptor, each padded to four bytes (System V ABI, chapter 5, "Program Header",
    subsection "Note Section"); and how both editors tell the note they look for. */
module Notes {
  import opened Bytes

  const HEADER: nat := 12
  const LIMIT: nat := 0x1_0000_0000

  // ----- comparing a name

  datatype Comparison = Same | Different | PastEnd

  /** Compares the string at `at` with `t`, byte by byte until they differ. */
  function Compare(s: seq<Byte>, at: nat, t: seq<Byte>): (r: Comparison)
    requires at <= |s|
    ensures r == Same <==> at + |t| <= |s| && s[at..at + |t|] == t
    ensures r == PastEnd <==> at + |t| > |s| && s[at..] == t[..|s| - at]
    decreases |t|
  {
    if t == [] then Same
    else if at == |s| then PastEnd
    else if s[at] != t[0] then Different
    else
      assert forall n :: at < n <= |s| ==> s[at..n] == [s[at]] + s[at + 1..n];
      assert forall n :: 0 < n <= |t| ==> t[..n] == [t[0]] + t[1..][..n - 1];
      Compare(s, at + 1, t[1..])
  }

  /** The comparison, told by prefixes. */
  lemma CompareRest(s: seq<Byte>, at: nat, t: seq<Byte>)
    requires at <= |s|
    ensures Compare(s, at, t) == Same <==> t <= s[at..]
    ensures Compare(s, at, t) == PastEnd <==> s[at..] < t
  {
    hide Compare;
    var rest := s[at..];
    if at + |t| <= |s| {
      assert s[at..at + |t|] == rest[..|t|];
    }
  }

  /** The name, terminator included, and the type that are looked for. */
  datatype Target = Target(name: seq<Byte>, kind: nat)

  /** Whether the note at `off` passes for the one looked for. */
  function Judge(s: seq<Byte>, off: nat, g: Target, msb: bool): Comparison
    requires off + HEADER <= |s|
  {
    var c := Compare(s, off + HEADER, g.name);
    if c == Same && Number(s, off + 8, 4, msb) != g.kind then Different else c
  }

  // ----- notes

  datatype Note = Note(name: seq<Byte>, namePad: seq<Byte>, desc: seq<Byte>, descPad: seq<Byte>, kind: nat)

  /** The padding is what four-byte alignment asks for, and sizes fit their words. A note
      need not have a name. */
  predicate Sized(n: Note) {
    && |n.namePad| == Pad4(|n.name|) - |n.name| && |n.descPad| == Pad4(|n.desc|) - |n.desc|
    && |n.name| < LIMIT && |n.desc| < LIMIT && n.kind < LIMIT
  }

  ghost predicate AllSized(notes: seq<Note>) {
    forall i :: 0 <= i < |notes| ==> Sized(notes[i])
  }

  function NameField(n: Note): seq<Byte> {
    n.name + n.namePad
  }

  function Head(n: Note, msb: bool): (r: seq<Byte>)
    ensures |r| == HEADER
  {
    ToOrder(|n.name|, 4, msb) + ToOrder(|n.desc|, 4, msb) + ToOrder(n.kind, 4, msb)
  }

  function NoteBytes(n: Note, msb: bool): seq<Byte> {
    Head(n, msb) + NameField(n) + (n.desc + n.descPad)
  }

  function Size(n: Note): nat {
    HEADER + Pad4(|n.name|) + Pad4(|n.desc|)
  }

  function Flat(notes: seq<Note>, msb: bool): seq<Byte> {
    if notes == [] then [] else NoteBytes(notes[0], msb) + Flat(notes[1..], msb)
  }

  /** The name field says it, and the type is the one looked for. */
  predicate Is(n: Note, g: Target) {
    g.name <= NameField(n) && n.kind == g.kind
  }

  /** What follows the header of the first note, to the end of the segment. */
  function Beyond(notes: seq<Note>, msb: bool): seq<Byte>
    requires notes != []
  {
    NameField(notes[0]) + (notes[0].desc + notes[0].descPad) + Flat(notes[1..], msb)
  }

  /** The first note passes for the one looked for: the comparison does not stop where
      the name field ends. */
  predicate Passes(notes: seq<Note>, g: Target, msb: bool)
    requires notes != []
  {
    g.name <= Beyond(notes, msb) && notes[0].kind == g.kind
  }

  /** The comparison runs off the end of the segment. */
  predicate RunsOff(notes: seq<Note>, g: Target, msb: bool)
    requires notes != []
  {
    Beyond(notes, msb) < g.name
  }

  /** A name field that is long enough to tell is not misread. */
  lemma NameTells(notes: seq<Note>, g: Target, msb: bool)
    requires notes != []
    requires var f := NameField(notes[0]); |f| < |g.name| ==> f != g.name[..|f|]
    ensures !RunsOff(notes, g, msb) && (Passes(notes, g, msb) <==> Is(notes[0], g))
  {
    assert NameField(notes[0]) <= Beyond(notes, msb);
  }

  /** The note looked for passes for itself. */
  lemma IsPasses(notes: seq<Note>, g: Target, msb: bool)
    requires notes != [] && Is(notes[0], g)
    ensures Passes(notes, g, msb) && !RunsOff(notes, g, msb)
  {
    assert NameField(notes[0]) <= Beyond(notes, msb);
  }

  // ----- reading a note where it lies

  /** A note lies at `off`. */
  ghost predicate Lies(s: seq<Byte>, off: nat, n: Note, msb: bool) {
    Sized(n) && off + Size(n) <= |s| && s[off..off + Size(n)] == NoteBytes(n, msb)
  }

  lemma LiesIf(s: seq<Byte>, off: nat, n: Note, msb: bool)
    requires Sized(n) && off + Size(n) <= |s| && s[off..off + Size(n)] == NoteBytes(n, msb)
    ensures Lies(s, off, n, msb)
  {
  }

  lemma NoteParts(n: Note, msb: bool)
    requires Sized(n)
    ensures var b := NoteBytes(n, msb); var m := HEADER + |NameField(n)|;
      && |b| == Size(n) && b[0..HEADER] == Head(n, msb)
      && m == HEADER + Pad4(|n.name|) && m + |n.desc| <= |b| && b[m..m + |n.desc|] == n.desc
  {
  }

  lemma SizeIs(n: Note)
    ensures Size(n) >= 12
  {
  }

  lemma HeadNumbers(n: Note, msb: bool)
    requires Sized(n)
    ensures var h := Head(n, msb);
      Value(h[0..4], msb) == |n.name| && Value(h[4..8], msb) == |n.desc| && Value(h[8..12], msb) == n.kind
  {
    Widths();
    ValueToOrder(|n.name|, 4, msb);
    ValueToOrder(|n.desc|, 4, msb);
    ValueToOrder(n.kind, 4, msb);
    var h := Head(n, msb);
    assert h[0..4] == ToOrder(|n.name|, 4, msb);
    assert h[4..8] == ToOrder(|n.desc|, 4, msb);
    assert h[8..12] == ToOrder(n.kind, 4, msb);
  }

  lemma ReadNumbers(s: seq<Byte>, off: nat, n: Note, msb: bool)
    requires Sized(n) && off + HEADER <= |s| && s[off..off + HEADER] == Head(n, msb)
    ensures Number(s, off, 4, msb) == |n.name| && Number(s, off + 4, 4, msb) == |n.desc|
    ensures Number(s, off + 8, 4, msb) == n.kind
  {
    HeadNumbers(n, msb);
    hide Head;
    hide Value;
    Slice(s, off, Head(n, msb), 0, 4);
    Slice(s, off, Head(n, msb), 4, 8);
    Slice(s, off, Head(n, msb), 8, 12);
  }

  lemma ReadNote(s: seq<Byte>, off: nat, n: Note, msb: bool)
    requires Lies(s, off, n, msb)
    ensures off + HEADER <= off + Size(n) <= |s|
    ensures Number(s, off, 4, msb) == |n.name| && Number(s, off + 4, 4, msb) == |n.desc|
    ensures Number(s, off + 8, 4, msb) == n.kind
    ensures var m := off + HEADER + |NameField(n)|; m + |n.desc| <= |s| && s[m..m + |n.desc|] == n.desc
  {
    hide *;
    LiesMeans(s, off, n, msb);
    var b := NoteBytes(n, msb);
    NoteParts(n, msb);
    var m := HEADER + |NameField(n)|;
    Slice(s, off, b, 0, HEADER);
    Slice(s, off, b, m, m + |n.desc|);
    ReadNumbers(s, off, n, msb);
  }

  lemma LiesMeans(s: seq<Byte>, off: nat, n: Note, msb: bool)
    requires Lies(s, off, n, msb)
    ensures Sized(n) && off + Size(n) <= |s| && s[off..off + Size(n)] == NoteBytes(n, msb)
  {
  }

  lemma FlatFirst(notes: seq<Note>, msb: bool)
    requires notes != [] && Sized(notes[0])
    ensures var z := Size(notes[0]); var s := Flat(notes, msb);
      && HEADER <= z <= |s| && s[..z] == NoteBytes(notes[0], msb) && s[z..] == Flat(notes[1..], msb)
      && s[HEADER..] == Beyond(notes, msb)
  {
    var n := notes[0];
    NoteParts(n, msb);
    Split(Head(n, msb), NameField(n), n.desc + n.descPad, Flat(notes[1..], msb));
    hide Head;
  }

  lemma Split(h: seq<Byte>, f: seq<Byte>, d: seq<Byte>, rest: seq<Byte>)
    requires |h| == HEADER
    ensures var b := h + f + d; var s := b + rest;
      s[..|b|] == b && s[|b|..] == rest && s[HEADER..] == f + d + rest && |b| >= HEADER
  {
  }

  /** What an editor sees of the first note. */
  lemma Seen(s: seq<Byte>, off: nat, notes: seq<Note>, g: Target, msb: bool)
    requires notes != [] && Sized(notes[0]) && off <= |s| && s[off..] == Flat(notes, msb)
    ensures var n := notes[0];
      && off + 12 <= off + Size(n) <= |s| && s[off + Size(n)..] == Flat(notes[1..], msb) && Lies(s, off, n, msb)
    ensures Judge(s, off, g, msb) ==
      if RunsOff(notes, g, msb) then PastEnd else if Passes(notes, g, msb) then Same else Different
  {
    hide *;
    var n := notes[0];
    FlatFirst(notes, msb);
    var z := Size(n);
    assert s[off..off + z] == s[off..][..z] && s[off + z..] == s[off..][z..] && s[off + HEADER..] == s[off..][HEADER..];
    LiesIf(s, off, n, msb);
    ReadNote(s, off, n, msb);
    SizeIs(n);
    Judged(s, off, notes, g, msb);
  }

  lemma Judged(s: seq<Byte>, off: nat, notes: seq<Note>, g: Target, msb: bool)
    requires notes != [] && off + HEADER <= |s| && s[off + HEADER..] == Beyond(notes, msb)
    requires Number(s, off + 8, 4, msb) == notes[0].kind
    ensures Judge(s, off, g, msb) ==
      if RunsOff(notes, g, msb) then PastEnd else if Passes(notes, g, msb) then Same else Different
  {
    CompareRest(s, off + HEADER, g.name);
    hide Compare;
    hide Number;
    hide Beyond;
  }
}
