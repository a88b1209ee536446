/** Concrete files for the build ID editor: those it edits as promised, and one for each
    way in which its search goes wrong. */
module BuildIdWitness {
  import opened Bytes
  import opened Options
  import opened Notes
  import opened BuildId
  import opened BuildIdNotes
  import opened BuildIdFiles
  import opened ElfFiles
  import BuildIdProofs

  // ----- the notes, byte by byte

  /** A build ID note: sizes of name and descriptor, type 3, "GNU", and the ID. */
  function IdBytes(msb: bool, desc: seq<Byte>): seq<Byte> {
    ToOrder(4, 4, msb) + ToOrder(|desc|, 4, msb) + ToOrder(3, 4, msb) + [0x47, 0x4e, 0x55, 0] + desc +
    Zeros(Pad4(|desc|) - |desc|)
  }

  /** A property note, of type 5, which is GNU's too but no build ID. */
  function PropertyBytes(msb: bool): seq<Byte> {
    ToOrder(4, 4, msb) + ToOrder(16, 4, msb) + ToOrder(5, 4, msb) + [0x47, 0x4e, 0x55, 0] + Zeros(16)
  }

  function IdNote(desc: seq<Byte>): Note {
    Note(GNU, [], desc, Zeros(Pad4(|desc|) - |desc|), 3)
  }

  function Property(): Note {
    Note(GNU, [], Zeros(16), [], 5)
  }

  lemma IdNoteIs(desc: seq<Byte>, msb: bool)
    requires |desc| < LIMIT
    ensures var n := IdNote(desc);
      && Sized(n) && IdOk(n) && Is(n, ID) && NameField(n) == GNU && Size(n) == 16 + Pad4(|desc|) && n.desc == desc
      && (|desc| < 0x1_0000 ==> Short(n)) && NoteBytes(n, msb) == IdBytes(msb, desc)
  {
    var p := Zeros(Pad4(|desc|) - |desc|);
    assert GNU + [] == GNU;
    Regrouped(ToOrder(4, 4, msb) + ToOrder(|desc|, 4, msb) + ToOrder(3, 4, msb), GNU, desc, p);
    hide ToOrder;
    hide Zeros;
  }

  lemma Regrouped(h: seq<Byte>, g: seq<Byte>, d: seq<Byte>, p: seq<Byte>)
    ensures h + g + (d + p) == h + g + d + p
  {
  }

  lemma PropertyIs(at: nat, msb: bool)
    ensures Short(Property()) && Sized(Property()) && !Is(Property(), ID) && Size(Property()) == 32
    ensures Walkable([Property()]) && Told([Property()], msb) && FirstId([Property()], at) == Miss
    ensures NoteBytes(Property(), msb) == PropertyBytes(msb) && |PropertyBytes(msb)| == 32
  {
    var n := Property();
    assert [n][1..] == [];
    assert NameField(n) == GNU;
    assert GNU + [] == GNU && Zeros(16) + [] == Zeros(16);
    hide Zeros;
    NameTells([n], ID, msb);
    hide ToOrder;
  }

  lemma OneNote(n: Note, msb: bool)
    requires Sized(n)
    ensures Flat([n], msb) == NoteBytes(n, msb) && |Flat([n], msb)| == Size(n)
    ensures Beyond([n], msb) == NameField(n) + (n.desc + n.descPad) && [n][1..] == []
  {
    NoteParts(n, msb);
    assert [n][1..] == [];
    assert Flat([], msb) == [];
    hide NoteBytes;
  }

  lemma OneId(n: Note, at: nat, msb: bool)
    requires IdOk(n) && Is(n, ID)
    ensures Walkable([n]) && Told([n], msb) && FirstId([n], at) == IdOf(n, at)
  {
    hide Is;
    hide IdOk;
    hide IdOf;
  }

  lemma IdOfIs(n: Note, at: nat)
    ensures IdOf(n, at) == if |n.desc| > 512 then Hang else Hit(at + 12 + |NameField(n)|, |n.desc|, Hex(n.desc))
    ensures HEADER == 12 && |GNU| == 4 && EHDR == 64 && LIMIT == 0x1_0000_0000
  {
  }

  // ----- a file with one segment

  /** A file whose only segment is a build ID note. */
  function Sample(wide: bool, msb: bool, desc: seq<Byte>): seq<Byte> {
    var at := if wide then 120 else 84;
    Ehdr(wide, msb, if wide then 56 else 32, 1, at, 0) + Phdr(wide, msb, 4, at, 16 + Pad4(|desc|)) + IdBytes(msb, desc)
  }

  /** In files of either class and either encoding, a build ID of up to 512 bytes is
      found, and after it is overwritten the new one is; a longer one makes the search
      loop for ever. */
  lemma SampleId(wide: bool, msb: bool, desc: seq<Byte>, data: seq<Byte>)
    requires |data| == |desc| < if wide then 0x1_0000_0000 else 0xffff_ff00
    ensures var f, at := Sample(wide, msb, desc), if wide then 136 else 100;
      if |desc| > 512 then Search(f) == Hang
      else
        && Search(f) == Hit(at, |desc|, Hex(desc)) && at + |data| <= |f|
        && Search(Overwrite(f, at, data)) == Hit(at, |data|, Hex(data))
  {
    hide *;
    var n, f, at := IdNote(desc), Sample(wide, msb, desc), if wide then 120 else 84;
    var p := Stretch(at, [n]);
    IdOfIs(n, at);
    IdNoteIs(desc, msb);
    OneNote(n, msb);
    OneId(n, at, msb);
    SampleIs(wide, msb, desc);
    BuiltHeads(wide, msb, [p], [], Flat([n], msb));
    BodySits(f, wide, msb, at, [n]);
    AllOne(f, wide, msb, p);
    BuiltLaid(wide, msb, [p], [], Flat([n], msb));
    FirstOfOne(p);
    PartIs(p, msb);
    SearchFinds(f, [p], []);
    if |desc| <= 512 {
      BuiltOff(wide, msb, [p], [], Flat([n], msb), at + 16, at + 16 + |desc|);
      OffOne(f, p, at + 16, at + 16 + |desc|);
      WriteThenFindLaid(f, [p], [], data);
    }
  }

  lemma SampleIs(wide: bool, msb: bool, desc: seq<Byte>)
    requires |desc| < if wide then 0x1_0000_0000 else 0xffff_ff00
    ensures var at := if wide then 120 else 84; var notes := [IdNote(desc)];
      && Sample(wide, msb, desc) == Built(wide, msb, [Stretch(at, notes)], [], Flat(notes, msb))
      && End(wide, 1, 0) == at && at + 16 + Pad4(|desc|) < Limit(wide)
  {
    hide *;
    var n := IdNote(desc);
    var at := if wide then 120 else 84;
    var p := Stretch(at, [n]);
    IdOfIs(n, at);
    IdNoteIs(desc, msb);
    OneNote(n, msb);
    PartIs(p, msb);
    Layouts(wide);
    BuiltIs(wide, msb, [p], [], Flat([n], msb));
    OneEntry(Segments, wide, msb, p);
    EntryOf(wide, msb, p);
    SampleBytes(wide, msb, desc);
    Trailing(Ehdr(wide, msb, if wide then 56 else 32, 1, at, 0) + Phdr(wide, msb, 4, at, 16 + Pad4(|desc|)));
  }

  lemma Layouts(wide: bool)
    ensures EntrySize(Segments, wide) == if wide then 56 else 32
    ensures Middle(wide, 1) == End(wide, 1, 0) == if wide then 120 else 84
    ensures Middle(wide, 2) == if wide then 176 else 116
    ensures End(wide, 2, 2) == if wide then 304 else 196
    ensures Limit(wide) == if wide then 0x1_0000_0000_0000_0000 else 0x1_0000_0000
    ensures forall n: nat :: Pad4(n) < n + 4
  {
  }

  lemma EntryOf(wide: bool, msb: bool, p: Part)
    requires p.Stretch?
    ensures PartBytes(Segments, wide, msb, p) == Phdr(wide, msb, 4, p.at, Length(p, msb))
    ensures PartBytes(Sections, wide, msb, p) == Shdr(wide, msb, 7, p.at, Length(p, msb))
    ensures TableOf(Sections, wide, msb, []) == []
  {
    hide Phdr;
    hide Shdr;
    hide Length;
  }

  lemma SampleBytes(wide: bool, msb: bool, desc: seq<Byte>)
    ensures Sample(wide, msb, desc) ==
      var at := if wide then 120 else 84;
      Ehdr(wide, msb, if wide then 56 else 32, 1, at, 0) + Phdr(wide, msb, 4, at, 16 + Pad4(|desc|)) +
      IdBytes(msb, desc)
  {
    hide Ehdr;
    hide Phdr;
    hide IdBytes;
    hide Pad4;
  }

  lemma Trailing(s: seq<Byte>)
    ensures s + [] == s
  {
  }

  lemma OneEntry(t: Table, wide: bool, msb: bool, p: Part)
    ensures TableOf(t, wide, msb, [p]) == PartBytes(t, wide, msb, p)
  {
    hide PartBytes;
    assert [p][..0] == [];
    assert TableOf(t, wide, msb, []) == [];
    assert TableOf(t, wide, msb, [p]) == [] + PartBytes(t, wide, msb, p);
  }

  lemma TwoEntries(t: Table, wide: bool, msb: bool, p: Part, q: Part)
    ensures TableOf(t, wide, msb, [p, q]) == PartBytes(t, wide, msb, p) + PartBytes(t, wide, msb, q)
  {
    OneEntry(t, wide, msb, p);
    hide PartBytes;
    assert [p, q][..1] == [p];
  }

  /** A body that is all of the file's rest sits where it starts. */
  lemma BodySits(f: seq<Byte>, wide: bool, msb: bool, at: nat, notes: seq<Note>)
    requires at <= |f| < Limit(wide) && f[at..] == Flat(notes, msb) && Walkable(notes) && Told(notes, msb)
    ensures Sits(f, wide, msb, Stretch(at, notes))
  {
    hide Flat;
    hide Walkable;
    hide Told;
  }

  lemma AllOne(f: seq<Byte>, wide: bool, msb: bool, p: Part)
    requires Sits(f, wide, msb, p) && p.Stretch?
    ensures AllSit(f, wide, msb, [p]) && AllSit(f, wide, msb, []) && SomeStretch([p])
  {
    hide Sits;
    assert [p][0].Stretch?;
  }

  lemma PartIs(p: Part, msb: bool)
    requires p.Stretch?
    ensures PartId(p) == FirstId(p.notes, p.at) && Length(p, msb) == |Flat(p.notes, msb)|
  {
  }

  lemma FirstOfOne(p: Part)
    requires p.Stretch?
    ensures FirstOf([p]) == FirstId(p.notes, p.at) && FirstOf([]) == Miss
    ensures FirstIn([p], []) == FirstId(p.notes, p.at)
  {
    hide FirstId;
    assert [p][1..] == [];
  }

  lemma OffOne(f: seq<Byte>, p: Part, lo: nat, hi: nat)
    requires HeaderOk(f) && BuildIdProofs.Clear(lo, hi, 0, EHDR) && OffTable(f, Segments, lo, hi)
    requires FirstOf([p]) != Miss && PartId(p) != Miss
    ensures ReadsOff(f, [p], [], lo, hi)
  {
    hide OffTable;
    hide FirstOf;
    hide PartId;
    hide HeaderOk;
  }

  // ----- the usual file: both tables tell of the same notes, the ID not first

  /** A file with a property segment, an ID segment, and a section for each. */
  function Mirrored(wide: bool, msb: bool, desc: seq<Byte>): seq<Byte> {
    var at, size := if wide then 304 else 196, 16 + Pad4(|desc|);
    Ehdr(wide, msb, if wide then 56 else 32, 2, if wide then 176 else 116, 2) +
    Phdr(wide, msb, 4, at, 32) + Phdr(wide, msb, 4, at + 32, size) +
    Shdr(wide, msb, 7, at, 32) + Shdr(wide, msb, 7, at + 32, size) + PropertyBytes(msb) + IdBytes(msb, desc)
  }

  function Mirror(at: nat, desc: seq<Byte>): seq<Part> {
    [Stretch(at, [Property()]), Stretch(at + 32, [IdNote(desc)])]
  }

  /** In such files of either class and either encoding the ID is found, and after it is
      overwritten the new one is. */
  lemma MirroredId(wide: bool, msb: bool, desc: seq<Byte>, data: seq<Byte>)
    requires |desc| <= 512 && |data| == |desc|
    ensures var f, at := Mirrored(wide, msb, desc), if wide then 352 else 244;
      && Search(f) == Hit(at, |desc|, Hex(desc)) && at + |data| <= |f|
      && Search(Overwrite(f, at, data)) == Hit(at, |data|, Hex(data))
  {
    hide *;
    var at := if wide then 304 else 196;
    var n, q, f, parts := IdNote(desc), Property(), Mirrored(wide, msb, desc), Mirror(at, desc);
    var body := NoteBytes(q, msb) + NoteBytes(n, msb);
    PropertyIs(at, msb);
    IdOfIs(n, at + 32);
    IdNoteIs(desc, msb);
    OneNote(n, msb);
    OneNote(q, msb);
    OneId(n, at + 32, msb);
    MirrorIs(wide, msb, desc);
    BuiltHeads(wide, msb, parts, parts, body);
    TwoSit(f, wide, msb, at, q, n, parts);
    BuiltLaid(wide, msb, parts, parts, body);
    PartIs(parts[0], msb);
    PartIs(parts[1], msb);
    FirstOfTwo(parts);
    SearchFinds(f, parts, parts);
    ClearIs(at + 48, at + 48 + |desc|, at, at + 32);
    BuiltOff(wide, msb, parts, parts, body, at + 48, at + 48 + |desc|);
    OffTwo(f, parts, at + 48, at + 48 + |desc|, msb);
    WriteThenFindLaid(f, parts, parts, data);
  }

  lemma ClearIs(lo: nat, hi: nat, a: nat, b: nat)
    ensures BuildIdProofs.Clear(lo, hi, a, b) <==> b <= lo || hi <= a
  {
  }

  lemma MirrorIs(wide: bool, msb: bool, desc: seq<Byte>)
    requires |desc| <= 512
    ensures var at := if wide then 304 else 196; var parts := Mirror(at, desc);
      && |parts| == 2 && parts == [Stretch(at, [Property()]), Stretch(at + 32, [IdNote(desc)])]
      && Mirrored(wide, msb, desc) ==
         Built(wide, msb, parts, parts, NoteBytes(Property(), msb) + NoteBytes(IdNote(desc), msb))
      && End(wide, 2, 2) == at && at + 2000 < Limit(wide)
  {
    hide *;
    var at, size := if wide then 304 else 196, 16 + Pad4(|desc|);
    var n, q, parts := IdNote(desc), Property(), Mirror(at, desc);
    IdOfIs(n, at);
    IdNoteIs(desc, msb);
    PropertyIs(at, msb);
    OneNote(n, msb);
    OneNote(q, msb);
    MirrorParts(at, desc);
    PartIs(parts[0], msb);
    PartIs(parts[1], msb);
    Layouts(wide);
    BuiltIs(wide, msb, parts, parts, NoteBytes(q, msb) + NoteBytes(n, msb));
    TwoEntries(Segments, wide, msb, parts[0], parts[1]);
    TwoEntries(Sections, wide, msb, parts[0], parts[1]);
    EntryOf(wide, msb, parts[0]);
    EntryOf(wide, msb, parts[1]);
    MirroredBytes(wide, msb, desc);
    Pairwise(Ehdr(wide, msb, if wide then 56 else 32, 2, if wide then 176 else 116, 2),
             Phdr(wide, msb, 4, at, 32), Phdr(wide, msb, 4, at + 32, size),
             Shdr(wide, msb, 7, at, 32), Shdr(wide, msb, 7, at + 32, size), PropertyBytes(msb), IdBytes(msb, desc));
  }

  lemma MirrorParts(at: nat, desc: seq<Byte>)
    ensures Mirror(at, desc) == [Stretch(at, [Property()]), Stretch(at + 32, [IdNote(desc)])]
  {
    hide Property;
    hide IdNote;
  }

  lemma MirroredBytes(wide: bool, msb: bool, desc: seq<Byte>)
    ensures Mirrored(wide, msb, desc) ==
      var at, size := if wide then 304 else 196, 16 + Pad4(|desc|);
      Ehdr(wide, msb, if wide then 56 else 32, 2, if wide then 176 else 116, 2) +
      Phdr(wide, msb, 4, at, 32) + Phdr(wide, msb, 4, at + 32, size) +
      Shdr(wide, msb, 7, at, 32) + Shdr(wide, msb, 7, at + 32, size) + PropertyBytes(msb) + IdBytes(msb, desc)
  {
    hide Ehdr;
    hide Phdr;
    hide Shdr;
    hide PropertyBytes;
    hide IdBytes;
    hide Pad4;
  }

  lemma Pairwise(a: seq<Byte>, b: seq<Byte>, c: seq<Byte>, d: seq<Byte>, e: seq<Byte>, f: seq<Byte>, g: seq<Byte>)
    ensures a + b + c + d + e + f + g == a + (b + c) + (d + e) + (f + g)
  {
  }

  lemma TwoSit(f: seq<Byte>, wide: bool, msb: bool, at: nat, q: Note, n: Note, parts: seq<Part>)
    requires parts == [Stretch(at, [q]), Stretch(at + 32, [n])] && at <= |f| < Limit(wide)
    requires f[at..] == NoteBytes(q, msb) + NoteBytes(n, msb) && |NoteBytes(q, msb)| == 32
    requires Flat([q], msb) == NoteBytes(q, msb) && Flat([n], msb) == NoteBytes(n, msb)
    requires Walkable([q]) && Told([q], msb) && Walkable([n]) && Told([n], msb)
    ensures AllSit(f, wide, msb, parts) && SomeStretch(parts)
  {
    hide NoteBytes;
    hide Flat;
    hide Walkable;
    hide Told;
    var b, c := NoteBytes(q, msb), NoteBytes(n, msb);
    assert f[at..at + 32] == f[at..][..32] == b;
    assert f[at + 32..at + 32 + |c|] == f[at..][32..] == c;
    assert parts[0].Stretch?;
  }

  lemma FirstOfTwo(parts: seq<Part>)
    requires |parts| == 2 && PartId(parts[0]) == Miss && PartId(parts[1]) != Miss
    ensures FirstOf(parts) == PartId(parts[1]) && FirstIn(parts, parts) == PartId(parts[1])
  {
    hide PartId;
    assert parts[1..][0] == parts[1];
  }

  lemma OffTwo(f: seq<Byte>, parts: seq<Part>, lo: nat, hi: nat, msb: bool)
    requires HeaderOk(f) && InfoOf(f).msb == msb
    requires BuildIdProofs.Clear(lo, hi, 0, EHDR) && OffTable(f, Segments, lo, hi)
    requires |parts| == 2 && parts[0].Stretch? && FirstOf(parts) != Miss && PartId(parts[1]) != Miss
    requires BuildIdProofs.Clear(lo, hi, parts[0].at, parts[0].at + Length(parts[0], msb))
    ensures ReadsOff(f, parts, parts, lo, hi)
  {
    hide OffTable;
    hide FirstOf;
    hide PartId;
    hide HeaderOk;
    hide Length;
    hide InfoOf;
    assert parts[1..][0] == parts[1];
    assert MissesOff(parts[1..], msb, lo, hi);
    assert MissesOff(parts, msb, lo, hi);
  }

  // ----- a file without program headers

  /** A file with two sections, the second a build ID note. */
  function Object(wide: bool, msb: bool, desc: seq<Byte>): seq<Byte> {
    var at := if wide then 192 else 132;
    Ehdr(wide, msb, if wide then 56 else 32, 0, if wide then 64 else 52, 2) +
    Shdr(wide, msb, 1, 0, 0) + Shdr(wide, msb, 7, at, 16 + Pad4(|desc|)) + IdBytes(msb, desc)
  }

  /** There the ID is found through the sections. */
  lemma SectionId(wide: bool, msb: bool, desc: seq<Byte>, data: seq<Byte>)
    requires |desc| <= 512 && |data| == |desc|
    ensures var f, at := Object(wide, msb, desc), if wide then 208 else 148;
      && Search(f) == Hit(at, |desc|, Hex(desc)) && at + |data| <= |f|
      && Search(Overwrite(f, at, data)) == Hit(at, |data|, Hex(data))
  {
    hide *;
    var n, f, at := IdNote(desc), Object(wide, msb, desc), if wide then 192 else 132;
    var p := Stretch(at, [n]);
    var secs := [Other, p];
    IdOfIs(n, at);
    IdNoteIs(desc, msb);
    OneNote(n, msb);
    OneId(n, at, msb);
    ObjectIs(wide, msb, desc);
    BuiltHeads(wide, msb, [], secs, Flat([n], msb));
    BodySits(f, wide, msb, at, [n]);
    AllLast(f, wide, msb, p);
    BuiltLaid(wide, msb, [], secs, Flat([n], msb));
    FirstOfLast(p);
    PartIs(p, msb);
    SearchFinds(f, [], secs);
    BuiltOff(wide, msb, [], secs, Flat([n], msb), at + 16, at + 16 + |desc|);
    OffLast(f, p, at + 16, at + 16 + |desc|);
    WriteThenFindLaid(f, [], secs, data);
  }

  lemma ObjectIs(wide: bool, msb: bool, desc: seq<Byte>)
    requires |desc| <= 512
    ensures var at := if wide then 192 else 132; var notes := [IdNote(desc)];
      && Object(wide, msb, desc) == Built(wide, msb, [], [Other, Stretch(at, notes)], Flat(notes, msb))
      && End(wide, 0, 2) == at && at + 2000 < Limit(wide)
  {
    hide *;
    var at := if wide then 192 else 132;
    var p := Stretch(at, [IdNote(desc)]);
    IdOfIs(IdNote(desc), at);
    IdNoteIs(desc, msb);
    OneNote(IdNote(desc), msb);
    PartIs(p, msb);
    Layouts(wide);
    NoSegments(wide, msb);
    BuiltIs(wide, msb, [], [Other, p], Flat([IdNote(desc)], msb));
    TwoEntries(Sections, wide, msb, Other, p);
    EntryOf(wide, msb, p);
    ObjectBytes(wide, msb, desc);
    var h := Ehdr(wide, msb, if wide then 56 else 32, 0, if wide then 64 else 52, 2);
    Trailing(h);
    Triple(h, Shdr(wide, msb, 1, 0, 0), Shdr(wide, msb, 7, at, 16 + Pad4(|desc|)), IdBytes(msb, desc));
  }

  lemma NoSegments(wide: bool, msb: bool)
    ensures TableOf(Segments, wide, msb, []) == [] && Middle(wide, 0) == (if wide then 64 else 52)
    ensures End(wide, 0, 2) == (if wide then 192 else 132)
    ensures PartBytes(Sections, wide, msb, Other) == Shdr(wide, msb, 1, 0, 0)
  {
    hide Shdr;
  }

  lemma Triple(a: seq<Byte>, b: seq<Byte>, c: seq<Byte>, d: seq<Byte>)
    ensures a + b + c + d == a + (b + c) + d
  {
  }

  lemma ObjectBytes(wide: bool, msb: bool, desc: seq<Byte>)
    ensures Object(wide, msb, desc) ==
      var at := if wide then 192 else 132;
      Ehdr(wide, msb, if wide then 56 else 32, 0, if wide then 64 else 52, 2) +
      Shdr(wide, msb, 1, 0, 0) + Shdr(wide, msb, 7, at, 16 + Pad4(|desc|)) + IdBytes(msb, desc)
  {
    hide Ehdr;
    hide Shdr;
    hide IdBytes;
    hide Pad4;
  }

  lemma AllLast(f: seq<Byte>, wide: bool, msb: bool, p: Part)
    requires Sits(f, wide, msb, p) && p.Stretch?
    ensures AllSit(f, wide, msb, [Other, p]) && AllSit(f, wide, msb, []) && SomeStretch([Other, p])
  {
    assert [Other, p][1].Stretch?;
  }

  lemma FirstOfLast(p: Part)
    requires p.Stretch?
    ensures FirstOf([Other, p]) == FirstId(p.notes, p.at) && FirstOf([]) == Miss
    ensures FirstIn([], [Other, p]) == FirstId(p.notes, p.at)
  {
    hide FirstId;
    assert [Other, p][1..] == [p];
    FirstOfOne(p);
  }

  lemma OffLast(f: seq<Byte>, p: Part, lo: nat, hi: nat)
    requires HeaderOk(f) && BuildIdProofs.Clear(lo, hi, 0, EHDR)
    requires OffTable(f, Segments, lo, hi) && OffTable(f, Sections, lo, hi) && PartId(p) != Miss
    ensures ReadsOff(f, [], [Other, p], lo, hi)
  {
    hide OffTable;
    hide HeaderOk;
    assert [Other, p][1..] == [p];
    assert MissesOff([p], InfoOf(f).msb, lo, hi);
    hide InfoOf;
  }

  // ----- what goes wrong

  /** A build ID of 513 bytes: the loop never ends. */
  lemma OversizedHangs()
    ensures Search(Sample(true, false, Zeros(513))) == Hang
  {
    SampleId(true, false, Zeros(513), Zeros(513));
  }

  /** A file whose only program header is eight bytes long and not for notes. */
  function Stub(): seq<Byte> {
    Ehdr(true, false, 8, 1, 0, 0) + [1, 0, 0, 0, 0, 0, 0, 0]
  }

  /** Its type is all that is read of it, and the result is uninitialised. */
  lemma NotelessIsGarbage()
    ensures Search(Stub()) == Garbage
  {
    hide *;
    StubIs();
    EhdrSays(Stub(), true, false, 8, 1, 0, 0);
    TableFetched(Stub(), 64, 1, 8, [1, 0, 0, 0, 0, 0, 0, 0]);
    StubEntry();
    NotelessIf(Stub(), [1, 0, 0, 0, 0, 0, 0, 0]);
    SearchGarbage(Stub());
  }

  lemma StubIs()
    ensures Ehdr(true, false, 8, 1, 0, 0) <= Stub() && |Stub()| == 72 && Stub()[64..72] == [1, 0, 0, 0, 0, 0, 0, 0]
    ensures HeadSize(true) == EHDR == 64 && Limit(true) > 0
  {
    hide Ehdr;
  }

  lemma StubEntry()
    ensures EntryKind([1, 0, 0, 0, 0, 0, 0, 0], 0, Segments, Info(false, true)) == Some(1)
  {
    var table: seq<Byte> := [1, 0, 0, 0, 0, 0, 0, 0];
    Widths();
    FromToLe(1, 4);
    assert ToLe(0, 1) == [0] && ToLe(0, 2) == [0, 0] && ToLe(0, 3) == [0, 0, 0];
    assert table[0..4] == ToLe(1, 4);
    hide FromLe;
    hide ToLe;
  }

  lemma NotelessIf(f: seq<Byte>, table: seq<Byte>)
    requires |f| >= EHDR && TableHead(f, Segments, Info(false, true)) == BuildId.Head(64, 1, 8)
    requires TableBytes(f, BuildId.Head(64, 1, 8)) == Some(table)
    requires EntryKind(table, 0, Segments, Info(false, true)) == Some(1)
    ensures Noteless(f, Segments, Info(false, true))
  {
    hide TableHead;
    hide TableBytes;
    hide EntryKind;
    assert NoteFree(table, 8, Segments, Info(false, true), 0);
  }

  /** A note of another kind whose descriptor, 65536 bytes of it, begins like a build ID
      note. */
  function Parcel(): Note {
    Note([88, 0, 0, 0], [], NoteBytes(IdNote([9]), false) + Zeros(0x1_0000 - 20), [], 1)
  }

  lemma ParcelIs()
    ensures var n, id := Parcel(), IdNote([9]);
      && Sized(n) && !Short(n) && |n.desc| == 0x1_0000 && Short(id) && |NoteBytes(id, false)| == 20
      && NameField(id) == GNU && NoteBytes(id, false) <= n.desc
  {
    IdNoteIs([9], false);
    NoteParts(IdNote([9]), false);
    hide NoteBytes;
  }

  /** Its size does not fit 16 bits, so the walk steps into it and finds a build ID where
      there is none. */
  lemma BigStepsWrong()
    ensures var s := NoteBytes(Parcel(), false);
      && Lies(s, 0, Parcel(), false) && FirstId([Parcel()], 0) == Miss
      && NextAt(s, 0, false) == 16 < Size(Parcel())
      && ScanNotes(s, 0, 0, false) == Hit(32, 1, Hex([9]))
  {
    var n, id := Parcel(), IdNote([9]);
    var s := NoteBytes(n, false);
    ParcelIs();
    ParcelBytes();
    ParcelHead();
    hide *;
    ScanTwo(s, id);
  }

  /** Where the parts of that note are. */
  lemma ParcelBytes()
    ensures var n, id := Parcel(), IdNote([9]); var s := NoteBytes(n, false);
      && |s| == Size(n) == 16 + 0x1_0000 && s[12] == 88
      && s[16..36] == NoteBytes(id, false) && GNU <= s[28..]
  {
    hide *;
    var n, id := Parcel(), IdNote([9]);
    var s, b := NoteBytes(n, false), NoteBytes(id, false);
    ParcelIs();
    NoteParts(n, false);
    NineBytes();
    ParcelName();
    assert n.desc[0..20] == n.desc[..20];
    Slice(s, 16, n.desc, 0, 20);
    Slice(s, 16, n.desc, 12, 16);
    assert n.desc[12..16] == b[12..16];
    PrefixOfRest(s, 28, GNU);
  }

  lemma PrefixOfRest(s: seq<Byte>, at: nat, t: seq<Byte>)
    requires at + |t| <= |s| && s[at..at + |t|] == t
    ensures t <= s[at..]
  {
  }

  lemma NineBytes()
    ensures |NoteBytes(IdNote([9]), false)| >= 16 && NoteBytes(IdNote([9]), false)[12..16] == GNU
  {
  }

  lemma ParcelName()
    ensures |NoteBytes(Parcel(), false)| > 12 && NoteBytes(Parcel(), false)[12] == 88
    ensures |NameField(Parcel())| == 4 && Size(Parcel()) == 16 + 0x1_0000 && |GNU| == 4 && HEADER == 12
  {
  }

  lemma ParcelHead()
    ensures var s := NoteBytes(Parcel(), false);
      && Lies(s, 0, Parcel(), false) && |s| >= 12 && NextAt(s, 0, false) == 16
      && Notes.Judge(s, 0, ID, false) == Different
      && FirstId([Parcel()], 0) == Miss
  {
    hide *;
    var n := Parcel();
    var s := NoteBytes(n, false);
    ParcelIs();
    ParcelBytes();
    NoteParts(n, false);
    assert s[0..0 + Size(n)] == s;
    LiesIf(s, 0, n, false);
    ReadNote(s, 0, n, false);
    NotGnu(s);
    StepIs(s);
    ParcelNoId();
  }

  lemma NotGnu(s: seq<Byte>)
    requires |s| > 12 && s[12] == 88
    ensures Notes.Judge(s, 0, ID, false) == Different
  {
    CompareRest(s, 12, GNU);
    hide Compare;
    hide Number;
    assert s[12..][0] == 88;
  }

  lemma StepIs(s: seq<Byte>)
    requires |s| >= 12 && Number(s, 0, 4, false) == |Parcel().name|
    requires Number(s, 4, 4, false) == |Parcel().desc| == 0x1_0000
    ensures NextAt(s, 0, false) == 16
  {
    hide Number;
    assert |Parcel().name| == 4;
    hide Parcel;
  }

  lemma ParcelNoId()
    ensures FirstId([Parcel()], 0) == Miss
  {
    var n := Parcel();
    hide NoteBytes;
    assert [n][1..] == [];
    assert NameField(n)[0] == 88;
    hide Parcel;
  }

  /** A first note that is not a build ID, with one where the walk gets to next. */
  lemma ScanTwo(s: seq<Byte>, id: Note)
    requires |s| >= 36 && NextAt(s, 0, false) == 16 && Notes.Judge(s, 0, ID, false) == Different
    requires Short(id) && id == IdNote([9]) && s[16..36] == NoteBytes(id, false) && GNU <= s[28..]
    ensures ScanNotes(s, 0, 0, false) == Hit(32, 1, Hex([9]))
  {
    hide *;
    ShortIsOk(id);
    IdOfIs(IdNote([9]), 16);
    IdNoteIs([9], false);
    IdOfIs(id, 16);
    LiesIf(s, 16, id, false);
    ReadNote(s, 16, id, false);
    Taken(s, 0, 16, id, false);
    CompareRest(s, 28, GNU);
    JudgeSame(s, 16);
    TwoSteps(s);
  }

  lemma JudgeSame(s: seq<Byte>, off: nat)
    requires off + 12 <= |s| && Compare(s, off + 12, GNU) == Same && Number(s, off + 8, 4, false) == IdNote([9]).kind
    ensures Notes.Judge(s, off, ID, false) == Same
  {
    hide Compare;
    hide Number;
  }

  lemma TwoSteps(s: seq<Byte>)
    requires |s| >= 36 && NextAt(s, 0, false) == 16 && Notes.Judge(s, 0, ID, false) == Different
    requires Notes.Judge(s, 16, ID, false) == Same
    ensures ScanNotes(s, 0, 0, false) == Take(s, 0, 16, false)
  {
    hide Notes.Judge;
    hide NextAt;
    hide Take;
  }

  /** A note without a name whose descriptor says GNU. */
  function Impostor(): Note {
    Note([], [], GNU, [], NT_GNU_BUILD_ID)
  }

  lemma ImpostorIs()
    ensures Short(Impostor()) && NameField(Impostor()) == [] && !Is(Impostor(), ID)
    ensures IdOf(Impostor(), 0) == Hit(12, 4, Hex(GNU))
    ensures Impostor().desc + Impostor().descPad == GNU && Impostor().kind == NT_GNU_BUILD_ID
  {
    hide Hex;
  }

  /** It passes for a build ID. */
  lemma ImpostorFound()
    ensures Short(Impostor()) && FirstId([Impostor()], 0) == Miss
    ensures ScanNotes(Flat([Impostor()], false), 0, 0, false) == Hit(12, 4, Hex(GNU))
  {
    hide *;
    var n := Impostor();
    ImpostorIs();
    ShortIsOk(n);
    OneNote(n, false);
    var s := Flat([n], false);
    assert s[0..] == s;
    WalkableOne(n);
    ScanSees(s, 0, 0, [n], false);
    SeesOne(n);
  }

  lemma WalkableOne(n: Note)
    requires Short(n) && [n][1..] == []
    ensures Walkable([n])
  {
    hide Short;
    hide Is;
    ShortIsOk(n);
  }

  lemma SeesOne(n: Note)
    requires Beyond([n], false) == GNU && n.kind == NT_GNU_BUILD_ID && !Is(n, ID) && [n][1..] == []
    ensures Sees([n], 0, false) == IdOf(n, 0) && FirstId([n], 0) == Miss
  {
    hide Beyond;
    hide Is;
    hide IdOf;
  }
}
