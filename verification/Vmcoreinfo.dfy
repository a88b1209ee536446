/** Editing the VMCOREINFO note of an ELF core file: find the note, rewrite the program
    headers for its new size, and put the new descriptor in its place. */
module Vmcoreinfo {
  import opened Bytes
  import opened Options
  import opened Notes
  import opened NoteWalk
  import opened Phdrs

  const EHDR: nat := 64

  /** What reading the file yields: the table and where it is, the note segment's index,
      the note's first and last position in the file, and its name and descriptor sizes. */
  datatype Saved = Saved(phoff: nat, phdrs: seq<Phdr>, seg: nat, start: nat, end: nat, nameSize: nat, descSize: nat)

  // ----- reading

  /** A 64-bit little-endian ELF file without section headers. */
  predicate HeaderOk(f: seq<Byte>) {
    && |f| >= EHDR && f[..4] == [0x7f, 69, 76, 70] && f[4] == 2 && f[5] == 1
    && FromLe(f[58..60]) == 0 && FromLe(f[54..56]) == ENTRY
  }

  function TableOffset(f: seq<Byte>): nat
    requires |f| >= EHDR
  {
    FromLe(f[32..40])
  }

  function TableLength(f: seq<Byte>): nat
    requires |f| >= EHDR
  {
    FromLe(f[56..58])
  }

  function Bounded(f: seq<Byte>, at: nat, n: nat): bool {
    at + n <= |f|
  }

  /** The index of the first note segment from `i` on, or the number of entries. */
  function FirstNotes(ps: seq<Phdr>, i: nat): (r: nat)
    requires Phdrs.AllOk(ps) && i <= |ps|
    ensures i <= r <= |ps| && (forall j :: i <= j < r ==> Kind(ps[j]) != PT_NOTE)
    ensures r < |ps| ==> Kind(ps[r]) == PT_NOTE
    decreases |ps| - i
  {
    if i == |ps| || Kind(ps[i]) == PT_NOTE then i else FirstNotes(ps, i + 1)
  }

  /** The note found by the walk, unless copying its name would read past the notes or
      the note ends past the file. */
  function FromWalk(f: seq<Byte>, phoff: nat, ps: seq<Phdr>, seg: nat, notes: seq<Byte>, at: nat,
                    w: Walk): Option<Saved> {
    if !w.Walk? || !w.search.Found? || w.search.start + HEADER > |notes| then None
    else
      var s := w.search;
      var nameSize := NameSize(notes, s.start);
      if s.start + HEADER + Pad4(nameSize) > |notes| || at + s.end > |f| || s.end < s.start then None
      else Some(Saved(phoff, ps, seg, at + s.start, at + s.end, nameSize, s.descSize))
  }

  /** What is found through the header table. */
  function FromTable(f: seq<Byte>, phoff: nat, ps: seq<Phdr>): Option<Saved>
    requires Phdrs.AllOk(ps)
  {
    var seg := FirstNotes(ps, 0);
    if seg == |ps| || !Bounded(f, ps[seg].offset, ps[seg].filesz) then None
    else
      var notes := f[ps[seg].offset..ps[seg].offset + ps[seg].filesz];
      FromWalk(f, phoff, ps, seg, notes, ps[seg].offset, Scan(notes, 0, Absent))
  }

  function Parse(f: seq<Byte>): Option<Saved> {
    if !HeaderOk(f) then None
    else
      var phoff, n := TableOffset(f), TableLength(f);
      if !Bounded(f, phoff, n * ENTRY) then None
      else FromTable(f, phoff, DecodeAll(f[phoff..phoff + n * ENTRY]))
  }

  /** Checks the header, reads the table, finds the note segment and walks its notes. */
  method ReadElfData(f: seq<Byte>) returns (r: Option<Saved>)
    ensures r == Parse(f)
  {
    hide HeaderOk;
    hide FromWalk;
    hide DecodeAll;
    hide Scan;
    if !HeaderOk(f) {
      return None;
    }
    assert |f| >= EHDR by { HeaderLength(f); }
    var phoff, n := TableOffset(f), TableLength(f);
    if !Bounded(f, phoff, n * ENTRY) {
      return None;
    }
    var ps := DecodeAll(f[phoff..phoff + n * ENTRY]);
    var seg := 0;
    while seg < |ps|
      invariant 0 <= seg <= |ps| && FirstNotes(ps, seg) == FirstNotes(ps, 0)
    {
      if Kind(ps[seg]) == PT_NOTE {
        break;
      }
      seg := seg + 1;
    }
    if seg == |ps| || !Bounded(f, ps[seg].offset, ps[seg].filesz) {
      return None;
    }
    var notes := f[ps[seg].offset..ps[seg].offset + ps[seg].filesz];
    var w := FindInfo(notes);
    r := FromWalk(f, phoff, ps, seg, notes, ps[seg].offset, w);
  }

  lemma HeaderLength(f: seq<Byte>)
    requires HeaderOk(f)
    ensures |f| >= EHDR
  {
  }

  // ----- what is read, field by field

  /** The ELF header of a file that is not refused: the magic number, 64 bits, little-endian,
      no section headers, program headers of 56 bytes, and those within the file. */
  predicate Supported(f: seq<Byte>) {
    && |f| >= 64 && f[0] == 0x7f && f[1] == 'E' as int && f[2] == 'L' as int && f[3] == 'F' as int
    && f[4] == 2 && f[5] == 1 && Number(f, 58, 2, false) == 0 && Number(f, 54, 2, false) == 56
    && Number(f, 32, 8, false) + 56 * Number(f, 56, 2, false) <= |f|
  }

  /** The type of program header `i` says notes. */
  predicate SaysNotes(f: seq<Byte>, i: nat)
    requires Supported(f) && i < Number(f, 56, 2, false)
  {
    Number(f, Number(f, 32, 8, false) + 56 * i, 4, false) == 4
  }

  /** Program header `i` is the first whose type says notes. */
  predicate FirstSays(f: seq<Byte>, i: nat)
    requires Supported(f)
  {
    i < Number(f, 56, 2, false) && SaysNotes(f, i) && forall j :: 0 <= j < i ==> !SaysNotes(f, j)
  }

  /** The walk finds a note, whose name is within the notes, and which ends within `room`
      bytes from their start. */
  predicate InfoIn(s: seq<Byte>, room: nat) {
    var w := Scan(s, 0, Absent);
    && w.Walk? && w.search.Found? && w.search.start + 12 <= |s| && w.search.end <= room
    && w.search.start + 12 + Pad4(Number(s, w.search.start, 4, false)) <= |s|
  }

  /** The notes that program header `i` tells of are in the file, and the one looked for
      is among them. */
  predicate HasInfo(f: seq<Byte>, i: nat)
    requires Supported(f) && i < Number(f, 56, 2, false)
  {
    var at := Number(f, 32, 8, false) + 56 * i;
    var pos, n := Number(f, at + 8, 8, false), Number(f, at + 32, 8, false);
    pos + n <= |f| && InfoIn(f[pos..pos + n], |f| - pos)
  }

  /** A file that is not refused. */
  ghost predicate Readable(f: seq<Byte>) {
    Supported(f) && exists i: nat :: FirstSays(f, i) && HasInfo(f, i)
  }

  /** What is saved of a readable file stands where the ELF-64 structures have it. */
  ghost predicate Told(f: seq<Byte>, s: Saved) {
    && Supported(f) && s.phoff == Number(f, 32, 8, false) && |s.phdrs| == Number(f, 56, 2, false)
    && (forall i :: 0 <= i < |s.phdrs| ==> EntryAt(f, s.phoff + 56 * i, s.phdrs[i]))
    && FirstSays(f, s.seg) && NoteTold(f, s)
  }

  ghost predicate NoteTold(f: seq<Byte>, s: Saved) {
    && s.start + 12 <= |f|
    && s.nameSize == Number(f, s.start, 4, false) && s.descSize == Number(f, s.start + 4, 4, false)
    && s.end == s.start + 12 + Pad4(s.nameSize) + Pad4(s.descSize)
  }

  lemma HeaderSays(f: seq<Byte>)
    ensures Supported(f) <==> HeaderOk(f) && Bounded(f, TableOffset(f), TableLength(f) * ENTRY)
    ensures |f| >= 64 ==> TableOffset(f) == Number(f, 32, 8, false) && TableLength(f) == Number(f, 56, 2, false)
  {
    hide FromLe;
    if |f| >= 64 {
      assert f[..4] == [0x7f, 69, 76, 70] <==> f[0] == 0x7f && f[1] == 69 && f[2] == 76 && f[3] == 70;
    }
  }

  lemma TableSays(f: seq<Byte>)
    requires Supported(f)
    ensures var ps := Table(f);
      && |ps| == Number(f, 56, 2, false) && Phdrs.AllOk(ps)
      && (forall i :: 0 <= i < |ps| ==> EntryAt(f, Number(f, 32, 8, false) + 56 * i, ps[i]))
      && (forall i :: 0 <= i < |ps| ==> (SaysNotes(f, i) <==> Kind(ps[i]) == PT_NOTE))
  {
    hide DecodeAll;
    hide Number;
    var at, n := Number(f, 32, 8, false), Number(f, 56, 2, false);
    var ps := Table(f);
    forall i | 0 <= i < n
      ensures |ps| == n && EntryAt(f, at + 56 * i, ps[i])
    {
      DecodeAllFields(f, at, n, i);
    }
    hide Supported;
  }

  /** What the walk finds starts and ends where its header says. */
  lemma {:induction false} ScanFinds(s: seq<Byte>, off: nat, best: Search)
    ensures var w := Scan(s, off, best);
      w.Walk? && w.search != best ==>
        && w.search.Found? && w.search.start + 12 <= |s| && w.search.end == NextNote(s, w.search.start)
        && w.search.descSize == DescSize(s, w.search.start)
    decreases |s| - off
  {
    hide Judge;
    hide Number;
    hide Pad4;
    if off + 12 <= |s| {
      ScanFinds(s, NextNote(s, off), best);
      ScanFinds(s, NextNote(s, off), Found(off, NextNote(s, off), DescSize(s, off)));
    }
  }

  /** Which files are read, and what is read of them. */
  lemma ParsedWhen(f: seq<Byte>)
    ensures Parse(f).Some? <==> Readable(f)
    ensures Parse(f).Some? ==> Told(f, Parse(f).value)
  {
    hide *;
    if Supported(f) {
      ParseSupported(f);
      TableSays(f);
      ReadableAt(f, Number(f, 32, 8, false), Table(f));
    } else {
      Unsupported(f);
    }
  }

  /** The header table, decoded. */
  function Table(f: seq<Byte>): seq<Phdr>
    requires Supported(f)
  {
    var at, n := Number(f, 32, 8, false), Number(f, 56, 2, false);
    DecodeAll(f[at..at + n * ENTRY])
  }

  lemma ParseSupported(f: seq<Byte>)
    requires Supported(f)
    ensures |f| >= 64 && Phdrs.AllOk(Table(f)) && Parse(f) == FromTable(f, Number(f, 32, 8, false), Table(f))
  {
    HeaderSays(f);
    hide HeaderOk;
    hide FromTable;
    hide DecodeAll;
    hide TableOffset;
    hide TableLength;
    hide Number;
  }

  lemma Unsupported(f: seq<Byte>)
    requires !Supported(f)
    ensures Parse(f) == None && !Readable(f)
  {
    HeaderSays(f);
    hide HeaderOk;
    hide FromTable;
    hide Supported;
    hide DecodeAll;
    hide TableOffset;
    hide TableLength;
    hide Number;
    if HeaderOk(f) {
      HeaderLength(f);
    }
  }

  lemma ReadableAt(f: seq<Byte>, at: nat, ps: seq<Phdr>)
    requires |f| >= 64 && at == Number(f, 32, 8, false) && |ps| == Number(f, 56, 2, false)
    requires Supported(f) && Phdrs.AllOk(ps)
    requires forall i :: 0 <= i < |ps| ==> EntryAt(f, at + 56 * i, ps[i])
    requires forall i :: 0 <= i < |ps| ==> (SaysNotes(f, i) <==> Kind(ps[i]) == PT_NOTE)
    ensures FromTable(f, at, ps).Some? <==> Readable(f)
    ensures FromTable(f, at, ps).Some? ==> Told(f, FromTable(f, at, ps).value)
  {
    hide *;
    var seg := FirstNotes(ps, 0);
    FirstIs(f, ps);
    ReadableIf(f, seg);
    if seg < |ps| {
      ReadableSegment(f, at, ps, seg);
    } else {
      NoSegment(f, at, ps);
    }
  }

  lemma ReadableSegment(f: seq<Byte>, at: nat, ps: seq<Phdr>, seg: nat)
    requires |f| >= 64 && at == Number(f, 32, 8, false) && |ps| == Number(f, 56, 2, false)
    requires Supported(f) && Phdrs.AllOk(ps)
    requires forall i :: 0 <= i < |ps| ==> EntryAt(f, at + 56 * i, ps[i])
    requires seg == FirstNotes(ps, 0) < |ps| && FirstSays(f, seg)
    ensures FromTable(f, at, ps).Some? <==> HasInfo(f, seg)
    ensures FromTable(f, at, ps).Some? ==> Told(f, FromTable(f, at, ps).value)
  {
    hide *;
    HasInfoWhen(f, seg, ps[seg]);
    SegmentRead(f, at, ps, seg, ps[seg].offset, ps[seg].filesz);
    if FromTable(f, at, ps).Some? {
      ToldIf(f, FromTable(f, at, ps).value);
    }
  }

  lemma SegmentRead(f: seq<Byte>, at: nat, ps: seq<Phdr>, seg: nat, pos: nat, n: nat)
    requires Phdrs.AllOk(ps) && seg == FirstNotes(ps, 0) < |ps| && pos == ps[seg].offset && n == ps[seg].filesz
    ensures var r := FromTable(f, at, ps);
      && (r.Some? <==> pos + n <= |f| && InfoIn(f[pos..pos + n], |f| - pos))
      && (r.Some? ==> r.value.phoff == at && r.value.phdrs == ps && r.value.seg == seg && NoteTold(f, r.value))
  {
    hide *;
    if pos + n <= |f| {
      SegmentWalked(f, at, ps, seg, pos, n, f[pos..pos + n]);
      FromWalkWhen(f, at, ps, seg, pos, n);
    } else {
      NoSegment(f, at, ps);
    }
  }

  lemma SegmentWalked(f: seq<Byte>, at: nat, ps: seq<Phdr>, seg: nat, pos: nat, n: nat, notes: seq<Byte>)
    requires Phdrs.AllOk(ps) && seg == FirstNotes(ps, 0) < |ps| && pos == ps[seg].offset && n == ps[seg].filesz
    requires pos + n <= |f| && notes == f[pos..pos + n]
    ensures FromTable(f, at, ps) == FromWalk(f, at, ps, seg, notes, pos, Scan(notes, 0, Absent))
  {
    hide FromWalk;
    hide Scan;
    hide FirstNotes;
  }

  lemma NoSegment(f: seq<Byte>, at: nat, ps: seq<Phdr>)
    requires Phdrs.AllOk(ps)
    requires var seg := FirstNotes(ps, 0); seg == |ps| || ps[seg].offset + ps[seg].filesz > |f|
    ensures FromTable(f, at, ps) == None
  {
    hide FromWalk;
    hide Scan;
    hide FirstNotes;
  }

  /** The first entry for notes is the only one of which that is true. */
  lemma FirstIs(f: seq<Byte>, ps: seq<Phdr>)
    requires Supported(f) && |ps| == Number(f, 56, 2, false) && Phdrs.AllOk(ps)
    requires forall i :: 0 <= i < |ps| ==> (SaysNotes(f, i) <==> Kind(ps[i]) == PT_NOTE)
    ensures var seg := FirstNotes(ps, 0);
      if seg < |ps| then FirstSays(f, seg) else forall i: nat :: !FirstSays(f, i)
  {
    hide Supported;
    hide SaysNotes;
    hide Kind;
    hide Number;
  }

  lemma HasInfoWhen(f: seq<Byte>, i: nat, p: Phdr)
    requires Supported(f) && i < Number(f, 56, 2, false) && EntryAt(f, Number(f, 32, 8, false) + 56 * i, p)
    ensures HasInfo(f, i) <==>
      p.offset + p.filesz <= |f| && InfoIn(f[p.offset..p.offset + p.filesz], |f| - p.offset)
  {
    hide Supported;
    hide Number;
    hide InfoIn;
  }

  lemma ReadableIf(f: seq<Byte>, i: nat)
    requires Supported(f) && if i < Number(f, 56, 2, false) then FirstSays(f, i) else forall j: nat :: !FirstSays(f, j)
    ensures Readable(f) <==> i < Number(f, 56, 2, false) && HasInfo(f, i)
  {
    hide Supported;
    hide SaysNotes;
    hide Number;
    hide HasInfo;
  }

  lemma ToldIf(f: seq<Byte>, s: Saved)
    requires Supported(f) && s.phoff == Number(f, 32, 8, false) && |s.phdrs| == Number(f, 56, 2, false)
    requires forall i :: 0 <= i < |s.phdrs| ==> EntryAt(f, s.phoff + 56 * i, s.phdrs[i])
    requires FirstSays(f, s.seg) && NoteTold(f, s)
    ensures Told(f, s)
  {
    hide Supported;
    hide EntryAt;
    hide FirstSays;
    hide NoteTold;
    hide Number;
  }

  lemma FromWalkWhen(f: seq<Byte>, phoff: nat, ps: seq<Phdr>, seg: nat, pos: nat, n: nat)
    requires pos + n <= |f|
    ensures var notes := f[pos..pos + n]; var r := FromWalk(f, phoff, ps, seg, notes, pos, Scan(notes, 0, Absent));
      && (r.Some? <==> InfoIn(notes, |f| - pos))
      && (r.Some? ==> r.value.phoff == phoff && r.value.phdrs == ps && r.value.seg == seg && NoteTold(f, r.value))
  {
    var notes := f[pos..pos + n];
    hide *;
    var w := Scan(notes, 0, Absent);
    ScanFinds(notes, 0, Absent);
    InfoMeans(notes, |f| - pos);
    FromWalkMeans(f, phoff, ps, seg, notes, pos, w);
    if InfoIn(notes, |f| - pos) {
      NextIs(notes, w.search.start);
      FoundIsTold(f, pos, notes, w.search, FromWalk(f, phoff, ps, seg, notes, pos, w).value);
    } else if w.Walk? && w.search.Found? && w.search.start + 12 <= |notes| {
      NextIs(notes, w.search.start);
    }
  }

  lemma FoundIsTold(f: seq<Byte>, pos: nat, notes: seq<Byte>, b: Search, s: Saved)
    requires pos + |notes| <= |f| && f[pos..pos + |notes|] == notes && b.Found? && b.start + 12 <= |notes|
    requires s.start == pos + b.start && s.end == pos + b.end && s.descSize == b.descSize
    requires s.nameSize == Number(notes, b.start, 4, false) && s.descSize == Number(notes, b.start + 4, 4, false)
    requires b.end == b.start + 12 + Pad4(s.nameSize) + Pad4(s.descSize)
    ensures NoteTold(f, s)
  {
    SameNumber(f, pos, notes, b.start);
    SameNumber(f, pos, notes, b.start + 4);
    hide Number;
    hide Pad4;
  }

  lemma InfoMeans(s: seq<Byte>, room: nat)
    ensures var w := Scan(s, 0, Absent);
      InfoIn(s, room) <==>
      && w.Walk? && w.search.Found? && w.search.start + 12 <= |s| && w.search.end <= room
      && w.search.start + 12 + Pad4(Number(s, w.search.start, 4, false)) <= |s|
  {
    hide Scan;
    hide Number;
    hide Pad4;
  }

  lemma FromWalkMeans(f: seq<Byte>, phoff: nat, ps: seq<Phdr>, seg: nat, s: seq<Byte>, pos: nat, w: Walk)
    ensures var r := FromWalk(f, phoff, ps, seg, s, pos, w);
      && (r.Some? <==>
        && w.Walk? && w.search.Found? && w.search.start + 12 <= |s| && w.search.start <= w.search.end
        && pos + w.search.end <= |f| && w.search.start + 12 + Pad4(Number(s, w.search.start, 4, false)) <= |s|)
      && (r.Some? ==>
        r.value == Saved(phoff, ps, seg, pos + w.search.start, pos + w.search.end,
                         Number(s, w.search.start, 4, false), w.search.descSize))
  {
    hide Number;
    hide Pad4;
  }

  lemma NextIs(s: seq<Byte>, at: nat)
    requires at + 12 <= |s|
    ensures NameSize(s, at) == Number(s, at, 4, false) && DescSize(s, at) == Number(s, at + 4, 4, false)
    ensures NextNote(s, at) == at + 12 + Pad4(NameSize(s, at)) + Pad4(DescSize(s, at))
  {
  }

  lemma SameNumber(f: seq<Byte>, pos: nat, s: seq<Byte>, at: nat)
    requires pos + |s| <= |f| && f[pos..pos + |s|] == s && at + 4 <= |s|
    ensures Number(f, pos + at, 4, false) == Number(s, at, 4, false)
  {
    Slice(f, pos, s, at, at + 4);
  }

  // ----- writing

  /** A note from its first word, its type and name field, and its descriptor. */
  function Assemble(first: seq<Byte>, rest: seq<Byte>, desc: seq<Byte>): seq<Byte> {
    first + ToLe(|desc|, 4) + rest + desc + Zeros(Pad4(|desc|) - |desc|)
  }

  /** The new note: the old header and name with another descriptor and its size. */
  function NewNote(f: seq<Byte>, s: Saved, desc: seq<Byte>): seq<Byte>
    requires s.start + HEADER + Pad4(s.nameSize) <= |f|
  {
    Assemble(f[s.start..s.start + 4], f[s.start + 8..s.start + HEADER + Pad4(s.nameSize)], desc)
  }

  function SizeDiff(s: Saved, desc: seq<Byte>): int {
    Pad4(|desc|) - Pad4(s.descSize)
  }

  predicate SavedOk(f: seq<Byte>, s: Saved) {
    && s.phoff + |s.phdrs| * ENTRY <= |f| && s.seg < |s.phdrs| && s.start <= s.end <= |f|
    && s.start + HEADER + Pad4(s.nameSize) <= |f|
    && forall i :: 0 <= i < |s.phdrs| ==> PhdrOk(s.phdrs[i])
  }

  /** The file after the edit. */
  function Edited(f: seq<Byte>, s: Saved, desc: seq<Byte>): seq<Byte>
    requires SavedOk(f, s)
  {
    MovedOk(s.phdrs, s.seg, SizeDiff(s, desc));
    var g := Overwrite(f, s.phoff, EncodeAll(Moved(s.phdrs, s.seg, SizeDiff(s, desc))));
    g[..s.start] + NewNote(f, s, desc) + g[s.end..]
  }

  lemma {:induction false} ParseSaved(f: seq<Byte>)
    ensures Parse(f).Some? ==> SavedOk(f, Parse(f).value)
  {
    hide Scan;
    hide DecodeAll;
    hide HeaderOk;
    if HeaderOk(f) {
      HeaderLength(f);
    }
  }

  /** Saves what follows the note, cuts the file where the note starts, and writes the
      new note and the rest. */
  method ShiftData(f: seq<Byte>, start: nat, end: nat, note: seq<Byte>) returns (r: seq<Byte>)
    requires start <= end <= |f|
    ensures r == f[..start] + note + f[end..]
  {
    var saved := f[end..];
    r := f[..start];
    r := r + note;
    r := r + saved;
  }

  /** The whole edit. A file that cannot be read is left as it is. */
  method Edit(f: seq<Byte>, desc: seq<Byte>) returns (ok: bool, r: seq<Byte>)
    ensures ok <==> Parse(f).Some?
    ensures ok <==> Readable(f)
    ensures !ok ==> r == f
    ensures ok ==> SavedOk(f, Parse(f).value) && r == Edited(f, Parse(f).value, desc)
  {
    ParseSaved(f);
    ParsedWhen(f);
    hide Readable;
    hide Parse;
    hide EncodeAll;
    var p := ReadElfData(f);
    if p == None {
      return false, f;
    }
    var s := p.value;
    var d := SizeDiff(s, desc);
    var phdr := new Phdr[|s.phdrs|](i requires 0 <= i < |s.phdrs| => s.phdrs[i]);
    assert phdr[..] == s.phdrs;
    UpdateOffsets(phdr, s.seg, d);
    MovedOk(s.phdrs, s.seg, d);
    r := Overwrite(f, s.phoff, EncodeAll(phdr[..]));
    r := ShiftData(r, s.start, s.end, NewNote(f, s, desc));
    ok := true;
  }
}
