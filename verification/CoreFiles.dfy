/** Core files by the ELF-64 structures: what an edit changes, field by field, and one
    file written out byte for byte, before an edit and after. */
module CoreFiles {
  import opened Bytes
  import opened Options
  import opened Notes
  import opened NoteWalk
  import opened Phdrs
  import opened Vmcoreinfo
  import opened EditProofs

  // ----- fields of the edited file

  lemma EncodedEntry(b: seq<Byte>, at: nat, p: Phdr)
    requires PhdrOk(p) && at + 56 <= |b| && b[at..at + 56] == Encode(p)
    ensures EntryAt(b, at, p)
  {
    EncodeFields(p);
    var e := Encode(p);
    Slice(b, at, e, 0, 4);
    Slice(b, at, e, 8, 16);
    Slice(b, at, e, 32, 40);
    Slice(b, at, e, 40, 48);
    hide Encode;
    hide Value;
    hide Kind;
  }

  lemma {:induction false} EncodeAllAt(ps: seq<Phdr>, i: nat)
    requires Phdrs.AllOk(ps) && i < |ps|
    ensures |EncodeAll(ps)| == 56 * |ps| && EncodeAll(ps)[56 * i..56 * i + 56] == Encode(ps[i])
  {
    hide Encode;
    var n := |ps| - 1;
    var b := EncodeAll(ps[..n]);
    assert EncodeAll(ps) == b + Encode(ps[n]);
    if i < n {
      EncodeAllAt(ps[..n], i);
      assert (b + Encode(ps[n]))[56 * i..56 * i + 56] == b[56 * i..56 * i + 56];
    }
  }

  /** A stretch of the table survives the insertion of the note after it. */
  lemma StretchStays(f: seq<Byte>, at: nat, t: seq<Byte>, start: nat, end: nat, note: seq<Byte>, lo: nat, hi: nat)
    requires at + |t| <= start <= end <= |f| && lo <= hi <= |t|
    ensures var g := Overwrite(f, at, t); var r := g[..start] + note + g[end..];
      at + hi <= |r| && r[at + lo..at + hi] == t[lo..hi]
  {
    var g := Overwrite(f, at, t);
    assert g[at..at + |t|] == t;
    Slice(g, at, t, lo, hi);
    var r := g[..start] + note + g[end..];
    assert r[..start] == g[..start];
    PrefixSlice(r, start, at + lo, at + hi);
    PrefixSlice(g, start, at + lo, at + hi);
  }

  lemma PrefixSlice(s: seq<Byte>, n: nat, lo: nat, hi: nat)
    requires lo <= hi <= n <= |s|
    ensures s[..n][lo..hi] == s[lo..hi]
  {
  }

  /** Every program header of the edited file is the old one, moved. */
  lemma EditedEntry(f: seq<Byte>, s: Saved, desc: seq<Byte>, i: nat)
    requires SavedOk(f, s) && s.phoff + 56 * |s.phdrs| <= s.start && i < |s.phdrs|
    ensures EntryAt(Edited(f, s, desc), s.phoff + 56 * i, MovedAt(s.phdrs[i], i, s.seg, SizeDiff(s, desc)))
  {
    var d := SizeDiff(s, desc);
    var ps := Moved(s.phdrs, s.seg, d);
    MovedOk(s.phdrs, s.seg, d);
    EncodeAllAt(ps, i);
    hide EncodeAll;
    hide Encode;
    hide Overwrite;
    hide EntryAt;
    hide NewNote;
    hide SizeDiff;
    hide MovedAt;
    var t := EncodeAll(ps);
    StretchStays(f, s.phoff, t, s.start, s.end, NewNote(f, s, desc), 56 * i, 56 * i + 56);
    EncodedEntry(Edited(f, s, desc), s.phoff + 56 * i, ps[i]);
  }

  /** The position, the size in the file and the size in memory in a program header. */
  function Place(f: seq<Byte>, at: nat): (nat, nat, nat)
    requires at + 56 <= |f|
  {
    (Number(f, at + 8, 8, false), Number(f, at + 32, 8, false), Number(f, at + 40, 8, false))
  }

  /** What an edit of any readable file does to program header `i`, if they lie before the
      note: with `d` more bytes in the note, the note segment grows by `d` in the file,
      and in memory if it is there, and the segments listed after it move by `d`. */
  lemma EditedFields(f: seq<Byte>, desc: seq<Byte>, i: nat)
    requires Parse(f).Some? && i < Number(f, 56, 2, false)
    requires Number(f, 32, 8, false) + 56 * Number(f, 56, 2, false) <= Parse(f).value.start
    ensures var s := Parse(f).value;
      && SavedOk(f, s)
      && var at := Number(f, 32, 8, false) + 56 * i; var g := Edited(f, s, desc);
      && at + 56 <= |f| && at + 56 <= |g|
      && var d := Pad4(|desc|) - Pad4(Number(f, s.start + 4, 4, false)); var (pos, size, mem) := Place(f, at);
      Place(g, at) ==
        if i < s.seg then (pos, size, mem)
        else if i == s.seg then
          (pos, (size + d) % 0x1_0000_0000_0000_0000, if mem == 0 then 0 else (mem + d) % 0x1_0000_0000_0000_0000)
        else ((pos + d) % 0x1_0000_0000_0000_0000, size, mem)
  {
    hide *;
    var s := Parse(f).value;
    ParsedWhen(f);
    ParseSaved(f);
    ToldMeans(f, s);
    EditedEntry(f, s, desc, i);
    assert EntryAt(f, s.phoff + 56 * i, s.phdrs[i]);
    PlaceIs(f, s.phoff + 56 * i, s.phdrs[i]);
    MovedMeans(s, desc, i);
    PlaceIs(Edited(f, s, desc), s.phoff + 56 * i, MovedAt(s.phdrs[i], i, s.seg, SizeDiff(s, desc)));
  }

  lemma ToldMeans(f: seq<Byte>, s: Saved)
    requires Told(f, s) && SavedOk(f, s)
    ensures |f| >= 64 && s.phoff == Number(f, 32, 8, false) && |s.phdrs| == Number(f, 56, 2, false) && s.end <= |f|
    ensures forall i :: 0 <= i < |s.phdrs| ==> EntryAt(f, s.phoff + 56 * i, s.phdrs[i])
    ensures s.start + 12 <= |f| && s.descSize == Number(f, s.start + 4, 4, false)
    ensures s.phoff + 56 * |s.phdrs| <= |f|
  {
    hide Number;
    hide EntryAt;
    hide FirstSays;
  }

  lemma PlaceIs(f: seq<Byte>, at: nat, p: Phdr)
    requires EntryAt(f, at, p)
    ensures at + 56 <= |f| && Place(f, at) == (p.offset, p.filesz, p.memsz)
  {
    hide Number;
    hide Kind;
  }

  lemma MovedMeans(s: Saved, desc: seq<Byte>, i: nat)
    requires i < |s.phdrs|
    ensures var d, p := Pad4(|desc|) - Pad4(s.descSize), s.phdrs[i];
      var q := MovedAt(p, i, s.seg, SizeDiff(s, desc));
      (q.offset, q.filesz, q.memsz) ==
        if i < s.seg then (p.offset, p.filesz, p.memsz)
        else if i == s.seg then
          (p.offset, (p.filesz + d) % 0x1_0000_0000_0000_0000,
           if p.memsz == 0 then 0 else (p.memsz + d) % 0x1_0000_0000_0000_0000)
        else ((p.offset + d) % 0x1_0000_0000_0000_0000, p.filesz, p.memsz)
  {
    hide Pad4;
  }

  // ----- a core file, byte by byte

  const NONE: seq<Byte> := [0, 0, 0, 0, 0, 0, 0, 0]

  /** A number below 256 in eight bytes. */
  function Eight(v: Byte): seq<Byte> {
    [v, 0, 0, 0, 0, 0, 0, 0]
  }

  /** An ELF header for a core file with two program headers right after it. */
  const HEAD: seq<Byte> :=
    [0x7f, 0x45, 0x4c, 0x46, 2, 1, 1, 0] + NONE + [4, 0, 62, 0, 1, 0, 0, 0] + NONE + Eight(64) + NONE +
    [0, 0, 0, 0, 64, 0, 56, 0] + [2, 0, 0, 0, 0, 0, 0, 0]

  /** The header of the note segment: at 176, of `size` bytes, and not in memory. */
  function NoteHead(size: Byte): seq<Byte> {
    [4, 0, 0, 0, 0, 0, 0, 0] + Eight(176) + NONE + NONE + Eight(size) + NONE + Eight(4)
  }

  /** The header of a segment of 4 bytes at `place`, which has 8 in memory. */
  function LoadHead(place: Byte): seq<Byte> {
    [1, 0, 0, 0, 6, 0, 0, 0] + Eight(place) + [0, 16, 0, 0, 0, 0, 0, 0] + [0, 16, 0, 0, 0, 0, 0, 0] + Eight(4) +
    Eight(8) + Eight(1)
  }

  /** VMCOREINFO with the descriptor "abc". */
  const OLD_NOTE: seq<Byte> := [
    11, 0, 0, 0, 3, 0, 0, 0, 0, 0, 0, 0] + [86, 77, 67, 79, 82, 69, 73, 78, 70, 79, 0, 0] + [97, 98, 99, 0]

  /** VMCOREINFO with the descriptor "hello". */
  const NEW_NOTE: seq<Byte> := [
    11, 0, 0, 0, 5, 0, 0, 0, 0, 0, 0, 0] + [86, 77, 67, 79, 82, 69, 73, 78, 70, 79, 0, 0] +
    [104, 101, 108, 108, 111, 0, 0, 0]

  /** The two entries. */
  function NoteEntry(size: Byte): Phdr {
    Phdr([4, 0, 0, 0, 0, 0, 0, 0], 176, NONE + NONE, size, 0, Eight(4))
  }

  function LoadEntry(place: Byte): Phdr {
    Phdr([1, 0, 0, 0, 6, 0, 0, 0], place, [0, 16, 0, 0, 0, 0, 0, 0] + [0, 16, 0, 0, 0, 0, 0, 0], 4, 8, Eight(1))
  }

  function InfoNote(desc: seq<Byte>): Note {
    Note(VMCOREINFO, [0], desc, Zeros(Pad4(|desc|) - |desc|), 0)
  }

  function Core(size: Byte, place: Byte, desc: seq<Byte>): Layout {
    Layout([NoteEntry(size), LoadEntry(place)], 0, [InfoNote(desc)], 0)
  }

  lemma {:induction false} SmallLe(v: Byte, n: nat)
    requires n > 0
    ensures ToLe(v, n) == [v] + Zeros(n - 1)
  {
    ZeroLe(n - 1);
    assert ToLe(v, n) == [v % 256] + ToLe(v / 256, n - 1) && v / 256 == 0 && v % 256 == v;
  }

  lemma {:induction false} ZeroLe(n: nat)
    ensures ToLe(0, n) == Zeros(n)
  {
    if n > 0 {
      ZeroLe(n - 1);
      assert Zeros(n) == [0] + Zeros(n - 1);
    }
  }

  lemma ZerosAre()
    ensures Zeros(0) == [] && Zeros(1) == [0] && Zeros(3) == [0, 0, 0] && Zeros(6) == [0, 0, 0, 0, 0, 0]
    ensures Zeros(7) == [0, 0, 0, 0, 0, 0, 0]
    ensures Zeros(16) == [0, 0, 0, 0, 0, 0, 0, 0, 0, 0, 0, 0, 0, 0, 0, 0]
  {
  }

  lemma EntriesOk(size: Byte, place: Byte)
    ensures var ps := [NoteEntry(size), LoadEntry(place)];
      && Phdrs.AllOk(ps) && |ps| == 2 && EncodeAll(ps) == NoteHead(size) + LoadHead(place)
      && FirstNotes(ps, 0) == 0 && ps[0].offset == 176 && ps[0].filesz == size
  {
    NoteEncoded(size);
    LoadEncoded(place);
    Kind4(NoteEntry(size));
    hide PhdrOk;
    hide Kind;
    hide EncodeAll;
    EncodeTwo(NoteEntry(size), LoadEntry(place));
  }

  lemma EncodeTwo(p: Phdr, q: Phdr)
    requires PhdrOk(p) && PhdrOk(q)
    ensures Phdrs.AllOk([p, q]) && EncodeAll([p, q]) == Encode(p) + Encode(q)
  {
    hide Encode;
    hide PhdrOk;
    assert [p, q][..1] == [p] && [p][..0] == [];
    assert EncodeAll([]) == [];
    assert EncodeAll([p]) == [] + Encode(p);
  }

  lemma Kind4(p: Phdr)
    requires PhdrOk(p) && p.kindFlags == [4, 0, 0, 0, 0, 0, 0, 0]
    ensures Kind(p) == 4
  {
    WordIs(4, 0, 0, 0);
    assert p.kindFlags[..4] == [4, 0, 0, 0];
    hide FromLe;
  }

  lemma EightIs(v: Byte)
    ensures ToLe(v, 8) == Eight(v) && v < 0x1_0000_0000_0000_0000 && FromLe(Eight(v)) == v && |Eight(v)| == 8
  {
    SmallLe(v, 8);
    ZerosAre();
    Widths();
    FromToLe(v, 8);
    hide FromLe;
    hide ToLe;
    hide Zeros;
  }

  lemma Regroup(a: seq<Byte>, b: seq<Byte>, c: seq<Byte>, d: seq<Byte>, e: seq<Byte>, f: seq<Byte>, g: seq<Byte>)
    ensures a + b + (c + d) + e + f + g == a + b + c + d + e + f + g
  {
  }

  lemma Encoded(p: Phdr, b: seq<Byte>, c: seq<Byte>, d: seq<Byte>, e: seq<Byte>, f: seq<Byte>)
    requires PhdrOk(p) && p.addresses == c + d
    requires ToLe(p.offset, 8) == b && ToLe(p.filesz, 8) == e && ToLe(p.memsz, 8) == f
    ensures Encode(p) == p.kindFlags + b + c + d + e + f + p.align
  {
    hide ToLe;
    Regroup(p.kindFlags, b, c, d, e, f, p.align);
  }

  lemma NoteEncoded(size: Byte)
    ensures PhdrOk(NoteEntry(size)) && Encode(NoteEntry(size)) == NoteHead(size)
  {
    EightIs(176);
    EightIs(size);
    EightIs(0);
    EightIs(4);
    assert Eight(0) == NONE;
    hide Eight;
    hide ToLe;
    hide Encode;
    Encoded(NoteEntry(size), Eight(176), NONE, NONE, Eight(size), NONE);
  }

  lemma LoadEncoded(place: Byte)
    ensures PhdrOk(LoadEntry(place)) && Encode(LoadEntry(place)) == LoadHead(place)
  {
    EightIs(place);
    EightIs(4);
    EightIs(8);
    EightIs(1);
    var w: seq<Byte> := [0, 16, 0, 0, 0, 0, 0, 0];
    assert |w| == 8 && |w + w| == 16;
    hide Eight;
    hide ToLe;
    hide Encode;
    Encoded(LoadEntry(place), Eight(place), w, w, Eight(4), Eight(8));
  }

  lemma HeadPieces(a: seq<Byte>, b: seq<Byte>, c: seq<Byte>, d: seq<Byte>, e: seq<Byte>, f: seq<Byte>, g: seq<Byte>,
                   h: seq<Byte>)
    requires |a| == |b| == |c| == |d| == |e| == |f| == |g| == |h| == 8
    ensures var s := a + b + c + d + e + f + g + h;
      && |s| == 64 && s[..4] == a[..4] && s[4] == a[4] && s[5] == a[5] && s[32..40] == e
      && s[54..56] == g[6..8] && s[56..58] == h[..2] && s[58..60] == h[2..4]
  {
  }

  lemma TwoBytes(a: Byte, b: Byte)
    ensures FromLe([a, b]) == a + 256 * b
  {
    assert [a, b][1..] == [b] && [b][1..] == [] && FromLe([b]) == b;
  }

  lemma HeadOk()
    ensures HeaderOk(HEAD) && TableOffset(HEAD) == 64 && TableLength(HEAD) == 2 && |HEAD| == 64
  {
    EightIs(64);
    TwoBytes(0, 0);
    TwoBytes(56, 0);
    TwoBytes(2, 0);
    var a: seq<Byte> := [0x7f, 0x45, 0x4c, 0x46, 2, 1, 1, 0];
    var g: seq<Byte> := [0, 0, 0, 0, 64, 0, 56, 0];
    var h: seq<Byte> := [2, 0, 0, 0, 0, 0, 0, 0];
    assert a[..4] == [0x7f, 69, 76, 70] && g[6..8] == [56, 0] && h[..2] == [2, 0] && h[2..4] == [0, 0];
    HeadPieces(a, NONE, [4, 0, 62, 0, 1, 0, 0, 0], NONE, Eight(64), NONE, g, h);
    hide FromLe;
    hide Eight;
  }

  lemma HeadOf(n: Note, name: Byte, size: Byte)
    requires |n.name| == name && |n.desc| == size && n.kind == 0
    ensures Head(n, false) == [name, 0, 0, 0, size, 0, 0, 0, 0, 0, 0, 0]
  {
    SmallLe(name, 4);
    SmallLe(size, 4);
    SmallLe(0, 4);
    ZerosAre();
    hide ToLe;
    hide Zeros;
    assert [name] + [0, 0, 0] == [name, 0, 0, 0];
    assert [size] + [0, 0, 0] == [size, 0, 0, 0];
    assert [0] + [0, 0, 0] == [0, 0, 0, 0];
  }

  lemma NoteIs(desc: seq<Byte>, size: Byte)
    requires |desc| == size
    ensures var n := InfoNote(desc);
      && Sized(n) && Is(n, INFO) && Size(n) == 24 + Pad4(size) && Plain([n], 1)
      && Flat([n], false) == NoteBytes(n, false) && n.desc == desc
      && NoteBytes(n, false) ==
         [11, 0, 0, 0, size, 0, 0, 0, 0, 0, 0, 0] + (VMCOREINFO + [0]) + (desc + Zeros(Pad4(size) - size))
  {
    var n := InfoNote(desc);
    HeadOf(n, 11, size);
    assert NameField(n) == VMCOREINFO + [0];
    assert [n][1..] == [];
    hide Head;
  }

  const ABC: seq<Byte> := [97, 98, 99]
  const HELLO: seq<Byte> := [104, 101, 108, 108, 111]
  const REST: seq<Byte> := [1, 2, 3, 4]

  lemma NotesSpelled()
    ensures NoteBytes(InfoNote(ABC), false) == OLD_NOTE && NoteBytes(InfoNote(HELLO), false) == NEW_NOTE
    ensures |OLD_NOTE| == 28 && |NEW_NOTE| == 32
  {
    NoteIs(ABC, 3);
    NoteIs(HELLO, 5);
    ZerosAre();
    hide NoteBytes;
    hide Zeros;
    assert Pad4(3) == 4 && Pad4(5) == 8;
    assert VMCOREINFO + [0] == [86, 77, 67, 79, 82, 69, 73, 78, 70, 79, 0, 0];
    assert ABC + [0] == [97, 98, 99, 0] && HELLO + [0, 0, 0] == [104, 101, 108, 108, 111, 0, 0, 0];
  }

  lemma CoreFile(size: Byte, place: Byte, desc: seq<Byte>)
    requires |desc| < 256
    ensures Phdrs.AllOk(Core(size, place, desc).phdrs)
    ensures FileOf(Core(size, place, desc), HEAD, [], REST) ==
      HEAD + NoteHead(size) + LoadHead(place) + NoteBytes(InfoNote(desc), false) + REST
  {
    EntriesOk(size, place);
    NoteIs(desc, |desc|);
    hide EncodeAll;
    hide Flat;
    hide NoteBytes;
    hide NoteHead;
    hide LoadHead;
    hide NoteEntry;
    hide LoadEntry;
    hide InfoNote;
    Unsplit(HEAD, NoteHead(size), LoadHead(place), NoteBytes(InfoNote(desc), false), REST);
  }

  lemma Unsplit(a: seq<Byte>, t: seq<Byte>, u: seq<Byte>, s: seq<Byte>, c: seq<Byte>)
    ensures Join(a, t + u, [], s, c) == a + t + u + s + c
  {
  }

  lemma CorePlan()
    ensures var l := Core(28, 204, ABC);
      && PlanOk(l, HEAD, []) && l.k < |l.notes|
      && NewLayout(l, HELLO) == Core(32, 208, HELLO) && |Flat(NewLayout(l, HELLO).notes, false)| == 32
  {
    HeadOk();
    EntriesOk(28, 204);
    NoteIs(ABC, 3);
    NoteIs(HELLO, 5);
    NotesSpelled();
    assert [NoteEntry(28), LoadEntry(204)][0] == NoteEntry(28);
    CoreMoves();
    CoreNotes();
    hide HEAD;
    hide HeaderOk;
    hide TableOffset;
    hide TableLength;
    hide FirstNotes;
    hide EncodeAll;
    hide NoteBytes;
    hide Flat;
    hide Plain;
    hide InfoNote;
    hide NoteEntry;
    hide LoadEntry;
  }

  lemma CoreMoves()
    ensures Moved([NoteEntry(28), LoadEntry(204)], 0, 4) == [NoteEntry(32), LoadEntry(208)]
    ensures Pad4(|HELLO|) - Pad4(|ABC|) == 4
  {
  }

  lemma CoreNotes()
    ensures WithDesc(InfoNote(ABC), HELLO) == InfoNote(HELLO)
    ensures [InfoNote(ABC)][0 := InfoNote(HELLO)] == [InfoNote(HELLO)] && InfoNote(ABC).desc == ABC
  {
  }

  /** Editing the descriptor from "abc" to "hello": the note and its segment grow by four
      bytes, the size in memory stays zero, and the other segment moves. */
  method EditCore() returns (f: seq<Byte>, ok: bool, r: seq<Byte>)
    ensures f == HEAD + NoteHead(28) + LoadHead(204) + OLD_NOTE + [1, 2, 3, 4]
    ensures ok && r == HEAD + NoteHead(32) + LoadHead(208) + NEW_NOTE + [1, 2, 3, 4]
  {
    f := HEAD + NoteHead(28) + LoadHead(204) + OLD_NOTE + REST;
    CoreEdited(f);
    hide Parse;
    hide Edited;
    hide Readable;
    ok, r := Edit(f, HELLO);
  }

  lemma CoreEdited(f: seq<Byte>)
    requires f == HEAD + NoteHead(28) + LoadHead(204) + OLD_NOTE + REST
    ensures Parse(f).Some? && SavedOk(f, Parse(f).value)
    ensures Edited(f, Parse(f).value, HELLO) == HEAD + NoteHead(32) + LoadHead(208) + NEW_NOTE + REST
  {
    hide *;
    Lengths();
    CorePlan();
    CoreFile(28, 204, ABC);
    CoreFile(32, 208, HELLO);
    NotesSpelled();
    EditThenRead(Core(28, 204, ABC), HEAD, [], REST, HELLO);
  }

  lemma Lengths()
    ensures |ABC| == 3 && |HELLO| == 5 < LIMIT && 32 < WRAP
  {
  }
}
