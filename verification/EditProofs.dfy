/** What editing the note does to a well-laid-out file: it can be read again, the new
    descriptor is found, every other segment's bytes move with its offset, and editing
    back undoes it. */
module EditProofs {
  import opened Bytes
  import opened Options
  import opened Notes
  import opened NoteWalk
  import opened Phdrs
  import opened Vmcoreinfo

  /** The header table, the note segment and its notes, and the note to be edited. */
  datatype Layout = Layout(phdrs: seq<Phdr>, seg: nat, notes: seq<Note>, k: nat)

  /** A file in five parts: up to the table, the table, up to the note segment, the note
      segment, and the rest. */
  function Join(a: seq<Byte>, t: seq<Byte>, b: seq<Byte>, s: seq<Byte>, c: seq<Byte>): seq<Byte> {
    a + t + b + s + c
  }

  lemma Parts(a: seq<Byte>, t: seq<Byte>, b: seq<Byte>, s: seq<Byte>, c: seq<Byte>)
    ensures var f := Join(a, t, b, s, c); var i := |a|; var j := i + |t|; var k := j + |b|; var l := k + |s|;
      && |f| == l + |c| && f[..i] == a && f[i..j] == t && f[j..k] == b && f[k..l] == s && f[l..] == c
  {
  }

  /** The sizes and kinds the editor relies on; the table lies between the ELF header and
      the note segment; note `k` is the one looked for, and none after it passes for
      it. */
  ghost predicate PlanOk(l: Layout, a: seq<Byte>, b: seq<Byte>) {
    && |a| >= EHDR && HeaderOk(a) && TableOffset(a) == |a| && TableLength(a) == |l.phdrs|
    && Phdrs.AllOk(l.phdrs) && l.seg < |l.phdrs| && FirstNotes(l.phdrs, 0) == l.seg
    && AllSized(l.notes) && l.k < |l.notes| && Is(l.notes[l.k], INFO) && Plain(l.notes, l.k + 1)
    && l.phdrs[l.seg].offset == |a| + |l.phdrs| * ENTRY + |b| && l.phdrs[l.seg].filesz == |Flat(l.notes, false)|
  }

  lemma PlanFacts(l: Layout, a: seq<Byte>, b: seq<Byte>)
    requires PlanOk(l, a, b)
    ensures Phdrs.AllOk(l.phdrs) && l.k < |l.notes| && l.seg < |l.phdrs| && Sized(l.notes[l.k])
    ensures AllSized(l.notes) && Is(l.notes[l.k], INFO) && Plain(l.notes, l.k + 1)
    ensures l.phdrs[l.seg].offset == |a| + |l.phdrs| * ENTRY + |b| && l.phdrs[l.seg].filesz == |Flat(l.notes, false)|
  {
  }

  /** A file with that layout. */
  function FileOf(l: Layout, a: seq<Byte>, b: seq<Byte>, c: seq<Byte>): seq<Byte>
    requires Phdrs.AllOk(l.phdrs)
  {
    Join(a, EncodeAll(l.phdrs), b, Flat(l.notes, false), c)
  }

  lemma HeaderStays(f: seq<Byte>, a: seq<Byte>)
    requires |a| >= EHDR && a <= f
    ensures HeaderOk(f) == HeaderOk(a) && TableOffset(f) == TableOffset(a) && TableLength(f) == TableLength(a)
  {
    assert f[..4] == a[..4] && f[58..60] == a[58..60] && f[54..56] == a[54..56];
    assert f[32..40] == a[32..40] && f[56..58] == a[56..58];
  }

  /** The segment before the chosen note, and after it. */
  function Lead(l: Layout): seq<Byte>
    requires l.k < |l.notes|
  {
    Flat(l.notes[..l.k], false)
  }

  function Trail(l: Layout): seq<Byte>
    requires l.k < |l.notes|
  {
    Flat(l.notes[l.k + 1..], false)
  }

  /** What reading such a file yields. */
  function Reading(l: Layout, phoff: nat): Saved
    requires l.k < |l.notes| && l.seg < |l.phdrs|
  {
    var n := l.notes[l.k];
    var at := l.phdrs[l.seg].offset + |Lead(l)|;
    Saved(phoff, l.phdrs, l.seg, at, at + Size(n), |n.name|, |n.desc|)
  }

  lemma {:induction false} FlatAppend(xs: seq<Note>, ys: seq<Note>)
    ensures Flat(xs + ys, false) == Flat(xs, false) + Flat(ys, false)
    decreases |xs|
  {
    if xs == [] {
      assert xs + ys == ys;
    } else {
      assert (xs + ys)[1..] == xs[1..] + ys;
      FlatAppend(xs[1..], ys);
    }
  }

  /** The segment around note `k`. */
  lemma FlatAround(notes: seq<Note>, k: nat)
    requires k < |notes|
    ensures Flat(notes, false) == Flat(notes[..k], false) + NoteBytes(notes[k], false) + Flat(notes[k + 1..], false)
  {
    FlatSplit(notes, k);
    FlatFrom(notes, k);
    hide *;
    Associate(Flat(notes[..k], false), NoteBytes(notes[k], false), Flat(notes[k + 1..], false));
  }

  lemma FlatSplit(notes: seq<Note>, k: nat)
    requires k <= |notes|
    ensures Flat(notes, false) == Flat(notes[..k], false) + Flat(notes[k..], false)
  {
    hide *;
    assert notes == notes[..k] + notes[k..];
    FlatAppend(notes[..k], notes[k..]);
  }

  lemma FlatFrom(notes: seq<Note>, k: nat)
    requires k < |notes|
    ensures Flat(notes[k..], false) == NoteBytes(notes[k], false) + Flat(notes[k + 1..], false)
  {
    hide NoteBytes;
    assert notes[k..][1..] == notes[k + 1..];
  }

  lemma Associate(x: seq<Byte>, y: seq<Byte>, z: seq<Byte>)
    ensures x + (y + z) == x + y + z
  {
  }

  lemma ParseIs(f: seq<Byte>, phoff: nat, ps: seq<Phdr>, seg: nat, notes: seq<Byte>)
    requires HeaderOk(f) && TableOffset(f) == phoff && TableLength(f) == |ps| && phoff + |ps| * ENTRY <= |f|
    requires DecodeAll(f[phoff..phoff + |ps| * ENTRY]) == ps && Phdrs.AllOk(ps)
    requires FirstNotes(ps, 0) == seg && seg < |ps|
    requires ps[seg].offset + ps[seg].filesz <= |f| && f[ps[seg].offset..ps[seg].offset + ps[seg].filesz] == notes
    ensures Parse(f) == FromWalk(f, phoff, ps, seg, notes, ps[seg].offset, Scan(notes, 0, Absent))
  {
    hide HeaderOk;
    hide FromWalk;
    hide DecodeAll;
    hide Scan;
    hide FirstNotes;
    HeaderLength(f);
  }

  lemma FromWalkIs(f: seq<Byte>, l: Layout, phoff: nat)
    requires AllSized(l.notes) && l.k < |l.notes| && Is(l.notes[l.k], INFO) && Plain(l.notes, l.k + 1)
    requires l.seg < |l.phdrs|
    requires l.phdrs[l.seg].offset + |Flat(l.notes, false)| <= |f|
    ensures var s := Flat(l.notes, false);
      FromWalk(f, phoff, l.phdrs, l.seg, s, l.phdrs[l.seg].offset, Scan(s, 0, Absent)) == Some(Reading(l, phoff))
  {
    hide Scan;
    hide NoteBytes;
    hide NameSize;
    hide DescSize;
    WalkFinds(l.notes, l.k);
    NoteInPlace(l.notes, l.k);
    hide Flat;
  }

  /** A well-laid-out file is read as its layout says, and the walk over its notes stops
      exactly at the end of the segment. */
  lemma ReadsBack(l: Layout, a: seq<Byte>, b: seq<Byte>, c: seq<Byte>)
    requires PlanOk(l, a, b)
    ensures Parse(FileOf(l, a, b, c)) == Some(Reading(l, |a|))
    ensures var f := FileOf(l, a, b, c); var p := l.phdrs[l.seg];
      && p.offset + p.filesz <= |f|
      && var w := Scan(f[p.offset..p.offset + p.filesz], 0, Absent);
      w.Walk? && w.stop == p.filesz
  {
    hide HeaderOk;
    hide TableOffset;
    hide TableLength;
    hide DecodeAll;
    hide EncodeAll;
    hide Flat;
    hide NoteBytes;
    hide Scan;
    hide Parse;
    hide FromWalk;
    hide FirstNotes;
    hide Reading;
    hide Is;
    hide Sized;
    var f := FileOf(l, a, b, c);
    var p := l.phdrs[l.seg];
    var t, s := EncodeAll(l.phdrs), Flat(l.notes, false);
    Parts(a, t, b, s, c);
    assert a <= f;
    hide Join;
    HeaderStays(f, a);
    DecodeEncodeAll(l.phdrs);
    WalkFinds(l.notes, l.k);
    ParseIs(f, |a|, l.phdrs, l.seg, s);
    FromWalkIs(f, l, |a|);
  }

  /** Reading note `k` where it lies in the segment. */
  lemma NoteInPlace(notes: seq<Note>, k: nat)
    requires AllSized(notes) && k < |notes|
    ensures var s := Flat(notes, false); var at := |Flat(notes[..k], false)|; var n := notes[k];
      && at + Size(n) <= |s| && s[at..at + Size(n)] == NoteBytes(n, false)
      && NameSize(s, at) == |n.name| && DescSize(s, at) == |n.desc|
  {
    hide *;
    var n := notes[k];
    OneSized(notes, k);
    FlatAround(notes, k);
    NoteParts(n, false);
    Middle(Flat(notes[..k], false), NoteBytes(n, false), Flat(notes[k + 1..], false));
    LiesIf(Flat(notes, false), |Flat(notes[..k], false)|, n, false);
    StepIs(Flat(notes, false), |Flat(notes[..k], false)|, n);
  }

  lemma OneSized(notes: seq<Note>, k: nat)
    requires AllSized(notes) && k < |notes|
    ensures Sized(notes[k])
  {
  }

  lemma Middle(x: seq<Byte>, y: seq<Byte>, z: seq<Byte>)
    ensures |x| + |y| <= |x + y + z| && (x + y + z)[|x|..|x| + |y|] == y
  {
  }

  // ----- the edit, part by part

  function WithDesc(n: Note, desc: seq<Byte>): Note {
    n.(desc := desc, descPad := Zeros(Pad4(|desc|) - |desc|))
  }

  /** The layout with another descriptor in the chosen note. */
  function NewLayout(l: Layout, desc: seq<Byte>): Layout
    requires l.k < |l.notes|
  {
    Layout(Moved(l.phdrs, l.seg, Pad4(|desc|) - Pad4(|l.notes[l.k].desc|)), l.seg,
           l.notes[l.k := WithDesc(l.notes[l.k], desc)], l.k)
  }

  /** The note the editor assembles is the old note with the new descriptor. */
  lemma NewNoteIs(f: seq<Byte>, s: Saved, n: Note, desc: seq<Byte>)
    requires Sized(n) && s.start + Size(n) <= |f| && f[s.start..s.start + Size(n)] == NoteBytes(n, false)
    requires s.nameSize == |n.name|
    ensures NewNote(f, s, desc) == NoteBytes(WithDesc(n, desc), false)
  {
    var bytes := NoteBytes(n, false);
    NotePieces(n);
    var m := HEADER + |NameField(n)|;
    NoteShape(n, desc);
    Slice(f, s.start, bytes, 0, 4);
    Slice(f, s.start, bytes, 8, m);
    hide Assemble;
    hide NoteBytes;
    hide ToLe;
    hide Sized;
    hide NameField;
    hide Size;
  }

  lemma NoteShape(n: Note, desc: seq<Byte>)
    ensures NoteBytes(WithDesc(n, desc), false) == Assemble(ToLe(|n.name|, 4), ToLe(n.kind, 4) + NameField(n), desc)
  {
    var h, w, k, x, d, p := ToLe(|n.name|, 4), ToLe(|desc|, 4), ToLe(n.kind, 4), NameField(n), desc,
        Zeros(Pad4(|desc|) - |desc|);
    assert Head(WithDesc(n, desc), false) == h + w + k;
    hide Head;
    hide ToLe;
    hide Zeros;
    hide Pad4;
    assert h + w + k + x + (d + p) == h + w + (k + x) + d + p;
  }

  lemma NotePieces(n: Note)
    requires Sized(n)
    ensures var b := NoteBytes(n, false); var m := HEADER + |NameField(n)|;
      && m == HEADER + Pad4(|n.name|) && m <= |b| == Size(n)
      && b[0..4] == ToLe(|n.name|, 4) && b[8..m] == ToLe(n.kind, 4) + NameField(n)
  {
  }

  /** Replacing the middle of the segment, seen in the whole file. */
  lemma Replace(a: seq<Byte>, t: seq<Byte>, t': seq<Byte>, b: seq<Byte>, s1: seq<Byte>, n: seq<Byte>, n': seq<Byte>,
                s2: seq<Byte>, c: seq<Byte>)
    requires |t| == |t'|
    ensures var f := Join(a, t, b, s1 + n + s2, c);
      var start := |a| + |t| + |b| + |s1|;
      && |a| + |t'| <= |f| && start + |n| <= |f|
      && f[start..start + |n|] == n
      && var g := Overwrite(f, |a|, t');
      g[..start] + n' + g[start + |n|..] == Join(a, t', b, s1 + n' + s2, c)
  {
    hide Overwrite;
    JoinShape(a, t, b, s1, n, s2, c);
    JoinShape(a, t', b, s1, n, s2, c);
    JoinShape(a, t', b, s1, n', s2, c);
    hide Join;
    OverwriteMiddle(a, t, t', b + s1 + n + s2 + c);
    ReplaceMiddle(a + t + b + s1, n, n', s2 + c);
    ReplaceMiddle(a + t' + b + s1, n, n', s2 + c);
  }

  lemma JoinShape(a: seq<Byte>, t: seq<Byte>, b: seq<Byte>, s1: seq<Byte>, n: seq<Byte>, s2: seq<Byte>, c: seq<Byte>)
    ensures Join(a, t, b, s1 + n + s2, c) == (a + t + b + s1) + n + (s2 + c)
    ensures Join(a, t, b, s1 + n + s2, c) == a + t + (b + s1 + n + s2 + c)
  {
  }

  lemma OverwriteMiddle(p: seq<Byte>, t: seq<Byte>, t': seq<Byte>, q: seq<Byte>)
    requires |t| == |t'|
    ensures Overwrite(p + t + q, |p|, t') == p + t' + q
  {
  }

  lemma ReplaceMiddle(p: seq<Byte>, n: seq<Byte>, n': seq<Byte>, q: seq<Byte>)
    ensures var g := p + n + q;
      g[|p|..|p| + |n|] == n && g[..|p|] + n' + g[|p| + |n|..] == p + n' + q
  {
    var g := p + n + q;
    assert g[..|p|] == p && g[|p| + |n|..] == q;
  }

  /** Editing a well-laid-out file changes the table entries and the one note. */
  lemma EditIs(l: Layout, a: seq<Byte>, b: seq<Byte>, c: seq<Byte>, desc: seq<Byte>)
    requires PlanOk(l, a, b)
    ensures var f := FileOf(l, a, b, c);
      && SavedOk(f, Reading(l, |a|)) && Phdrs.AllOk(NewLayout(l, desc).phdrs)
      && Edited(f, Reading(l, |a|), desc) == FileOf(NewLayout(l, desc), a, b, c)
  {
    hide HeaderOk;
    hide TableOffset;
    hide TableLength;
    hide FirstNotes;
    hide EncodeAll;
    hide Flat;
    hide NoteBytes;
    hide NewNote;
    hide Join;
    hide Overwrite;
    hide Is;
    hide Sized;
    var n := l.notes[l.k];
    var n' := WithDesc(n, desc);
    var notes' := l.notes[l.k := n'];
    var d := Pad4(|desc|) - Pad4(|n.desc|);
    FlatAround(l.notes, l.k);
    FlatAround(notes', l.k);
    assert notes'[..l.k] == l.notes[..l.k] && notes'[l.k + 1..] == l.notes[l.k + 1..];
    MovedOk(l.phdrs, l.seg, d);
    NoteParts(n, false);
    var t, t' := EncodeAll(l.phdrs), EncodeAll(Moved(l.phdrs, l.seg, d));
    Replace(a, t, t', b, Flat(l.notes[..l.k], false), NoteBytes(n, false), NoteBytes(n', false),
            Flat(l.notes[l.k + 1..], false), c);
    var f := FileOf(l, a, b, c);
    var s := Reading(l, |a|);
    assert Sized(n);
    NewNoteIs(f, s, n, desc);
  }

  lemma {:induction false} KindsMoved(ps: seq<Phdr>, seg: nat, d: int, i: nat)
    requires Phdrs.AllOk(ps) && i <= |ps|
    ensures Phdrs.AllOk(Moved(ps, seg, d)) && FirstNotes(Moved(ps, seg, d), i) == FirstNotes(ps, i)
    decreases |ps| - i
  {
    MovedOk(ps, seg, d);
    if i < |ps| {
      KindsMoved(ps, seg, d, i + 1);
    }
  }

  /** The new layout is again one the editor can read. */
  lemma PlanStays(l: Layout, a: seq<Byte>, b: seq<Byte>, desc: seq<Byte>)
    requires PlanOk(l, a, b) && |desc| < LIMIT && |Flat(NewLayout(l, desc).notes, false)| < WRAP
    ensures PlanOk(NewLayout(l, desc), a, b)
  {
    PlanFacts(l, a, b);
    hide *;
    KindsMoved(l.phdrs, l.seg, Pad4(|desc|) - Pad4(|l.notes[l.k].desc|), 0);
    NotesStay(l.notes, l.k, desc);
    NewSegment(l, desc);
    PlanAgain(l, NewLayout(l, desc), a, b);
  }

  lemma NewSegment(l: Layout, desc: seq<Byte>)
    requires l.k < |l.notes| && l.seg < |l.phdrs|
    ensures var l' := NewLayout(l, desc); var d := Pad4(|desc|) - Pad4(|l.notes[l.k].desc|);
      && l'.phdrs == Moved(l.phdrs, l.seg, d) && l'.notes == l.notes[l.k := WithDesc(l.notes[l.k], desc)]
      && l'.seg == l.seg && l'.k == l.k && |l'.phdrs| == |l.phdrs|
      && l'.phdrs[l.seg].offset == l.phdrs[l.seg].offset
      && (0 <= l.phdrs[l.seg].filesz + d < WRAP ==> l'.phdrs[l.seg].filesz == l.phdrs[l.seg].filesz + d)
  {
  }

  lemma PlanAgain(l: Layout, l': Layout, a: seq<Byte>, b: seq<Byte>)
    requires PlanOk(l, a, b) && |l'.phdrs| == |l.phdrs| && l'.seg == l.seg && l'.k < |l'.notes|
    requires Phdrs.AllOk(l'.phdrs) && FirstNotes(l'.phdrs, 0) == FirstNotes(l.phdrs, 0)
    requires AllSized(l'.notes) && Is(l'.notes[l'.k], INFO) && Plain(l'.notes, l'.k + 1)
    requires l'.phdrs[l.seg].offset == l.phdrs[l.seg].offset && l'.phdrs[l.seg].filesz == |Flat(l'.notes, false)|
    ensures PlanOk(l', a, b)
  {
    hide HeaderOk;
    hide TableOffset;
    hide TableLength;
    hide FirstNotes;
    hide Flat;
    hide Is;
    hide Plain;
    hide AllSized;
    hide Phdrs.AllOk;
  }

  /** The notes stay as the editor needs them, and their length changes by the
      descriptor's. */
  lemma NotesStay(notes: seq<Note>, k: nat, desc: seq<Byte>)
    requires AllSized(notes) && k < |notes| && Is(notes[k], INFO) && Plain(notes, k + 1) && |desc| < LIMIT
    ensures var notes' := notes[k := WithDesc(notes[k], desc)];
      && AllSized(notes') && Is(notes'[k], INFO) && Plain(notes', k + 1)
      && |Flat(notes', false)| == |Flat(notes, false)| + Pad4(|desc|) - Pad4(|notes[k].desc|)
  {
    var n := notes[k];
    var n' := WithDesc(n, desc);
    var notes' := notes[k := n'];
    assert Sized(n) && Sized(n');
    NoteParts(n, false);
    NoteParts(n', false);
    FlatAround(notes, k);
    FlatAround(notes', k);
    hide Flat;
    hide NoteBytes;
    hide Passes;
    hide RunsOff;
    assert notes'[..k] == notes[..k] && notes'[k + 1..] == notes[k + 1..];
    assert forall j :: k + 1 <= j < |notes| ==> notes'[j..] == notes[j..];
  }

  // ----- the three promises

  /** After an edit the file can be read again: the same note is found, whose size and
      bytes are the new descriptor; the other notes are the same, in the same order;
      and the walk ends exactly at the new size of the segment. */
  lemma EditThenRead(l: Layout, a: seq<Byte>, b: seq<Byte>, c: seq<Byte>, desc: seq<Byte>)
    requires PlanOk(l, a, b) && |desc| < LIMIT && |Flat(NewLayout(l, desc).notes, false)| < WRAP
    ensures var f := FileOf(l, a, b, c); var l' := NewLayout(l, desc);
      && Parse(f) == Some(Reading(l, |a|)) && SavedOk(f, Reading(l, |a|))
      && PlanOk(l', a, b)
      && var f' := Edited(f, Reading(l, |a|), desc); var p := l'.phdrs[l'.seg];
      && f' == FileOf(l', a, b, c) && Parse(f') == Some(Reading(l', |a|))
      && p.offset + p.filesz <= |f'| && f'[p.offset..p.offset + p.filesz] == Flat(l'.notes, false)
      && Scan(Flat(l'.notes, false), 0, Absent).Walk? && Scan(Flat(l'.notes, false), 0, Absent).stop == p.filesz
    ensures var l' := NewLayout(l, desc);
      && Reading(l', |a|).descSize == |desc| && l'.notes[l'.k].desc == desc && |l'.notes| == |l.notes|
      && forall j :: 0 <= j < |l.notes| && j != l.k ==> l'.notes[j] == l.notes[j]
  {
    PlanFacts(l, a, b);
    hide *;
    ReadsBack(l, a, b, c);
    EditIs(l, a, b, c, desc);
    PlanStays(l, a, b, desc);
    var l' := NewLayout(l, desc);
    PlanFacts(l', a, b);
    ReadsBack(l', a, b, c);
    NewLayoutIs(l, desc);
    SegmentIs(l', a, b, c);
  }

  lemma NewLayoutIs(l: Layout, desc: seq<Byte>)
    requires l.k < |l.notes| && l.seg < |l.phdrs|
    ensures var l' := NewLayout(l, desc);
      && l'.k == l.k && l'.seg == l.seg && |l'.phdrs| == |l.phdrs| && |l'.notes| == |l.notes|
      && l'.notes[l'.k].desc == desc
      && (forall phoff: nat :: Reading(l', phoff).descSize == |desc|)
      && forall j :: 0 <= j < |l.notes| && j != l.k ==> l'.notes[j] == l.notes[j]
  {
  }

  lemma SegmentIs(l: Layout, a: seq<Byte>, b: seq<Byte>, c: seq<Byte>)
    requires PlanOk(l, a, b)
    ensures var f := FileOf(l, a, b, c); var p := l.phdrs[l.seg];
      p.offset + p.filesz <= |f| && f[p.offset..p.offset + p.filesz] == Flat(l.notes, false)
  {
    PlanFacts(l, a, b);
    hide PlanOk;
    hide Flat;
    hide EncodeAll;
    Parts(a, EncodeAll(l.phdrs), b, Flat(l.notes, false), c);
  }

  /** Position `x` of the file is not in the header table. */
  predicate OffTable(l: Layout, a: seq<Byte>, x: nat) {
    x < |a| || x >= |a| + |l.phdrs| * ENTRY
  }

  /** Segment `j` lies before the note if its index is lower, and after it if higher. */
  predicate Placed(l: Layout, a: seq<Byte>, b: seq<Byte>, c: seq<Byte>, j: nat)
    requires PlanOk(l, a, b) && j < |l.phdrs|
  {
    var r := Reading(l, |a|);
    var p := l.phdrs[j];
    && (j < l.seg ==> p.offset + p.filesz <= r.start)
    && (j > l.seg ==> r.end <= p.offset && p.offset + p.filesz <= |FileOf(l, a, b, c)|)
  }

  /** Byte `x` of segment `p` of `f` is byte `x` of segment `p'` of `f'`, and the segments
      are of one size. */
  ghost predicate SameByte(f: seq<Byte>, p: Phdr, f': seq<Byte>, p': Phdr, x: nat) {
    && p'.filesz == p.filesz && p.offset + x < |f| && p'.offset + x < |f'|
    && f'[p'.offset + x] == f[p.offset + x]
  }

  /** The bytes of every other segment, but for any that belong to the header table, are
      found at the segment's new offset, whether the descriptor grew or shrank. */
  lemma SegmentsKept(l: Layout, a: seq<Byte>, b: seq<Byte>, c: seq<Byte>, desc: seq<Byte>, j: nat, x: nat)
    requires PlanOk(l, a, b) && |FileOf(l, a, b, c)| < WRAP
    requires Phdrs.AllOk(NewLayout(l, desc).phdrs) && |FileOf(NewLayout(l, desc), a, b, c)| < WRAP
    requires j < |l.phdrs| && j != l.seg && Placed(l, a, b, c, j)
    requires x < l.phdrs[j].filesz && OffTable(l, a, l.phdrs[j].offset + x)
    ensures SameByte(FileOf(l, a, b, c), l.phdrs[j], FileOf(NewLayout(l, desc), a, b, c), NewLayout(l, desc).phdrs[j],
                     x)
  {
    hide *;
    PlanFacts(l, a, b);
    PlacedMeans(l, a, b, c, j, x);
    var f, f' := FileOf(l, a, b, c), FileOf(NewLayout(l, desc), a, b, c);
    var n, r := l.notes[l.k], Reading(l, |a|);
    NewSegment(l, desc);
    ByteMoves(l, a, b, c, desc, l.phdrs[j].offset + x, n);
    OffsetMoves(l, desc, j, |f'|, x);
    Lands(f, f', r.start, r.end, Size(WithDesc(n, desc)) - Size(n),
          l.phdrs[j], NewLayout(l, desc).phdrs[j], x, j < l.seg);
  }

  lemma PlacedMeans(l: Layout, a: seq<Byte>, b: seq<Byte>, c: seq<Byte>, j: nat, x: nat)
    requires PlanOk(l, a, b) && j < |l.phdrs| && j != l.seg && Placed(l, a, b, c, j) && x < l.phdrs[j].filesz
    ensures l.k < |l.notes| && l.phdrs[j].offset < WRAP
    ensures var r := Reading(l, |a|); var y := l.phdrs[j].offset + x;
      && Size(l.notes[l.k]) <= r.end
      && (j < l.seg ==> y < r.start)
      && (j > l.seg ==> r.end <= l.phdrs[j].offset && y < |FileOf(l, a, b, c)|)
  {
    assert PhdrOk(l.phdrs[j]);
    hide FileOf;
    hide Flat;
    hide HeaderOk;
    hide Plain;
    hide FirstNotes;
  }

  /** Byte `y` of `f` is in `f'` too: where it was if it lies before `start`, and `d`
      further on if it lies from `end` on. */
  ghost predicate Moves(f: seq<Byte>, f': seq<Byte>, start: int, end: int, d: int, y: nat) {
    && (y < start ==> y < |f| && y < |f'| && f'[y] == f[y])
    && (end <= y < |f| ==> 0 <= y + d < |f'| && f'[y + d] == f[y])
  }

  /** A byte that moves with its segment lands where the segment's offset says. */
  lemma Lands(f: seq<Byte>, f': seq<Byte>, start: int, end: int, d: int, p: Phdr, p': Phdr, x: nat, before: bool)
    requires Moves(f, f', start, end, d, p.offset + x) && p'.filesz == p.filesz
    requires before ==> p.offset + x < start && p'.offset == p.offset
    requires !before ==> end <= p.offset && p.offset + x < |f|
    requires !before ==> p.offset + x + d < |f'| ==> p'.offset == p.offset + d
    ensures SameByte(f, p, f', p', x)
  {
  }

  /** A byte before the note stays; one after it moves with the note's size. */
  lemma ByteMoves(l: Layout, a: seq<Byte>, b: seq<Byte>, c: seq<Byte>, desc: seq<Byte>, y: nat, n: Note)
    requires PlanOk(l, a, b) && Phdrs.AllOk(NewLayout(l, desc).phdrs) && OffTable(l, a, y)
    requires n == l.notes[l.k]
    ensures var r := Reading(l, |a|);
      Moves(FileOf(l, a, b, c), FileOf(NewLayout(l, desc), a, b, c), r.start, r.end, Size(WithDesc(n, desc)) - Size(n),
            y)
  {
    hide *;
    FilesAround(l, a, b, c, desc);
    TableEnd(l, a, y);
    ByteKept(a, EncodeAll(l.phdrs), EncodeAll(NewLayout(l, desc).phdrs), b, Lead(l),
             NoteBytes(n, false), NoteBytes(WithDesc(n, desc), false), Trail(l), c, y);
  }

  lemma TableEnd(l: Layout, a: seq<Byte>, y: nat)
    ensures OffTable(l, a, y) <==> y < |a| || y >= |a| + |l.phdrs| * ENTRY
  {
  }

  /** The two files around the chosen note. */
  lemma FilesAround(l: Layout, a: seq<Byte>, b: seq<Byte>, c: seq<Byte>, desc: seq<Byte>)
    requires PlanOk(l, a, b) && Phdrs.AllOk(NewLayout(l, desc).phdrs)
    ensures l.k < |l.notes| && l.seg < |l.phdrs| && Phdrs.AllOk(l.phdrs)
    ensures var n := l.notes[l.k]; var n' := WithDesc(n, desc);
      var s1, s2 := Lead(l), Trail(l);
      var t, t' := EncodeAll(l.phdrs), EncodeAll(NewLayout(l, desc).phdrs);
      && FileOf(l, a, b, c) == Join(a, t, b, s1 + NoteBytes(n, false) + s2, c)
      && FileOf(NewLayout(l, desc), a, b, c) == Join(a, t', b, s1 + NoteBytes(n', false) + s2, c)
      && |NoteBytes(n, false)| == Size(n) && |NoteBytes(n', false)| == Size(n') && |t| == |t'| == |l.phdrs| * ENTRY
      && Reading(l, |a|).start == |a| + |t| + |b| + |s1| && Reading(l, |a|).end == |a| + |t| + |b| + |s1| + Size(n)
  {
    PlanFacts(l, a, b);
    hide PlanOk;
    hide Sized;
    hide EncodeAll;
    hide Flat;
    hide NoteBytes;
    hide Join;
    var n := l.notes[l.k];
    var n' := WithDesc(n, desc);
    var notes' := l.notes[l.k := n'];
    FlatAround(l.notes, l.k);
    FlatAround(notes', l.k);
    assert notes'[..l.k] == l.notes[..l.k] && notes'[l.k + 1..] == l.notes[l.k + 1..];
    NoteParts(n, false);
    NoteSizes(n, desc);
  }

  /** A segment's offset moves with the note's size, without wrapping. */
  lemma OffsetMoves(l: Layout, desc: seq<Byte>, j: nat, limit: nat, x: nat)
    requires l.k < |l.notes| && l.seg < |l.phdrs| && j < |l.phdrs| && j != l.seg && limit < WRAP
    requires l.phdrs[j].offset < WRAP
    ensures var n := l.notes[l.k]; var p, p' := l.phdrs[j], NewLayout(l, desc).phdrs[j];
      var d := Size(WithDesc(n, desc)) - Size(n);
      && p'.filesz == p.filesz
      && (j < l.seg ==> p'.offset == p.offset)
      && (j > l.seg && Size(n) <= p.offset && p.offset + x + d < limit ==> p'.offset == p.offset + d)
  {
  }

  lemma NoteSizes(n: Note, desc: seq<Byte>)
    requires Sized(n)
    ensures |NoteBytes(WithDesc(n, desc), false)| == Size(WithDesc(n, desc))
  {
  }

  /** A byte off the table and the note stays, or moves with what follows the note. */
  lemma ByteKept(a: seq<Byte>, t: seq<Byte>, t': seq<Byte>, b: seq<Byte>, s1: seq<Byte>, n: seq<Byte>, n': seq<Byte>,
                 s2: seq<Byte>, c: seq<Byte>, y: nat)
    requires |t| == |t'| && (y < |a| || y >= |a| + |t|)
    ensures var start := |a| + |t| + |b| + |s1|;
      Moves(Join(a, t, b, s1 + n + s2, c), Join(a, t', b, s1 + n' + s2, c), start, start + |n|, |n'| - |n|, y)
  {
  }

  /** Zero padding after the descriptor. */
  predicate ZeroPadded(n: Note) {
    n.descPad == Zeros(|n.descPad|)
  }

  /** Editing to a new descriptor and back to the old one restores the file byte for
      byte, exactly when the old note was padded with zeros and the note segment's size
      in memory, if it had one, did not become zero. */
  lemma EditBack(l: Layout, a: seq<Byte>, b: seq<Byte>, c: seq<Byte>, desc: seq<Byte>)
    requires PlanOk(l, a, b) && |desc| < LIMIT && |Flat(NewLayout(l, desc).notes, false)| < WRAP
    ensures var f := FileOf(l, a, b, c); var old' := l.notes[l.k].desc;
      && SavedOk(f, Reading(l, |a|)) && Parse(f) == Some(Reading(l, |a|))
      && var f' := Edited(f, Reading(l, |a|), desc);
      && Parse(f').Some? && SavedOk(f', Parse(f').value)
      && var m := l.phdrs[l.seg].memsz; var d := Pad4(|desc|) - Pad4(|old'|);
      (Edited(f', Parse(f').value, old') == f <==> ZeroPadded(l.notes[l.k]) && !(m != 0 && Wrap(m + d) == 0))
  {
    var old' := l.notes[l.k].desc;
    var l1 := NewLayout(l, desc);
    var l2 := NewLayout(l1, old');
    EditThenRead(l, a, b, c, desc);
    EditIs(l1, a, b, c, old');
    hide PlanOk;
    hide Parse;
    hide Edited;
    hide SavedOk;
    hide Reading;
    BackAgain(l, a, b, c, desc);
  }

  lemma BackAgain(l: Layout, a: seq<Byte>, b: seq<Byte>, c: seq<Byte>, desc: seq<Byte>)
    requires PlanOk(l, a, b)
    ensures var old' := l.notes[l.k].desc; var l2 := NewLayout(NewLayout(l, desc), old');
      var m := l.phdrs[l.seg].memsz; var d := Pad4(|desc|) - Pad4(|old'|);
      && Phdrs.AllOk(l2.phdrs)
      && (FileOf(l2, a, b, c) == FileOf(l, a, b, c) <==> ZeroPadded(l.notes[l.k]) && !(m != 0 && Wrap(m + d) == 0))
  {
    PlanFacts(l, a, b);
    var n := l.notes[l.k];
    var l1 := NewLayout(l, desc);
    var l2 := NewLayout(l1, n.desc);
    var d := Pad4(|desc|) - Pad4(|n.desc|);
    TwiceMoved(l, desc);
    TwiceEdited(l, desc);
    hide *;
    JoinSame(a, EncodeAll(l.phdrs), EncodeAll(l2.phdrs), b, Flat(l.notes, false), Flat(l2.notes, false), c);
    FileOfIs(l, a, b, c);
    FileOfIs(l2, a, b, c);
  }

  lemma FileOfIs(l: Layout, a: seq<Byte>, b: seq<Byte>, c: seq<Byte>)
    requires Phdrs.AllOk(l.phdrs)
    ensures FileOf(l, a, b, c) == Join(a, EncodeAll(l.phdrs), b, Flat(l.notes, false), c)
  {
  }

  /** The table after an edit and its reverse. */
  lemma TwiceMoved(l: Layout, desc: seq<Byte>)
    requires Phdrs.AllOk(l.phdrs) && l.k < |l.notes| && l.seg < |l.phdrs|
    ensures var old' := l.notes[l.k].desc; var l2 := NewLayout(NewLayout(l, desc), old');
      var m := l.phdrs[l.seg].memsz; var d := Pad4(|desc|) - Pad4(|old'|);
      && Phdrs.AllOk(l2.phdrs) && |l2.phdrs| == |l.phdrs|
      && |EncodeAll(l.phdrs)| == |EncodeAll(l2.phdrs)|
      && (EncodeAll(l2.phdrs) == EncodeAll(l.phdrs) <==> !(m != 0 && Wrap(m + d) == 0))
  {
    var n := l.notes[l.k];
    var d := Pad4(|desc|) - Pad4(|n.desc|);
    var l1 := NewLayout(l, desc);
    var l2 := NewLayout(l1, n.desc);
    assert l2.phdrs == Moved(Moved(l.phdrs, l.seg, d), l.seg, -d);
    hide *;
    MovedOk(l.phdrs, l.seg, d);
    MovedOk(Moved(l.phdrs, l.seg, d), l.seg, -d);
    MovedBack(l.phdrs, l.seg, d);
    EncodeSame(l.phdrs, Moved(Moved(l.phdrs, l.seg, d), l.seg, -d));
  }

  lemma EncodeSame(ps: seq<Phdr>, qs: seq<Phdr>)
    requires Phdrs.AllOk(ps) && Phdrs.AllOk(qs) && |ps| == |qs|
    ensures |EncodeAll(ps)| == |EncodeAll(qs)| && (EncodeAll(qs) == EncodeAll(ps) <==> qs == ps)
  {
    DecodeEncodeAll(ps);
    DecodeEncodeAll(qs);
  }

  /** The notes after an edit and its reverse. */
  lemma TwiceEdited(l: Layout, desc: seq<Byte>)
    requires l.k < |l.notes| && Sized(l.notes[l.k])
    ensures var old' := l.notes[l.k].desc; var l2 := NewLayout(NewLayout(l, desc), old');
      Flat(l2.notes, false) == Flat(l.notes, false) <==> ZeroPadded(l.notes[l.k])
  {
    hide Flat;
    hide NoteBytes;
    var n := l.notes[l.k];
    var l2 := NewLayout(NewLayout(l, desc), n.desc);
    var n2 := WithDesc(WithDesc(n, desc), n.desc);
    assert l2.notes == l.notes[l.k := n2];
    assert l.notes[l.k := n] == l.notes;
    if Flat(l2.notes, false) == Flat(l.notes, false) {
      SameNotes(l.notes, l.k, n2);
    }
  }

  lemma JoinSame(a: seq<Byte>, t: seq<Byte>, t': seq<Byte>, b: seq<Byte>, s: seq<Byte>, s': seq<Byte>, c: seq<Byte>)
    requires |t| == |t'|
    ensures Join(a, t, b, s, c) == Join(a, t', b, s', c) <==> t == t' && s == s'
  {
    if Join(a, t, b, s, c) == Join(a, t', b, s', c) {
      assert |s| == |s'|;
      Parts(a, t, b, s, c);
      Parts(a, t', b, s', c);
    }
  }

  lemma SameNotes(notes: seq<Note>, k: nat, n: Note)
    requires k < |notes| && Sized(notes[k]) && Flat(notes[k := n], false) == Flat(notes, false)
    requires n == notes[k].(descPad := n.descPad) && |n.descPad| == |notes[k].descPad|
    ensures n == notes[k]
  {
    var notes' := notes[k := n];
    FlatAround(notes, k);
    FlatAround(notes', k);
    assert notes'[..k] == notes[..k] && notes'[k + 1..] == notes[k + 1..];
    hide Flat;
    MiddleSame(Flat(notes[..k], false), NoteBytes(notes[k], false), NoteBytes(n, false), Flat(notes[k + 1..], false));
    PadSame(notes[k], n);
  }

  lemma MiddleSame(x: seq<Byte>, y: seq<Byte>, y': seq<Byte>, z: seq<Byte>)
    requires |y| == |y'| && x + y + z == x + y' + z
    ensures y == y'
  {
    assert y == (x + y + z)[|x|..|x| + |y|];
    assert y' == (x + y' + z)[|x|..|x| + |y|];
  }

  lemma PadSame(n: Note, m: Note)
    requires NoteBytes(n, false) == NoteBytes(m, false) && |n.descPad| == |m.descPad|
    ensures n.descPad == m.descPad
  {
    var b := NoteBytes(n, false);
    assert b[|b| - |n.descPad|..] == n.descPad;
    assert NoteBytes(m, false)[|b| - |n.descPad|..] == m.descPad;
  }
}
