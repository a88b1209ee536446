/** Concrete files for the vmcoreinfo editor: one it edits as promised, those that an
    edit and its reverse do not restore, and notes that it takes for another. */
module EditWitness {
  import opened Bytes
  import opened Notes
  import opened NoteWalk
  import opened Phdrs
  import opened Vmcoreinfo
  import opened EditProofs

  /** An ELF header with a table of `n` entries right after it. */
  function Header(n: nat): (h: seq<Byte>)
    ensures |h| == EHDR
  {
    [0x7f, 69, 76, 70, 2, 1] + Zeros(26) + ToLe(64, 8) + Zeros(14) + ToLe(56, 2) + ToLe(n, 2) + Zeros(6)
  }

  lemma HeaderPieces(a: seq<Byte>, b: seq<Byte>, c: seq<Byte>, d: seq<Byte>, e: seq<Byte>, f: seq<Byte>, g: seq<Byte>)
    requires |a| == 6 && |b| == 26 && |c| == 8 && |d| == 14 && |e| == 2 && |f| == 2 && |g| == 6
    ensures var h := a + b + c + d + e + f + g;
      && |h| == 64 && h[..4] == a[..4] && h[4] == a[4] && h[5] == a[5] && h[32..40] == c
      && h[54..56] == e && h[56..58] == f && h[58..60] == g[0..2] && h[60..62] == g[2..4]
  {
  }

  /** The fields of the header. */
  lemma HeaderFields(n: nat)
    requires n < 0x1_0000
    ensures var h := Header(n);
      && h[..4] == [0x7f, 69, 76, 70] && h[4] == 2 && h[5] == 1 && FromLe(h[32..40]) == 64
      && FromLe(h[54..56]) == 56 && FromLe(h[56..58]) == n && FromLe(h[58..60]) == 0 && FromLe(h[60..62]) == 0
  {
    Widths();
    FromToLe(64, 8);
    FromToLe(56, 2);
    FromToLe(n, 2);
    FromToLe(0, 2);
    ZeroWord();
    HeaderPieces([0x7f, 69, 76, 70, 2, 1], Zeros(26), ToLe(64, 8), Zeros(14), ToLe(56, 2), ToLe(n, 2), Zeros(6));
    hide FromLe;
    hide ToLe;
    hide Zeros;
  }

  lemma ZeroWord()
    ensures Zeros(6)[0..2] == ToLe(0, 2) && Zeros(6)[2..4] == ToLe(0, 2)
  {
    assert ToLe(0, 1) == [0];
  }

  lemma HeaderFacts(n: nat)
    requires n < 0x1_0000
    ensures HeaderOk(Header(n)) && TableOffset(Header(n)) == EHDR && TableLength(Header(n)) == n
  {
    HeaderFields(n);
    hide FromLe;
    hide Header;
  }

  /** A VMCOREINFO note of one byte. */
  function Info(pad: seq<Byte>): Note {
    Note(VMCOREINFO, [0], [7], pad, 0)
  }

  /** A note without a name. */
  function Nameless(desc: seq<Byte>, pad: seq<Byte>): Note {
    Note([], [], desc, pad, 0)
  }

  /** One note segment of two notes, the second without a name. */
  function Plan(memsz: nat, pad: seq<Byte>): Layout {
    Layout([Phdr([4, 0, 0, 0, 0, 0, 0, 0], 120, Zeros(16), 44, memsz, Zeros(8))], 0,
           [Info(pad), Nameless([1], Zeros(3))], 0)
  }

  lemma TwoNotes(a: Note, b: Note)
    requires Sized(a) && Sized(b)
    ensures Flat([a, b], false) == NoteBytes(a, false) + NoteBytes(b, false)
    ensures |Flat([a, b], false)| == Size(a) + Size(b)
    ensures [a, b][1..] == [b] && Flat([b], false) == NoteBytes(b, false)
    ensures Beyond([b], false) == NameField(b) + (b.desc + b.descPad)
  {
    NoteParts(a, false);
    NoteParts(b, false);
    hide NoteBytes;
    assert [b][1..] == [];
    assert [a, b][1..] == [b];
    assert Flat([], false) == [];
  }

  lemma PlanNotes(memsz: nat, pad: seq<Byte>)
    requires |pad| == 3
    ensures var notes := Plan(memsz, pad).notes;
      && |notes| == 2 && AllSized(notes) && Is(notes[0], INFO) && Plain(notes, 1) && |Flat(notes, false)| == 44
  {
    var notes := Plan(memsz, pad).notes;
    TwoNotes(Info(pad), Nameless([1], Zeros(3)));
    assert NameField(Info(pad)) == VMCOREINFO + [0];
    assert notes[1..] == [Nameless([1], Zeros(3))];
    assert Beyond(notes[1..], false)[0] == 1;
    assert Plain(notes, 1);
    hide Flat;
  }

  lemma PlanTable(memsz: nat, pad: seq<Byte>)
    requires memsz < WRAP
    ensures var ps := Plan(memsz, pad).phdrs;
      Phdrs.AllOk(ps) && FirstNotes(ps, 0) == 0 && |ps| == 1 && ps[0].offset == 120 && ps[0].filesz == 44
  {
    FourIs();
    hide FromLe;
  }

  /** The layout is one the editor works on, whatever the padding and the size in memory. */
  lemma PlanHolds(memsz: nat, pad: seq<Byte>)
    requires memsz < WRAP && |pad| == 3
    ensures PlanOk(Plan(memsz, pad), Header(1), [])
  {
    HeaderFacts(1);
    PlanNotes(memsz, pad);
    PlanTable(memsz, pad);
    hide Plain;
    hide Is;
    hide AllSized;
    hide Phdrs.AllOk;
    hide FirstNotes;
    hide HeaderOk;
    hide TableOffset;
    hide TableLength;
    hide Flat;
    hide Header;
  }

  lemma FourIs()
    ensures var b: seq<Byte> := [4, 0, 0, 0, 0, 0, 0, 0]; FromLe(b[..4]) == 4
  {
    var b: seq<Byte> := [4, 0, 0, 0, 0, 0, 0, 0];
    Widths();
    FromToLe(4, 4);
    assert b[..4] == ToLe(4, 4);
  }

  /** Cutting the descriptor to nothing and putting it back restores this file exactly if
      its padding was zero and its segment had not just the descriptor in memory. */
  lemma CutAndPutBack(memsz: nat, pad: seq<Byte>)
    requires memsz < WRAP && |pad| == 3
    ensures var l := Plan(memsz, pad); var f := FileOf(l, Header(1), [], []);
      && Parse(f).Some? && SavedOk(f, Parse(f).value)
      && var f' := Edited(f, Parse(f).value, []);
      && Parse(f').Some? && SavedOk(f', Parse(f').value)
      && (Edited(f', Parse(f').value, [7]) == f <==> pad == [0, 0, 0] && memsz != 4)
  {
    hide *;
    PlanHolds(memsz, pad);
    PlanFacts(Plan(memsz, pad), Header(1), []);
    NewPlanLength(memsz, pad);
    PlanParts(memsz, pad);
    EditBack(Plan(memsz, pad), Header(1), [], [], []);
  }

  lemma PlanParts(memsz: nat, pad: seq<Byte>)
    requires memsz < WRAP && |pad| == 3
    ensures var l := Plan(memsz, pad);
      && l.k < |l.notes| && l.seg < |l.phdrs| && l.notes[l.k].desc == [7] && l.phdrs[l.seg].memsz == memsz
      && (ZeroPadded(l.notes[l.k]) <==> pad == [0, 0, 0])
    ensures memsz != 0 && Wrap(memsz + (Pad4(0) - Pad4(1))) == 0 <==> memsz == 4
    ensures LIMIT == 0x1_0000_0000 && WRAP == 0x1_0000_0000_0000_0000
  {
    assert pad == Zeros(|pad|) <==> pad == [0, 0, 0];
  }

  lemma NewPlanLength(memsz: nat, pad: seq<Byte>)
    requires |pad| == 3
    ensures |Flat(NewLayout(Plan(memsz, pad), []).notes, false)| == 40
  {
    var l := Plan(memsz, pad);
    var n := WithDesc(Info(pad), []);
    assert NewLayout(l, []).notes == [n, Nameless([1], Zeros(3))];
    TwoNotes(n, Nameless([1], Zeros(3)));
  }

  /** Padding that was not zero is lost. */
  lemma PaddingLost()
    ensures var f := FileOf(Plan(0, [1, 1, 1]), Header(1), [], []);
      && Parse(f).Some? && SavedOk(f, Parse(f).value)
      && var f' := Edited(f, Parse(f).value, []);
      && Parse(f').Some? && SavedOk(f', Parse(f').value) && Edited(f', Parse(f').value, [7]) != f
  {
    CutAndPutBack(0, [1, 1, 1]);
  }

  /** A size in memory that became zero stays zero. */
  lemma MemoryLost()
    ensures var f := FileOf(Plan(4, [0, 0, 0]), Header(1), [], []);
      && Parse(f).Some? && SavedOk(f, Parse(f).value)
      && var f' := Edited(f, Parse(f).value, []);
      && Parse(f').Some? && SavedOk(f', Parse(f').value) && Edited(f', Parse(f').value, [7]) != f
  {
    CutAndPutBack(4, [0, 0, 0]);
  }

  /** A note without a name whose descriptor says VMCOREINFO is taken for the one looked
      for, and hides the real one before it. */
  lemma ImpostorTaken()
    ensures var info, fake := Info(Zeros(3)), Nameless(VMCOREINFO, [0]);
      && Sized(info) && Sized(fake) && Is(info, INFO) && !Is(fake, INFO)
      && Scan(Flat([info, fake], false), 0, Absent) == Walk(Found(28, 52, 11), 52)
  {
    var info, fake := Info(Zeros(3)), Nameless(VMCOREINFO, [0]);
    TwoNotes(info, fake);
    assert NameField(fake) == [];
    assert NameField(info) == VMCOREINFO + [0];
    IsPasses([info, fake], INFO, false);
    assert Beyond([fake], false) == VMCOREINFO + [0];
    var s := Flat([info, fake], false);
    assert s[0..] == s;
    hide Flat;
    ScanNotes(s, 0, [info, fake], Absent);
    assert Sees([fake], 28, Found(0, 28, 1)) == Sees([fake][1..], 52, Found(28, 52, 11));
  }

  /** The comparison with a last note that has neither name nor descriptor reads past the
      end of the segment. */
  lemma BareRunsOff()
    ensures Sized(Nameless([], [])) && Scan(Flat([Nameless([], [])], false), 0, Absent) == Overrun
  {
    var n := Nameless([], []);
    var s := Flat([n], false);
    assert s[0..] == s;
    assert [n][1..] == [];
    assert Beyond([n], false) == [];
    ScanNotes(s, 0, [n], Absent);
  }
}
