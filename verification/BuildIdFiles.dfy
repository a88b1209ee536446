/** Whole files laid out as they should be: what the search finds in them, that it reads
    nothing of the build ID it finds, and so that another one written there is found. */
module BuildIdFiles {
  import opened Bytes
  import opened Options
  import opened Notes
  import opened BuildId
  import opened BuildIdProofs
  import opened BuildIdNotes

  // ----- layouts

  /** What an entry of a header table stands for. */
  datatype Part = Other | Stretch(at: nat, notes: seq<Note>)

  function Length(p: Part, msb: bool): nat
    requires p.Stretch?
  {
    |Flat(p.notes, msb)|
  }

  /** What the search makes of one entry. */
  function PartId(p: Part): Outcome {
    match p
    case Other => Miss
    case Stretch(at, notes) => FirstId(notes, at)
  }

  /** A stretch where its entry says it is. */
  ghost predicate Found(f: seq<Byte>, table: seq<Byte>, at: nat, t: Table, info: Info, pos: nat, s: seq<Byte>) {
    EntryPlace(table, at, t, info) == Some((pos, |s|)) && pos + |s| <= |f| && f[pos..pos + |s|] == s
  }

  /** The entry at `at` of the table is not for notes, or says where they are, and they
      are there. */
  ghost predicate PartLaid(f: seq<Byte>, table: seq<Byte>, at: nat, t: Table, info: Info, p: Part) {
    match p
    case Other => EntryKind(table, at, t, info).Some? && EntryKind(table, at, t, info).value != NoteKind(t)
    case Stretch(pos, notes) =>
      && EntryKind(table, at, t, info) == Some(NoteKind(t))
      && Found(f, table, at, t, info, pos, Flat(notes, info.msb))
      && Walkable(notes) && Told(notes, info.msb)
  }

  /** From entry `i` on, the entries are as they should be, up to the first that has a
      build ID. */
  ghost predicate PartsLaid(f: seq<Byte>, table: seq<Byte>, size: nat, t: Table, info: Info, parts: seq<Part>, i: nat)
    requires i <= |parts|
    decreases |parts| - i
  {
    i < |parts| ==>
      && PartLaid(f, table, i * size, t, info, parts[i])
      && (PartId(parts[i]) == Miss ==> PartsLaid(f, table, size, t, info, parts, i + 1))
  }

  ghost predicate SomeStretch(parts: seq<Part>) {
    exists i :: 0 <= i < |parts| && parts[i].Stretch?
  }

  /** A header table is empty, or lies in the file and has an entry for notes. */
  ghost predicate TableLaid(f: seq<Byte>, t: Table, info: Info, parts: seq<Part>)
    requires |f| >= EHDR
  {
    var h := TableHead(f, t, info);
    && |parts| == h.count
    && (h.count > 0 ==>
          && TableBytes(f, h).Some? && PartsLaid(f, TableBytes(f, h).value, h.size, t, info, parts, 0)
          && SomeStretch(parts))
  }

  /** A file of either class and either encoding, as far as it is searched: the segments,
      and the sections if the segments have no build ID. */
  ghost predicate FileLaid(f: seq<Byte>, segs: seq<Part>, secs: seq<Part>) {
    && HeaderOk(f) && TableLaid(f, Segments, InfoOf(f), segs)
    && (FirstOf(segs) == Miss ==> TableLaid(f, Sections, InfoOf(f), secs))
  }

  // ----- what the search finds

  /** The first build ID of the first stretch that has one. */
  function FirstOf(parts: seq<Part>): Outcome {
    if parts == [] then Miss
    else if PartId(parts[0]) == Miss then FirstOf(parts[1..])
    else PartId(parts[0])
  }

  /** The first build ID, segments before sections. */
  function FirstIn(segs: seq<Part>, secs: seq<Part>): Outcome {
    if FirstOf(segs) == Miss then FirstOf(secs) else FirstOf(segs)
  }

  lemma LaidMeans(f: seq<Byte>, table: seq<Byte>, at: nat, t: Table, info: Info, p: Part)
    requires p.Stretch? && PartLaid(f, table, at, t, info, p)
    ensures Found(f, table, at, t, info, p.at, Flat(p.notes, info.msb))
    ensures Walkable(p.notes) && Told(p.notes, info.msb)
    ensures PartId(p) == FirstId(p.notes, p.at) && Length(p, info.msb) == |Flat(p.notes, info.msb)|
  {
    hide EntryKind;
    hide EntryPlace;
    hide Flat;
    hide Walkable;
    hide Told;
  }

  lemma FoundScans(f: seq<Byte>, table: seq<Byte>, at: nat, t: Table, info: Info, pos: nat, s: seq<Byte>)
    requires Found(f, table, at, t, info, pos, s)
    ensures ScanEntry(f, table, at, t, info) == ScanNotes(s, pos, 0, info.msb)
  {
    hide EntryPlace;
    hide ScanNotes;
  }

  lemma FoundClear(f: seq<Byte>, table: seq<Byte>, at: nat, t: Table, info: Info, pos: nat, s: seq<Byte>, lo: nat,
                   hi: nat)
    requires Found(f, table, at, t, info, pos, s) && NotesClear(s, pos, 0, info.msb, lo, hi)
    ensures EntryClear(f, table, at, t, info, lo, hi)
  {
    hide EntryPlace;
    hide NotesClear;
  }

  /** Scanning one stretch. */
  lemma StretchFinds(f: seq<Byte>, table: seq<Byte>, at: nat, t: Table, info: Info, p: Part)
    requires p.Stretch? && PartLaid(f, table, at, t, info, p)
    ensures ScanEntry(f, table, at, t, info) == FirstId(p.notes, p.at)
  {
    hide *;
    LaidMeans(f, table, at, t, info, p);
    FoundScans(f, table, at, t, info, p.at, Flat(p.notes, info.msb));
    FirstIdFound(p.notes, p.at, info.msb);
  }

  lemma {:induction false} TableFinds(f: seq<Byte>, table: seq<Byte>, n: nat, size: nat, t: Table, info: Info,
                                      parts: seq<Part>, i: nat, last: Outcome)
    requires |parts| == n && i <= n && PartsLaid(f, table, size, t, info, parts, i)
    requires last == Miss || (last == Garbage && exists j :: i <= j < n && parts[j].Stretch?)
    ensures ScanTable(f, table, n, size, t, info, i, last) == FirstOf(parts[i..])
    decreases n - i
  {
    hide EntryKind;
    hide ScanEntry;
    hide FirstId;
    if i < n {
      var p := parts[i];
      assert parts[i..][1..] == parts[i + 1..];
      if p.Stretch? {
        StretchFinds(f, table, i * size, t, info, p);
        if FirstId(p.notes, p.at) == Miss {
          TableFinds(f, table, n, size, t, info, parts, i + 1, Miss);
        }
      } else {
        TableFinds(f, table, n, size, t, info, parts, i + 1, last);
      }
    }
  }

  lemma OneTable(f: seq<Byte>, t: Table, info: Info, parts: seq<Part>)
    requires |f| >= EHDR && TableLaid(f, t, info, parts)
    ensures SearchTable(f, t, info) == FirstOf(parts)
  {
    hide ScanTable;
    hide TableHead;
    hide TableBytes;
    hide PartsLaid;
    var h := TableHead(f, t, info);
    if h.count > 0 {
      TableFinds(f, TableBytes(f, h).value, h.count, h.size, t, info, parts, 0, Garbage);
      assert parts[0..] == parts;
    }
  }

  /** In a laid-out file the search finds the first build ID, segments before sections:
      there is no hit without one, and the loop does not end exactly if it is oversized. */
  lemma SearchFinds(f: seq<Byte>, segs: seq<Part>, secs: seq<Part>)
    requires FileLaid(f, segs, secs)
    ensures Search(f) == FirstIn(segs, secs) && SearchTable(f, Segments, InfoOf(f)) == FirstOf(segs)
  {
    OneTable(f, Segments, InfoOf(f), segs);
    if FirstOf(segs) == Miss {
      OneTable(f, Sections, InfoOf(f), secs);
    }
    hide SearchTable;
    hide FirstOf;
    hide TableLaid;
  }

  // ----- what the search reads

  /** The stretches that are searched in vain, before the first that has a build ID, keep
      off positions `lo` to `hi`. */
  predicate MissesOff(parts: seq<Part>, msb: bool, lo: nat, hi: nat) {
    parts != [] && PartId(parts[0]) == Miss ==>
      && (parts[0].Stretch? ==> Clear(lo, hi, parts[0].at, parts[0].at + Length(parts[0], msb)))
      && MissesOff(parts[1..], msb, lo, hi)
  }

  /** A header table, if it has entries, keeps off positions `lo` to `hi`. */
  predicate OffTable(f: seq<Byte>, t: Table, lo: nat, hi: nat)
    requires HeaderOk(f)
  {
    var h := TableHead(f, t, InfoOf(f));
    h.count > 0 ==> Clear(lo, hi, h.place, h.place + h.count * h.size)
  }

  /** What is read before the build ID is found keeps off positions `lo` to `hi`: the ELF
      header, the tables searched and the stretches searched in vain. */
  predicate ReadsOff(f: seq<Byte>, segs: seq<Part>, secs: seq<Part>, lo: nat, hi: nat)
    requires HeaderOk(f)
  {
    && Clear(lo, hi, 0, EHDR) && OffTable(f, Segments, lo, hi) && MissesOff(segs, InfoOf(f).msb, lo, hi)
    && (FirstOf(segs) == Miss ==> OffTable(f, Sections, lo, hi) && MissesOff(secs, InfoOf(f).msb, lo, hi))
  }

  /** The walk over any bytes keeps clear of what lies elsewhere. */
  lemma {:induction false} ElsewhereClear(s: seq<Byte>, base: nat, off: nat, msb: bool, lo: nat, hi: nat)
    requires Clear(lo, hi, base, base + |s|)
    ensures NotesClear(s, base, off, msb, lo, hi)
    decreases |s| - off
  {
    hide Notes.Judge;
    hide NextAt;
    if off + 12 <= |s| {
      ElsewhereClear(s, base, NextAt(s, off, msb), msb, lo, hi);
    }
  }

  /** `lo` to `hi` is where the first build ID of these parts is, if they have one. */
  ghost predicate IsPlace(r: Outcome, lo: nat, hi: nat) {
    r == Miss || (r.Hit? && r.at == lo && r.at + r.size == hi)
  }

  /** Reading one stretch keeps clear of `lo` to `hi`. */
  lemma PartIsClear(f: seq<Byte>, table: seq<Byte>, at: nat, t: Table, info: Info, p: Part, lo: nat, hi: nat)
    requires p.Stretch? && PartLaid(f, table, at, t, info, p)
    requires if PartId(p) == Miss then Clear(lo, hi, p.at, p.at + Length(p, info.msb)) else IsPlace(PartId(p), lo, hi)
    ensures EntryClear(f, table, at, t, info, lo, hi)
  {
    hide *;
    LaidMeans(f, table, at, t, info, p);
    var s := Flat(p.notes, info.msb);
    PlaceMeans(PartId(p), lo, hi);
    if PartId(p) == Miss {
      ElsewhereClear(s, p.at, 0, info.msb, lo, hi);
    } else {
      FirstIdFound(p.notes, p.at, info.msb);
    }
    FoundClear(f, table, at, t, info, p.at, s, lo, hi);
  }

  lemma PlaceMeans(r: Outcome, lo: nat, hi: nat)
    ensures IsPlace(r, lo, hi) && r != Miss ==> r.Hit? && r.at == lo && r.at + r.size == hi
  {
  }

  lemma {:induction false} EntriesAreClear(f: seq<Byte>, table: seq<Byte>, n: nat, size: nat, t: Table, info: Info,
                                           parts: seq<Part>, i: nat, lo: nat, hi: nat)
    requires |parts| == n && i <= n && PartsLaid(f, table, size, t, info, parts, i)
    requires MissesOff(parts[i..], info.msb, lo, hi) && IsPlace(FirstOf(parts[i..]), lo, hi)
    ensures EntriesClear(f, table, n, size, t, info, i, lo, hi)
    decreases n - i
  {
    hide EntryKind;
    hide ScanEntry;
    hide EntryClear;
    hide FirstId;
    hide Length;
    if i < n {
      var p := parts[i];
      assert parts[i..][1..] == parts[i + 1..];
      if p.Stretch? {
        StretchFinds(f, table, i * size, t, info, p);
        PartIsClear(f, table, i * size, t, info, p, lo, hi);
      }
      if PartId(p) == Miss {
        EntriesAreClear(f, table, n, size, t, info, parts, i + 1, lo, hi);
      }
    }
  }

  lemma TableIsClear(f: seq<Byte>, t: Table, parts: seq<Part>, lo: nat, hi: nat)
    requires HeaderOk(f) && TableLaid(f, t, InfoOf(f), parts) && OffTable(f, t, lo, hi)
    requires MissesOff(parts, InfoOf(f).msb, lo, hi) && IsPlace(FirstOf(parts), lo, hi)
    ensures TableClear(f, t, InfoOf(f), lo, hi)
  {
    var info := InfoOf(f);
    hide EntriesClear;
    hide TableHead;
    hide TableBytes;
    hide PartsLaid;
    hide MissesOff;
    hide FirstOf;
    var h := TableHead(f, t, info);
    if h.count > 0 {
      assert parts[0..] == parts;
      EntriesAreClear(f, TableBytes(f, h).value, h.count, h.size, t, info, parts, 0, lo, hi);
    }
  }

  /** The search reads nothing of the build ID it finds, if what it reads before it finds
      it keeps off that. */
  lemma SearchIsClear(f: seq<Byte>, segs: seq<Part>, secs: seq<Part>)
    requires FileLaid(f, segs, secs) && FirstIn(segs, secs).Hit?
    requires var r := FirstIn(segs, secs); ReadsOff(f, segs, secs, r.at, r.at + r.size)
    ensures var r := FirstIn(segs, secs); SearchClear(f, r.at, r.at + r.size)
  {
    hide *;
    SearchFinds(f, segs, secs);
    Searched(f, segs, secs);
    var r := FirstIn(segs, secs);
    TableIsClear(f, Segments, segs, r.at, r.at + r.size);
    if FirstOf(segs) == Miss {
      TableIsClear(f, Sections, secs, r.at, r.at + r.size);
    }
    ClearIf(f, r.at, r.at + r.size);
  }

  /** What the tables that are searched offer. */
  lemma Searched(f: seq<Byte>, segs: seq<Part>, secs: seq<Part>)
    requires FileLaid(f, segs, secs) && FirstIn(segs, secs).Hit?
    requires var r := FirstIn(segs, secs); ReadsOff(f, segs, secs, r.at, r.at + r.size)
    ensures HeaderOk(f) && |f| >= EHDR
    ensures var lo := FirstIn(segs, secs).at; var hi := lo + FirstIn(segs, secs).size; var info := InfoOf(f);
      && Clear(lo, hi, 0, EHDR)
      && TableLaid(f, Segments, info, segs) && OffTable(f, Segments, lo, hi) && MissesOff(segs, info.msb, lo, hi)
      && IsPlace(FirstOf(segs), lo, hi)
      && (FirstOf(segs) == Miss ==>
            && TableLaid(f, Sections, info, secs) && OffTable(f, Sections, lo, hi) && MissesOff(secs, info.msb, lo, hi)
            && IsPlace(FirstOf(secs), lo, hi))
  {
    hide TableLaid;
    hide OffTable;
    hide MissesOff;
    hide FirstOf;
  }

  lemma ClearIf(f: seq<Byte>, lo: nat, hi: nat)
    requires HeaderOk(f) && Clear(lo, hi, 0, EHDR) && TableClear(f, Segments, InfoOf(f), lo, hi)
    requires SearchTable(f, Segments, InfoOf(f)) == Miss ==> TableClear(f, Sections, InfoOf(f), lo, hi)
    ensures SearchClear(f, lo, hi)
  {
    hide TableClear;
    hide SearchTable;
  }

  /** Another build ID of the same size, written where the search found the first one, is
      found there instead. */
  lemma WriteThenFindLaid(f: seq<Byte>, segs: seq<Part>, secs: seq<Part>, data: seq<Byte>)
    requires FileLaid(f, segs, secs) && FirstIn(segs, secs).Hit? && FirstIn(segs, secs).size == |data|
    requires var r := FirstIn(segs, secs); ReadsOff(f, segs, secs, r.at, r.at + r.size)
    ensures var r := FirstIn(segs, secs);
      && Search(f) == r && r.at + |data| <= |f|
      && Search(Overwrite(f, r.at, data)) == Hit(r.at, |data|, Hex(data))
  {
    hide *;
    SearchFinds(f, segs, secs);
    HitInside(f);
    SearchIsClear(f, segs, secs);
    WriteThenFind(f, data);
  }
}
