/** Writing a build ID and searching again. */
module BuildIdProofs {
  import opened Bytes
  import opened Options
  import Notes
  import opened BuildId

  /** Positions `a` to `b` lie outside positions `lo` to `hi`. */
  predicate Clear(lo: nat, hi: nat, a: nat, b: nat) {
    b <= lo || hi <= a
  }

  /** Two stretches of a file, starting at `base`, that differ between `lo` and `hi` only. */
  ghost predicate Agree(s: seq<Byte>, s': seq<Byte>, base: nat, lo: nat, hi: nat) {
    |s| == |s'| && forall i :: 0 <= i < |s| && (base + i < lo || base + i >= hi) ==> s'[i] == s[i]
  }

  lemma SliceAgrees(s: seq<Byte>, s': seq<Byte>, base: nat, lo: nat, hi: nat, a: nat, b: nat)
    requires Agree(s, s', base, lo, hi) && a <= b <= |s|
    ensures Agree(s[a..b], s'[a..b], base + a, lo, hi)
    ensures Clear(lo, hi, base + a, base + b) ==> s'[a..b] == s[a..b]
  {
  }

  // ----- the walk over notes

  /** How far the walk looks into a note: a header and four bytes, if they are there. */
  function Glance(s: seq<Byte>, off: nat): (e: nat)
    ensures e <= |s| && (off + 16 <= |s| ==> e == off + 16)
  {
    if off + 16 <= |s| then off + 16 else |s|
  }

  /** The walk reads headers and the starts of names outside `lo` to `hi`. */
  predicate NotesClear(s: seq<Byte>, base: nat, off: nat, msb: bool, lo: nat, hi: nat)
    decreases |s| - off
  {
    off + 12 <= |s| ==>
      && Clear(lo, hi, base + off, base + Glance(s, off))
      && (Notes.Judge(s, off, ID, msb).Different? ==> NotesClear(s, base, NextAt(s, off, msb), msb, lo, hi))
  }

  lemma CompareSame(s: seq<Byte>, s': seq<Byte>, at: nat, t: seq<Byte>)
    requires at <= |s| == |s'|
    requires forall i :: at <= i < |s| && i < at + |t| ==> s'[i] == s[i]
    ensures Notes.Compare(s', at, t) == Notes.Compare(s, at, t)
    decreases |t|
  {
    if t != [] && at < |s| {
      CompareSame(s, s', at + 1, t[1..]);
    }
  }

  lemma JudgeSame(s: seq<Byte>, s': seq<Byte>, base: nat, off: nat, msb: bool, lo: nat, hi: nat)
    requires Agree(s, s', base, lo, hi) && off + 12 <= |s| && Clear(lo, hi, base + off, base + Glance(s, off))
    ensures Notes.Judge(s', off, ID, msb) == Notes.Judge(s, off, ID, msb) && NextAt(s', off, msb) == NextAt(s, off, msb)
    ensures DescAt(s', off, msb) == DescAt(s, off, msb) && Number(s', off + 4, 4, msb) == Number(s, off + 4, 4, msb)
  {
    hide Notes.Compare;
    SliceAgrees(s, s', base, lo, hi, off, off + 4);
    SliceAgrees(s, s', base, lo, hi, off + 4, off + 8);
    SliceAgrees(s, s', base, lo, hi, off + 8, off + 12);
    CompareSame(s, s', off + 12, GNU);
  }

  /** A hit between `lo` and `hi` stays a hit, with the new bytes' digits; a miss stays
      a miss. */
  ghost predicate Persists(r: Outcome, r': Outcome, lo: nat, hi: nat, new': seq<Byte>) {
    && (r == Miss ==> r' == Miss)
    && (r.Hit? && r.at == lo && r.at + r.size == hi ==> r' == Hit(lo, r.size, Hex(new')))
  }

  /** The new bytes are in the stretch, if their place is. */
  ghost predicate Holds(s': seq<Byte>, base: nat, lo: nat, hi: nat, new': seq<Byte>) {
    lo + |new'| == hi && (base <= lo && hi <= base + |s'| ==> s'[lo - base..hi - base] == new')
  }

  lemma TakePersists(s: seq<Byte>, s': seq<Byte>, base: nat, off: nat, msb: bool, lo: nat, hi: nat, new': seq<Byte>)
    requires Agree(s, s', base, lo, hi) && off + 12 <= |s| && Holds(s', base, lo, hi, new')
    requires DescAt(s', off, msb) == DescAt(s, off, msb) && Number(s', off + 4, 4, msb) == Number(s, off + 4, 4, msb)
    ensures Persists(Take(s, base, off, msb), Take(s', base, off, msb), lo, hi, new')
  {
    hide Hex;
    hide DescAt;
    hide Number;
  }

  lemma {:induction false} ScanPersists(s: seq<Byte>, s': seq<Byte>, base: nat, off: nat, msb: bool, lo: nat, hi: nat,
                                        new': seq<Byte>)
    requires Agree(s, s', base, lo, hi) && NotesClear(s, base, off, msb, lo, hi) && Holds(s', base, lo, hi, new')
    ensures Persists(ScanNotes(s, base, off, msb), ScanNotes(s', base, off, msb), lo, hi, new')
    decreases |s| - off
  {
    hide Notes.Judge;
    hide NextAt;
    hide DescAt;
    hide Number;
    hide Take;
    hide Holds;
    if off + 12 <= |s| {
      JudgeSame(s, s', base, off, msb, lo, hi);
      if Notes.Judge(s, off, ID, msb).Different? {
        ScanPersists(s, s', base, NextAt(s, off, msb), msb, lo, hi, new');
      } else if Notes.Judge(s, off, ID, msb).Same? {
        TakePersists(s, s', base, off, msb, lo, hi, new');
      }
    }
  }

  // ----- the tables

  predicate StretchClear(f: seq<Byte>, at: nat, len: nat, msb: bool, lo: nat, hi: nat) {
    Fetch(f, at, len).Some? ==> NotesClear(Fetch(f, at, len).value, at, 0, msb, lo, hi)
  }

  predicate EntryClear(f: seq<Byte>, table: seq<Byte>, at: nat, t: Table, info: Info, lo: nat, hi: nat) {
    match EntryPlace(table, at, t, info)
    case None => true
    case Some(e) => StretchClear(f, e.0, e.1, info.msb, lo, hi)
  }

  /** What a table's search reads is outside `lo` to `hi`: the notes of every entry up to
      the one that settles it. */
  predicate EntriesClear(f: seq<Byte>, table: seq<Byte>, n: nat, size: nat, t: Table, info: Info, i: nat, lo: nat,
                         hi: nat)
    decreases n - i
  {
    i < n ==>
      match EntryKind(table, i * size, t, info)
      case None => true
      case Some(kind) =>
        if kind != NoteKind(t) then EntriesClear(f, table, n, size, t, info, i + 1, lo, hi)
        else
          && EntryClear(f, table, i * size, t, info, lo, hi)
          && (ScanEntry(f, table, i * size, t, info) == Miss ==>
                EntriesClear(f, table, n, size, t, info, i + 1, lo, hi))
  }

  predicate TableClear(f: seq<Byte>, t: Table, info: Info, lo: nat, hi: nat)
    requires |f| >= EHDR
  {
    var h := TableHead(f, t, info);
    var table := TableBytes(f, h);
    h.count > 0 && table.Some? ==>
      && Clear(lo, hi, h.place, h.place + |table.value|)
      && EntriesClear(f, table.value, h.count, h.size, t, info, 0, lo, hi)
  }

  /** The search reads nothing between `lo` and `hi`, but for the build ID itself. */
  predicate SearchClear(f: seq<Byte>, lo: nat, hi: nat)
    requires HeaderOk(f)
  {
    && Clear(lo, hi, 0, EHDR) && TableClear(f, Segments, InfoOf(f), lo, hi)
    && (SearchTable(f, Segments, InfoOf(f)) == Miss ==> TableClear(f, Sections, InfoOf(f), lo, hi))
  }

  /** What is fetched agrees, and is the same if it lies outside. */
  lemma FetchAgrees(f: seq<Byte>, f': seq<Byte>, at: nat, len: nat, lo: nat, hi: nat)
    requires Agree(f, f', 0, lo, hi)
    ensures Fetch(f', at, len).Some? == Fetch(f, at, len).Some?
    ensures Fetch(f, at, len).Some? ==>
      var s, s' := Fetch(f, at, len).value, Fetch(f', at, len).value;
      && Agree(s, s', at, lo, hi) && (s == [] || s' == f'[at..at + len])
      && (Clear(lo, hi, at, at + |s|) ==> s' == s)
  {
    if at + len <= |f| {
      SliceAgrees(f, f', 0, lo, hi, at, at + len);
    }
  }

  lemma OneScanPersists(f: seq<Byte>, f': seq<Byte>, at: nat, len: nat, msb: bool, lo: nat, hi: nat, new': seq<Byte>)
    requires Agree(f, f', 0, lo, hi) && Holds(f', 0, lo, hi, new') && StretchClear(f, at, len, msb, lo, hi)
    ensures Persists(ScanStretch(f, at, len, msb), ScanStretch(f', at, len, msb), lo, hi, new')
  {
    FetchAgrees(f, f', at, len, lo, hi);
    if Fetch(f, at, len).Some? {
      var s, s' := Fetch(f, at, len).value, Fetch(f', at, len).value;
      assert Holds(s', at, lo, hi, new') by {
        if s' != [] && at <= lo && hi <= at + |s'| {
          Slice(f', at, s', lo - at, hi - at);
        }
      }
      ScanPersists(s, s', at, 0, msb, lo, hi, new');
    }
  }

  lemma EntryPersists(f: seq<Byte>, f': seq<Byte>, table: seq<Byte>, at: nat, t: Table, info: Info, lo: nat, hi: nat,
                      new': seq<Byte>)
    requires Agree(f, f', 0, lo, hi) && Holds(f', 0, lo, hi, new') && EntryClear(f, table, at, t, info, lo, hi)
    ensures Persists(ScanEntry(f, table, at, t, info), ScanEntry(f', table, at, t, info), lo, hi, new')
  {
    hide ScanStretch;
    hide StretchClear;
    hide Holds;
    hide Hex;
    match EntryPlace(table, at, t, info)
    case None =>
    case Some(e) => OneScanPersists(f, f', e.0, e.1, info.msb, lo, hi, new');
  }

  lemma {:induction false} EntriesPersist(f: seq<Byte>, f': seq<Byte>, table: seq<Byte>, n: nat, size: nat, t: Table,
                                          info: Info, i: nat, last: Outcome, lo: nat, hi: nat, new': seq<Byte>)
    requires Agree(f, f', 0, lo, hi) && Holds(f', 0, lo, hi, new')
    requires EntriesClear(f, table, n, size, t, info, i, lo, hi) && (last == Miss || last == Garbage)
    ensures var r, r' := ScanTable(f, table, n, size, t, info, i, last),
        ScanTable(f', table, n, size, t, info, i, last);
      Persists(r, r', lo, hi, new')
    decreases n - i
  {
    hide EntryKind;
    hide ScanEntry;
    hide EntryClear;
    hide Holds;
    hide Hex;
    if i < n && EntryKind(table, i * size, t, info).Some? {
      if EntryKind(table, i * size, t, info).value != NoteKind(t) {
        EntriesPersist(f, f', table, n, size, t, info, i + 1, last, lo, hi, new');
      } else {
        EntryPersists(f, f', table, i * size, t, info, lo, hi, new');
        if ScanEntry(f, table, i * size, t, info) == Miss {
          EntriesPersist(f, f', table, n, size, t, info, i + 1, Miss, lo, hi, new');
        }
      }
    }
  }

  lemma HeadSame(f: seq<Byte>, f': seq<Byte>, t: Table, info: Info, lo: nat, hi: nat)
    requires Agree(f, f', 0, lo, hi) && |f| >= EHDR && Clear(lo, hi, 0, EHDR)
    ensures TableHead(f', t, info) == TableHead(f, t, info)
  {
    var p, c, z := PlaceField(t, info.wide), CountField(t, info.wide), EntrySizeField(t, info.wide);
    SliceAgrees(f, f', 0, lo, hi, p.0, p.0 + p.1);
    SliceAgrees(f, f', 0, lo, hi, c, c + 2);
    SliceAgrees(f, f', 0, lo, hi, z, z + 2);
  }

  lemma TablePersists(f: seq<Byte>, f': seq<Byte>, t: Table, info: Info, lo: nat, hi: nat, new': seq<Byte>)
    requires Agree(f, f', 0, lo, hi) && Holds(f', 0, lo, hi, new') && |f| >= EHDR && Clear(lo, hi, 0, EHDR)
    requires TableClear(f, t, info, lo, hi)
    ensures Persists(SearchTable(f, t, info), SearchTable(f', t, info), lo, hi, new')
  {
    hide ScanTable;
    hide EntriesClear;
    hide TableHead;
    hide Hex;
    HeadSame(f, f', t, info, lo, hi);
    var h := TableHead(f, t, info);
    FetchAgrees(f, f', h.place, h.count * h.size, lo, hi);
    if h.count > 0 && TableBytes(f, h).Some? {
      EntriesPersist(f, f', TableBytes(f, h).value, h.count, h.size, t, info, 0, Garbage, lo, hi, new');
    }
  }

  lemma HeaderSame(f: seq<Byte>, f': seq<Byte>, lo: nat, hi: nat)
    requires Agree(f, f', 0, lo, hi) && HeaderOk(f) && Clear(lo, hi, 0, EHDR)
    ensures HeaderOk(f') && InfoOf(f') == InfoOf(f)
  {
    SliceAgrees(f, f', 0, lo, hi, 0, 4);
    SliceAgrees(f, f', 0, lo, hi, 4, 6);
    assert f'[4] == f[4..6][0] && f'[5] == f[4..6][1];
  }

  lemma OverwriteAgrees(f: seq<Byte>, at: nat, data: seq<Byte>)
    requires at + |data| <= |f|
    ensures Agree(f, Overwrite(f, at, data), 0, at, at + |data|)
    ensures Holds(Overwrite(f, at, data), 0, at, at + |data|, data)
  {
  }

  /** Writing an ID of the same size where the search found one, and searching again,
      finds the new one at the same place, provided the search reads nothing there but
      the ID: for either class and either encoding. */
  lemma WriteThenFind(f: seq<Byte>, data: seq<Byte>)
    requires Search(f).Hit? && Search(f).size == |data| && Search(f).at + |data| <= |f|
    requires HeaderOk(f) && SearchClear(f, Search(f).at, Search(f).at + |data|)
    ensures Search(Overwrite(f, Search(f).at, data)) == Hit(Search(f).at, |data|, Hex(data))
  {
    var lo := Search(f).at;
    var hi := lo + |data|;
    var f' := Overwrite(f, lo, data);
    OverwriteAgrees(f, lo, data);
    hide Overwrite;
    hide SearchTable;
    hide TableClear;
    hide Hex;
    HeaderSame(f, f', lo, hi);
    TablePersists(f, f', Segments, InfoOf(f), lo, hi, data);
    if SearchTable(f, Segments, InfoOf(f)) == Miss {
      TablePersists(f, f', Sections, InfoOf(f), lo, hi, data);
    }
  }

  lemma SpellsLength(hex: string, data: seq<Byte>)
    requires Spells(hex, data)
    ensures |hex| == 2 * |data|
  {
  }

  /** The bytes from `at` on are those the digits spell, and all others are as before. */
  ghost predicate Rewritten(f: seq<Byte>, f': seq<Byte>, at: nat, size: nat, digits: string)
    requires at + size <= |f|
  {
    && |f'| == |f| && f'[..at] == f[..at] && f'[at + size..] == f[at + size..]
    && Spells(Lowered(digits), f'[at..at + size])
  }

  lemma RewrittenIf(f: seq<Byte>, at: nat, data: seq<Byte>, digits: string)
    requires at + |data| <= |f| && Spells(Lowered(digits), data)
    ensures Rewritten(f, Overwrite(f, at, data), at, |data|, digits)
  {
    hide Spells;
    hide Lowered;
    assert Overwrite(f, at, data)[at..at + |data|] == data;
  }

  /** How the tool ends. The last three are not its own: it runs for ever, reads past what
      it fetched, or acts on a variable never set. */
  datatype Status = Written | NoId | ReadError | BadDigits | WrongSize | Endless | PastFetched | Unset

  /** The tool: find the build ID, decode the new digits, and write them if they are as
      many. */
  method SetBuildId(f: seq<Byte>, digits: string, hostMsb: bool) returns (r: Status, f': seq<Byte>)
    ensures r != Written ==> f' == f
    ensures r == NoId <==> Search(f) == Miss
    ensures r == ReadError <==> Search(f) == Failure
    ensures r == Endless <==> Search(f) == Hang
    ensures r == PastFetched <==> Search(f) == Overrun
    ensures r == Unset <==> Search(f) == Garbage
    ensures r == BadDigits <==> Search(f).Hit? && (|digits| % 2 != 0 || !AllHex(digits))
    ensures r == WrongSize <==> Search(f).Hit? && |digits| % 2 == 0 && AllHex(digits) && |digits| != 2 * Search(f).size
    ensures r == Written ==> Search(f).Hit? && Search(f).at + Search(f).size <= |f|
    ensures r == Written ==> Rewritten(f, f', Search(f).at, Search(f).size, digits)
    ensures r == Written && HeaderOk(f) && SearchClear(f, Search(f).at, Search(f).at + Search(f).size) ==>
      Search(f') == Hit(Search(f).at, Search(f).size, Lowered(digits))
  {
    hide *;
    f' := f;
    var found := Find(f, hostMsb);
    match found {
      case Miss => return NoId, f;
      case Failure => return ReadError, f;
      case Hang => return Endless, f;
      case Overrun => return PastFetched, f;
      case Garbage => return Unset, f;
      case Hit(_, _, _) =>
    }
    HitInside(f);
    if |digits| % 2 != 0 {
      return BadDigits, f;
    }
    var data := FromHex(digits);
    if data == None {
      return BadDigits, f;
    }
    SpellsLength(Lowered(digits), data.value);
    if |digits| / 2 != found.size {
      return WrongSize, f;
    }
    f' := WriteNewBuildId(f, found.at, data.value);
    RewrittenIf(f, found.at, data.value, digits);
    SpellingIsOneToOne(Lowered(digits), data.value, Hex(data.value), data.value);
    if HeaderOk(f) && SearchClear(f, found.at, found.at + found.size) {
      WriteThenFind(f, data.value);
    }
    r := Written;
  }

  // ----- a hit lies in the file

  lemma {:induction false} ScanInside(s: seq<Byte>, base: nat, off: nat, msb: bool)
    ensures var r := ScanNotes(s, base, off, msb);
      r.Hit? ==> base + 12 <= r.at && r.at + r.size <= base + |s|
    decreases |s| - off
  {
    hide Hex;
    hide Notes.Judge;
    hide Number;
    if off + 12 <= |s| && Notes.Judge(s, off, ID, msb).Different? {
      ScanInside(s, base, NextAt(s, off, msb), msb);
    }
  }

  lemma EntryInside(f: seq<Byte>, table: seq<Byte>, at: nat, t: Table, info: Info)
    ensures var r := ScanEntry(f, table, at, t, info); r.Hit? ==> r.at + r.size <= |f|
  {
    hide ScanNotes;
    match EntryPlace(table, at, t, info)
    case None =>
    case Some(e) =>
      if Fetch(f, e.0, e.1).Some? {
        ScanInside(Fetch(f, e.0, e.1).value, e.0, 0, info.msb);
      }
  }

  lemma {:induction false} EntriesInside(f: seq<Byte>, table: seq<Byte>, n: nat, size: nat, t: Table, info: Info,
                                         i: nat, last: Outcome)
    requires !last.Hit?
    ensures var r := ScanTable(f, table, n, size, t, info, i, last); r.Hit? ==> r.at + r.size <= |f|
    decreases n - i
  {
    hide ScanEntry;
    hide EntryKind;
    if i < n {
      EntryInside(f, table, i * size, t, info);
      EntriesInside(f, table, n, size, t, info, i + 1, last);
      EntriesInside(f, table, n, size, t, info, i + 1, Miss);
    }
  }

  lemma HitInside(f: seq<Byte>)
    ensures Search(f).Hit? ==> HeaderOk(f) && Search(f).at + Search(f).size <= |f|
  {
    hide SearchTable;
    if HeaderOk(f) {
      TableInside(f, Segments, InfoOf(f));
      TableInside(f, Sections, InfoOf(f));
    }
  }

  lemma TableInside(f: seq<Byte>, t: Table, info: Info)
    requires |f| >= EHDR
    ensures var r := SearchTable(f, t, info); r.Hit? ==> r.at + r.size <= |f|
  {
    hide ScanTable;
    hide TableHead;
    var h := TableHead(f, t, info);
    var table := TableBytes(f, h);
    if table.Some? {
      EntriesInside(f, table.value, h.count, h.size, t, info, 0, Garbage);
    }
  }
}
