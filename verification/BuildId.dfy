/** Finding the build ID note of an ELF file of either class and either encoding, and
    overwriting it in place. */
module BuildId {
  import opened Bytes
  import opened Options
  import Notes

  const EHDR: nat := 64
  const MAX_SIZE: nat := 512
  const NT_GNU_BUILD_ID: nat := 3

  /** The letters GNU and a terminator. */
  const GNU: seq<Byte> := [71, 78, 85, 0]

  const ID: Notes.Target := Notes.Target(GNU, NT_GNU_BUILD_ID)

  /** The file's encoding and class. */
  datatype Info = Info(msb: bool, wide: bool)

  // ----- fields

  function Swap(v: nat, n: nat): nat {
    FromLe(Reverse(ToLe(v, n)))
  }

  /** Reads a field as the host does, and swaps it if the file's order is not the
      host's. */
  function GetField(b: seq<Byte>, msb: bool, hostMsb: bool): nat {
    var v := Value(b, hostMsb);
    if msb != hostMsb then Swap(v, |b|) else v
  }

  /** What is read does not depend on the host. */
  lemma HostFree(b: seq<Byte>, msb: bool, hostMsb: bool)
    ensures GetField(b, msb, hostMsb) == Value(b, msb)
  {
    ToFromLe(b);
    ToFromLe(Reverse(b));
    assert Reverse(Reverse(b)) == b;
  }

  // ----- hexadecimal

  function NibbleToHex(n: nat): (c: char)
    requires n < 16
  {
    if n < 10 then '0' + n as char else 'a' + (n - 10) as char
  }

  function HexToNibble(c: char): (n: Option<nat>)
    ensures n.Some? ==> n.value < 16
  {
    if '0' <= c <= '9' then Some((c - '0') as nat)
    else if 'a' <= c <= 'f' then Some((c - 'a') as nat + 10)
    else if 'A' <= c <= 'F' then Some((c - 'A') as nat + 10)
    else None
  }

  function Lower(c: char): char {
    if 'A' <= c <= 'F' then 'a' + (c - 'A') else c
  }

  lemma NibbleRoundTrip(n: nat)
    requires n < 16
    ensures HexToNibble(NibbleToHex(n)) == Some(n)
  {
  }

  lemma HexRoundTrip(c: char)
    ensures HexToNibble(c).Some? ==> NibbleToHex(HexToNibble(c).value) == Lower(c)
  {
  }

  /** `hex` spells `data`, two digits a byte. */
  predicate Spells(hex: string, data: seq<Byte>) {
    && |hex| == 2 * |data|
    && forall i :: 0 <= i < |data| ==>
      hex[2 * i] == NibbleToHex(data[i] / 16) && hex[2 * i + 1] == NibbleToHex(data[i] % 16)
  }

  function Hex(data: seq<Byte>): (hex: string)
    ensures Spells(hex, data)
  {
    seq(2 * |data|, (i: nat) requires i < 2 * |data| =>
      NibbleToHex(if i % 2 == 0 then data[i / 2] / 16 else data[i / 2] % 16))
  }

  /** The digits, in order, in either case. */
  lemma Digits(n: nat)
    requires n < 16
    ensures NibbleToHex(n) == "0123456789abcdef"[n]
    ensures HexToNibble("0123456789abcdef"[n]) == HexToNibble("0123456789ABCDEF"[n]) == Some(n)
  {
  }

  /** The high nibble comes first. */
  lemma HighFirst(b: Byte)
    ensures Hex([b]) == ["0123456789abcdef"[b / 16], "0123456789abcdef"[b % 16]]
  {
    Digits(b / 16);
    Digits(b % 16);
    assert Spells(Hex([b]), [b]);
    hide NibbleToHex;
    hide HexToNibble;
  }

  /** What a digit is. */
  lemma OnlyDigits(c: char)
    ensures HexToNibble(c) == None <==> c !in "0123456789abcdefABCDEF"
  {
    var all := "0123456789abcdefABCDEF";
    if HexToNibble(c).Some? {
      var n := HexToNibble(c).value;
      Digits(n);
      assert c == all[n] || c == all[n + 6];
    }
    if c in all {
      var k :| 0 <= k < 22 && all[k] == c;
      Digits(if k < 16 then k else k - 6);
    }
  }

  method ToHex(data: seq<Byte>) returns (hex: string)
    ensures hex == Hex(data)
  {
    hex := [];
    var i := 0;
    while i < |data|
      invariant 0 <= i <= |data| && Spells(hex, data[..i])
    {
      hex := hex + [NibbleToHex(data[i] / 16), NibbleToHex(data[i] % 16)];
      i := i + 1;
    }
    assert data[..i] == data;
    SpellingIsOneToOne(hex, data, Hex(data), data);
  }

  predicate AllHex(hex: string) {
    forall i :: 0 <= i < |hex| ==> HexToNibble(hex[i]).Some?
  }

  function Lowered(hex: string): (r: string)
    ensures |r| == |hex| && forall i :: 0 <= i < |hex| ==> r[i] == Lower(hex[i])
  {
    seq(|hex|, (i: nat) requires i < |hex| => Lower(hex[i]))
  }

  /** Decodes an even number of digits; what it decodes spells the same digits, in
      lower case. It fails exactly on a character that is no digit. */
  method FromHex(hex: string) returns (r: Option<seq<Byte>>)
    requires |hex| % 2 == 0
    ensures r.Some? <==> AllHex(hex)
    ensures r.Some? ==> Spells(Lowered(hex), r.value)
  {
    var data: seq<Byte> := [];
    var i := 0;
    hide Spells;
    hide Lowered;
    assert Spells(Lowered(hex[..0]), data) by { SpellsNothing(hex[..0]); }
    while i < |hex| / 2
      invariant 0 <= i <= |hex| / 2 && |data| == i
      invariant AllHex(hex[..2 * i]) && Spells(Lowered(hex[..2 * i]), data)
    {
      var hi, lo := HexToNibble(hex[2 * i]), HexToNibble(hex[2 * i + 1]);
      if hi == None || lo == None {
        return None;
      }
      SpellsMore(hex, i, data, hi.value, lo.value);
      data := data + [hi.value * 16 + lo.value];
      i := i + 1;
    }
    assert hex[..2 * i] == hex;
    r := Some(data);
  }

  lemma SpellsNothing(hex: string)
    requires hex == []
    ensures Spells(Lowered(hex), [])
  {
  }

  /** Two more digits spell one more byte. */
  lemma SpellsMore(hex: string, i: nat, data: seq<Byte>, hi: nat, lo: nat)
    requires 2 * i + 2 <= |hex| && Spells(Lowered(hex[..2 * i]), data)
    requires hi < 16 && lo < 16 && HexToNibble(hex[2 * i]) == Some(hi) && HexToNibble(hex[2 * i + 1]) == Some(lo)
    ensures Spells(Lowered(hex[..2 * (i + 1)]), data + [hi * 16 + lo])
  {
    HexRoundTrip(hex[2 * i]);
    HexRoundTrip(hex[2 * i + 1]);
    hide HexToNibble;
    hide NibbleToHex;
    hide Lower;
    var a, b := Lowered(hex[..2 * i]), Lowered(hex[..2 * (i + 1)]);
    var more := data + [hi * 16 + lo];
    assert forall k :: 0 <= k < 2 * i ==> b[k] == a[k];
    forall k | 0 <= k < |more|
      ensures b[2 * k] == NibbleToHex(more[k] / 16) && b[2 * k + 1] == NibbleToHex(more[k] % 16)
    {
      if k < i {
        assert more[k] == data[k];
      }
    }
  }

  lemma NibbleInjective(m: nat, n: nat)
    requires m < 16 && n < 16 && NibbleToHex(m) == NibbleToHex(n)
    ensures m == n
  {
    NibbleRoundTrip(m);
    NibbleRoundTrip(n);
  }

  /** Spelling and decoding are inverse: digits spell one string of bytes only, and
      bytes have one spelling only. */
  lemma SpellingIsOneToOne(a: string, x: seq<Byte>, b: string, y: seq<Byte>)
    requires Spells(a, x) && Spells(b, y)
    ensures a == b <==> x == y
  {
    if x == y {
      forall i | 0 <= i < |a| ensures a[i] == b[i] {
        var k := i / 2;
        assert (i == 2 * k || i == 2 * k + 1) && x[k] == y[k];
      }
    }
    if a == b {
      forall i | 0 <= i < |x| ensures x[i] == y[i] {
        NibbleInjective(x[i] / 16, y[i] / 16);
        NibbleInjective(x[i] % 16, y[i] % 16);
      }
    }
  }

  // ----- the search

  /** How a search ends: the build ID, with its position and digits; nothing found; an
      error; a loop that never ends, on an oversized build ID; an uninitialised result,
      for a table with no note entry; or a read past the end of what was fetched. */
  datatype Outcome = Hit(at: nat, size: nat, hex: string) | Miss | Failure | Hang | Garbage | Overrun

  /** Reads a number of the file on this host. */
  method ReadNumber(s: seq<Byte>, at: nat, n: nat, msb: bool, hostMsb: bool) returns (v: nat)
    requires at + n <= |s|
    ensures v == Number(s, at, n, msb)
  {
    HostFree(s[at..at + n], msb, hostMsb);
    v := GetField(s[at..at + n], msb, hostMsb);
  }

  /** Sizes pass through 16 bits on their way to the next note. */
  function Narrow(n: nat): nat {
    n % 0x1_0000
  }

  function DescAt(s: seq<Byte>, off: nat, msb: bool): nat
    requires off + 12 <= |s|
  {
    off + 12 + Pad4(Narrow(Number(s, off, 4, msb)))
  }

  function NextAt(s: seq<Byte>, off: nat, msb: bool): (r: nat)
    requires off + 12 <= |s|
    ensures r >= off + 12
  {
    DescAt(s, off, msb) + Pad4(Narrow(Number(s, off + 4, 4, msb)))
  }

  /** What a build ID note at `off` makes of the search. */
  function Take(s: seq<Byte>, base: nat, off: nat, msb: bool): Outcome
    requires off + 12 <= |s|
  {
    var size, at := Number(s, off + 4, 4, msb), DescAt(s, off, msb);
    if size > MAX_SIZE then Hang
    else if at + size > |s| then Overrun
    else Hit(base + at, size, Hex(s[at..at + size]))
  }

  function ScanNotes(s: seq<Byte>, base: nat, off: nat, msb: bool): Outcome
    decreases |s| - off
  {
    if off >= |s| then Miss
    else if off + 12 > |s| then Overrun
    else match Notes.Judge(s, off, ID, msb)
      case PastEnd => Overrun
      case Same => Take(s, base, off, msb)
      case Different => ScanNotes(s, base, NextAt(s, off, msb), msb)
  }

  /** Seeking takes a signed 64-bit position; reading nothing succeeds anywhere. */
  function Fetch(f: seq<Byte>, offset: nat, len: nat): Option<seq<Byte>> {
    if offset + len <= |f| then Some(f[offset..offset + len])
    else if len == 0 && offset < 0x8000_0000_0000_0000 then Some([])
    else None
  }

  function ScanStretch(f: seq<Byte>, offset: nat, len: nat, msb: bool): Outcome {
    match Fetch(f, offset, len)
    case None => Failure
    case Some(s) => ScanNotes(s, offset, 0, msb)
  }

  /** The walk over the notes of one segment or section. */
  method FindBuildId(f: seq<Byte>, offset: nat, len: nat, info: Info, hostMsb: bool) returns (r: Outcome)
    ensures r == ScanStretch(f, offset, len, info.msb)
  {
    var fetched := Fetch(f, offset, len);
    if fetched == None {
      return Failure;
    }
    var data := fetched.value;
    hide Notes.Judge;
    hide Take;
    hide NextAt;
    var off := 0;
    while off < |data|
      invariant ScanNotes(data, offset, off, info.msb) == ScanNotes(data, offset, 0, info.msb)
      decreases |data| - off
    {
      if off + 12 > |data| {
        return Overrun;
      }
      var c, found, next := VisitNote(data, offset, off, info.msb, hostMsb);
      if c.PastEnd? {
        return Overrun;
      }
      if c.Same? {
        return found;
      }
      off := next;
    }
    r := Miss;
  }

  /** Reads one note: whether it is the build ID, what that yields, and where the next
      note is. */
  method VisitNote(data: seq<Byte>, base: nat, off: nat, msb: bool, hostMsb: bool)
    returns (c: Notes.Comparison, r: Outcome, next: nat)
    requires off + 12 <= |data|
    ensures c == Notes.Judge(data, off, ID, msb) && next == NextAt(data, off, msb)
    ensures c.Same? ==> r == Take(data, base, off, msb)
  {
    hide Number;
    hide Notes.Compare;
    hide Hex;
    r := Miss;
    var descSize := ReadNumber(data, off + 4, 4, msb, hostMsb);
    var nameSize := ReadNumber(data, off, 4, msb, hostMsb);
    var kind := ReadNumber(data, off + 8, 4, msb, hostMsb);
    c := Notes.Compare(data, off + 12, GNU);
    var at := off + 12 + Pad4(Narrow(nameSize));
    next := at + Pad4(Narrow(descSize));
    if c.Same? && kind != NT_GNU_BUILD_ID {
      c := Notes.Different;
    } else if c.Same? {
      if descSize > MAX_SIZE {
        r := Hang;
      } else if at + descSize > |data| {
        r := Overrun;
      } else {
        var hex := ToHex(data[at..at + descSize]);
        r := Hit(base + at, descSize, hex);
      }
    }
  }

  // ----- header tables

  datatype Table = Segments | Sections

  /** Where a table's place, length and entry size stand in the ELF header, and where
      an entry keeps its type, position and size: offset and width. */
  function PlaceField(t: Table, wide: bool): (nat, nat) {
    match t
    case Segments => if wide then (32, 8) else (28, 4)
    case Sections => if wide then (40, 8) else (32, 4)
  }

  function CountField(t: Table, wide: bool): nat {
    match t
    case Segments => if wide then 56 else 44
    case Sections => if wide then 60 else 48
  }

  function EntrySizeField(t: Table, wide: bool): nat {
    match t
    case Segments => if wide then 54 else 42
    case Sections => if wide then 58 else 46
  }

  function KindField(t: Table): nat {
    match t
    case Segments => 0
    case Sections => 4
  }

  function NoteKind(t: Table): nat {
    match t
    case Segments => 4
    case Sections => 7
  }

  function OffsetField(t: Table, wide: bool): (nat, nat) {
    match t
    case Segments => if wide then (8, 8) else (4, 4)
    case Sections => if wide then (24, 8) else (16, 4)
  }

  function SizeField(t: Table, wide: bool): (nat, nat) {
    match t
    case Segments => if wide then (32, 8) else (16, 4)
    case Sections => if wide then (32, 8) else (20, 4)
  }

  /** The bytes of an entry that are read if it is for notes. */
  function Extent(t: Table, wide: bool): (n: nat)
    ensures KindField(t) + 4 <= n
    ensures OffsetField(t, wide).0 + OffsetField(t, wide).1 <= n && SizeField(t, wide).0 + SizeField(t, wide).1 <= n
  {
    SizeField(t, wide).0 + SizeField(t, wide).1
  }

  /** The type of the entry at `at`, or nothing if it does not lie in what was fetched. */
  function EntryKind(table: seq<Byte>, at: nat, t: Table, info: Info): Option<nat> {
    var k := at + KindField(t);
    if k + 4 <= |table| then Some(Number(table, k, 4, info.msb)) else None
  }

  /** The position and size in the entry at `at`, if they lie in what was fetched. */
  function EntryPlace(table: seq<Byte>, at: nat, t: Table, info: Info): Option<(nat, nat)> {
    var o, z := OffsetField(t, info.wide), SizeField(t, info.wide);
    if at + Extent(t, info.wide) > |table| then None
    else Some((Number(table, at + o.0, o.1, info.msb), Number(table, at + z.0, z.1, info.msb)))
  }

  /** Scans what entry `i`, which is for notes, tells of. */
  function ScanEntry(f: seq<Byte>, table: seq<Byte>, at: nat, t: Table, info: Info): Outcome {
    match EntryPlace(table, at, t, info)
    case None => Overrun
    case Some(e) => ScanStretch(f, e.0, e.1, info.msb)
  }

  /** Scans the notes of entry after entry, from entry `i` on, until a scan says
      anything but a miss. `table` is what was fetched of the file. */
  function ScanTable(f: seq<Byte>, table: seq<Byte>, n: nat, size: nat, t: Table, info: Info, i: nat,
                     last: Outcome): Outcome
    decreases n - i
  {
    if i >= n then last
    else match EntryKind(table, i * size, t, info)
      case None => Overrun
      case Some(kind) =>
        if kind != NoteKind(t) then ScanTable(f, table, n, size, t, info, i + 1, last)
        else
          var r := ScanEntry(f, table, i * size, t, info);
          if r == Miss then ScanTable(f, table, n, size, t, info, i + 1, Miss) else r
  }

  datatype Head = Head(place: nat, count: nat, size: nat)

  function TableHead(f: seq<Byte>, t: Table, info: Info): Head
    requires |f| >= EHDR
  {
    var p := PlaceField(t, info.wide);
    Head(Number(f, p.0, p.1, info.msb), Number(f, CountField(t, info.wide), 2, info.msb),
         Number(f, EntrySizeField(t, info.wide), 2, info.msb))
  }

  /** What is fetched of a table. */
  function TableBytes(f: seq<Byte>, h: Head): (r: Option<seq<Byte>>)
    ensures r.Some? ==> |r.value| == h.count * h.size
  {
    Fetch(f, h.place, h.count * h.size)
  }

  function SearchTable(f: seq<Byte>, t: Table, info: Info): Outcome
    requires |f| >= EHDR
  {
    var h := TableHead(f, t, info);
    if h.count == 0 then Miss
    else match TableBytes(f, h)
      case None => Failure
      case Some(table) => ScanTable(f, table, h.count, h.size, t, info, 0, Garbage)
  }

  predicate HeaderOk(f: seq<Byte>) {
    && |f| >= EHDR && f[..4] == [0x7f, 69, 76, 70] && (f[4] == 1 || f[4] == 2) && (f[5] == 1 || f[5] == 2)
  }

  function InfoOf(f: seq<Byte>): Info
    requires HeaderOk(f)
  {
    Info(f[5] == 2, f[4] == 2)
  }

  /** Segments first, then sections. */
  function Search(f: seq<Byte>): Outcome {
    if !HeaderOk(f) then Failure
    else
      var r := SearchTable(f, Segments, InfoOf(f));
      if r != Miss then r else SearchTable(f, Sections, InfoOf(f))
  }

  method FindInTable(f: seq<Byte>, t: Table, info: Info, hostMsb: bool) returns (r: Outcome)
    requires |f| >= EHDR
    ensures r == SearchTable(f, t, info)
  {
    var p := PlaceField(t, info.wide);
    var c, z := CountField(t, info.wide), EntrySizeField(t, info.wide);
    hide Number;
    hide ScanTable;
    var place := ReadNumber(f, p.0, p.1, info.msb, hostMsb);
    var count := ReadNumber(f, c, 2, info.msb, hostMsb);
    var size := ReadNumber(f, z, 2, info.msb, hostMsb);
    if count == 0 {
      return Miss;
    }
    var table := TableBytes(f, Head(place, count, size));
    if table == None {
      return Failure;
    }
    r := ScanEntries(f, table.value, count, size, t, info, hostMsb);
  }

  method ScanEntries(f: seq<Byte>, table: seq<Byte>, n: nat, size: nat, t: Table, info: Info, hostMsb: bool)
    returns (r: Outcome)
    ensures r == ScanTable(f, table, n, size, t, info, 0, Garbage)
  {
    hide ScanEntry;
    hide EntryKind;
    r := Garbage;
    var i := 0;
    while i < n
      invariant 0 <= i <= n
      invariant ScanTable(f, table, n, size, t, info, i, r) == ScanTable(f, table, n, size, t, info, 0, Garbage)
    {
      var kind := ReadKind(table, i * size, t, info, hostMsb);
      if kind == None {
        return Overrun;
      }
      if kind.value == NoteKind(t) {
        r := VisitEntry(f, table, i * size, t, info, hostMsb);
        if r != Miss {
          return;
        }
      }
      i := i + 1;
    }
  }

  /** Reads an entry's type, and nothing else of it. */
  method ReadKind(table: seq<Byte>, at: nat, t: Table, info: Info, hostMsb: bool) returns (kind: Option<nat>)
    ensures kind == EntryKind(table, at, t, info)
  {
    if at + KindField(t) + 4 > |table| {
      return None;
    }
    var v := ReadNumber(table, at + KindField(t), 4, info.msb, hostMsb);
    kind := Some(v);
  }

  /** Reads where an entry's notes are, and walks them. */
  method VisitEntry(f: seq<Byte>, table: seq<Byte>, at: nat, t: Table, info: Info, hostMsb: bool) returns (r: Outcome)
    ensures r == ScanEntry(f, table, at, t, info)
  {
    hide ScanStretch;
    hide Number;
    var o, z := OffsetField(t, info.wide), SizeField(t, info.wide);
    if at + Extent(t, info.wide) > |table| {
      return Overrun;
    }
    var offset := ReadNumber(table, at + o.0, o.1, info.msb, hostMsb);
    var len := ReadNumber(table, at + z.0, z.1, info.msb, hostMsb);
    r := FindBuildId(f, offset, len, info, hostMsb);
  }

  /** The whole search; the host's byte order makes no difference. */
  method Find(f: seq<Byte>, hostMsb: bool) returns (r: Outcome)
    ensures r == Search(f)
  {
    hide SearchTable;
    if !HeaderOk(f) {
      return Failure;
    }
    var info := InfoOf(f);
    r := FindInTable(f, Segments, info, hostMsb);
    if r != Miss {
      return;
    }
    r := FindInTable(f, Sections, info, hostMsb);
  }

  // ----- what goes wrong, and when

  /** A size survives 16 bits, padding included, exactly if it fits them. */
  lemma NarrowExact(n: nat)
    ensures Pad4(Narrow(n)) <= Pad4(n) && (Pad4(Narrow(n)) == Pad4(n) <==> n < 0x1_0000)
  {
  }

  /** The type of entry `j` is in what was fetched of the table, and is not that of notes. */
  predicate NoteFree(table: seq<Byte>, size: nat, t: Table, info: Info, j: nat) {
    var kind := EntryKind(table, j * size, t, info);
    kind.Some? && kind.value != NoteKind(t)
  }

  /** The result of a table's search is the variable's initial value exactly if no entry
      is for notes. */
  lemma {:induction false} GarbageWhen(f: seq<Byte>, table: seq<Byte>, n: nat, size: nat, t: Table, info: Info, i: nat,
                                       last: Outcome)
    ensures ScanTable(f, table, n, size, t, info, i, last) == Garbage <==>
      last == Garbage && forall j :: i <= j < n ==> NoteFree(table, size, t, info, j)
    decreases n - i
  {
    hide EntryKind;
    hide ScanEntry;
    if i < n {
      EntrySays(f, table, i * size, t, info);
      if NoteFree(table, size, t, info, i) {
        GarbageWhen(f, table, n, size, t, info, i + 1, last);
      } else {
        GarbageWhen(f, table, n, size, t, info, i + 1, Miss);
      }
    }
  }

  lemma EntrySays(f: seq<Byte>, table: seq<Byte>, at: nat, t: Table, info: Info)
    ensures ScanEntry(f, table, at, t, info) != Garbage
  {
    hide ScanStretch;
    match EntryPlace(table, at, t, info)
    case None =>
    case Some(e) => StretchSays(f, e.0, e.1, info.msb);
  }

  lemma StretchSays(f: seq<Byte>, offset: nat, len: nat, msb: bool)
    ensures ScanStretch(f, offset, len, msb) != Garbage
  {
    if Fetch(f, offset, len).Some? {
      ScanSays(Fetch(f, offset, len).value, offset, 0, msb);
    }
  }

  lemma {:induction false} ScanSays(s: seq<Byte>, base: nat, off: nat, msb: bool)
    ensures ScanNotes(s, base, off, msb) != Garbage
    decreases |s| - off
  {
    hide Notes.Judge;
    hide Hex;
    hide Number;
    if off + 12 <= |s| && Notes.Judge(s, off, ID, msb).Different? {
      ScanSays(s, base, NextAt(s, off, msb), msb);
    }
  }

  /** A table that can be read and is not empty, but has no entry for notes. */
  ghost predicate Noteless(f: seq<Byte>, t: Table, info: Info)
    requires |f| >= EHDR
  {
    var h := TableHead(f, t, info);
    h.count > 0 &&
    match TableBytes(f, h)
    case None => false
    case Some(table) => forall j :: 0 <= j < h.count ==> NoteFree(table, h.size, t, info, j)
  }

  /** The whole search ends with an uninitialised result exactly if it gets to a table
      that is not empty but has no entry for notes. */
  lemma SearchGarbage(f: seq<Byte>)
    ensures Search(f) == Garbage <==>
      && HeaderOk(f)
      && (Noteless(f, Segments, InfoOf(f)) ||
          (SearchTable(f, Segments, InfoOf(f)) == Miss && Noteless(f, Sections, InfoOf(f))))
  {
    if HeaderOk(f) {
      TableGarbage(f, Segments, InfoOf(f));
      TableGarbage(f, Sections, InfoOf(f));
    }
    hide SearchTable;
    hide Noteless;
  }

  lemma TableGarbage(f: seq<Byte>, t: Table, info: Info)
    requires |f| >= EHDR
    ensures SearchTable(f, t, info) == Garbage <==> Noteless(f, t, info)
  {
    hide ScanTable;
    hide TableHead;
    hide TableBytes;
    hide NoteFree;
    var h := TableHead(f, t, info);
    match TableBytes(f, h)
    case None =>
    case Some(table) => GarbageWhen(f, table, h.count, h.size, t, info, 0, Garbage);
  }

  // ----- which entry decides

  /** Entry `j` does not end the search: it is not for notes, or they have no build ID. */
  predicate Passed(f: seq<Byte>, table: seq<Byte>, size: nat, t: Table, info: Info, j: nat) {
    || NoteFree(table, size, t, info, j)
    || (EntryKind(table, j * size, t, info) == Some(NoteKind(t)) && ScanEntry(f, table, j * size, t, info) == Miss)
  }

  /** Entry `j` ends the search with `r`. */
  predicate Decided(f: seq<Byte>, table: seq<Byte>, size: nat, t: Table, info: Info, j: nat, r: Outcome) {
    match EntryKind(table, j * size, t, info)
    case None => r == Overrun
    case Some(kind) => kind == NoteKind(t) && ScanEntry(f, table, j * size, t, info) == r
  }

  /** Entry `j` ends the search with `r`, and none from `i` on does before. */
  ghost predicate FirstDecided(f: seq<Byte>, table: seq<Byte>, size: nat, t: Table, info: Info, i: nat, j: nat,
                               r: Outcome) {
    i <= j && Decided(f, table, size, t, info, j, r) && forall k :: i <= k < j ==> Passed(f, table, size, t, info, k)
  }

  /** The first entry that does not pass decides, be it a hit or an error. */
  lemma {:induction false} TableDecides(f: seq<Byte>, table: seq<Byte>, n: nat, size: nat, t: Table, info: Info, i: nat,
                                        last: Outcome, r: Outcome)
    requires r != Miss && r != Garbage && (last == Miss || last == Garbage)
    ensures ScanTable(f, table, n, size, t, info, i, last) == r <==>
      exists j: nat :: j < n && FirstDecided(f, table, size, t, info, i, j, r)
    decreases n - i
  {
    hide EntryKind;
    hide ScanEntry;
    if i < n {
      if Passed(f, table, size, t, info, i) {
        var next := if NoteFree(table, size, t, info, i) then last else Miss;
        TableDecides(f, table, n, size, t, info, i + 1, next, r);
        PassedOn(f, table, size, t, info, i, r);
        assert ScanTable(f, table, n, size, t, info, i, last) == ScanTable(f, table, n, size, t, info, i + 1, next);
        var i' := i + 1;
        if j: nat :| j < n && FirstDecided(f, table, size, t, info, i, j, r) {
          assert FirstDecided(f, table, size, t, info, i', j, r);
        }
        if j: nat :| j < n && FirstDecided(f, table, size, t, info, i', j, r) {
          assert FirstDecided(f, table, size, t, info, i, j, r);
        }
      } else {
        assert ScanTable(f, table, n, size, t, info, i, last) == r <==> Decided(f, table, size, t, info, i, r);
        assert Decided(f, table, size, t, info, i, r) ==> FirstDecided(f, table, size, t, info, i, i, r);
      }
    }
  }

  lemma PassedOn(f: seq<Byte>, table: seq<Byte>, size: nat, t: Table, info: Info, i: nat, r: Outcome)
    requires Passed(f, table, size, t, info, i) && r != Miss
    ensures forall j: nat {:trigger FirstDecided(f, table, size, t, info, i, j, r)} ::
      FirstDecided(f, table, size, t, info, i, j, r) <==> FirstDecided(f, table, size, t, info, i + 1, j, r)
  {
    hide EntryKind;
    hide ScanEntry;
    assert !Decided(f, table, size, t, info, i, r);
    hide Passed;
    hide Decided;
  }

  /** The notes that the entry at `at` tells of are not all in the file. */
  predicate BeyondFile(f: seq<Byte>, table: seq<Byte>, at: nat, t: Table, info: Info) {
    match EntryPlace(table, at, t, info)
    case None => false
    case Some(e) => e.0 + e.1 > |f| && (e.1 > 0 || e.0 >= 0x8000_0000_0000_0000)
  }

  lemma ScanFails(f: seq<Byte>, table: seq<Byte>, at: nat, t: Table, info: Info)
    ensures ScanEntry(f, table, at, t, info) == Failure <==> BeyondFile(f, table, at, t, info)
  {
    match EntryPlace(table, at, t, info)
    case None =>
    case Some(e) =>
      if Fetch(f, e.0, e.1).Some? {
        NeverFails(Fetch(f, e.0, e.1).value, e.0, 0, info.msb);
      }
      hide ScanNotes;
  }

  lemma {:induction false} NeverFails(s: seq<Byte>, base: nat, off: nat, msb: bool)
    ensures ScanNotes(s, base, off, msb) != Failure
    decreases |s| - off
  {
    hide Notes.Judge;
    hide Hex;
    hide Number;
    if off + 12 <= |s| && Notes.Judge(s, off, ID, msb).Different? {
      NeverFails(s, base, NextAt(s, off, msb), msb);
    }
  }

  /** The table cannot be read, or the first entry that does not pass tells of notes that
      cannot. */
  ghost predicate Unreadable(f: seq<Byte>, t: Table, info: Info)
    requires |f| >= EHDR
  {
    var h := TableHead(f, t, info);
    h.count > 0 &&
    match TableBytes(f, h)
    case None => true
    case Some(table) => exists j: nat :: j < h.count && Fails(f, table, h.size, t, info, j)
  }

  ghost predicate Fails(f: seq<Byte>, table: seq<Byte>, size: nat, t: Table, info: Info, j: nat) {
    && EntryKind(table, j * size, t, info) == Some(NoteKind(t)) && BeyondFile(f, table, j * size, t, info)
    && forall k :: 0 <= k < j ==> Passed(f, table, size, t, info, k)
  }

  lemma FailsIs(f: seq<Byte>, table: seq<Byte>, size: nat, t: Table, info: Info, j: nat)
    ensures Fails(f, table, size, t, info, j) <==> FirstDecided(f, table, size, t, info, 0, j, Failure)
  {
    hide *;
    ScanFails(f, table, j * size, t, info);
    DecidedFails(f, table, size, t, info, j);
    FailsMeans(f, table, size, t, info, j);
  }

  lemma DecidedFails(f: seq<Byte>, table: seq<Byte>, size: nat, t: Table, info: Info, j: nat)
    ensures Decided(f, table, size, t, info, j, Failure) <==>
      EntryKind(table, j * size, t, info) == Some(NoteKind(t)) && ScanEntry(f, table, j * size, t, info) == Failure
  {
    hide EntryKind;
    hide ScanEntry;
  }

  lemma FailsMeans(f: seq<Byte>, table: seq<Byte>, size: nat, t: Table, info: Info, j: nat)
    requires Decided(f, table, size, t, info, j, Failure) <==>
      EntryKind(table, j * size, t, info) == Some(NoteKind(t)) && BeyondFile(f, table, j * size, t, info)
    ensures Fails(f, table, size, t, info, j) <==> FirstDecided(f, table, size, t, info, 0, j, Failure)
  {
    hide EntryKind;
    hide ScanEntry;
    hide BeyondFile;
    hide Passed;
    hide Decided;
  }

  lemma TableFails(f: seq<Byte>, t: Table, info: Info)
    requires |f| >= EHDR
    ensures SearchTable(f, t, info) == Failure <==> Unreadable(f, t, info)
  {
    hide ScanTable;
    hide TableHead;
    hide TableBytes;
    hide Fails;
    hide FirstDecided;
    var h := TableHead(f, t, info);
    match TableBytes(f, h)
    case None =>
    case Some(table) =>
      TableDecides(f, table, h.count, h.size, t, info, 0, Garbage, Failure);
      forall j: nat ensures Fails(f, table, h.size, t, info, j) <==>
          FirstDecided(f, table, h.size, t, info, 0, j, Failure) {
        FailsIs(f, table, h.size, t, info, j);
      }
  }

  /** The search fails exactly if the file is no ELF file of a known class and encoding, or
      it gets to a table or to notes that are not in the file. */
  lemma SearchFails(f: seq<Byte>)
    ensures Search(f) == Failure <==>
      || |f| < 64 || f[0] != 0x7f || f[1] != 'E' as int || f[2] != 'L' as int || f[3] != 'F' as int
      || (f[4] != 1 && f[4] != 2) || (f[5] != 1 && f[5] != 2)
      || Unreadable(f, Segments, Info(f[5] == 2, f[4] == 2))
      || (SearchTable(f, Segments, Info(f[5] == 2, f[4] == 2)) == Miss &&
          Unreadable(f, Sections, Info(f[5] == 2, f[4] == 2)))
  {
    if HeaderOk(f) {
      TableFails(f, Segments, InfoOf(f));
      TableFails(f, Sections, InfoOf(f));
    }
    hide SearchTable;
    hide Unreadable;
    if |f| >= 64 {
      assert f[..4] == [0x7f, 69, 76, 70] <==> f[0] == 0x7f && f[1] == 69 && f[2] == 76 && f[3] == 70;
    }
  }

  method WriteNewBuildId(f: seq<Byte>, at: nat, data: seq<Byte>) returns (r: seq<Byte>)
    requires at + |data| <= |f|
    ensures r == Overwrite(f, at, data)
  {
    r := f[..at];
    r := r + data;
    r := r + f[at + |data|..];
  }
}
