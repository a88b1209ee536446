/** Files of either class and either encoding, written out from the ELF structures, and
    how the build ID search reads them. */
module ElfFiles {
  import opened Bytes
  import opened Options
  import opened Notes
  import opened BuildId
  import opened BuildIdNotes
  import opened BuildIdFiles
  import BuildIdProofs

  // ----- the structures

  /** The bytes of an address, of an ELF header, and of the entries of both tables. */
  function Word(wide: bool): nat {
    if wide then 8 else 4
  }

  function HeadSize(wide: bool): nat {
    if wide then 64 else 52
  }

  function EntrySize(t: Table, wide: bool): nat {
    match t
    case Segments => if wide then 56 else 32
    case Sections => if wide then 64 else 40
  }

  /** What an address must be below. */
  function Limit(wide: bool): nat {
    if wide then 0x1_0000_0000_0000_0000 else 0x1_0000_0000
  }

  /** Elf64_Ehdr or Elf32_Ehdr, with `phnum` program headers of `phsize` bytes right after
      it, and `shnum` section headers at `shoff`: magic, class, encoding; the rest of
      e_ident, e_type, e_machine, e_version and e_entry; e_phoff; e_shoff; e_flags and
      e_ehsize; e_phentsize; e_phnum; e_shentsize; e_shnum; e_shstrndx. */
  function Ehdr(wide: bool, msb: bool, phsize: nat, phnum: nat, shoff: nat, shnum: nat): (h: seq<Byte>)
    ensures |h| == HeadSize(wide)
  {
    [0x7f, 0x45, 0x4c, 0x46, if wide then 2 else 1, if msb then 2 else 1] + Zeros(if wide then 26 else 22) +
    ToOrder(HeadSize(wide), Word(wide), msb) + ToOrder(shoff, Word(wide), msb) + Zeros(6) +
    ToOrder(phsize, 2, msb) + ToOrder(phnum, 2, msb) + ToOrder(if wide then 64 else 40, 2, msb) +
    ToOrder(shnum, 2, msb) + Zeros(2)
  }

  /** Elf64_Phdr or Elf32_Phdr: p_type, then for 64 bits p_flags; p_offset; p_vaddr and
      p_paddr; p_filesz; the rest. */
  function Phdr(wide: bool, msb: bool, kind: nat, pos: nat, size: nat): (b: seq<Byte>)
    ensures |b| == EntrySize(Segments, wide)
  {
    if wide then
      ToOrder(kind, 4, msb) + Zeros(4) + ToOrder(pos, 8, msb) + Zeros(16) + ToOrder(size, 8, msb) + Zeros(16)
    else
      ToOrder(kind, 4, msb) + ToOrder(pos, 4, msb) + Zeros(8) + ToOrder(size, 4, msb) + Zeros(12)
  }

  /** Elf64_Shdr or Elf32_Shdr: sh_name; sh_type; sh_flags and sh_addr; sh_offset; sh_size;
      the rest. */
  function Shdr(wide: bool, msb: bool, kind: nat, pos: nat, size: nat): (b: seq<Byte>)
    ensures |b| == EntrySize(Sections, wide)
  {
    if wide then
      Zeros(4) + ToOrder(kind, 4, msb) + Zeros(16) + ToOrder(pos, 8, msb) + ToOrder(size, 8, msb) + Zeros(24)
    else
      Zeros(4) + ToOrder(kind, 4, msb) + Zeros(8) + ToOrder(pos, 4, msb) + ToOrder(size, 4, msb) + Zeros(16)
  }

  // ----- reading the ELF header

  /** The same, field by field. */
  lemma EhdrPieces(wide: bool, a: seq<Byte>, b: seq<Byte>, c: seq<Byte>, d: seq<Byte>, e: seq<Byte>, f: seq<Byte>,
                   g: seq<Byte>, h: seq<Byte>, i: seq<Byte>, j: seq<Byte>)
    requires |a| == 6 && |b| == (if wide then 26 else 22) && |c| == |d| == Word(wide) && |e| == 6
    requires |f| == 2 && |g| == 2 && |h| == 2 && |i| == 2 && |j| == 2
    ensures var s := a + b + c + d + e + f + g + h + i + j; var o := if wide then 32 else 28; var w := Word(wide);
      && |s| == o + 2 * w + 16 && s[..4] == a[..4] && s[4] == a[4] && s[5] == a[5]
      && s[o..o + w] == c && s[o + w..o + 2 * w] == d
      && s[o + 2 * w + 6..o + 2 * w + 8] == f && s[o + 2 * w + 8..o + 2 * w + 10] == g
      && s[o + 2 * w + 10..o + 2 * w + 12] == h && s[o + 2 * w + 12..o + 2 * w + 14] == i
  {
  }

  lemma NumberOfPrefix(h: seq<Byte>, f: seq<Byte>, at: nat, n: nat, v: nat, msb: bool)
    requires h <= f && at + n <= |h| && h[at..at + n] == ToOrder(v, n, msb) && v < Pow256(n)
    ensures Number(f, at, n, msb) == v
  {
    assert f[at..at + n] == h[at..at + n];
    ValueToOrder(v, n, msb);
  }

  /** Where the fields stand, counted from the start of the file. */
  lemma EhdrNumbers(f: seq<Byte>, wide: bool, msb: bool, phsize: nat, phnum: nat, shoff: nat, shnum: nat)
    requires Ehdr(wide, msb, phsize, phnum, shoff, shnum) <= f
    requires phsize < 0x1_0000 && phnum < 0x1_0000 && shnum < 0x1_0000 && shoff < Limit(wide)
    ensures Number(f, if wide then 32 else 28, Word(wide), msb) == HeadSize(wide)
    ensures Number(f, if wide then 40 else 32, Word(wide), msb) == shoff
    ensures Number(f, if wide then 54 else 42, 2, msb) == phsize && Number(f, if wide then 56 else 44, 2, msb) == phnum
    ensures Number(f, if wide then 58 else 46, 2, msb) == (if wide then 64 else 40)
    ensures Number(f, if wide then 60 else 48, 2, msb) == shnum
    ensures f[..4] == [0x7f, 69, 76, 70] && f[4] == (if wide then 2 else 1) && f[5] == (if msb then 2 else 1)
  {
    hide *;
    var h := Ehdr(wide, msb, phsize, phnum, shoff, shnum);
    EhdrFields(wide, msb, phsize, phnum, shoff, shnum);
    Sizes(wide);
    NumberOfPrefix(h, f, if wide then 32 else 28, Word(wide), HeadSize(wide), msb);
    NumberOfPrefix(h, f, if wide then 40 else 32, Word(wide), shoff, msb);
    NumberOfPrefix(h, f, if wide then 54 else 42, 2, phsize, msb);
    NumberOfPrefix(h, f, if wide then 56 else 44, 2, phnum, msb);
    NumberOfPrefix(h, f, if wide then 58 else 46, 2, if wide then 64 else 40, msb);
    NumberOfPrefix(h, f, if wide then 60 else 48, 2, shnum, msb);
    assert f[..4] == h[..4] && f[4] == h[4] && f[5] == h[5];
  }

  lemma Sizes(wide: bool)
    ensures Pow256(2) == 0x1_0000 && Pow256(Word(wide)) == Limit(wide) && HeadSize(wide) < Limit(wide)
    ensures Word(wide) == (if wide then 8 else 4) && HeadSize(wide) == if wide then 64 else 52
  {
    Widths();
  }

  lemma EhdrFields(wide: bool, msb: bool, phsize: nat, phnum: nat, shoff: nat, shnum: nat)
    ensures var h := Ehdr(wide, msb, phsize, phnum, shoff, shnum); var w := Word(wide);
      && |h| == HeadSize(wide)
      && h[..4] == [0x7f, 69, 76, 70] && h[4] == (if wide then 2 else 1) && h[5] == (if msb then 2 else 1)
      && (if wide then h[32..40] else h[28..32]) == ToOrder(HeadSize(wide), w, msb)
      && (if wide then h[40..48] else h[32..36]) == ToOrder(shoff, w, msb)
      && (if wide then h[54..56] else h[42..44]) == ToOrder(phsize, 2, msb)
      && (if wide then h[56..58] else h[44..46]) == ToOrder(phnum, 2, msb)
      && (if wide then h[58..60] else h[46..48]) == ToOrder(if wide then 64 else 40, 2, msb)
      && (if wide then h[60..62] else h[48..50]) == ToOrder(shnum, 2, msb)
  {
    var w := Word(wide);
    var ident: seq<Byte> := [0x7f, 0x45, 0x4c, 0x46, if wide then 2 else 1, if msb then 2 else 1];
    assert ident[..4] == [0x7f, 69, 76, 70];
    EhdrPieces(wide, ident, Zeros(if wide then 26 else 22), ToOrder(HeadSize(wide), w, msb), ToOrder(shoff, w, msb),
               Zeros(6), ToOrder(phsize, 2, msb), ToOrder(phnum, 2, msb), ToOrder(if wide then 64 else 40, 2, msb),
               ToOrder(shnum, 2, msb), Zeros(2));
    hide ToOrder;
    hide Zeros;
  }

  lemma EhdrSays(f: seq<Byte>, wide: bool, msb: bool, phsize: nat, phnum: nat, shoff: nat, shnum: nat)
    requires |f| >= 64 && Ehdr(wide, msb, phsize, phnum, shoff, shnum) <= f
    requires phsize < 0x1_0000 && phnum < 0x1_0000 && shnum < 0x1_0000 && shoff < Limit(wide)
    ensures HeaderOk(f) && InfoOf(f) == Info(msb, wide)
    ensures TableHead(f, Segments, Info(msb, wide)) == BuildId.Head(HeadSize(wide), phnum, phsize)
    ensures TableHead(f, Sections, Info(msb, wide)) == BuildId.Head(shoff, shnum, EntrySize(Sections, wide))
  {
    EhdrNumbers(f, wide, msb, phsize, phnum, shoff, shnum);
    hide Number;
    hide Ehdr;
    hide Limit;
  }

  // ----- reading an entry

  /** The entry for a part: PT_NOTE is 4, SHT_NOTE is 7. */
  function PartBytes(t: Table, wide: bool, msb: bool, p: Part): (b: seq<Byte>)
    ensures |b| == EntrySize(t, wide)
  {
    match (t, p)
    case (Segments, Other) => Phdr(wide, msb, 1, 0, 0)
    case (Segments, Stretch(pos, _)) => Phdr(wide, msb, 4, pos, Length(p, msb))
    case (Sections, Other) => Shdr(wide, msb, 1, 0, 0)
    case (Sections, Stretch(pos, _)) => Shdr(wide, msb, 7, pos, Length(p, msb))
  }

  function EntryBytes(t: Table, wide: bool, msb: bool, kind: nat, pos: nat, size: nat): (b: seq<Byte>)
    ensures |b| == EntrySize(t, wide)
  {
    if t.Segments? then Phdr(wide, msb, kind, pos, size) else Shdr(wide, msb, kind, pos, size)
  }

  /** Three fields with bytes between them. */
  lemma Fields(a: seq<Byte>, b: seq<Byte>, c: seq<Byte>, d: seq<Byte>, e: seq<Byte>, g: seq<Byte>)
    ensures var s := a + b + c + d + e + g; var i, j := |a| + |b| + |c|, |a| + |b| + |c| + |d| + |e|;
      && i <= j <= |s| && s[..|a|] == a && s[|a|..|a| + |b|] == b && s[|a| + |b|..i] == c && s[i + |d|..j] == e
  {
  }

  lemma FewerFields(a: seq<Byte>, c: seq<Byte>, d: seq<Byte>, e: seq<Byte>, g: seq<Byte>)
    ensures a + c + d + e + g == a + [] + c + d + e + g
    ensures a + c + d + e + g == [] + a + c + d + e + g
  {
    assert a + [] == a && [] + a == a;
  }

  lemma EntryPieces(t: Table, wide: bool, msb: bool, kind: nat, pos: nat, size: nat)
    ensures var b := EntryBytes(t, wide, msb, kind, pos, size); var w := Word(wide);
      var k, o, z := KindField(t), OffsetField(t, wide).0, SizeField(t, wide).0;
      && k + 4 <= |b| && o + w <= |b| && z + w <= |b|
      && b[k..k + 4] == ToOrder(kind, 4, msb) && b[o..o + w] == ToOrder(pos, w, msb)
      && b[z..z + w] == ToOrder(size, w, msb)
  {
    var w := Word(wide);
    var k, o, z := ToOrder(kind, 4, msb), ToOrder(pos, w, msb), ToOrder(size, w, msb);
    match (t, wide) {
      case (Segments, true) => Fields(k, Zeros(4), o, Zeros(16), z, Zeros(16));
      case (Segments, false) =>
        FewerFields(k, o, Zeros(8), z, Zeros(12));
        Fields(k, [], o, Zeros(8), z, Zeros(12));
      case (Sections, true) =>
        ShdrSplit(k, o, z, Zeros(4), Zeros(16), Zeros(24));
      case (Sections, false) =>
        ShdrSplit(k, o, z, Zeros(4), Zeros(8), Zeros(16));
    }
    hide ToOrder;
    hide Zeros;
  }

  lemma ShdrSplit(k: seq<Byte>, o: seq<Byte>, z: seq<Byte>, a: seq<Byte>, b: seq<Byte>, c: seq<Byte>)
    ensures var s := a + k + b + o + z + c; var i := |a| + |k| + |b|;
      && i + |o| + |z| <= |s| && s[|a|..|a| + |k|] == k && s[i..i + |o|] == o && s[i + |o|..i + |o| + |z|] == z
  {
  }

  lemma EntryReads(table: seq<Byte>, at: nat, t: Table, wide: bool, msb: bool, kind: nat, pos: nat, size: nat)
    requires at + EntrySize(t, wide) <= |table|
    requires table[at..at + EntrySize(t, wide)] == EntryBytes(t, wide, msb, kind, pos, size)
    requires kind < 0x1_0000_0000 && pos < Limit(wide) && size < Limit(wide)
    ensures EntryKind(table, at, t, Info(msb, wide)) == Some(kind)
    ensures EntryPlace(table, at, t, Info(msb, wide)) == Some((pos, size))
  {
    var b, w := EntryBytes(t, wide, msb, kind, pos, size), Word(wide);
    var k, o, z := KindField(t), OffsetField(t, wide).0, SizeField(t, wide).0;
    Widths();
    EntryPieces(t, wide, msb, kind, pos, size);
    Slice(table, at, b, k, k + 4);
    Slice(table, at, b, o, o + w);
    Slice(table, at, b, z, z + w);
    ValueToOrder(kind, 4, msb);
    ValueToOrder(pos, w, msb);
    ValueToOrder(size, w, msb);
    hide Value;
    hide ToOrder;
    hide EntryBytes;
    hide Pow256;
  }

  // ----- files built from their parts

  function TableOf(t: Table, wide: bool, msb: bool, parts: seq<Part>): seq<Byte> {
    if parts == [] then []
    else TableOf(t, wide, msb, parts[..|parts| - 1]) + PartBytes(t, wide, msb, parts[|parts| - 1])
  }

  lemma {:induction false} TableLength(t: Table, wide: bool, msb: bool, parts: seq<Part>)
    ensures |TableOf(t, wide, msb, parts)| == |parts| * EntrySize(t, wide)
  {
    hide PartBytes;
    if parts != [] {
      TableLength(t, wide, msb, parts[..|parts| - 1]);
      OneMore(|parts| - 1, EntrySize(t, wide));
    }
  }

  lemma OneMore(n: nat, z: nat)
    ensures 0 <= n * z && (n + 1) * z == n * z + z
  {
  }

  lemma {:induction false} TableAt(t: Table, wide: bool, msb: bool, parts: seq<Part>, i: nat)
    requires i < |parts|
    ensures var z := EntrySize(t, wide); var b := TableOf(t, wide, msb, parts);
      0 <= i * z && i * z + z <= |b| && b[i * z..i * z + z] == PartBytes(t, wide, msb, parts[i])
  {
    hide PartBytes;
    var n, z := |parts| - 1, EntrySize(t, wide);
    var b, last := TableOf(t, wide, msb, parts[..n]), PartBytes(t, wide, msb, parts[n]);
    TableLength(t, wide, msb, parts[..n]);
    OneMore(i, z);
    if i < n {
      TableAt(t, wide, msb, parts[..n], i);
      EarlySlice(b, last, i * z, i * z + z);
    } else {
      LateSlice(b, last);
    }
  }

  lemma EarlySlice(b: seq<Byte>, c: seq<Byte>, lo: nat, hi: nat)
    requires lo <= hi <= |b|
    ensures (b + c)[lo..hi] == b[lo..hi]
  {
  }

  lemma LateSlice(b: seq<Byte>, c: seq<Byte>)
    ensures (b + c)[|b|..|b| + |c|] == c
  {
  }

  /** Where the section headers start if they follow the program headers, and where they
      end. */
  function Middle(wide: bool, n: nat): nat {
    if wide then 64 + 56 * n else 52 + 32 * n
  }

  function End(wide: bool, n: nat, m: nat): nat {
    Middle(wide, n) + if wide then 64 * m else 40 * m
  }

  /** A file of these segments and sections, and what they tell of. */
  function Built(wide: bool, msb: bool, segs: seq<Part>, secs: seq<Part>, body: seq<Byte>): seq<Byte> {
    Ehdr(wide, msb, EntrySize(Segments, wide), |segs|, Middle(wide, |segs|), |secs|) +
    TableOf(Segments, wide, msb, segs) + TableOf(Sections, wide, msb, secs) + body
  }

  lemma BuiltPieces(h: seq<Byte>, t: seq<Byte>, u: seq<Byte>, body: seq<Byte>)
    ensures var f := h + t + u + body; var i, j := |h| + |t|, |h| + |t| + |u|;
      h <= f && |f| == j + |body| && f[|h|..i] == t && f[i..j] == u && f[j..] == body
  {
  }

  lemma BuiltHeads(wide: bool, msb: bool, segs: seq<Part>, secs: seq<Part>, body: seq<Byte>)
    requires |segs| < 0x1_0000 && |secs| < 0x1_0000 && End(wide, |segs|, |secs|) + |body| >= 64
    ensures var f := Built(wide, msb, segs, secs, body); var info := Info(msb, wide);
      var mid, end := Middle(wide, |segs|), End(wide, |segs|, |secs|);
      && HeaderOk(f) && InfoOf(f) == info && |f| == end + |body| && f[end..] == body
      && TableHead(f, Segments, info) == BuildId.Head(HeadSize(wide), |segs|, EntrySize(Segments, wide))
      && TableHead(f, Sections, info) == BuildId.Head(mid, |secs|, EntrySize(Sections, wide))
      && TableBytes(f, TableHead(f, Segments, info)) == Some(TableOf(Segments, wide, msb, segs))
      && TableBytes(f, TableHead(f, Sections, info)) == Some(TableOf(Sections, wide, msb, secs))
  {
    hide *;
    var mid := Middle(wide, |segs|);
    var f, h := Built(wide, msb, segs, secs, body), Ehdr(wide, msb, EntrySize(Segments, wide), |segs|, mid, |secs|);
    var t, u := TableOf(Segments, wide, msb, segs), TableOf(Sections, wide, msb, secs);
    BuiltIs(wide, msb, segs, secs, body);
    TableLength(Segments, wide, msb, segs);
    TableLength(Sections, wide, msb, secs);
    BuiltPieces(h, t, u, body);
    EhdrSays(f, wide, msb, EntrySize(Segments, wide), |segs|, mid, |secs|);
    TableFetched(f, HeadSize(wide), |segs|, EntrySize(Segments, wide), t);
    TableFetched(f, mid, |secs|, EntrySize(Sections, wide), u);
  }

  lemma BuiltIs(wide: bool, msb: bool, segs: seq<Part>, secs: seq<Part>, body: seq<Byte>)
    requires |segs| < 0x1_0000 && |secs| < 0x1_0000
    ensures Built(wide, msb, segs, secs, body) ==
      Ehdr(wide, msb, EntrySize(Segments, wide), |segs|, Middle(wide, |segs|), |secs|) +
      TableOf(Segments, wide, msb, segs) + TableOf(Sections, wide, msb, secs) + body
    ensures EntrySize(Segments, wide) < 0x1_0000 && Middle(wide, |segs|) < Limit(wide)
    ensures Middle(wide, |segs|) == HeadSize(wide) + |segs| * EntrySize(Segments, wide)
    ensures End(wide, |segs|, |secs|) == Middle(wide, |segs|) + |secs| * EntrySize(Sections, wide)
  {
    hide Ehdr;
    hide TableOf;
  }

  lemma TableFetched(f: seq<Byte>, at: nat, n: nat, z: nat, table: seq<Byte>)
    requires n * z == |table| && at + |table| <= |f| && f[at..at + |table|] == table
    ensures TableBytes(f, BuildId.Head(at, n, z)) == Some(table)
  {
  }

  /** A stretch is where it says, and its notes can be told. */
  ghost predicate Sits(f: seq<Byte>, wide: bool, msb: bool, p: Part) {
    p.Stretch? ==>
      && p.at + Length(p, msb) <= |f| < Limit(wide) && f[p.at..p.at + Length(p, msb)] == Flat(p.notes, msb)
      && Walkable(p.notes) && Told(p.notes, msb)
  }

  ghost predicate AllSit(f: seq<Byte>, wide: bool, msb: bool, parts: seq<Part>) {
    forall i :: 0 <= i < |parts| ==> Sits(f, wide, msb, parts[i])
  }

  lemma PartReads(f: seq<Byte>, table: seq<Byte>, at: nat, t: Table, wide: bool, msb: bool, p: Part)
    requires Sits(f, wide, msb, p)
    requires at + EntrySize(t, wide) <= |table| && table[at..at + EntrySize(t, wide)] == PartBytes(t, wide, msb, p)
    ensures PartLaid(f, table, at, t, Info(msb, wide), p)
  {
    hide EntryKind;
    hide EntryPlace;
    hide Phdr;
    hide Shdr;
    hide EntrySize;
    hide Flat;
    hide Walkable;
    hide Told;
    match p
    case Other => EntryReads(table, at, t, wide, msb, 1, 0, 0);
    case Stretch(pos, _) => EntryReads(table, at, t, wide, msb, if t.Segments? then 4 else 7, pos, Length(p, msb));
  }

  lemma {:induction false} TableIsLaid(f: seq<Byte>, t: Table, wide: bool, msb: bool, parts: seq<Part>, i: nat)
    requires AllSit(f, wide, msb, parts) && i <= |parts|
    ensures PartsLaid(f, TableOf(t, wide, msb, parts), EntrySize(t, wide), t, Info(msb, wide), parts, i)
    decreases |parts| - i
  {
    hide PartLaid;
    hide PartId;
    hide Sits;
    hide TableOf;
    hide PartBytes;
    hide EntrySize;
    if i < |parts| {
      TableAt(t, wide, msb, parts, i);
      PartReads(f, TableOf(t, wide, msb, parts), i * EntrySize(t, wide), t, wide, msb, parts[i]);
      TableIsLaid(f, t, wide, msb, parts, i + 1);
    }
  }

  /** Such a file is laid out as it should be. */
  lemma BuiltLaid(wide: bool, msb: bool, segs: seq<Part>, secs: seq<Part>, body: seq<Byte>)
    requires |segs| < 0x1_0000 && |secs| < 0x1_0000 && End(wide, |segs|, |secs|) + |body| >= 64
    requires var f := Built(wide, msb, segs, secs, body); AllSit(f, wide, msb, segs) && AllSit(f, wide, msb, secs)
    requires (segs != [] ==> SomeStretch(segs)) && (secs != [] ==> SomeStretch(secs))
    ensures FileLaid(Built(wide, msb, segs, secs, body), segs, secs)
  {
    hide *;
    var f := Built(wide, msb, segs, secs, body);
    BuiltHeads(wide, msb, segs, secs, body);
    TableIsLaid(f, Segments, wide, msb, segs, 0);
    TableIsLaid(f, Sections, wide, msb, secs, 0);
    HeaderLong(f);
    LaidIf(f, Segments, Info(msb, wide), segs, TableOf(Segments, wide, msb, segs));
    LaidIf(f, Sections, Info(msb, wide), secs, TableOf(Sections, wide, msb, secs));
    FileLaidIf(f, segs, secs);
  }

  lemma HeaderLong(f: seq<Byte>)
    requires HeaderOk(f)
    ensures |f| >= EHDR == 64
  {
  }

  lemma LaidIf(f: seq<Byte>, t: Table, info: Info, parts: seq<Part>, table: seq<Byte>)
    requires |f| >= EHDR
    requires var h := TableHead(f, t, info);
      && h.count == |parts| && TableBytes(f, h) == Some(table) && PartsLaid(f, table, h.size, t, info, parts, 0)
    requires parts != [] ==> SomeStretch(parts)
    ensures TableLaid(f, t, info, parts)
  {
    hide TableHead;
    hide TableBytes;
    hide PartsLaid;
    hide SomeStretch;
  }

  lemma FileLaidIf(f: seq<Byte>, segs: seq<Part>, secs: seq<Part>)
    requires HeaderOk(f) && TableLaid(f, Segments, InfoOf(f), segs) && TableLaid(f, Sections, InfoOf(f), secs)
    ensures FileLaid(f, segs, secs)
  {
    hide TableLaid;
    hide FirstOf;
  }

  /** What comes after the tables is off all headers. */
  lemma BuiltOff(wide: bool, msb: bool, segs: seq<Part>, secs: seq<Part>, body: seq<Byte>, lo: nat, hi: nat)
    requires |segs| < 0x1_0000 && |secs| < 0x1_0000 && End(wide, |segs|, |secs|) + |body| >= 64
    requires 64 <= lo && End(wide, |segs|, |secs|) <= lo
    ensures var f := Built(wide, msb, segs, secs, body);
      HeaderOk(f) && InfoOf(f) == Info(msb, wide) && BuildIdProofs.Clear(lo, hi, 0, EHDR)
      && OffTable(f, Segments, lo, hi) && OffTable(f, Sections, lo, hi)
  {
    hide *;
    var f, info := Built(wide, msb, segs, secs, body), Info(msb, wide);
    BuiltHeads(wide, msb, segs, secs, body);
    BuiltIs(wide, msb, segs, secs, body);
    HeaderLong(f);
    OffIf(f, Segments, lo, hi, HeadSize(wide), |segs|, EntrySize(Segments, wide));
    OffIf(f, Sections, lo, hi, Middle(wide, |segs|), |secs|, EntrySize(Sections, wide));
    ClearFrom(lo, hi);
  }

  lemma ClearFrom(lo: nat, hi: nat)
    ensures 64 <= lo ==> BuildIdProofs.Clear(lo, hi, 0, EHDR)
  {
  }

  lemma OffIf(f: seq<Byte>, t: Table, lo: nat, hi: nat, at: nat, n: nat, z: nat)
    requires HeaderOk(f) && TableHead(f, t, InfoOf(f)) == BuildId.Head(at, n, z) && at + n * z <= lo
    ensures OffTable(f, t, lo, hi)
  {
    hide TableHead;
    hide InfoOf;
    hide HeaderOk;
  }
}
