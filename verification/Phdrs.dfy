/** The program header table of a 64-bit little-endian ELF file. */
module Phdrs {
  import opened Bytes

  const ENTRY: nat := 56
  const PT_NOTE: nat := 4
  const WRAP: nat := 0x1_0000_0000_0000_0000

  /** An entry, with the fields the editor does not touch kept as bytes. */
  datatype Phdr = Phdr(kindFlags: seq<Byte>, offset: nat, addresses: seq<Byte>, filesz: nat, memsz: nat,
                       align: seq<Byte>)

  predicate PhdrOk(p: Phdr) {
    && |p.kindFlags| == 8 && |p.addresses| == 16 && |p.align| == 8
    && p.offset < WRAP && p.filesz < WRAP && p.memsz < WRAP
  }

  function Kind(p: Phdr): nat
    requires PhdrOk(p)
  {
    FromLe(p.kindFlags[..4])
  }

  function Decode(b: seq<Byte>): (p: Phdr)
    requires |b| == ENTRY
    ensures PhdrOk(p)
  {
    Widths();
    Phdr(b[..8], FromLe(b[8..16]), b[16..32], FromLe(b[32..40]), FromLe(b[40..48]), b[48..])
  }

  function Encode(p: Phdr): (b: seq<Byte>)
    requires PhdrOk(p)
    ensures |b| == ENTRY
  {
    p.kindFlags + ToLe(p.offset, 8) + p.addresses + ToLe(p.filesz, 8) + ToLe(p.memsz, 8) + p.align
  }

  lemma DecodeEncode(p: Phdr)
    requires PhdrOk(p)
    ensures Decode(Encode(p)) == p
  {
    Widths();
    FromToLe(p.offset, 8);
    FromToLe(p.filesz, 8);
    FromToLe(p.memsz, 8);
    Pieces(p.kindFlags, ToLe(p.offset, 8), p.addresses, ToLe(p.filesz, 8), ToLe(p.memsz, 8), p.align);
    hide FromLe;
    hide ToLe;
  }

  lemma Pieces(a: seq<Byte>, b: seq<Byte>, c: seq<Byte>, d: seq<Byte>, e: seq<Byte>, f: seq<Byte>)
    requires |a| == 8 && |b| == 8 && |c| == 16 && |d| == 8 && |e| == 8 && |f| == 8
    ensures var s := a + b + c + d + e + f;
      |s| == ENTRY && s[..8] == a && s[8..16] == b && s[16..32] == c && s[32..40] == d && s[40..48] == e && s[48..] == f
  {
  }

  /** Where an entry's fields stand: the type first, the position at 8, the size in the
      file at 32 and the size in memory at 40. */
  lemma EncodeFields(p: Phdr)
    requires PhdrOk(p)
    ensures var b := Encode(p);
      && Number(b, 0, 4, false) == Kind(p) && Number(b, 8, 8, false) == p.offset
      && Number(b, 32, 8, false) == p.filesz && Number(b, 40, 8, false) == p.memsz
      && b[..8] == p.kindFlags && b[16..32] == p.addresses && b[48..] == p.align
  {
    Widths();
    FromToLe(p.offset, 8);
    FromToLe(p.filesz, 8);
    FromToLe(p.memsz, 8);
    Pieces(p.kindFlags, ToLe(p.offset, 8), p.addresses, ToLe(p.filesz, 8), ToLe(p.memsz, 8), p.align);
    assert Encode(p)[0..4] == p.kindFlags[..4];
    hide FromLe;
    hide ToLe;
    hide Encode;
  }

  /** The entry at `at` of a file, field by field. */
  ghost predicate EntryAt(f: seq<Byte>, at: nat, p: Phdr) {
    && PhdrOk(p) && at + 56 <= |f|
    && Number(f, at, 4, false) == Kind(p) && Number(f, at + 8, 8, false) == p.offset
    && Number(f, at + 32, 8, false) == p.filesz && Number(f, at + 40, 8, false) == p.memsz
  }

  lemma DecodeFields(f: seq<Byte>, at: nat, b: seq<Byte>)
    requires |b| == ENTRY && at + 56 <= |f| && f[at..at + 56] == b
    ensures EntryAt(f, at, Decode(b))
  {
    assert b[..8][..4] == b[0..4];
    Slice(f, at, b, 0, 4);
    Slice(f, at, b, 8, 16);
    Slice(f, at, b, 32, 40);
    Slice(f, at, b, 40, 48);
    hide FromLe;
  }

  // ----- the table

  ghost predicate AllOk(ps: seq<Phdr>) {
    forall i :: 0 <= i < |ps| ==> PhdrOk(ps[i])
  }

  function DecodeAll(b: seq<Byte>): (ps: seq<Phdr>)
    requires |b| % ENTRY == 0
    ensures |ps| * ENTRY == |b| && AllOk(ps)
  {
    if b == [] then []
    else
      var n := |b| - ENTRY;
      DecodeAll(b[..n]) + [Decode(b[n..])]
  }

  function EncodeAll(ps: seq<Phdr>): (b: seq<Byte>)
    requires AllOk(ps)
    ensures |b| == |ps| * ENTRY
  {
    if ps == [] then []
    else EncodeAll(ps[..|ps| - 1]) + Encode(ps[|ps| - 1])
  }

  lemma {:induction false} DecodeEncodeAll(ps: seq<Phdr>)
    requires AllOk(ps)
    ensures DecodeAll(EncodeAll(ps)) == ps
  {
    if ps != [] {
      var n := |ps| - 1;
      DecodeEncodeAll(ps[..n]);
      DecodeEncode(ps[n]);
      var b := EncodeAll(ps);
      assert b[..|b| - ENTRY] == EncodeAll(ps[..n]) && b[|b| - ENTRY..] == Encode(ps[n]);
    }
  }

  /** Entry `i` of a table starts at `56 * i`. */
  lemma {:induction false} DecodeAllFields(f: seq<Byte>, at: nat, n: nat, i: nat)
    requires at + n * ENTRY <= |f| && i < n
    ensures |DecodeAll(f[at..at + n * ENTRY])| == n
    ensures EntryAt(f, at + 56 * i, DecodeAll(f[at..at + n * ENTRY])[i])
  {
    hide Decode;
    hide EntryAt;
    var b := f[at..at + n * ENTRY];
    var m := (n - 1) * ENTRY;
    assert |b| - ENTRY == m && b[..m] == f[at..at + m] && b[m..] == f[at + m..at + m + 56];
    DecodeAllLast(b);
    if i < n - 1 {
      DecodeAllFields(f, at, n - 1, i);
    } else {
      DecodeFields(f, at + m, b[m..]);
    }
  }

  lemma DecodeAllLast(b: seq<Byte>)
    requires |b| % ENTRY == 0 && b != []
    ensures var n := |b| - ENTRY; DecodeAll(b) == DecodeAll(b[..n]) + [Decode(b[n..])]
  {
    hide Decode;
  }

  // ----- moving segments

  function Wrap(x: int): (r: nat)
    ensures r < WRAP
  {
    x % WRAP
  }

  /** The note segment grows by `d`, in memory too if it has a size there; the segments
      after it in the table move by `d`. */
  function MovedAt(p: Phdr, i: nat, seg: nat, d: int): Phdr {
    if i < seg then p
    else if i == seg then
      p.(filesz := Wrap(p.filesz + d), memsz := if p.memsz != 0 then Wrap(p.memsz + d) else 0)
    else p.(offset := Wrap(p.offset + d))
  }

  function Moved(ps: seq<Phdr>, seg: nat, d: int): (r: seq<Phdr>)
    ensures |r| == |ps| && forall i :: 0 <= i < |ps| ==> r[i] == MovedAt(ps[i], i, seg, d)
  {
    seq(|ps|, (i: nat) requires i < |ps| => MovedAt(ps[i], i, seg, d))
  }

  lemma MovedOk(ps: seq<Phdr>, seg: nat, d: int)
    requires AllOk(ps)
    ensures AllOk(Moved(ps, seg, d))
  {
  }

  /** Moving back undoes a move, unless the memory size became zero meanwhile. */
  lemma MovedBack(ps: seq<Phdr>, seg: nat, d: int)
    requires AllOk(ps) && seg < |ps|
    ensures Moved(Moved(ps, seg, d), seg, -d) == ps
       <==> !(ps[seg].memsz != 0 && Wrap(ps[seg].memsz + d) == 0)
  {
    forall i | 0 <= i < |ps|
      ensures MovedAt(MovedAt(ps[i], i, seg, d), i, seg, -d) == ps[i]
        <==> !(i == seg && ps[i].memsz != 0 && Wrap(ps[i].memsz + d) == 0)
    {
      assert PhdrOk(ps[i]);
      WrapBack(ps[i].offset, d);
      WrapBack(ps[i].filesz, d);
      WrapBack(ps[i].memsz, d);
    }
    if ps[seg].memsz != 0 && Wrap(ps[seg].memsz + d) == 0 {
      assert Moved(Moved(ps, seg, d), seg, -d)[seg] != ps[seg];
    }
  }

  lemma WrapBack(x: nat, d: int)
    requires x < WRAP
    ensures Wrap(Wrap(x + d) - d) == x
  {
  }

  /** The loop over the entries, in place. */
  method UpdateOffsets(phdr: array<Phdr>, seg: nat, d: int)
    requires seg < phdr.Length
    modifies phdr
    ensures phdr[..] == Moved(old(phdr[..]), seg, d)
  {
    var i := seg;
    phdr[i] := phdr[i].(filesz := Wrap(phdr[i].filesz + d));
    if phdr[i].memsz != 0 {
      phdr[i] := phdr[i].(memsz := Wrap(phdr[i].memsz + d));
    }
    i := i + 1;
    while i < phdr.Length
      invariant seg < i <= phdr.Length
      invariant forall k :: 0 <= k < i ==> phdr[k] == MovedAt(old(phdr[k]), k, seg, d)
      invariant forall k :: i <= k < phdr.Length ==> phdr[k] == old(phdr[k])
    {
      phdr[i] := phdr[i].(offset := Wrap(phdr[i].offset + d));
      i := i + 1;
    }
  }
}
