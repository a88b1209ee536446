/** Bytes, and the integers that runs of them stand for. */
module Bytes {

  type Byte = b: nat | b < 256

  function Pow256(n: nat): (p: nat)
    ensures p > 0
  {
    if n == 0 then 1 else 256 * Pow256(n - 1)
  }

  lemma Widths()
    ensures Pow256(2) == 0x1_0000 && Pow256(4) == 0x1_0000_0000 && Pow256(8) == 0x1_0000_0000_0000_0000
  {
    assert Pow256(3) == 0x100_0000;
    assert Pow256(5) == 0x100_0000_0000;
    assert Pow256(7) == 0x100_0000_0000_0000;
  }

  /** Least significant byte first. */
  function FromLe(b: seq<Byte>): (v: nat)
    ensures v < Pow256(|b|)
  {
    if b == [] then 0 else b[0] + 256 * FromLe(b[1..])
  }

  function ToLe(v: nat, n: nat): (b: seq<Byte>)
    ensures |b| == n
  {
    if n == 0 then [] else [v % 256] + ToLe(v / 256, n - 1)
  }

  lemma {:induction false} FromToLe(v: nat, n: nat)
    requires v < Pow256(n)
    ensures FromLe(ToLe(v, n)) == v
  {
    if n > 0 {
      assert v / 256 < Pow256(n - 1);
      FromToLe(v / 256, n - 1);
      assert ToLe(v, n)[1..] == ToLe(v / 256, n - 1);
    }
  }

  lemma {:induction false} ToFromLe(b: seq<Byte>)
    ensures ToLe(FromLe(b), |b|) == b
  {
    if b != [] {
      ToFromLe(b[1..]);
      assert FromLe(b) % 256 == b[0] && FromLe(b) / 256 == FromLe(b[1..]);
      assert b == [b[0]] + b[1..];
    }
  }

  function Reverse(b: seq<Byte>): (r: seq<Byte>)
    ensures |r| == |b|
  {
    seq(|b|, (i: nat) requires i < |b| => b[|b| - 1 - i])
  }

  /** The number that bytes stand for, most significant byte first or last. */
  function Value(b: seq<Byte>, msb: bool): nat {
    if msb then FromLe(Reverse(b)) else FromLe(b)
  }

  /** The two orders, for a word of four bytes. */
  lemma ByteOrder(a: Byte, b: Byte, c: Byte, d: Byte)
    ensures Value([a, b, c, d], false) == a + 0x100 * b + 0x1_0000 * c + 0x100_0000 * d
    ensures Value([a, b, c, d], true) == d + 0x100 * c + 0x1_0000 * b + 0x100_0000 * a
  {
    WordIs(a, b, c, d);
    WordIs(d, c, b, a);
    assert Reverse([a, b, c, d]) == [d, c, b, a];
    hide FromLe;
  }

  lemma WordIs(a: Byte, b: Byte, c: Byte, d: Byte)
    ensures FromLe([a, b, c, d]) == a + 0x100 * b + 0x1_0000 * c + 0x100_0000 * d
  {
    assert [a, b, c, d][1..] == [b, c, d] && [b, c, d][1..] == [c, d] && [c, d][1..] == [d] && [d][1..] == [];
    assert FromLe([d]) == d;
    assert FromLe([c, d]) == c + 256 * d;
  }

  /** The number in `n` bytes from `at` on. */
  function Number(s: seq<Byte>, at: nat, n: nat, msb: bool): nat
    requires at + n <= |s|
  {
    Value(s[at..at + n], msb)
  }

  function ToOrder(v: nat, n: nat, msb: bool): (b: seq<Byte>)
    ensures |b| == n
  {
    if msb then Reverse(ToLe(v, n)) else ToLe(v, n)
  }

  lemma ValueToOrder(v: nat, n: nat, msb: bool)
    requires v < Pow256(n)
    ensures Value(ToOrder(v, n, msb), msb) == v
  {
    FromToLe(v, n);
    assert Reverse(Reverse(ToLe(v, n))) == ToLe(v, n);
  }

  lemma Slice(s: seq<Byte>, off: nat, b: seq<Byte>, lo: nat, hi: nat)
    requires off + |b| <= |s| && s[off..off + |b|] == b && lo <= hi <= |b|
    ensures s[off + lo..off + hi] == b[lo..hi]
  {
    var x, y := s[off + lo..off + hi], b[lo..hi];
    forall i | 0 <= i < hi - lo ensures x[i] == y[i] {
      assert y[i] == b[lo + i] == s[off..off + |b|][lo + i];
    }
  }

  /** Overwrites `f` from `at` on. */
  function Overwrite(f: seq<Byte>, at: nat, data: seq<Byte>): (r: seq<Byte>)
    requires at + |data| <= |f|
    ensures |r| == |f|
  {
    f[..at] + data + f[at + |data|..]
  }

  /** Rounds up to a multiple of four, as the code spells it. */
  function Pad4(n: nat): (r: nat)
    ensures n <= r < n + 4 && r % 4 == 0
  {
    if n % 4 != 0 then n - n % 4 + 4 else n
  }

  function Zeros(n: nat): (r: seq<Byte>)
    ensures |r| == n && forall i :: 0 <= i < n ==> r[i] == 0
  {
    seq(n, (_: nat) => 0)
  }
}
