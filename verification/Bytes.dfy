/** Big-endian fields of a byte block, as the module loader reads and writes them. */
module Bytes {
  import opened Basics
  import opened RingMath

  const WORD := 0x1_0000_0000

  // [lo, hi) holds the same bytes in both blocks
  ghost predicate Same(m: seq<Byte>, m': seq<Byte>, lo: nat, hi: nat)
    requires |m'| == |m|
  {
    forall x {:trigger m'[x]} {:trigger m[x]} | 0 <= x < |m| && lo <= x < hi :: m'[x] == m[x]
  }

  // nothing but the n bytes at o differs
  ghost predicate Only(m: seq<Byte>, m': seq<Byte>, o: nat, n: nat) {
    |m'| == |m| && forall x {:trigger m'[x]} {:trigger m[x]} | 0 <= x < |m| && !(o <= x < o + n) :: m'[x] == m[x]
  }

  function G8(m: seq<Byte>, o: nat): (r: nat)
    requires o < |m|
    ensures r < 0x100
  {
    m[o]
  }

  function G16(m: seq<Byte>, o: nat): (r: nat)
    requires o + 2 <= |m|
    ensures r < 0x1_0000
  {
    m[o] as nat * 0x100 + m[o + 1] as nat
  }

  function G32(m: seq<Byte>, o: nat): (r: nat)
    requires o + 4 <= |m|
    ensures r < WORD
  {
    G16(m, o) * 0x1_0000 + G16(m, o + 2)
  }

  // the low 32 bits as a signed value
  function S32(x: nat): (v: int)
    requires x < WORD
    ensures -0x8000_0000 <= v < 0x8000_0000 && v % WORD == x
  {
    if x >= 0x8000_0000 then x - WORD else x
  }

  method P8(a: array<Byte>, o: nat, v: int)
    requires o + 1 <= a.Length
    modifies a
    ensures G8(a[..], o) == v % 0x100 && Only(old(a[..]), a[..], o, 1)
  {
    a[o] := v % 0x100;
  }

  method P16(a: array<Byte>, o: nat, v: int)
    requires o + 2 <= a.Length
    modifies a
    ensures G16(a[..], o) == v % 0x1_0000 && Only(old(a[..]), a[..], o, 2)
  {
    Split(v, 0x100, 0x100);
    P8(a, o, v / 0x100);
    P8(a, o + 1, v);
  }

  method P32(a: array<Byte>, o: nat, v: int)
    requires o + 4 <= a.Length
    modifies a
    ensures G32(a[..], o) == v % WORD && Only(old(a[..]), a[..], o, 4)
  {
    Split(v, 0x1_0000, 0x1_0000);
    P16(a, o, v / 0x1_0000);
    ghost var mid := a[..];
    P16(a, o + 2, v);
    assert G16(a[..], o) == G16(mid, o);
  }

  // the high and the low part of a field make the field
  lemma Split(v: int, p: nat, q: nat)
    requires p > 0 && q > 0
    ensures p * q > 0 && v % (p * q) == (v / p % q) * p + v % p
  {
    var h, l := v / p, v % p;
    var hh, hl := h / q, h % q;
    Regroup(p, q, hh, hl);
    MulLe(hl, q - 1, p);
    assert (q - 1) * p == p * q - p;
    ModIs(v, p * q, hh, hl * p + l);
  }

  lemma Regroup(p: nat, q: nat, x: int, y: int)
    ensures (x * q + y) * p == (p * q) * x + y * p
  {
  }

  lemma MulLe(a: int, b: int, p: nat)
    requires a <= b
    ensures a * p <= b * p
  {
  }
}
