/** Bytes and the little-endian 32-bit integers that the module stores in
    shared memory and in Wasm memory. */
module Bytes {

  type byte = x: int | 0 <= x < 256

  type Bytes = seq<byte>

  const U32 := 0x1_0000_0000
  const U64 := 0x1_0000_0000_0000_0000

  /** The `k` low bytes of `n`, least significant first. */
  function LittleEndian(n: nat, k: nat): (r: Bytes)
    ensures |r| == k
    decreases k
  {
    if k == 0 then [] else [n % 256] + LittleEndian(n / 256, k - 1)
  }

  /** The number whose little-endian bytes are `s`. */
  function Number(s: Bytes): (n: nat) {
    if s == [] then 0 else
      var low: int := s[0];
      low + 256 * Number(s[1..])
  }

  /** The four bytes of a `uint32_t`. */
  function LE32(n: nat): (r: Bytes)
    requires n < U32
    ensures |r| == 4
  {
    LittleEndian(n, 4)
  }

  lemma {:induction false} LE32Length(n: nat)
    requires n < U32
    ensures |LE32(n)| == 4
  {
  }

  /** The `uint32_t` at the start of `s`. */
  function FromLE32(s: Bytes): (n: nat)
    requires |s| >= 4
  {
    Number(s[..4])
  }

  /** The number in the four bytes at `at`, least significant first. */
  function NumberAt(s: Bytes, at: nat): int
    requires at + 4 <= |s|
  {
    var b0: int, b1: int, b2: int, b3: int := s[at], s[at + 1], s[at + 2], s[at + 3];
    b0 + 0x100 * b1 + 0x1_0000 * b2 + 0x100_0000 * b3
  }

  lemma {:induction false} LE32Bytes(n: nat)
    requires n < U32
    ensures NumberAt(LE32(n), 0) == n
  {
    var a := n / 256;
    var b := a / 256;
    var c := b / 256;
    assert LittleEndian(c, 1) == [c % 256] + LittleEndian(c / 256, 0);
    assert LittleEndian(b, 2) == [b % 256] + LittleEndian(c, 1);
    assert LittleEndian(a, 3) == [a % 256] + LittleEndian(b, 2);
    assert LE32(n) == [n % 256, a % 256, b % 256, c % 256];
  }

  lemma {:induction false} NumberOfSlice(s: Bytes, at: nat, n: nat)
    requires at + 4 <= |s| && n < U32 && s[at..at + 4] == LE32(n)
    ensures NumberAt(s, at) == n
  {
    LE32Bytes(n);
    var r := s[at..at + 4];
    assert r[0] == s[at] && r[1] == s[at + 1] && r[2] == s[at + 2] && r[3] == s[at + 3];
  }

  ghost function Pow256(k: nat): nat {
    if k == 0 then 1 else 256 * Pow256(k - 1)
  }

  lemma {:induction false} NumberOfLittleEndian(n: nat, k: nat)
    requires n < Pow256(k)
    ensures Number(LittleEndian(n, k)) == n
    decreases k
  {
    if k > 0 {
      NumberOfLittleEndian(n / 256, k - 1);
      assert LittleEndian(n, k)[1..] == LittleEndian(n / 256, k - 1);
    }
  }

  lemma {:induction false} NumberBound(s: Bytes)
    ensures Number(s) < Pow256(|s|)
  {
    if s != [] { NumberBound(s[1..]); }
  }

  lemma Pow256Is32()
    ensures Pow256(4) == U32
  {
    assert Pow256(1) == 256 && Pow256(2) == 0x1_0000 && Pow256(3) == 0x100_0000;
  }

  /** What is stored is what is read, whatever follows it. */
  lemma LE32RoundTrip(n: nat, tail: Bytes)
    requires n < U32
    ensures FromLE32(LE32(n) + tail) == n
  {
    Pow256Is32();
    NumberOfLittleEndian(n, 4);
    assert (LE32(n) + tail)[..4] == LE32(n);
  }

  // ------------------------------------------- unsigned machine arithmetic

  /** A `uint32_t`. */
  type Word = x: int | 0 <= x < 0x1_0000_0000

  function Min(a: nat, b: nat): nat {
    if a <= b then a else b
  }

  /** `x` as a `uint32_t`: what is left after taking away multiples of 2^32. */
  function Wrap32(x: nat): (r: nat)
    ensures r < U32 && r <= x
  {
    if x < U32 then x else Wrap32(x - U32)
  }

  /** `x` as a `uint64_t`. */
  function Wrap64(x: nat): (r: nat)
    ensures r < U64 && r <= x
  {
    if x < U64 then x else Wrap64(x - U64)
  }

  lemma {:induction false} Wrap32IsMod(x: nat)
    ensures Wrap32(x) == x % U32
  {
    if x >= U32 { Wrap32IsMod(x - U32); }
  }

  lemma {:induction false} Wrap64IsMod(x: nat)
    ensures Wrap64(x) == x % U64
  {
    if x >= U64 { Wrap64IsMod(x - U64); }
  }

  /** Wrapping a summand early makes no difference. */
  lemma {:induction false} Wrap32Add(a: nat, x: nat)
    ensures Wrap32(a + Wrap32(x)) == Wrap32(a + x)
    decreases x
  {
    if x >= U32 { Wrap32Add(a, x - U32); }
  }

  lemma {:induction false} Wrap64Add(a: nat, x: nat)
    ensures Wrap64(a + Wrap64(x)) == Wrap64(a + x)
    decreases x
  {
    if x >= U64 { Wrap64Add(a, x - U64); }
  }
}
