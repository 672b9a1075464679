/** Little-endian integers, as the kernel and the library lay them out in a message. */
module Wire {
  type byte = b: int | 0 <= b < 256

  /** A file name: bytes, in no particular encoding. */
  type Name = seq<byte>

  const U16: nat := 0x1_0000
  const U32: nat := 0x1_0000_0000
  const U64: nat := 0x1_0000_0000_0000_0000

  function Pow256(k: nat): (p: nat)
    ensures p > 0
  {
    if k == 0 then 1 else 256 * Pow256(k - 1)
  }

  /** The low `k` bytes of `n`: what storing `n` in a `k`-byte field keeps. */
  function LE(n: nat, k: nat): (s: seq<byte>)
    ensures |s| == k
  {
    if k == 0 then [] else [n % 256] + LE(n / 256, k - 1)
  }

  function FromLE(s: seq<byte>): nat {
    if s == [] then 0 else s[0] + 256 * FromLE(s[1..])
  }

  lemma Widths()
    ensures Pow256(2) == U16 && Pow256(4) == U32 && Pow256(8) == U64
  {
    assert Pow256(2) == 256 * Pow256(1);
    assert Pow256(4) == 65536 * Pow256(2);
    assert Pow256(6) == 65536 * Pow256(4);
    assert Pow256(8) == 65536 * Pow256(6);
  }

  lemma {:induction false} LERoundTrip(n: nat, k: nat)
    requires n < Pow256(k)
    ensures FromLE(LE(n, k)) == n
  {
    if k > 0 {
      LERoundTrip(n / 256, k - 1);
      assert LE(n, k)[1..] == LE(n / 256, k - 1);
    }
  }

  function LE16(n: nat): (s: seq<byte>) ensures |s| == 2 { LE(n, 2) }
  function LE32(n: nat): (s: seq<byte>) ensures |s| == 4 { LE(n, 4) }
  function LE64(n: nat): (s: seq<byte>) ensures |s| == 8 { LE(n, 8) }

  lemma RoundTrip16(n: nat)
    requires n < U16
    ensures FromLE(LE16(n)) == n
  {
    Widths();
    LERoundTrip(n, 2);
  }

  lemma RoundTrip32(n: nat)
    requires n < U32
    ensures FromLE(LE32(n)) == n
  {
    Widths();
    LERoundTrip(n, 4);
  }

  lemma RoundTrip64(n: nat)
    requires n < U64
    ensures FromLE(LE64(n)) == n
  {
    Widths();
    LERoundTrip(n, 8);
  }
}
