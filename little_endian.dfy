/** Fixed-width little-endian integers, as used for the 8-byte chunk length prefix.
    The prefix is a signed 64-bit integer in two's complement, least significant byte first. */
module LittleEndian {

  newtype byte = x: int | 0 <= x < 256

  /** Number of bytes in a length prefix (64 / 8). */
  const Width: nat := 8

  const Uint64Limit: int := 0x1_0000_0000_0000_0000
  const Int64Limit: int := 0x8000_0000_0000_0000

  function Pow256(k: nat): (r: nat)
    ensures r > 0
  {
    if k == 0 then 1 else 256 * Pow256(k - 1)
  }

  lemma Pow256Width()
    ensures Pow256(Width) == Uint64Limit
  {
    assert Pow256(2) == 0x1_0000;
    assert Pow256(4) == 0x1_0000_0000;
    assert Pow256(6) == 0x1_0000_0000_0000;
  }

  /** The k low-order base-256 digits of n, least significant first. */
  function EncodeLE(n: nat, k: nat): (r: seq<byte>)
    ensures |r| == k
  {
    if k == 0 then [] else [(n % 256) as byte] + EncodeLE(n / 256, k - 1)
  }

  /** The unsigned value of a little-endian digit sequence. */
  function DecodeLE(s: seq<byte>): (r: nat)
    ensures r < Pow256(|s|)
  {
    if |s| == 0 then 0 else s[0] as nat + 256 * DecodeLE(s[1..])
  }

  lemma {:induction false} DecodeEncodeLE(n: nat, k: nat)
    requires n < Pow256(k)
    ensures DecodeLE(EncodeLE(n, k)) == n
  {
    if k > 0 {
      var s := EncodeLE(n, k);
      assert s[1..] == EncodeLE(n / 256, k - 1);
      DecodeEncodeLE(n / 256, k - 1);
    }
  }

  lemma {:induction false} EncodeDecodeLE(s: seq<byte>)
    ensures EncodeLE(DecodeLE(s), |s|) == s
  {
    if |s| > 0 {
      var n := DecodeLE(s);
      assert n % 256 == s[0] as nat && n / 256 == DecodeLE(s[1..]);
      EncodeDecodeLE(s[1..]);
    }
  }

  /** Reinterprets an unsigned 64-bit value (u < Uint64Limit) as a signed one (Go's
      int64 conversion). */
  function ToInt64(u: nat): (x: int)
  {
    if u < Int64Limit then u else u - Uint64Limit
  }

  /** The unsigned 64-bit pattern of a signed 64-bit value. */
  function FromInt64(x: int): (u: nat)
    requires -Int64Limit <= x < Int64Limit
  {
    if x >= 0 then x else x + Uint64Limit
  }

  /** binary.Write of an int64 in little-endian order. */
  function EncodeInt64(x: int): (r: seq<byte>)
    requires -Int64Limit <= x < Int64Limit
    ensures |r| == Width
  {
    EncodeLE(FromInt64(x), Width)
  }

  /** binary.Read of an int64 in little-endian order. */
  function DecodeInt64(s: seq<byte>): (x: int)
    requires |s| == Width
  {
    ToInt64(DecodeLE(s))
  }

  /** Every eight bytes decode to a value in the int64 range. */
  lemma DecodeInt64Range(s: seq<byte>)
    requires |s| == Width
    ensures -Int64Limit <= DecodeInt64(s) < Int64Limit
  {
    Pow256Width();
  }

  lemma DecodeEncodeInt64(x: int)
    requires -Int64Limit <= x < Int64Limit
    ensures DecodeInt64(EncodeInt64(x)) == x
  {
    Pow256Width();
    DecodeEncodeLE(FromInt64(x), Width);
  }

  lemma EncodeDecodeInt64(s: seq<byte>)
    requires |s| == Width
    ensures EncodeInt64(DecodeInt64(s)) == s
  {
    Pow256Width();
    EncodeDecodeLE(s);
  }
}
