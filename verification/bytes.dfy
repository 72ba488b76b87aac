/** Little-endian fixed-width integers and opaque 32-bit float words: the primitive fields
    of every binary layout in this model.  A field is read with a parser that returns the
    value together with the bytes that follow it, or `None` when too few bytes remain. */
module Bytes {
  import opened Outcomes

  type byte = b: int | 0 <= b < 0x100
  type uint32 = x: int | 0 <= x < 0x1_0000_0000
  type uint64 = x: int | 0 <= x < 0x1_0000_0000_0000_0000

  const U32_LIMIT: nat := 0x1_0000_0000
  const U64_LIMIT: nat := 0x1_0000_0000_0000_0000

  /** An implicit conversion to `uint32`: the value modulo 2^32.  It keeps values below 2^32
      and otherwise drops a multiple of 2^32. */
  function Narrow32(x: nat): (r: uint32)
    ensures x < U32_LIMIT ==> r == x
    ensures (x - r) % U32_LIMIT == 0
  {
    x % U32_LIMIT
  }

  /** A float32 kept as its raw bit pattern.  The formats copy floats byte for byte and no
      modelled operation computes with them, so their numeric meaning is irrelevant here. */
  datatype Float32 = Float32(bits: uint32)

  function Pow256(n: nat): (p: nat)
    ensures p >= 1
  {
    if n == 0 then 1 else 256 * Pow256(n - 1)
  }

  lemma Pow256Limits()
    ensures Pow256(4) == U32_LIMIT
    ensures Pow256(8) == U64_LIMIT
  {
  }

  /** The unsigned value of a little-endian byte string (first byte least significant). */
  function FromLE(bs: seq<byte>): (v: nat)
    ensures v < Pow256(|bs|)
  {
    if |bs| == 0 then 0 else bs[0] + 256 * FromLE(bs[1..])
  }

  /** The `n`-byte little-endian representation of `v`; `FromLE` undoes it. */
  function ToLE(v: nat, n: nat): (bs: seq<byte>)
    requires v < Pow256(n)
    ensures |bs| == n
    ensures FromLE(bs) == v
  {
    if n == 0 then [] else [v % 256] + ToLE(v / 256, n - 1)
  }

  /** The other half of the bijection: re-encoding a decoded byte string gives it back. */
  lemma {:induction false} ToLEFromLE(bs: seq<byte>)
    ensures ToLE(FromLE(bs), |bs|) == bs
  {
    if |bs| > 0 {
      var v := FromLE(bs);
      assert v % 256 == bs[0] && v / 256 == FromLE(bs[1..]);
      ToLEFromLE(bs[1..]);
      assert bs == [bs[0]] + bs[1..];
    }
  }

  function EncodeU32(x: uint32): (bs: seq<byte>)
    ensures |bs| == 4
  {
    Pow256Limits();
    ToLE(x, 4)
  }

  function EncodeU64(x: uint64): (bs: seq<byte>)
    ensures |bs| == 8
  {
    Pow256Limits();
    ToLE(x, 8)
  }

  function EncodeF32(f: Float32): (bs: seq<byte>)
    ensures |bs| == 4
  {
    EncodeU32(f.bits)
  }

  /** The float word stored at word offset `k` of `bs`, that is in bytes `4k .. 4k+4`. */
  function WordAt(bs: seq<byte>, k: nat): Float32
    requires 4 * k + 4 <= |bs|
  {
    Pow256Limits();
    Float32(FromLE(bs[4 * k .. 4 * k + 4]))
  }

  /** One `read` of a `uint32`. */
  function ParseU32(s: seq<byte>): (r: Option<(uint32, seq<byte>)>)
    ensures r.Some? <==> |s| >= 4
  {
    Pow256Limits();
    if |s| < 4 then None else Some((FromLE(s[..4]), s[4..]))
  }

  /** One `read` of a `uint64`. */
  function ParseU64(s: seq<byte>): (r: Option<(uint64, seq<byte>)>)
    ensures r.Some? <==> |s| >= 8
  {
    Pow256Limits();
    if |s| < 8 then None else Some((FromLE(s[..8]), s[8..]))
  }

  lemma ParseU32Encode(x: uint32, rest: seq<byte>)
    ensures ParseU32(EncodeU32(x) + rest) == Some((x, rest))
  {
    var s := EncodeU32(x) + rest;
    assert s[..4] == EncodeU32(x) && s[4..] == rest;
  }

  lemma ParseU64Encode(x: uint64, rest: seq<byte>)
    ensures ParseU64(EncodeU64(x) + rest) == Some((x, rest))
  {
    var s := EncodeU64(x) + rest;
    assert s[..8] == EncodeU64(x) && s[8..] == rest;
  }

  /** A successful `uint32` read consumed exactly the encoding of the value it returned. */
  lemma ParseU32Consumes(s: seq<byte>)
    requires ParseU32(s).Some?
    ensures s == EncodeU32(ParseU32(s).value.0) + ParseU32(s).value.1
  {
    ToLEFromLE(s[..4]);
    assert s == s[..4] + s[4..];
  }

  lemma ParseU64Consumes(s: seq<byte>)
    requires ParseU64(s).Some?
    ensures s == EncodeU64(ParseU64(s).value.0) + ParseU64(s).value.1
  {
    ToLEFromLE(s[..8]);
    assert s == s[..8] + s[8..];
  }

  /** A run of float words, each stored as four little-endian bytes. */
  function EncodeWords(ws: seq<Float32>): (bs: seq<byte>)
    ensures |bs| == 4 * |ws|
  {
    if |ws| == 0 then [] else EncodeF32(ws[0]) + EncodeWords(ws[1..])
  }

  /** Splits a byte string into consecutive float words. */
  function DecodeWords(bs: seq<byte>): (ws: seq<Float32>)
    requires |bs| % 4 == 0
    ensures |ws| == |bs| / 4
  {
    if |bs| == 0 then [] else [WordAt(bs, 0)] + DecodeWords(bs[4..])
  }

  lemma {:induction false} DecodeEncodeWords(ws: seq<Float32>)
    ensures DecodeWords(EncodeWords(ws)) == ws
  {
    if |ws| > 0 {
      var bs := EncodeWords(ws);
      assert bs[..4] == EncodeF32(ws[0]) && bs[4..] == EncodeWords(ws[1..]);
      DecodeEncodeWords(ws[1..]);
      assert [ws[0]] + ws[1..] == ws;
    }
  }

  lemma {:induction false} EncodeDecodeWords(bs: seq<byte>)
    requires |bs| % 4 == 0
    ensures EncodeWords(DecodeWords(bs)) == bs
  {
    if |bs| > 0 {
      var ws := DecodeWords(bs);
      assert ws[0] == WordAt(bs, 0) && ws[1..] == DecodeWords(bs[4..]);
      ToLEFromLE(bs[..4]);
      Pow256Limits();
      EncodeDecodeWords(bs[4..]);
      assert bs == bs[..4] + bs[4..];
    }
  }

  /** Word `k` of the decoded run is the word stored at byte offset `4k`. */
  lemma {:induction false} DecodeWordsAt(bs: seq<byte>, k: nat)
    requires |bs| % 4 == 0 && k < |bs| / 4
    ensures DecodeWords(bs)[k] == WordAt(bs, k)
  {
    if k > 0 {
      DecodeWordsAt(bs[4..], k - 1);
      assert bs[4..][4 * (k - 1) .. 4 * (k - 1) + 4] == bs[4 * k .. 4 * k + 4];
    }
  }

  /** Cutting a byte string after word `k` leaves word `k` in place. */
  lemma WordAtPrefix(bs: seq<byte>, n: nat, k: nat)
    requires 4 * k + 4 <= n <= |bs|
    ensures WordAt(bs[..n], k) == WordAt(bs, k)
  {
    assert bs[..n][4 * k .. 4 * k + 4] == bs[4 * k .. 4 * k + 4];
  }

  lemma Append3<T>(a: seq<T>, b: seq<T>, c: seq<T>)
    ensures a + (b + c) == a + b + c
  {
  }
}
