/**
 * Bytes in memory and their little-endian reading: the decoder runs on a
 * little-endian host, so a C integer stored in a buffer is its bytes read
 * least significant first, and a byte swap reverses that order.
 */
module Bytes {
  import opened Bits

  type byte = x: int | 0 <= x < 256

  lemma Pow2Bytes(n: nat)
    ensures Pow2(8 * (n + 1)) == 256 * Pow2(8 * n)
  {
    Pow2Add(8, 8 * n);
    Pow2Values();
  }

  /** The unsigned value of `bs` read least significant byte first. */
  function FromLE(bs: seq<byte>): (u: nat)
    ensures u < Pow2(8 * |bs|)
  {
    if bs == [] then 0
    else
      Pow2Bytes(|bs| - 1);
      bs[0] + 256 * FromLE(bs[1..])
  }

  /** Three bytes read least significant first. */
  lemma FromLE3(a: byte, b: byte, c: byte)
    ensures FromLE([a, b, c]) == a + 0x100 * b + 0x1_0000 * c
  {
    assert [c][1..] == [];
    assert FromLE([c]) == c;
    assert [b, c][1..] == [c];
    assert FromLE([b, c]) == b + 0x100 * c;
    assert [a, b, c][1..] == [b, c];
  }

  /** The `n` bytes of `u` (modulo 2^(8n)), least significant first. */
  function ToLE(u: nat, n: nat): (bs: seq<byte>)
    ensures |bs| == n
  {
    if n == 0 then [] else [u % 256] + ToLE(u / 256, n - 1)
  }

  lemma {:induction false} FromToLE(u: nat, n: nat)
    ensures FromLE(ToLE(u, n)) == u % Pow2(8 * n)
  {
    if n == 0 {
      DivModUnique(u, 1, u, 0);
    } else {
      var bs := ToLE(u, n);
      assert bs[1..] == ToLE(u / 256, n - 1);
      FromToLE(u / 256, n - 1);
      Pow2Bytes(n - 1);
      DivModSplit(u, 256, Pow2(8 * (n - 1)));
    }
  }

  lemma {:induction false} ToFromLE(bs: seq<byte>)
    ensures ToLE(FromLE(bs), |bs|) == bs
  {
    if bs != [] {
      var u := FromLE(bs);
      DivModUnique(u, 256, FromLE(bs[1..]), bs[0]);
      ToFromLE(bs[1..]);
    }
  }

  function Reverse<T>(s: seq<T>): (r: seq<T>)
    ensures |r| == |s|
    ensures forall i :: 0 <= i < |s| ==> r[i] == s[|s| - 1 - i]
  {
    if s == [] then [] else Reverse(s[1..]) + [s[0]]
  }

  lemma ReverseReverse<T>(s: seq<T>)
    ensures Reverse(Reverse(s)) == s
  {
    assert forall i :: 0 <= i < |s| ==> Reverse(Reverse(s))[i] == s[i];
  }

  /** Swapping the byte order of an `n`-byte unsigned value (GUINT16_SWAP_LE_BE and friends). */
  function ByteSwap(u: nat, n: nat): (r: nat)
    ensures r < Pow2(8 * n)
  {
    FromLE(Reverse(ToLE(u, n)))
  }

  /** Swapping twice gives the value back. */
  lemma ByteSwapInvolution(u: nat, n: nat)
    requires u < Pow2(8 * n)
    ensures ByteSwap(ByteSwap(u, n), n) == u
  {
    var bs := ToLE(u, n);
    ToFromLE(Reverse(bs));
    ReverseReverse(bs);
    FromToLE(u, n);
    DivModUnique(u, Pow2(8 * n), 0, u);
  }

  /** Swapping the value read from `bs` is reading `bs` in the opposite byte order. */
  lemma ByteSwapReadsReversed(bs: seq<byte>)
    ensures ByteSwap(FromLE(bs), |bs|) == FromLE(Reverse(bs))
  {
    ToFromLE(bs);
  }
}
