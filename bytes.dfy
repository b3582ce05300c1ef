/**
 * Bytes of the output file: zero fill, the 64-bit little-endian header
 * word, and what a positioned write does to a file's contents.
 */
module Bytes {
  import opened Sector

  type byte = x: int | 0 <= x < 256

  /** `n` zero bytes: the zero-initialised static sector buffer, or a hole in a file. */
  function Zeros(n: nat): (z: seq<byte>)
    ensures |z| == n
    ensures forall i :: 0 <= i < n ==> z[i] == 0
  {
    seq(n, _ => 0)
  }

  /** `256^n`, the number of values `n` bytes can hold. */
  function Pow256(n: nat): (p: nat)
    ensures p >= 1
  {
    if n == 0 then 1 else 256 * Pow256(n - 1)
  }

  /** `n` bytes hold `8 * n` binary digits. */
  lemma {:induction false} Pow256IsPow2(n: nat)
    ensures Pow256(n) == Pow2(8 * n)
  {
    if n > 0 {
      Pow256IsPow2(n - 1);
      Pow2Of8();
      Pow2Add(8, 8 * (n - 1));
    }
  }

  /** The `n` least significant bytes of `v`, least significant first. */
  function LittleEndian(v: nat, n: nat): (bs: seq<byte>)
    ensures |bs| == n
  {
    if n == 0 then [] else [v % 256] + LittleEndian(v / 256, n - 1)
  }

  /** The number whose little-endian representation is `bs`. */
  function FromLittleEndian(bs: seq<byte>): (v: nat)
    ensures v < Pow256(|bs|)
  {
    if bs == [] then 0 else bs[0] + 256 * FromLittleEndian(bs[1..])
  }

  lemma {:induction false} DecodeEncode(v: nat, n: nat)
    requires v < Pow256(n)
    ensures FromLittleEndian(LittleEndian(v, n)) == v
  {
    if n > 0 {
      DecodeEncode(v / 256, n - 1);
    }
  }

  lemma {:induction false} EncodeDecode(bs: seq<byte>)
    ensures LittleEndian(FromLittleEndian(bs), |bs|) == bs
  {
    if bs != [] {
      var v := FromLittleEndian(bs);
      var rest := FromLittleEndian(bs[1..]);
      assert v % 256 == bs[0] && v / 256 == rest;
      EncodeDecode(bs[1..]);
    }
  }

  /** A uint64_t as it is stored in memory, in little-endian byte order. */
  function U64Bytes(v: u64): (bs: seq<byte>)
    ensures |bs| == 8 && FromLittleEndian(bs) == v
  {
    Pow256IsPow2(8);
    SectorAndWordSizes();
    DecodeEncode(v, 8);
    LittleEndian(v, 8)
  }

  function Max(a: nat, b: nat): nat
  {
    if a < b then b else a
  }

  /**
   * The contents of a file after writing `buf` at offset `off`: the bytes
   * from `off` on are replaced, a gap between the old end of the file and
   * `off` is filled with zeros, the bytes beyond the write are kept, and a
   * write of nothing changes nothing (OverwriteBytes states it byte by byte).
   */
  function Overwrite(f: seq<byte>, off: nat, buf: seq<byte>): (r: seq<byte>)
    ensures buf == [] ==> r == f
    ensures buf != [] ==> |r| == Max(|f|, off + |buf|)
  {
    if buf == [] then f
    else if off <= |f| then
      f[..off] + buf + (if off + |buf| < |f| then f[off + |buf|..] else [])
    else
      f + Zeros(off - |f|) + buf
  }

  /** Byte by byte: the written bytes, the kept bytes, and the zero-filled gap. */
  lemma OverwriteBytes(f: seq<byte>, off: nat, buf: seq<byte>)
    ensures forall i :: 0 <= i < |buf| ==> Overwrite(f, off, buf)[off + i] == buf[i]
    ensures forall i :: 0 <= i < |f| && !(off <= i < off + |buf|) ==> Overwrite(f, off, buf)[i] == f[i]
    ensures buf != [] ==> forall i :: |f| <= i < off ==> Overwrite(f, off, buf)[i] == 0
  {
  }

  /** Two writes back to back amount to one write of both buffers. */
  lemma OverwriteSequential(f: seq<byte>, off: nat, a: seq<byte>, b: seq<byte>)
    ensures Overwrite(Overwrite(f, off, a), off + |a|, b) == Overwrite(f, off, a + b)
  {
    if a != [] && b != [] {
      var once := Overwrite(f, off, a);
      var lhs := Overwrite(once, off + |a|, b);
      var rhs := Overwrite(f, off, a + b);
      OverwriteBytes(f, off, a);
      OverwriteBytes(once, off + |a|, b);
      OverwriteBytes(f, off, a + b);
      assert |lhs| == |rhs|;
      forall i | 0 <= i < |lhs|
        ensures lhs[i] == rhs[i]
      {
        if off <= i < off + |a| {
          assert lhs[i] == once[i] == a[i - off];
          assert rhs[i] == (a + b)[i - off];
        } else if off + |a| <= i < off + |a| + |b| {
          assert lhs[i] == b[i - off - |a|];
          assert rhs[i] == (a + b)[i - off];
        } else if i < |f| {
          assert lhs[i] == once[i] == f[i];
        } else {
          assert lhs[i] == once[i] == 0;
        }
      }
    } else if a == [] {
      assert a + b == b;
    } else {
      assert a + b == a;
    }
  }
}
