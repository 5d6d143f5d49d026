/**
 Bit streams, compact sizes and Golomb-Rice codes (section "Golomb-Coded Sets" of BIP 158). A bit stream is the
 sequence of its bits; bytes hold their bits highest first.
 */
module Golomb {
  import opened Wrappers
  import opened Arithmetic

  type Bits = seq<bool>

  const TWO_64: int := 0x1_0000_0000_0000_0000

  // ---------------------------------------------------------------------------------------------------------------
  // Numbers as bits
  // ---------------------------------------------------------------------------------------------------------------

  /** The `n` low bits of a number, highest first: what `BitStreamWriter::Write` appends. */
  function BitsOf(x: nat, n: nat): (b: Bits)
    ensures |b| == n
  {
    if n == 0 then [] else BitsOf(x / 2, n - 1) + [x % 2 == 1]
  }

  /** What `BitStreamReader::Read` returns for these bits. */
  function NumberOf(b: Bits): nat {
    if b == [] then 0 else 2 * NumberOf(b[..|b| - 1]) + (if b[|b| - 1] then 1 else 0)
  }

  lemma {:induction false} BitsExact(b: Bits)
    ensures BitsOf(NumberOf(b), |b|) == b
    decreases |b|
  {
    if b != [] {
      BitsExact(b[..|b| - 1]);
      assert b == b[..|b| - 1] + [b[|b| - 1]];
    }
  }

  // ---------------------------------------------------------------------------------------------------------------
  // Bytes
  // ---------------------------------------------------------------------------------------------------------------

  function Zeros(n: nat): (b: Bits)
    ensures |b| == n
  {
    seq(n, _ => false)
  }

  /** The bytes of a flushed stream: the last one is padded with zeros. */
  function Pack(b: Bits): seq<nat> {
    if b == [] then []
    else if |b| < 8 then [NumberOf(b + Zeros(8 - |b|))]
    else [NumberOf(b[..8])] + Pack(b[8..])
  }

  function Unpack(bytes: seq<nat>): (b: Bits)
    ensures |b| == 8 * |bytes|
  {
    if bytes == [] then [] else BitsOf(bytes[0], 8) + Unpack(bytes[1..])
  }

  /** The zeros that fill the last byte. */
  function Padding(n: nat): (r: nat)
    ensures r < 8 && (n + r) % 8 == 0
  {
    if n == 0 then 0 else if n < 8 then 8 - n else Padding(n - 8)
  }

  lemma UnpackFirst(first: Bits, bytes: seq<nat>)
    requires |first| == 8
    ensures Unpack([NumberOf(first)] + bytes) == first + Unpack(bytes)
  {
    BitsExact(first);
    assert ([NumberOf(first)] + bytes)[1..] == bytes;
  }

  lemma UnpackShort(b: Bits)
    requires 0 < |b| < 8
    ensures Unpack(Pack(b)) == b + Zeros(8 - |b|)
  {
    var padded := b + Zeros(8 - |b|);
    UnpackFirst(padded, []);
    assert Pack(b) == [NumberOf(padded)] + [];
    assert padded + Unpack([]) == padded;
  }

  /** Reading the bytes back gives the bits and less than a byte of padding. */
  lemma {:induction false} UnpackPack(b: Bits)
    ensures Unpack(Pack(b)) == b + Zeros(Padding(|b|))
    decreases |b|
  {
    if b == [] {
      assert Zeros(0) == [];
    } else if |b| < 8 {
      UnpackShort(b);
    } else {
      UnpackPack(b[8..]);
      UnpackLong(b, Zeros(Padding(|b|)));
    }
  }

  lemma UnpackLong(b: Bits, padding: Bits)
    requires |b| >= 8 && Unpack(Pack(b[8..])) == b[8..] + padding
    ensures Unpack(Pack(b)) == b + padding
  {
    var first, rest := b[..8], b[8..];
    UnpackFirst(first, Pack(rest));
    Regrouped(first, rest, padding);
    assert b == first + rest;
  }

  lemma Regrouped(a: Bits, b: Bits, c: Bits)
    ensures a + (b + c) == (a + b) + c
  {
  }

  // ---------------------------------------------------------------------------------------------------------------
  // Compact sizes
  // ---------------------------------------------------------------------------------------------------------------

  const MAX_SIZE: int := 0x0200_0000

  /** `n` little-endian bytes. */
  function Little(x: nat, n: nat): (b: seq<nat>)
    ensures |b| == n && forall i :: 0 <= i < n ==> b[i] < 256
  {
    if n == 0 then [] else [x % 256] + Little(x / 256, n - 1)
  }

  function FromLittle(b: seq<nat>): nat {
    if b == [] then 0 else b[0] + 256 * FromLittle(b[1..])
  }

  lemma {:induction false} LittleExact(x: nat, n: nat)
    requires x < Pow2(8 * n)
    ensures FromLittle(Little(x, n)) == x
  {
    assert Pow2(0) == 1;
    if n > 0 {
      assert Pow2(8) == 256;
      Pow2Add(8, 8 * (n - 1));
      LittleExact(x / 256, n - 1);
      assert Little(x, n)[1..] == Little(x / 256, n - 1);
    }
  }

  function WriteCompactSize(n: nat): seq<nat> {
    if n < 253 then [n]
    else if n <= 0xffff then [253] + Little(n, 2)
    else if n <= 0xffff_ffff then [254] + Little(n, 4)
    else [255] + Little(n, 8)
  }

  /** A size, if the stream holds a canonical one that is not too large, and the rest of the stream. */
  function ReadCompactSize(s: seq<nat>): Option<(nat, seq<nat>)> {
    if s == [] then None else
    var width := if s[0] < 253 then 0 else if s[0] == 253 then 2 else if s[0] == 254 then 4 else 8;
    if |s| < 1 + width then None else
    var n := if width == 0 then s[0] else FromLittle(s[1..1 + width]);
    var least := if width == 0 then 0 else if width == 2 then 253 else if width == 4 then 0x1_0000 else 0x1_0000_0000;
    if n < least || n > MAX_SIZE then None else Some((n, s[1 + width..]))
  }

  lemma PowsOfBytes()
    ensures Pow2(16) == 0x1_0000 && Pow2(32) == 0x1_0000_0000
  {
    assert Pow2(8) == 256;
    Pow2Add(8, 8);
    Pow2Add(16, 16);
  }

  /** A written size is read back exactly when it is within the limit that reading enforces. */
  lemma CompactSizeExact(n: nat, rest: seq<nat>)
    requires n <= 0xffff_ffff
    ensures ReadCompactSize(WriteCompactSize(n) + rest) == if n <= MAX_SIZE then Some((n, rest)) else None
  {
    var w := WriteCompactSize(n);
    var s := w + rest;
    assert s[|w|..] == rest;
    PowsOfBytes();
    if n < 253 {
    } else if n <= 0xffff {
      LittleExact(n, 2);
      assert s[1..3] == Little(n, 2);
    } else {
      LittleExact(n, 4);
      assert s[1..5] == Little(n, 4);
    }
  }

  // ---------------------------------------------------------------------------------------------------------------
  // Golomb-Rice codes
  // ---------------------------------------------------------------------------------------------------------------

  function Ones(n: nat): (b: Bits)
    ensures |b| == n
  {
    seq(n, _ => true)
  }

  /** The quotient in unary, closed by a zero, and then the remainder in `p` bits. */
  function Encode(x: nat, p: nat): Bits {
    Ones(Shr(x, p)) + [false] + BitsOf(x, p)
  }

  /** The number of leading ones, if a zero follows. */
  function Unary(b: Bits): Option<nat> {
    if b == [] then None
    else if !b[0] then Some(0)
    else match Unary(b[1..]) case Some(q) => Some(q + 1) case None => None
  }

  lemma {:induction false} UnaryBound(b: Bits)
    ensures Unary(b).Some? ==> Unary(b).value < |b|
    decreases |b|
  {
    if b != [] && b[0] { UnaryBound(b[1..]); }
  }

  /** `(q << p) + r` in 64 bits. */
  function Joined(q: nat, p: nat, r: nat): nat {
    Cut64(Shl(q, p) + r)
  }

  function Cut64(x: nat): nat {
    if x < TWO_64 then x else x % TWO_64
  }

  lemma {:induction false} ShiftedParts(x: nat, p: nat)
    ensures Shl(Shr(x, p), p) + NumberOf(BitsOf(x, p)) == x
  {
    if p > 0 {
      ShiftedParts(x / 2, p - 1);
      ShiftStep(x, Shr(x, p), p);
      assert BitsOf(x, p)[..p - 1] == BitsOf(x / 2, p - 1);
    }
  }

  /** The value and the rest of the stream, or nothing if the stream ends too early; the value wraps at 64 bits. */
  function Decode(b: Bits, p: nat): Option<(nat, Bits)> {
    match Unary(b)
    case None => None
    case Some(q) =>
      UnaryBound(b);
      var rest := b[q + 1..];
      if |rest| < p then None else Some((Joined(q, p, NumberOf(rest[..p])), rest[p..]))
  }

  lemma {:induction false} UnaryExact(q: nat, rest: Bits)
    ensures Unary(Ones(q) + [false] + rest) == Some(q)
  {
    if q > 0 {
      assert (Ones(q) + [false] + rest)[1..] == Ones(q - 1) + [false] + rest;
      UnaryExact(q - 1, rest);
    }
  }

  lemma DecodeParts(q: nat, r: Bits, rest: Bits)
    ensures Decode(Ones(q) + [false] + (r + rest), |r|) == Some((Joined(q, |r|, NumberOf(r)), rest))
  {
    var b := Ones(q) + [false] + (r + rest);
    UnaryExact(q, r + rest);
    assert b[q + 1..] == r + rest;
    assert (r + rest)[..|r|] == r && (r + rest)[|r|..] == rest;
  }

  /** Every 64-bit value is decoded from its code, whatever follows it. */
  lemma DecodeEncode(x: nat, p: nat, rest: Bits)
    requires x < TWO_64
    ensures Decode(Encode(x, p) + rest, p) == Some((x, rest))
  {
    var q := Shr(x, p);
    assert Encode(x, p) + rest == Ones(q) + [false] + (BitsOf(x, p) + rest);
    DecodeParts(q, BitsOf(x, p), rest);
    ShiftedParts(x, p);
  }

  // ---------------------------------------------------------------------------------------------------------------
  // The code
  // ---------------------------------------------------------------------------------------------------------------

  class BitWriter {
    var bits: Bits

    constructor ()
      ensures bits == []
    {
      bits := [];
    }

    method Write(data: nat, nbits: nat)
      modifies this
      ensures bits == old(bits) + BitsOf(data, nbits)
    {
      bits := bits + BitsOf(data, nbits);
    }
  }

  class BitReader {
    var bits: Bits

    constructor (bits: Bits)
      ensures this.bits == bits
    {
      this.bits := bits;
    }

    method Read(nbits: nat) returns (data: Option<nat>)
      modifies this
      ensures data == if old(|bits|) < nbits then None else Some(NumberOf(old(bits)[..nbits]))
      ensures data.Some? ==> bits == old(bits)[nbits..]
    {
      if |bits| < nbits {
        return None;
      }
      data := Some(NumberOf(bits[..nbits]));
      bits := bits[nbits..];
    }
  }

  lemma {:induction false} AllOnes(n: nat, m: nat)
    requires n <= m
    ensures BitsOf(Pow2(m) - 1, n) == Ones(n)
    decreases n
  {
    if n > 0 {
      assert (Pow2(m) - 1) / 2 == Pow2(m - 1) - 1;
      AllOnes(n - 1, m - 1);
      assert Ones(n) == Ones(n - 1) + [true];
    }
  }

  const ALL_ONES: nat := 0xffff_ffff_ffff_ffff

  lemma AllOnesIn64(n: nat)
    requires n <= 64
    ensures BitsOf(ALL_ONES, n) == Ones(n)
  {
    PowsOfBytes();
    Pow2Add(32, 32);
    AllOnes(n, 64);
  }

  lemma OnesJoin(m: nat, n: nat)
    ensures Ones(m) + Ones(n) == Ones(m + n)
  {
  }

  /** Writes ones in runs of at most 64, and a zero. */
  method WriteUnary(w: BitWriter, count: nat)
    modifies w
    ensures w.bits == old(w.bits) + (Ones(count) + [false])
  {
    var q := count;
    ghost var was := w.bits;
    while q > 0
      invariant 0 <= q <= count && w.bits == was + Ones(count - q)
    {
      var nbits := if q <= 64 then q else 64;
      AllOnesIn64(nbits);
      OnesJoin(count - q, nbits);
      w.Write(ALL_ONES, nbits);
      q := q - nbits;
    }
    assert BitsOf(0, 1) == [false];
    w.Write(0, 1);
    assert w.bits == was + Ones(count) + [false];
  }

  method GolombRiceEncode(w: BitWriter, p: nat, x: nat)
    requires x < TWO_64 && p < 64
    modifies w
    ensures w.bits == old(w.bits) + Encode(x, p)
  {
    WriteUnary(w, Shr(x, p));
    w.Write(x, p);
  }

  /** Reads ones up to a zero. */
  method ReadUnary(r: BitReader) returns (q: Option<nat>)
    modifies r
    ensures q == Unary(old(r.bits))
    ensures q.Some? ==> q.value < |old(r.bits)| && r.bits == old(r.bits)[q.value + 1..]
  {
    ghost var was := r.bits;
    var n := 0;
    var b := r.Read(1);
    while b == Some(1)
      invariant n <= |was|
      invariant b.Some? ==> n + 1 <= |was| && r.bits == was[n + 1..] && b == Some(if was[n] then 1 else 0)
      invariant b.None? ==> was[n..] == []
      invariant forall i :: 0 <= i < n ==> was[i]
      decreases |was| - n
    {
      n := n + 1;
      b := r.Read(1);
    }
    UnaryFrom(was, n);
    return if b.None? then None else Some(n);
  }

  /** Throws (returns nothing) when the stream runs out. */
  method GolombRiceDecode(r: BitReader, p: nat) returns (x: Option<nat>)
    requires p < 64
    modifies r
    ensures x.Some? <==> Decode(old(r.bits), p).Some?
    ensures x.Some? ==> (x.value, r.bits) == Decode(old(r.bits), p).value
  {
    var q := ReadUnary(r);
    if q.None? {
      return None;
    }
    var rem := r.Read(p);
    if rem.None? {
      return None;
    }
    return Some(Joined(q.value, p, rem.value));
  }

  /** After `q` ones the count is decided by what follows. */
  lemma {:induction false} UnaryFrom(b: Bits, q: nat)
    requires q <= |b| && forall i :: 0 <= i < q ==> b[i]
    ensures b[q..] == [] ==> Unary(b) == None
    ensures q < |b| && !b[q] ==> Unary(b) == Some(q)
    decreases q
  {
    if q > 0 {
      UnaryFrom(b[1..], q - 1);
    }
  }
}
