/** The parts of Argon2 that treeminer/src/argon2params.cpp computes on the host, specified as in
    section 3 of RFC 9106. */
module Argon2Spec {
  import opened Blake2bSpec

  const BLOCK_SIZE: nat := 1024
  const HALF: nat := 32

  function ByteOf(x: nat): bv8
    requires x < 256
  {
    x as bv8
  }

  /** The byte of its own value. */
  lemma {:induction false} ByteOfValue(b: bv8)
    ensures ByteOf(b as int) == b
  {
  }

  /** A 32-bit little-endian integer; a longer value is truncated, as a cast to 32 bits does. */
  function LE32(v: nat): (b: Bytes)
    ensures |b| == 4
  {
    [ByteOf(v % 256), ByteOf(v / 0x100 % 256), ByteOf(v / 0x1_0000 % 256), ByteOf(v / 0x100_0000 % 256)]
  }

  /** Its bytes have the weights 1, 2^8, 2^16 and 2^24, and what lies above 2^32 is lost. */
  lemma {:induction false} LittleEndian32(d0: nat, d1: nat, d2: nat, d3: nat, q: nat)
    requires d0 < 256 && d1 < 256 && d2 < 256 && d3 < 256
    ensures LE32(d0 + 0x100 * d1 + 0x1_0000 * d2 + 0x100_0000 * d3 + 0x1_0000_0000 * q)
         == [ByteOf(d0), ByteOf(d1), ByteOf(d2), ByteOf(d3)]
  {
    hide ByteOf;
    var v := d0 + 0x100 * d1 + 0x1_0000 * d2 + 0x100_0000 * d3 + 0x1_0000_0000 * q;
    var q1 := d1 + 0x100 * d2 + 0x1_0000 * d3 + 0x100_0000 * q;
    var q2 := d2 + 0x100 * d3 + 0x1_0000 * q;
    var q3 := d3 + 0x100 * q;
    DivideTwice(v);
    LastDigit(v, q1, d0);
    LastDigit(q1, q2, d1);
    LastDigit(q2, q3, d2);
    LastDigit(q3, q, d3);
  }

  lemma {:induction false} LastDigit(v: nat, q: nat, d: nat)
    requires v == d + 256 * q && d < 256
    ensures v % 256 == d && v / 256 == q
  {
  }

  lemma {:induction false} DivideTwice(v: nat)
    ensures v / 0x1_0000 == v / 256 / 256 && v / 0x100_0000 == v / 256 / 256 / 256
  {
    DivideOnce(v, 256);
    DivideOnce(v, 0x1_0000);
  }

  lemma {:induction false} DivideOnce(v: nat, k: nat)
    requires k == 256 || k == 0x1_0000
    ensures v / (k * 256) == v / k / 256
  {
    var q := v / k;
    assert v == k * q + v % k && q == 256 * (q / 256) + q % 256;
    QuotientIs(v, k * 256, q / 256, k * (q % 256) + v % k);
  }

  lemma {:induction false} QuotientIs(v: nat, d: nat, q: nat, r: nat)
    requires (d == 0x1_0000 || d == 0x100_0000) && v == d * q + r && r < d
    ensures v / d == q
  {
  }

  /** V_i of section 3.3, for i >= 1. */
  function V(outLen: nat, a: Bytes, i: nat): (v: Bytes)
    requires i >= 1
    ensures |v| == OUT_BYTES
  {
    if i == 1 then Hash(OUT_BYTES, LE32(outLen) + a) else Hash(OUT_BYTES, V(outLen, a, i - 1))
  }

  /** W_1 || ... || W_k, where W_i is the first half of V_i. */
  function Halves(outLen: nat, a: Bytes, k: nat): (w: Bytes)
    ensures |w| == k * HALF
  {
    if k == 0 then [] else Halves(outLen, a, k - 1) + V(outLen, a, k)[..HALF]
  }

  /** The number r of half blocks for an output longer than one digest: ceil(T/32) - 2. */
  function HalfCount(outLen: nat): (r: nat)
    requires outLen > OUT_BYTES
    ensures r >= 1 && HALF < outLen - HALF * r <= OUT_BYTES
  {
    (outLen + HALF - 1) / HALF - 2
  }

  /** The variable-length hash function H' of section 3.3. */
  function HPrime(outLen: nat, a: Bytes): (tag: Bytes)
    ensures |tag| == outLen
  {
    if outLen <= OUT_BYTES then Hash(outLen, LE32(outLen) + a)
    else
      var r := HalfCount(outLen);
      Halves(outLen, a, r) + Hash(outLen - HALF * r, V(outLen, a, r))
  }

  /** A long output piece by piece: the first halves of a chain of digests, and the rest from the end of the
      chain. */
  lemma {:induction false} LongHash(outLen: nat, a: Bytes, i: nat)
    requires outLen > 64 && i < HalfCount(outLen)
    ensures V(outLen, a, 1) == Hash(64, LE32(outLen) + a) && V(outLen, a, i + 2) == Hash(64, V(outLen, a, i + 1))
    ensures HPrime(outLen, a)[32 * i..32 * i + 32] == V(outLen, a, i + 1)[..32]
    ensures var r := HalfCount(outLen); HPrime(outLen, a)[32 * r..] == Hash(outLen - 32 * r, V(outLen, a, r))
  {
    hide Hash; hide LE32;
    var r := HalfCount(outLen);
    HalvesAt(outLen, a, r, i);
    var w, last := Halves(outLen, a, r), Hash(outLen - 32 * r, V(outLen, a, r));
    assert (w + last)[32 * i..32 * i + 32] == w[32 * i..32 * i + 32];
    assert (w + last)[32 * r..] == last;
  }

  lemma {:induction false} HalvesAt(outLen: nat, a: Bytes, k: nat, i: nat)
    requires i < k
    ensures Halves(outLen, a, k)[32 * i..32 * i + 32] == V(outLen, a, i + 1)[..32]
  {
    hide V; hide Hash;
    var w := Halves(outLen, a, k - 1);
    if i < k - 1 {
      HalvesAt(outLen, a, k - 1, i);
      assert (w + V(outLen, a, k)[..32])[32 * i..32 * i + 32] == w[32 * i..32 * i + 32];
    }
  }

  datatype Params = Params(lanes: nat, outLen: nat, mCost: nat, tCost: nat, version: nat, variant: nat,
                           salt: Bytes, secret: Bytes, ad: Bytes)

  /** Everything the prehash digest covers (section 3.2, step 1). */
  function Fields(p: Params, pwd: Bytes): Bytes {
    LE32(p.lanes) + LE32(p.outLen) + LE32(p.mCost) + LE32(p.tCost) + LE32(p.version) + LE32(p.variant)
    + LE32(|pwd|) + pwd + LE32(|p.salt|) + p.salt + LE32(|p.secret|) + p.secret + LE32(|p.ad|) + p.ad
  }

  /** The parameters of the example in section 5.3 of RFC 9106, as the digest covers them. */
  lemma {:induction false} ExampleFields(pwd: Bytes, salt: Bytes, secret: Bytes, ad: Bytes)
    requires |pwd| == 32 && |salt| == 16 && |secret| == 8 && |ad| == 12
    ensures Fields(Params(4, 32, 32, 3, 0x13, 2, salt, secret, ad), pwd)
         == [ByteOf(4), 0, 0, 0] + [ByteOf(32), 0, 0, 0] + [ByteOf(32), 0, 0, 0] + [ByteOf(3), 0, 0, 0]
          + [ByteOf(0x13), 0, 0, 0] + [ByteOf(2), 0, 0, 0] + [ByteOf(32), 0, 0, 0] + pwd
          + [ByteOf(16), 0, 0, 0] + salt + [ByteOf(8), 0, 0, 0] + secret + [ByteOf(12), 0, 0, 0] + ad
  {
    hide LE32; hide ByteOf;
    OneByte(4);
    OneByte(32);
    OneByte(3);
    OneByte(0x13);
    OneByte(2);
    OneByte(16);
    OneByte(8);
    OneByte(12);
  }

  lemma {:induction false} OneByte(d: nat)
    requires d < 256
    ensures LE32(d) == [ByteOf(d), 0, 0, 0]
  {
    LittleEndian32(d, 0, 0, 0, 0);
  }

  /** The prehash digest H_0. */
  function H0(p: Params, pwd: Bytes): (digest: Bytes)
    ensures |digest| == OUT_BYTES
  {
    Hash(OUT_BYTES, Fields(p, pwd))
  }

  /** Block j of lane l, for j = 0 and j = 1 (section 3.2, steps 3 and 4). */
  function FirstBlock(p: Params, pwd: Bytes, j: nat, l: nat): (b: Bytes)
    ensures |b| == BLOCK_SIZE
  {
    HPrime(BLOCK_SIZE, H0(p, pwd) + LE32(j) + LE32(l))
  }

  /** Its seed ends with the column and then the lane. */
  lemma {:induction false} SeedEnds(p: Params, pwd: Bytes, j: nat, l: nat)
    requires j < 2 && l < 256
    ensures FirstBlock(p, pwd, j, l) == HPrime(1024, H0(p, pwd) + [ByteOf(j), 0, 0, 0] + [ByteOf(l), 0, 0, 0])
  {
    OneByte(j);
    OneByte(l);
    hide HPrime; hide H0; hide LE32;
  }

  /** Blocks j of the first n lanes, one after the other. */
  function Column(p: Params, pwd: Bytes, j: nat, n: nat): (c: Bytes)
    ensures |c| == n * BLOCK_SIZE
  {
    if n == 0 then [] else Column(p, pwd, j, n - 1) + FirstBlock(p, pwd, j, n - 1)
  }

  lemma {:induction false} ColumnAt(p: Params, pwd: Bytes, j: nat, n: nat, l: nat)
    requires l < n
    ensures Column(p, pwd, j, n)[l * BLOCK_SIZE..(l + 1) * BLOCK_SIZE] == FirstBlock(p, pwd, j, l)
  {
    hide FirstBlock;
    if l < n - 1 {
      ColumnAt(p, pwd, j, n - 1, l);
      assert Column(p, pwd, j, n)[..(n - 1) * BLOCK_SIZE] == Column(p, pwd, j, n - 1);
      assert Column(p, pwd, j, n)[l * BLOCK_SIZE..(l + 1) * BLOCK_SIZE]
          == Column(p, pwd, j, n)[..(n - 1) * BLOCK_SIZE][l * BLOCK_SIZE..(l + 1) * BLOCK_SIZE];
    }
  }

  function XorByte(x: bv8, y: bv8): bv8 { x ^ y }

  function XorBytes(a: Bytes, b: Bytes): (c: Bytes)
    requires |a| == |b|
    ensures |c| == |a|
  {
    seq(|a|, i requires 0 <= i < |a| => XorByte(a[i], b[i]))
  }

  /** The exclusive or of the first n >= 1 of the last-column blocks (section 3.2, step 6). */
  function XorOfLanes(memory: Bytes, n: nat): (c: Bytes)
    requires n >= 1 && n * BLOCK_SIZE <= |memory|
    ensures |c| == BLOCK_SIZE
  {
    if n == 1 then memory[..BLOCK_SIZE]
    else XorBytes(XorOfLanes(memory, n - 1), memory[(n - 1) * BLOCK_SIZE..n * BLOCK_SIZE])
  }
}

module Argon2Host {
  import opened Blake2bSpec
  import opened Blake2bStream
  import opened Argon2Spec

  /** The segment length that the constructor of `Argon2Params` computes. */
  function SegmentBlocks(lanes: nat, mCost: nat): nat
    requires lanes >= 1
  {
    var segments := lanes * 4;
    (if mCost > 2 * segments then mCost else 2 * segments) / segments
  }

  /** Four segments for each lane make up the memory size m' of section 3.2 of RFC 9106: the largest
      multiple of 4 * lanes within the requested cost, but at least eight blocks a lane. */
  lemma {:induction false} MemorySize(lanes: nat, mCost: nat)
    requires lanes >= 1
    ensures var blocks := SegmentBlocks(lanes, mCost) * (4 * lanes);
            && blocks >= 8 * lanes
            && (if mCost >= 8 * lanes then blocks <= mCost < blocks + 4 * lanes else blocks == 8 * lanes)
  {
    WholeSegments(if mCost > 8 * lanes then mCost else 8 * lanes, 4 * lanes);
  }

  lemma {:induction false} WholeSegments(m: nat, c: nat)
    requires c > 0 && m >= 2 * c
    ensures m / c * c <= m < m / c * c + c && m / c * c >= 2 * c && (m == 2 * c ==> m / c * c == 2 * c)
  {
    var q := m / c;
    assert m == q * c + m % c;
    if q < 2 {
      ProductBound(q, 1, c);
    } else {
      ProductBound(2, q, c);
    }
  }

  lemma {:induction false} ProductBound(a: nat, b: nat, d: nat)
    requires a <= b
    ensures a * d <= b * d
  {
  }

  /** `store32`: the low byte, then shift, four times. */
  method Store32(dst: array<bv8>, at: nat, v: nat)
    requires at + 4 <= dst.Length
    modifies dst
    ensures dst[..] == Patched(old(dst[..]), at, LE32(v))
  {
    hide Patched; hide ByteOf;
    var w := v % 0x1_0000_0000;
    var bytes: Bytes := [];
    StoredBytes(v, w);
    for i := 0 to 4
      invariant |bytes| == i && w == Shifted(v % 0x1_0000_0000, i)
      invariant forall k :: 0 <= k < i ==> bytes[k] == ByteOf(Shifted(v % 0x1_0000_0000, k) % 256)
    {
      bytes := bytes + [ByteOf(w % 256)];
      w := w / 256;
    }
    assert bytes == LE32(v);
    CopyInto(dst, at, bytes);
  }

  function Shifted(w: nat, k: nat): nat {
    if k == 0 then w else Shifted(w, k - 1) / 256
  }

  lemma {:induction false} StoredBytes(v: nat, w: nat)
    requires w == v % 0x1_0000_0000
    ensures Shifted(w, 0) % 256 == v % 256 && Shifted(w, 1) % 256 == v / 0x100 % 256
    ensures Shifted(w, 2) % 256 == v / 0x1_0000 % 256 && Shifted(w, 3) % 256 == v / 0x100_0000 % 256
  {
    DivideTwice(v);
    DivideTwice(w);
    assert Shifted(w, 1) == w / 256;
    assert Shifted(w, 2) == w / 256 / 256;
    assert Shifted(w, 3) == w / 256 / 256 / 256;
    var q := v / 0x1_0000_0000;
    assert v == 0x1_0000_0000 * q + w;
    LowByte(v, w, 0x100_0000 * q);
    LowByte(v / 256, w / 256, 0x1_0000 * q);
    LowByte(v / 256 / 256, w / 256 / 256, 0x100 * q);
    LowByte(v / 256 / 256 / 256, w / 256 / 256 / 256, q);
  }

  lemma {:induction false} LowByte(v: nat, w: nat, q: nat)
    requires v == 256 * q + w
    ensures v % 256 == w % 256 && v / 256 == q + w / 256
  {
  }

  /** A 32-bit value in a buffer of its own. */
  method Bytes32(v: nat) returns (value: Bytes)
    ensures value == LE32(v)
  {
    hide LE32; hide Patched;
    var buffer := new bv8[4];
    PatchedWhole(buffer[..], LE32(v));
    Store32(buffer, 0, v);
    value := buffer[..];
  }

  /** `Argon2Params::digestLong`, writing `outLen` bytes of `out` from position `at`. */
  method DigestLong(out: array<bv8>, at: nat, outLen: nat, input: Bytes)
    requires at + outLen <= out.Length
    modifies out
    ensures out[..] == Patched(old(out[..]), at, HPrime(outLen, input))
  {
    hide Hash; hide LE32; hide F; hide Initial; hide Chain; hide CounterValue; hide Patched;
    var outLenBytes := Bytes32(outLen);
    var blake := new Blake2b();
    if outLen <= OUT_BYTES {
      HashTwo(blake, outLen, outLenBytes, input, out, at);
    } else {
      LongDigest(blake, out, at, outLen, input);
    }
  }

  /** The branch of `digestLong` for more than one digest of output. */
  method LongDigest(blake: Blake2b, out: array<bv8>, at: nat, outLen: nat, input: Bytes)
    requires blake.Shape() && out as object != blake && out as object != blake.h && out != blake.buf
    requires at + outLen <= out.Length && outLen > OUT_BYTES
    modifies blake, blake.h, blake.buf, out
    ensures out[..] == Patched(old(out[..]), at, HPrime(outLen, input))
  {
    hide Hash; hide LE32; hide V; hide Halves; hide HalfCount; hide HPrime; hide Patched;
    ghost var s := out[..];
    var outBuffer := new bv8[OUT_BYTES];
    FirstHalf(outLen, input);
    PatchedWhole(outBuffer[..], V(outLen, input, 1));
    var outLenBytes := Bytes32(outLen);
    HashTwo(blake, OUT_BYTES, outLenBytes, input, outBuffer, 0);
    assert outBuffer[..HALF] == outBuffer[..][..HALF];
    CopyInto(out, at, outBuffer[..HALF]);
    var toProduce := HalfBlocks(blake, outBuffer, out, at, outLen, input, s);
    LongTag(outLen, input);
    PatchedTwice(s, at, Halves(outLen, input, HalfCount(outLen)), Hash(toProduce, outBuffer[..]));
    HashOne(blake, toProduce, outBuffer[..], out, at + outLen - toProduce);
  }

  lemma {:induction false} LongTag(outLen: nat, input: Bytes)
    requires outLen > OUT_BYTES
    ensures HPrime(outLen, input) == Halves(outLen, input, HalfCount(outLen))
            + Hash(outLen - HALF * HalfCount(outLen), V(outLen, input, HalfCount(outLen)))
  {
    hide Hash; hide LE32; hide V; hide Halves;
  }

  lemma {:induction false} FirstHalf(outLen: nat, input: Bytes)
    ensures V(outLen, input, 1) == Hash(OUT_BYTES, LE32(outLen) + input)
    ensures Halves(outLen, input, 1) == V(outLen, input, 1)[..HALF]
  {
    hide Hash; hide LE32;
    assert Halves(outLen, input, 0) == [];
  }

  lemma {:induction false} NextHalf(outLen: nat, input: Bytes, k: nat)
    requires k >= 1
    ensures V(outLen, input, k + 1) == Hash(OUT_BYTES, V(outLen, input, k))
    ensures Halves(outLen, input, k + 1) == Halves(outLen, input, k) + V(outLen, input, k + 1)[..HALF]
  {
    hide Hash; hide LE32;
  }

  /** The `toProduce` loop of `digestLong`; `s` is what `out` held before its first half digest. */
  method HalfBlocks(blake: Blake2b, outBuffer: array<bv8>, out: array<bv8>, at: nat, outLen: nat,
                    ghost input: Bytes, ghost s: Bytes)
    returns (toProduce: nat)
    requires blake.Shape() && outBuffer as object != blake && outBuffer as object != blake.h && outBuffer != blake.buf
    requires out as object != blake && out as object != blake.h && out != blake.buf && out != outBuffer
    requires at + outLen <= out.Length && outLen > OUT_BYTES && outBuffer.Length == OUT_BYTES
    requires outBuffer[..] == V(outLen, input, 1)
    requires |s| == out.Length && out[..] == Patched(s, at, Halves(outLen, input, 1))
    modifies blake, blake.h, blake.buf, outBuffer, out
    ensures blake.Shape()
    ensures toProduce == outLen - HALF * HalfCount(outLen)
    ensures outBuffer[..] == V(outLen, input, HalfCount(outLen))
    ensures out[..] == Patched(s, at, Halves(outLen, input, HalfCount(outLen)))
  {
    hide Hash; hide LE32; hide V; hide Halves; hide Patched;
    ghost var k := 1;
    var bout := at + HALF;
    toProduce := outLen - HALF;
    while toProduce > OUT_BYTES
      invariant blake.Shape()
      invariant k >= 1 && bout == at + HALF * k && toProduce == outLen - HALF * k && toProduce > HALF
      invariant outBuffer[..] == V(outLen, input, k)
      invariant out[..] == Patched(s, at, Halves(outLen, input, k))
    {
      NextHalf(outLen, input, k);
      PatchedWhole(outBuffer[..], V(outLen, input, k + 1));
      HashOne(blake, OUT_BYTES, outBuffer[..], outBuffer, 0);
      assert outBuffer[..HALF] == outBuffer[..][..HALF];
      PatchedTwice(s, at, Halves(outLen, input, k), outBuffer[..HALF]);
      CopyInto(out, bout, outBuffer[..HALF]);
      bout := bout + HALF;
      toProduce := toProduce - HALF;
      k := k + 1;
    }
    assert k == HalfCount(outLen);
  }

  /** init, two updates, final. */
  method HashTwo(blake: Blake2b, nn: nat, a: Bytes, b: Bytes, out: array<bv8>, at: nat)
    requires blake.Shape() && nn <= OUT_BYTES && at + nn <= out.Length
    requires out as object != blake && out as object != blake.h && out != blake.buf
    modifies blake, blake.h, blake.buf, out
    ensures blake.Shape()
    ensures out[..] == Patched(old(out[..]), at, Hash(nn, a + b))
  {
    hide F; hide Initial; hide Chain; hide CounterValue; hide WordBytes; hide Absorb; hide Patched; hide LeadingBlocks;
    blake.Init(nn);
    blake.Update(a);
    blake.Update(b);
    assert [] + a + b == a + b;
    blake.Final(out, at, nn);
  }

  /** init, one update, final. */
  method HashOne(blake: Blake2b, nn: nat, a: Bytes, out: array<bv8>, at: nat)
    requires blake.Shape() && nn <= OUT_BYTES && at + nn <= out.Length
    requires out as object != blake && out as object != blake.h && out != blake.buf
    modifies blake, blake.h, blake.buf, out
    ensures blake.Shape()
    ensures out[..] == Patched(old(out[..]), at, Hash(nn, a))
  {
    hide F; hide Initial; hide Chain; hide CounterValue; hide WordBytes; hide Absorb; hide Patched; hide LeadingBlocks;
    blake.Init(nn);
    blake.Update(a);
    assert [] + a == a;
    blake.Final(out, at, nn);
  }

  /** `Argon2Params::initialHash`: a packed header when there is neither secret nor associated data,
      one update per field otherwise. */
  method InitialHash(p: Params, pwd: Bytes, out: array<bv8>)
    requires out.Length >= OUT_BYTES
    modifies out
    ensures out[..] == Patched(old(out[..]), 0, H0(p, pwd))
  {
    hide Hash; hide LE32; hide Patched;
    var blake := new Blake2b();
    blake.Init(OUT_BYTES);
    if |p.secret| == 0 && |p.ad| == 0 {
      PackedFields(p, pwd, blake);
    } else {
      SingleFields(p, pwd, blake);
    }
    FinalHash(blake, out);
  }

  method FinalHash(blake: Blake2b, out: array<bv8>)
    requires blake.Valid() && blake.nn == OUT_BYTES && OUT_BYTES <= out.Length
    requires out as object != blake && out as object != blake.h && out != blake.buf
    modifies blake, blake.h, blake.buf, out
    ensures out[..] == Patched(old(out[..]), 0, Hash(OUT_BYTES, old(blake.fed)))
  {
    hide F; hide Initial; hide Chain; hide CounterValue; hide WordBytes; hide Absorb; hide Patched; hide LeadingBlocks;
    blake.Final(out, 0, OUT_BYTES);
  }

  /** `append32` behind the `cursor` bytes that `dst` already holds. */
  method Append32(dst: array<bv8>, cursor: nat, v: nat) returns (next: nat)
    requires cursor + 4 <= dst.Length
    modifies dst
    ensures next == cursor + 4 && dst[..next] == old(dst[..cursor]) + LE32(v)
  {
    hide LE32; hide Patched;
    PatchedParts(dst[..], cursor, LE32(v));
    assert dst[..][..cursor] == dst[..cursor];
    Store32(dst, cursor, v);
    next := cursor + 4;
    assert dst[..][..next] == dst[..next];
  }

  method PackedHeader(p: Params, pwdLen: nat) returns (header: Bytes)
    ensures header == LE32(p.lanes) + LE32(p.outLen) + LE32(p.mCost) + LE32(p.tCost)
                      + LE32(p.version) + LE32(p.variant) + LE32(pwdLen)
  {
    hide LE32;
    var h := new bv8[28];
    var cursor := Append32(h, 0, p.lanes);
    assert h[..cursor] == LE32(p.lanes);
    cursor := Append32(h, cursor, p.outLen);
    cursor := Append32(h, cursor, p.mCost);
    cursor := Append32(h, cursor, p.tCost);
    cursor := Append32(h, cursor, p.version);
    cursor := Append32(h, cursor, p.variant);
    cursor := Append32(h, cursor, pwdLen);
    header := h[..];
    assert h[..cursor] == header;
  }

  /** The two empty lengths at the end of the packed form. */
  method EmptyLengths(p: Params) returns (lengths: Bytes)
    ensures lengths == LE32(|p.secret|) + LE32(|p.ad|)
  {
    hide LE32;
    var emptyLengths := new bv8[8];
    var cursor := Append32(emptyLengths, 0, |p.secret|);
    assert emptyLengths[..cursor] == LE32(|p.secret|);
    cursor := Append32(emptyLengths, cursor, |p.ad|);
    lengths := emptyLengths[..];
    assert emptyLengths[..cursor] == lengths;
  }

  method PackedFields(p: Params, pwd: Bytes, blake: Blake2b)
    requires p.secret == [] && p.ad == []
    requires blake.Valid() && blake.fed == []
    modifies blake, blake.h, blake.buf
    ensures blake.Valid() && blake.nn == old(blake.nn) && blake.fed == Fields(p, pwd)
  {
    hide LE32; hide F; hide Initial; hide Chain; hide CounterValue; hide Blake2b.Valid;
    var header := PackedHeader(p, |pwd|);
    blake.Update(header);
    assert blake.fed == header;
    blake.Update(pwd);
    FeedWord(blake, |p.salt|);
    blake.Update(p.salt);
    var lengths := EmptyLengths(p);
    EmptyTail(blake.fed, LE32(|p.secret|), LE32(|p.ad|), p.secret, p.ad);
    blake.Update(lengths);
  }

  lemma {:induction false} EmptyTail(s: Bytes, a: Bytes, b: Bytes, x: Bytes, y: Bytes)
    requires x == [] && y == []
    ensures s + (a + b) == s + a + x + b + y
  {
  }

  /** store32 into a scratch buffer, and feed it. */
  method FeedWord(blake: Blake2b, v: nat)
    requires blake.Valid()
    modifies blake, blake.h, blake.buf
    ensures blake.Valid() && blake.nn == old(blake.nn) && blake.fed == old(blake.fed) + LE32(v)
  {
    hide LE32; hide F; hide Initial; hide Chain; hide CounterValue; hide LeadingBlocks;
    var value := Bytes32(v);
    blake.Update(value);
  }

  method SingleFields(p: Params, pwd: Bytes, blake: Blake2b)
    requires blake.Valid() && blake.fed == []
    modifies blake, blake.h, blake.buf
    ensures blake.Valid() && blake.nn == old(blake.nn) && blake.fed == Fields(p, pwd)
  {
    hide LE32; hide F; hide Initial; hide Chain; hide CounterValue; hide Blake2b.Valid;
    FeedWord(blake, p.lanes);
    assert blake.fed == LE32(p.lanes);
    FeedWord(blake, p.outLen);
    FeedWord(blake, p.mCost);
    FeedWord(blake, p.tCost);
    FeedWord(blake, p.version);
    FeedWord(blake, p.variant);
    FeedWord(blake, |pwd|);
    blake.Update(pwd);
    FeedWord(blake, |p.salt|);
    blake.Update(p.salt);
    FeedWord(blake, |p.secret|);
    blake.Update(p.secret);
    FeedWord(blake, |p.ad|);
    blake.Update(p.ad);
  }

  class Timings {
    var initialHashMs: real
    var digestMs: real
  }

  /** The seed of a block: the prehash digest, the column and the lane. */
  function Seed(p: Params, pwd: Bytes, j: nat, l: nat): (s: Bytes)
    ensures |s| == 72
  {
    H0(p, pwd) + LE32(j) + LE32(l)
  }

  /** Storing the lane behind the first part of a seed. */
  lemma {:induction false} SeedLane(b: Bytes, p: Params, pwd: Bytes, j: nat, l: nat)
    requires |b| == 72 && b[..68] == H0(p, pwd) + LE32(j)
    ensures Patched(b, 68, LE32(l)) == Seed(p, pwd, j, l)
    ensures Patched(b, 68, LE32(l))[..68] == H0(p, pwd) + LE32(j)
  {
    hide H0; hide LE32;
    PatchedParts(b, 68, LE32(l));
    assert Patched(b, 68, LE32(l))[..72] == Patched(b, 68, LE32(l));
  }

  /** Storing the column behind the digest. */
  lemma {:induction false} SeedColumn(b: Bytes, p: Params, pwd: Bytes, j: nat)
    requires |b| == 72 && b[..64] == H0(p, pwd)
    ensures Patched(b, 64, LE32(j))[..68] == H0(p, pwd) + LE32(j)
  {
    hide H0; hide LE32;
    PatchedParts(b, 64, LE32(j));
  }

  lemma {:induction false} DigestPart(b: Bytes, p: Params, pwd: Bytes, j: nat)
    requires |b| == 72 && b[..68] == H0(p, pwd) + LE32(j)
    ensures b[..64] == H0(p, pwd)
  {
    hide H0; hide LE32;
    assert b[..64] == b[..68][..64];
  }

  lemma {:induction false} NextLane(p: Params, pwd: Bytes, j: nat, l: nat)
    ensures Column(p, pwd, j, l + 1) == Column(p, pwd, j, l) + HPrime(BLOCK_SIZE, Seed(p, pwd, j, l))
  {
    hide H0; hide LE32; hide HPrime;
  }

  lemma {:induction false} NoLane(p: Params, pwd: Bytes, j: nat)
    ensures Column(p, pwd, j, 0) == []
  {
  }

  /** One of the two lane loops; the seed of block j of lane l is the prehash digest followed by two
      32-bit words.  Measuring the time of each digest is optional. */
  method FillColumn(p: Params, pwd: Bytes, initHash: array<bv8>, memory: array<bv8>, start: nat, j: nat,
                    timings: Timings?)
    requires initHash.Length == 72 && initHash != memory && initHash[..68] == H0(p, pwd) + LE32(j)
    requires start + p.lanes * BLOCK_SIZE <= memory.Length
    modifies initHash, memory, timings
    ensures initHash[..64] == H0(p, pwd)
    ensures memory[..] == Patched(old(memory[..]), start, Column(p, pwd, j, p.lanes))
  {
    hide H0; hide LE32; hide HPrime; hide Patched; hide Column; hide Seed;
    ghost var m := memory[..];
    var bmemory := start;
    NoLane(p, pwd, j);
    PatchedNothing(m, start);
    for l := 0 to p.lanes
      invariant bmemory == start + l * BLOCK_SIZE
      invariant initHash[..68] == H0(p, pwd) + LE32(j)
      invariant memory[..] == Patched(m, start, Column(p, pwd, j, l))
    {
      assert initHash[..][..68] == initHash[..68];
      SeedLane(initHash[..], p, pwd, j, l);
      Store32(initHash, 68, l);
      assert initHash[..][..68] == initHash[..68];
      NextLane(p, pwd, j, l);
      PatchedTwice(m, start, Column(p, pwd, j, l), HPrime(BLOCK_SIZE, Seed(p, pwd, j, l)));
      DigestLong(memory, bmemory, BLOCK_SIZE, initHash[..]);
      if timings != null {
        var elapsed: real := *;
        timings.digestMs := timings.digestMs + elapsed;
      }
      bmemory := bmemory + BLOCK_SIZE;
    }
    assert initHash[..][..68] == initHash[..68] && initHash[..][..64] == initHash[..64];
    DigestPart(initHash[..], p, pwd, j);
  }

  /** Both lane loops, from a fresh seed buffer that starts with the prehash digest. */
  method FillColumns(p: Params, pwd: Bytes, initHash: array<bv8>, memory: array<bv8>, timings: Timings?)
    requires initHash.Length == 72 && initHash != memory && initHash[..64] == H0(p, pwd)
    requires 2 * p.lanes * BLOCK_SIZE <= memory.Length
    modifies initHash, memory, timings
    ensures memory[..] == Patched(old(memory[..]), 0, Column(p, pwd, 0, p.lanes) + Column(p, pwd, 1, p.lanes))
  {
    hide H0; hide LE32; hide Column; hide Patched;
    ghost var m := memory[..];
    assert initHash[..][..64] == initHash[..64];
    SeedColumn(initHash[..], p, pwd, 0);
    Store32(initHash, 64, 0);
    assert initHash[..][..68] == initHash[..68];
    FillColumn(p, pwd, initHash, memory, 0, 0, timings);
    assert initHash[..][..64] == initHash[..64];
    SeedColumn(initHash[..], p, pwd, 1);
    Store32(initHash, 64, 1);
    assert initHash[..][..68] == initHash[..68];
    PatchedTwice(m, 0, Column(p, pwd, 0, p.lanes), Column(p, pwd, 1, p.lanes));
    FillColumn(p, pwd, initHash, memory, p.lanes * BLOCK_SIZE, 1, timings);
  }

  /** `Argon2Params::fillFirstBlocks`: column 0 and then column 1, lane by lane. */
  method FillFirstBlocks(p: Params, pwd: Bytes, memory: array<bv8>)
    requires 2 * p.lanes * BLOCK_SIZE <= memory.Length
    modifies memory
    ensures memory[..] == Patched(old(memory[..]), 0, Column(p, pwd, 0, p.lanes) + Column(p, pwd, 1, p.lanes))
  {
    hide H0; hide LE32; hide Column; hide Patched;
    var initHash := new bv8[72];
    PatchedParts(initHash[..], 0, H0(p, pwd));
    InitialHash(p, pwd, initHash);
    assert initHash[..][0..64] == initHash[..64];
    FillColumns(p, pwd, initHash, memory, null);
  }

  /** The overload of `fillFirstBlocks` that may measure itself: with or without a `timings` object,
      and whatever the clock says, it leaves the same memory. */
  method FillFirstBlocksTimed(p: Params, pwd: Bytes, memory: array<bv8>, timings: Timings?)
    requires 2 * p.lanes * BLOCK_SIZE <= memory.Length
    modifies memory, timings
    ensures memory[..] == Patched(old(memory[..]), 0, Column(p, pwd, 0, p.lanes) + Column(p, pwd, 1, p.lanes))
  {
    hide H0; hide LE32; hide Column; hide Patched;
    var initHash := new bv8[72];
    PatchedParts(initHash[..], 0, H0(p, pwd));
    InitialHash(p, pwd, initHash);
    assert initHash[..][0..64] == initHash[..64];
    if timings != null {
      var elapsed: real := *;
      timings.initialHashMs := timings.initialHashMs + elapsed;
    }
    FillColumns(p, pwd, initHash, memory, timings);
  }

  function Offset(lanes: nat, j: nat, l: nat): nat {
    (j * lanes + l) * BLOCK_SIZE
  }

  predicate HasAt(memory: Bytes, at: nat, block: Bytes) {
    at + |block| <= |memory| && memory[at..at + |block|] == block
  }

  /** Block (j, l) lies at offset (j * lanes + l) * 1024 of what `FillFirstBlocks` writes. */
  lemma {:induction false} FirstBlockPlacement(p: Params, pwd: Bytes, memory: Bytes, j: nat, l: nat)
    requires j < 2 && l < p.lanes && 2 * p.lanes * BLOCK_SIZE <= |memory|
    ensures HasAt(Patched(memory, 0, Column(p, pwd, 0, p.lanes) + Column(p, pwd, 1, p.lanes)),
                  Offset(p.lanes, j, l), FirstBlock(p, pwd, j, l))
  {
    hide Column; hide FirstBlock; hide Patched;
    ColumnAt(p, pwd, j, p.lanes, l);
    var c0, c1 := Column(p, pwd, 0, p.lanes), Column(p, pwd, 1, p.lanes);
    var lo, hi := l * BLOCK_SIZE, (l + 1) * BLOCK_SIZE;
    var written := Patched(memory, 0, c0 + c1);
    PatchedParts(memory, 0, c0 + c1);
    if j == 0 {
      SliceOfFirst(written, c0, c1, lo, hi);
    } else {
      SliceOfSecond(written, c0, c1, lo, hi);
    }
  }

  lemma {:induction false} SliceOfFirst(s: Bytes, c0: Bytes, c1: Bytes, lo: nat, hi: nat)
    requires |c0| + |c1| <= |s| && s[0..|c0 + c1|] == c0 + c1 && lo <= hi <= |c0|
    ensures s[lo..hi] == c0[lo..hi]
  {
    var whole := s[0..|c0 + c1|];
    forall i | lo <= i < hi ensures s[i] == c0[i] {
      assert s[i] == whole[i];
    }
  }

  lemma {:induction false} SliceOfSecond(s: Bytes, c0: Bytes, c1: Bytes, lo: nat, hi: nat)
    requires |c0| + |c1| <= |s| && s[0..|c0 + c1|] == c0 + c1 && lo <= hi <= |c1|
    ensures s[|c0| + lo..|c0| + hi] == c1[lo..hi]
  {
    var whole := s[0..|c0 + c1|];
    forall i | lo <= i < hi ensures s[|c0| + i] == c1[i] {
      assert s[|c0| + i] == whole[|c0| + i];
    }
  }

  /** Exclusive or of words is exclusive or of bytes. */
  lemma XorOfWords(a: Bytes, b: Bytes)
    requires |a| == 8 && |b| == 8
    ensures Xor(LoadWord(a), LoadWord(b)) == LoadWord(XorBytes(a, b))
  {
    hide Join; hide Xor; hide XorByte;
    XorOfJoins(a[0], a[1], a[2], a[3], a[4], a[5], a[6], a[7], b[0], b[1], b[2], b[3], b[4], b[5], b[6], b[7]);
  }

  lemma XorOfJoins(a: bv8, b: bv8, c: bv8, d: bv8, e: bv8, f: bv8, g: bv8, h: bv8,
                   a': bv8, b': bv8, c': bv8, d': bv8, e': bv8, f': bv8, g': bv8, h': bv8)
    ensures Xor(Join(a, b, c, d, e, f, g, h), Join(a', b', c', d', e', f', g', h'))
         == Join(XorByte(a, a'), XorByte(b, b'), XorByte(c, c'), XorByte(d, d'),
                 XorByte(e, e'), XorByte(f, f'), XorByte(g, g'), XorByte(h, h'))
  {
  }

  lemma StoreOfJoin(a: bv8, b: bv8, c: bv8, d: bv8, e: bv8, f: bv8, g: bv8, h: bv8)
    ensures StoreWord(Join(a, b, c, d, e, f, g, h)) == [a, b, c, d, e, f, g, h]
  {
  }

  lemma StoreOfLoad(b: Bytes)
    requires |b| == 8
    ensures StoreWord(LoadWord(b)) == b
  {
    hide Join; hide StoreWord;
    StoreOfJoin(b[0], b[1], b[2], b[3], b[4], b[5], b[6], b[7]);
  }

  /** Word i of a block that is read as 64-bit words. */
  function WordAt(b: Bytes, i: nat): Word
    requires 8 * i + 8 <= |b|
  {
    LoadWord(b[8 * i..8 * i + 8])
  }

  /** Words loaded from a block are stored back as that block. */
  lemma {:induction false} StoreOfLoads(w: seq<Word>, b: Bytes)
    requires |b| == 8 * |w| && forall i :: 0 <= i < |w| ==> w[i] == WordAt(b, i)
    ensures WordBytes(w) == b
  {
    hide LoadWord; hide StoreWord;
    if w != [] {
      var n := |w| - 1;
      var last := b[8 * n..8 * n + 8];
      assert w[n] == WordAt(b, n);
      StoreOfLoad(last);
      forall i | 0 <= i < n ensures w[..n][i] == WordAt(b[..8 * n], i) {
        assert w[i] == WordAt(b, i);
        assert b[..8 * n][8 * i..8 * i + 8] == b[8 * i..8 * i + 8];
      }
      StoreOfLoads(w[..n], b[..8 * n]);
      assert b == b[..8 * n] + last;
    }
  }

  /** The inner loop of `finalize`: fold one more lane into the words. */
  method XorLane(xored: array<Word>, memory: Bytes, l: nat)
    requires xored.Length == 128 && l >= 1 && (l + 1) * BLOCK_SIZE <= |memory|
    requires forall i :: 0 <= i < 128 ==> xored[i] == WordAt(XorOfLanes(memory, l), i)
    modifies xored
    ensures forall i :: 0 <= i < 128 ==> xored[i] == WordAt(XorOfLanes(memory, l + 1), i)
  {
    hide LoadWord; hide Xor; hide XorOfLanes;
    ghost var before, after := XorOfLanes(memory, l), XorOfLanes(memory, l + 1);
    var lane := memory[l * BLOCK_SIZE..(l + 1) * BLOCK_SIZE];
    for i := 0 to 128
      invariant forall k :: 0 <= k < i ==> xored[k] == WordAt(after, k)
      invariant forall k :: i <= k < 128 ==> xored[k] == WordAt(before, k)
    {
      FoldWord(memory, l, i);
      xored[i] := Xor(xored[i], WordAt(lane, i));
    }
  }

  lemma FoldWord(memory: Bytes, l: nat, i: nat)
    requires l >= 1 && (l + 1) * BLOCK_SIZE <= |memory| && i < 128
    ensures Xor(WordAt(XorOfLanes(memory, l), i), WordAt(memory[l * BLOCK_SIZE..(l + 1) * BLOCK_SIZE], i))
         == WordAt(XorOfLanes(memory, l + 1), i)
  {
    hide LoadWord; hide Xor; hide XorByte;
    var a, b := XorOfLanes(memory, l), memory[l * BLOCK_SIZE..(l + 1) * BLOCK_SIZE];
    XorOfWords(a[8 * i..8 * i + 8], b[8 * i..8 * i + 8]);
    assert XorBytes(a, b)[8 * i..8 * i + 8] == XorBytes(a[8 * i..8 * i + 8], b[8 * i..8 * i + 8]);
  }

  /** `Argon2Params::finalize`: fold the lanes' last blocks word by word, then hash. */
  method Finalize(p: Params, memory: Bytes, out: array<bv8>)
    requires p.lanes >= 1 && p.lanes * BLOCK_SIZE <= |memory| && p.outLen <= out.Length
    modifies out
    ensures out[..] == Patched(old(out[..]), 0, HPrime(p.outLen, XorOfLanes(memory, p.lanes)))
  {
    hide HPrime; hide LoadWord; hide WordBytes; hide Patched;
    ghost var before := out[..];
    if p.lanes == 1 {
      DigestLong(out, 0, p.outLen, memory[..BLOCK_SIZE]);
      return;
    }
    var xored := new Word[128](i requires 0 <= i < 128 => WordAt(memory[..BLOCK_SIZE], i));
    for l := 1 to p.lanes
      modifies xored
      invariant forall i :: 0 <= i < 128 ==> xored[i] == WordAt(XorOfLanes(memory, l), i)
    {
      XorLane(xored, memory, l);
    }
    assert out[..] == before;
    StoreOfLoads(xored[..], XorOfLanes(memory, p.lanes));
    DigestLong(out, 0, p.outLen, WordBytes(xored[..]));
  }
}
