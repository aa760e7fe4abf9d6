/** BLAKE2b without a key, as sections 2 and 3 of RFC 7693 define it: one function of the whole
    message.  Nothing here knows about buffers, chunks or carries. */
module Blake2bSpec {

  const BLOCK_BYTES: nat := 128
  const OUT_BYTES: nat := 64
  const TWO64: nat := 0x1_0000_0000_0000_0000
  const TWO128: nat := 0x1_0000_0000_0000_0000_0000_0000_0000_0000

  type Word = bv64
  type Bytes = seq<bv8>
  type Block = b: Bytes | |b| == BLOCK_BYTES witness Zeros(BLOCK_BYTES)
  type State = h: seq<Word> | |h| == 8 witness IV

  /** A 64-bit counter word, kept as a number so that its wrap-around is written out. */
  type Counter = x: nat | x < TWO64

  const IV: seq<Word> := [
    0x6a09e667f3bcc908, 0xbb67ae8584caa73b, 0x3c6ef372fe94f82b, 0xa54ff53a5f1d36f1,
    0x510e527fade682d1, 0x9b05688c2b3e6c1f, 0x1f83d9abfb41bd6b, 0x5be0cd19137e2179]

  /** The message schedule of section 2.7: ten permutations, used modulo ten. */
  const SIGMA: seq<seq<nat>> := [
    [0, 1, 2, 3, 4, 5, 6, 7, 8, 9, 10, 11, 12, 13, 14, 15],
    [14, 10, 4, 8, 9, 15, 13, 6, 1, 12, 0, 2, 11, 7, 5, 3],
    [11, 8, 12, 0, 5, 2, 15, 13, 10, 14, 3, 6, 7, 1, 9, 4],
    [7, 9, 3, 1, 13, 12, 11, 14, 2, 6, 5, 10, 4, 0, 15, 8],
    [9, 0, 5, 7, 2, 4, 10, 15, 14, 1, 11, 12, 6, 8, 3, 13],
    [2, 12, 6, 10, 0, 11, 8, 3, 4, 13, 7, 5, 15, 14, 1, 9],
    [12, 5, 1, 15, 14, 13, 4, 10, 0, 7, 6, 3, 9, 2, 8, 11],
    [13, 11, 7, 14, 12, 1, 3, 9, 5, 0, 15, 4, 8, 6, 2, 10],
    [6, 15, 14, 9, 11, 3, 0, 8, 12, 2, 13, 7, 1, 4, 10, 5],
    [10, 2, 8, 4, 7, 6, 1, 5, 15, 11, 9, 14, 3, 12, 13, 0]]

  /** Eight bytes as a word, least significant first. */
  function Join(a: bv8, b: bv8, c: bv8, d: bv8, e: bv8, f: bv8, g: bv8, h: bv8): Word {
    (a as bv64) | ((b as bv64) << 8) | ((c as bv64) << 16) | ((d as bv64) << 24) |
    ((e as bv64) << 32) | ((f as bv64) << 40) | ((g as bv64) << 48) | ((h as bv64) << 56)
  }

  function LoadWord(b: Bytes): Word
    requires |b| == 8
  {
    Join(b[0], b[1], b[2], b[3], b[4], b[5], b[6], b[7])
  }

  function StoreWord(w: Word): (b: Bytes)
    ensures |b| == 8
  {
    [(w & 0xff) as bv8, ((w >> 8) & 0xff) as bv8, ((w >> 16) & 0xff) as bv8, ((w >> 24) & 0xff) as bv8,
     ((w >> 32) & 0xff) as bv8, ((w >> 40) & 0xff) as bv8, ((w >> 48) & 0xff) as bv8, ((w >> 56) & 0xff) as bv8]
  }

  /** Byte i of a loaded word has weight 2^(8 i). */
  lemma {:induction false} LittleEndian64(b: Bytes)
    requires |b| == 8
    ensures var w := LoadWord(b);
            && w & 0xff == b[0] as bv64 && (w >> 8) & 0xff == b[1] as bv64
            && (w >> 16) & 0xff == b[2] as bv64 && (w >> 24) & 0xff == b[3] as bv64
            && (w >> 32) & 0xff == b[4] as bv64 && (w >> 40) & 0xff == b[5] as bv64
            && (w >> 48) & 0xff == b[6] as bv64 && w >> 56 == b[7] as bv64
  {
    JoinBytes(b[0], b[1], b[2], b[3], b[4], b[5], b[6], b[7]);
    hide Join;
  }

  lemma {:induction false} JoinBytes(a: bv8, b: bv8, c: bv8, d: bv8, e: bv8, f: bv8, g: bv8, h: bv8)
    ensures var w := Join(a, b, c, d, e, f, g, h);
            && w & 0xff == a as bv64 && (w >> 8) & 0xff == b as bv64
            && (w >> 16) & 0xff == c as bv64 && (w >> 24) & 0xff == d as bv64
            && (w >> 32) & 0xff == e as bv64 && (w >> 40) & 0xff == f as bv64
            && (w >> 48) & 0xff == g as bv64 && w >> 56 == h as bv64
  {
  }

  /** Sixteen little-endian message words. */
  function MessageWords(block: Block): (m: seq<Word>)
    ensures |m| == 16
  {
    seq(16, i requires 0 <= i < 16 => LoadWord(block[8 * i..8 * i + 8]))
  }

  function Plus(x: Word, y: Word): Word { x + y }

  function Xor(x: Word, y: Word): Word { x ^ y }

  function CounterWord(t: Counter): Word { t as bv64 }

  /** The four rotations of section 2.1, each an exclusive or of two shifts (section 2.3). */
  function RotateRight32(x: Word): Word { Xor(x >> 32, x << 32) }

  function RotateRight24(x: Word): Word { Xor(x >> 24, x << 40) }

  function RotateRight16(x: Word): Word { Xor(x >> 16, x << 48) }

  function RotateRight63(x: Word): Word { Xor(x >> 63, x << 1) }

  /** The first four assignments of the mixing function G of section 3.1. */
  function MixFirst(v: seq<Word>, a: nat, b: nat, c: nat, d: nat, x: Word): (r: seq<Word>)
    requires |v| == 16 && a < 16 && b < 16 && c < 16 && d < 16
    ensures |r| == 16
  {
    var va := Plus(Plus(v[a], v[b]), x);
    var vd := RotateRight32(Xor(v[d], va));
    var vc := Plus(v[c], vd);
    v[a := va][d := vd][c := vc][b := RotateRight24(Xor(v[b], vc))]
  }

  /** The last four. */
  function MixSecond(v: seq<Word>, a: nat, b: nat, c: nat, d: nat, y: Word): (r: seq<Word>)
    requires |v| == 16 && a < 16 && b < 16 && c < 16 && d < 16
    ensures |r| == 16
  {
    var va := Plus(Plus(v[a], v[b]), y);
    var vd := RotateRight16(Xor(v[d], va));
    var vc := Plus(v[c], vd);
    v[a := va][d := vd][c := vc][b := RotateRight63(Xor(v[b], vc))]
  }

  /** The mixing function G of section 3.1. */
  function Mix(v: seq<Word>, a: nat, b: nat, c: nat, d: nat, x: Word, y: Word): (r: seq<Word>)
    requires |v| == 16 && a < 16 && b < 16 && c < 16 && d < 16
    ensures |r| == 16
  {
    MixSecond(MixFirst(v, a, b, c, d, x), a, b, c, d, y)
  }

  predicate IsSchedule(s: seq<nat>) {
    |s| == 16 && forall k :: 0 <= k < 16 ==> s[k] < 16
  }

  function Schedule(round: nat): (s: seq<nat>)
    ensures IsSchedule(s)
  {
    SIGMA[round % 10]
  }

  /** The four columns and then the four diagonals that a round mixes (section 3.2). */
  const QUADS: seq<(nat, nat, nat, nat)> := [
    (0, 4, 8, 12), (1, 5, 9, 13), (2, 6, 10, 14), (3, 7, 11, 15),
    (0, 5, 10, 15), (1, 6, 11, 12), (2, 7, 8, 13), (3, 4, 9, 14)]

  function Quad(k: nat): (q: (nat, nat, nat, nat))
    requires k < 8
    ensures q.0 < 16 && q.1 < 16 && q.2 < 16 && q.3 < 16
  {
    QUADS[k]
  }

  /** The first `k` of the eight mixes of a round that reads the message through schedule `s`. */
  function Mixes(v: seq<Word>, m: seq<Word>, s: seq<nat>, k: nat): (r: seq<Word>)
    requires |v| == 16 && |m| == 16 && IsSchedule(s) && k <= 8
    ensures |r| == 16
    decreases k, v, m, s
  {
    if k == 0 then v
    else
      var (a, b, c, d) := Quad(k - 1);
      Mix(Mixes(v, m, s, k - 1), a, b, c, d, m[s[2 * k - 2]], m[s[2 * k - 1]])
  }

  /** The first `n` rounds of the compression function. */
  function Rounds(v: seq<Word>, m: seq<Word>, n: nat): (r: seq<Word>)
    requires |v| == 16 && |m| == 16
    ensures |r| == 16
    decreases n, v, m
  {
    if n == 0 then v else Mixes(Rounds(v, m, n - 1), m, Schedule(n - 1), 8)
  }

  /** The sixteen-word working vector of section 3.2, for the offset counter `t`. */
  function WorkVector(h: State, t: nat, last: bool): (v: seq<Word>)
    ensures |v| == 16
  {
    h + [IV[0], IV[1], IV[2], IV[3],
         Xor(IV[4], CounterWord(t % TWO64)), Xor(IV[5], CounterWord(t / TWO64 % TWO64)),
         Xor(IV[6], if last then 0xFFFF_FFFF_FFFF_FFFF else 0), IV[7]]
  }

  /** The compression function F of section 3.2. */
  function F(h: State, block: Block, t: nat, last: bool): State {
    var v := Rounds(WorkVector(h, t, last), MessageWords(block), 12);
    seq(8, i requires 0 <= i < 8 => Xor(Xor(h[i], v[i]), v[i + 8]))
  }

  /** The initial chaining value for an `nn`-byte digest and no key (section 3.3). */
  function Initial(nn: nat): State
    requires nn <= OUT_BYTES
  {
    IV[0 := Xor(IV[0], Xor(0x0101_0000, CounterWord(nn)))]
  }

  /** How many blocks of a message of `ll` bytes come before its last one. */
  function LeadingBlocks(ll: nat): (d: nat)
    ensures d * BLOCK_BYTES <= ll <= (d + 1) * BLOCK_BYTES
    ensures ll > 0 ==> d * BLOCK_BYTES < ll
  {
    if ll == 0 then 0 else (ll - 1) / BLOCK_BYTES
  }

  /** The chaining value after the first `i` blocks of `msg`, for any compression function `f`. */
  function Chain<H>(f: (H, Block, nat, bool) -> H, h0: H, msg: Bytes, i: nat): H
    requires i * BLOCK_BYTES <= |msg|
  {
    if i == 0 then h0
    else f(Chain(f, h0, msg, i - 1), msg[(i - 1) * BLOCK_BYTES..i * BLOCK_BYTES], i * BLOCK_BYTES, false)
  }

  function Zeros(n: nat): (z: Bytes)
    ensures |z| == n && forall i :: 0 <= i < n ==> z[i] == 0
  {
    seq(n, i => 0)
  }

  /** The chaining value after the whole message, last block padded with zeros and flagged. */
  function Absorb<H>(f: (H, Block, nat, bool) -> H, h0: H, msg: Bytes): H {
    var d := LeadingBlocks(|msg|);
    var rest := msg[d * BLOCK_BYTES..];
    f(Chain(f, h0, msg, d), rest + Zeros(BLOCK_BYTES - |rest|), |msg|, true)
  }

  function WordBytes(h: seq<Word>): (b: Bytes)
    ensures |b| == 8 * |h|
  {
    if h == [] then [] else WordBytes(h[..|h| - 1]) + StoreWord(h[|h| - 1])
  }

  /** BLAKE2b of section 3.3, unkeyed, with an `nn`-byte digest. */
  function Hash(nn: nat, msg: Bytes): (digest: Bytes)
    requires nn <= OUT_BYTES
    ensures |digest| == nn
  {
    WordBytes(Absorb(F, Initial(nn), msg))[..nn]
  }

  /** A message of one full block and more: the first block is compressed with the count 128 and no flag, the
      rest, padded, with the length of the message and the flag. */
  lemma {:induction false} TwoBlocks(nn: nat, msg: Bytes)
    requires nn <= OUT_BYTES && 128 < |msg| <= 256
    ensures var h := F(Initial(nn), msg[..128], 128, false);
            Hash(nn, msg) == WordBytes(F(h, msg[128..] + Zeros(256 - |msg|), |msg|, true))[..nn]
  {
    hide F; hide Initial; hide WordBytes;
    var h0 := Initial(nn);
    assert LeadingBlocks(|msg|) == 1;
    assert Chain(F, h0, msg, 0) == h0 && msg[0..128] == msg[..128];
    assert Chain(F, h0, msg, 1) == F(h0, msg[..128], 128, false);
  }

  /** The initial value depends on the digest length in its first word alone, where the length stands in the
      low byte of the parameter block; the flag of the last block inverts the fifteenth word. */
  lemma {:induction false} LengthAndFlag(nn: nat, h: State, t: nat)
    requires nn <= OUT_BYTES
    ensures Initial(nn)[0] == Xor(0x6a09e667f2bdc908, CounterWord(nn)) && Initial(nn)[1..] == Initial(0)[1..]
    ensures WorkVector(h, t, false)[14] == 0x1f83d9abfb41bd6b && WorkVector(h, t, true)[14] == 0xe07c265404be4294
    ensures WorkVector(h, t, false)[..14] == WorkVector(h, t, true)[..14]
  {
    FirstInitialWord(CounterWord(nn));
    hide CounterWord;
  }

  lemma {:induction false} FirstInitialWord(w: Word)
    ensures Xor(0x6a09e667f3bcc908, Xor(0x0101_0000, w)) == Xor(0x6a09e667f2bdc908, w)
  {
  }

  /** Only the first `i` blocks of a message reach the chaining value `i`. */
  lemma {:induction false} ChainOfPrefix<H>(f: (H, Block, nat, bool) -> H, h0: H, a: Bytes, b: Bytes, i: nat)
    requires i * BLOCK_BYTES <= |a|
    ensures Chain(f, h0, a + b, i) == Chain(f, h0, a, i)
  {
    if i > 0 {
      ChainOfPrefix(f, h0, a, b, i - 1);
      assert (a + b)[(i - 1) * BLOCK_BYTES..i * BLOCK_BYTES] == a[(i - 1) * BLOCK_BYTES..i * BLOCK_BYTES];
    }
  }

  // ----- Writing into a buffer

  /** The buffer `s` with `src` written at position `at`. */
  function Patched(s: Bytes, at: nat, src: Bytes): (r: Bytes)
    requires at + |src| <= |s|
    ensures |r| == |s|
  {
    s[..at] + src + s[at + |src|..]
  }

  lemma {:induction false} PatchedParts(s: Bytes, at: nat, src: Bytes)
    requires at + |src| <= |s|
    ensures Patched(s, at, src)[..at] == s[..at] && Patched(s, at, src)[at..at + |src|] == src
    ensures Patched(s, at, src)[..at + |src|] == s[..at] + src
    ensures Patched(s, at, src)[at + |src|..] == s[at + |src|..]
  {
  }

  /** Writing nothing. */
  lemma {:induction false} PatchedNothing(s: Bytes, at: nat)
    requires at <= |s|
    ensures Patched(s, at, []) == s
  {
  }

  /** Writing twice in a row is writing once. */
  lemma {:induction false} PatchedTwice(s: Bytes, at: nat, a: Bytes, b: Bytes)
    requires at + |a| + |b| <= |s|
    ensures Patched(Patched(s, at, a), at + |a|, b) == Patched(s, at, a + b)
  {
    var p := Patched(s, at, a);
    PatchedParts(s, at, a);
    assert p[..at + |a|] == s[..at] + a;
    assert p[at + |a| + |b|..] == s[at + |a| + |b|..];
    assert s[..at] + a + b == s[..at] + (a + b);
  }

  /** Writing over the whole buffer. */
  lemma {:induction false} PatchedWhole(s: Bytes, src: Bytes)
    requires |src| == |s|
    ensures Patched(s, 0, src) == src
  {
  }
}
