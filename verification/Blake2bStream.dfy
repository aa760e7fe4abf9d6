/** The incremental hasher of treeminer/src/blake2b.cpp: chaining words, a two-word byte counter and
    a block buffer, all updated in place.  A full buffer is kept until more input arrives, because
    only then is it known not to be the last block. */
module Blake2bStream {
  import opened Blake2bSpec

  /** The schedule table of the code, one row for each of the twelve rounds. */
  const SIGMA_ROWS: seq<seq<nat>> := [
    [0, 1, 2, 3, 4, 5, 6, 7, 8, 9, 10, 11, 12, 13, 14, 15],
    [14, 10, 4, 8, 9, 15, 13, 6, 1, 12, 0, 2, 11, 7, 5, 3],
    [11, 8, 12, 0, 5, 2, 15, 13, 10, 14, 3, 6, 7, 1, 9, 4],
    [7, 9, 3, 1, 13, 12, 11, 14, 2, 6, 5, 10, 4, 0, 15, 8],
    [9, 0, 5, 7, 2, 4, 10, 15, 14, 1, 11, 12, 6, 8, 3, 13],
    [2, 12, 6, 10, 0, 11, 8, 3, 4, 13, 7, 5, 15, 14, 1, 9],
    [12, 5, 1, 15, 14, 13, 4, 10, 0, 7, 6, 3, 9, 2, 8, 11],
    [13, 11, 7, 14, 12, 1, 3, 9, 5, 0, 15, 4, 8, 6, 2, 10],
    [6, 15, 14, 9, 11, 3, 0, 8, 12, 2, 13, 7, 1, 4, 10, 5],
    [10, 2, 8, 4, 7, 6, 1, 5, 15, 11, 9, 14, 3, 12, 13, 0],
    [0, 1, 2, 3, 4, 5, 6, 7, 8, 9, 10, 11, 12, 13, 14, 15],
    [14, 10, 4, 8, 9, 15, 13, 6, 1, 12, 0, 2, 11, 7, 5, 3]]

  /** The initialisation vector as the code has it. */
  const BLAKE2B_IV: seq<Word> := [
    0x6a09e667f3bcc908, 0xbb67ae8584caa73b, 0x3c6ef372fe94f82b, 0xa54ff53a5f1d36f1,
    0x510e527fade682d1, 0x9b05688c2b3e6c1f, 0x1f83d9abfb41bd6b, 0x5be0cd19137e2179]

  const NOT_LAST: Word := 0
  const LAST: Word := 0xFFFF_FFFF_FFFF_FFFF

  /** Its rows are the permutations of the standard, taken modulo ten. */
  lemma {:induction false} RowsRepeat(r: nat)
    requires r < 12
    ensures SIGMA_ROWS[r] == Schedule(r) && IsSchedule(SIGMA_ROWS[r])
  {
    if r < 10 {
      assert r % 10 == r;
    } else {
      assert r % 10 == r - 10;
    }
  }

  /** The code rotates with a bitwise or, which agrees because the two halves never overlap. */
  function Rotr32(x: Word): (r: Word) ensures r == RotateRight32(x) { (x >> 32) | (x << 32) }

  function Rotr24(x: Word): (r: Word) ensures r == RotateRight24(x) { (x >> 24) | (x << 40) }

  function Rotr16(x: Word): (r: Word) ensures r == RotateRight16(x) { (x >> 16) | (x << 48) }

  function Rotr63(x: Word): (r: Word) ensures r == RotateRight63(x) { (x >> 63) | (x << 1) }

  predicate Distinct(a: nat, b: nat, c: nat, d: nat) {
    a != b && a != c && a != d && b != c && b != d && c != d
  }

  /** The macro G: eight assignments in place. */
  method MixInPlace(v: array<Word>, a: nat, b: nat, c: nat, d: nat, x: Word, y: Word)
    requires v.Length == 16 && a < 16 && b < 16 && c < 16 && d < 16 && Distinct(a, b, c, d)
    modifies v
    ensures v[..] == Mix(old(v[..]), a, b, c, d, x, y)
  {
    hide MixFirst; hide MixSecond;
    MixFirstHalf(v, a, b, c, d, x);
    MixSecondHalf(v, a, b, c, d, y);
  }

  method MixFirstHalf(v: array<Word>, a: nat, b: nat, c: nat, d: nat, x: Word)
    requires v.Length == 16 && a < 16 && b < 16 && c < 16 && d < 16 && Distinct(a, b, c, d)
    modifies v
    ensures v[..] == MixFirst(old(v[..]), a, b, c, d, x)
  {
    hide Plus; hide Xor; hide RotateRight32; hide RotateRight24; hide Rotr32; hide Rotr24;
    v[a] := Plus(Plus(v[a], v[b]), x);
    v[d] := Rotr32(Xor(v[d], v[a]));
    v[c] := Plus(v[c], v[d]);
    v[b] := Rotr24(Xor(v[b], v[c]));
    assert v[..] == old(v[..])[a := v[a]][d := v[d]][c := v[c]][b := v[b]];
  }

  method MixSecondHalf(v: array<Word>, a: nat, b: nat, c: nat, d: nat, y: Word)
    requires v.Length == 16 && a < 16 && b < 16 && c < 16 && d < 16 && Distinct(a, b, c, d)
    modifies v
    ensures v[..] == MixSecond(old(v[..]), a, b, c, d, y)
  {
    hide Plus; hide Xor; hide RotateRight16; hide RotateRight63; hide Rotr16; hide Rotr63;
    v[a] := Plus(Plus(v[a], v[b]), y);
    v[d] := Rotr16(Xor(v[d], v[a]));
    v[c] := Plus(v[c], v[d]);
    v[b] := Rotr63(Xor(v[b], v[c]));
    assert v[..] == old(v[..])[a := v[a]][d := v[d]][c := v[c]][b := v[b]];
  }

  lemma {:induction false} NextMix(v: seq<Word>, m: seq<Word>, s: seq<nat>, k: nat, a: nat, b: nat, c: nat, d: nat)
    requires |v| == 16 && |m| == 16 && IsSchedule(s) && k < 8 && Quad(k) == (a, b, c, d)
    ensures a < 16 && b < 16 && c < 16 && d < 16
    ensures Mixes(v, m, s, k + 1) == Mix(Mixes(v, m, s, k), a, b, c, d, m[s[2 * k]], m[s[2 * k + 1]])
  {
    hide Mix;
  }

  /** The macro ROUND: the eight mixes of one round, in the order of the code. */
  method RoundInPlace(m: seq<Word>, v: array<Word>, s: seq<nat>)
    requires v.Length == 16 && |m| == 16 && IsSchedule(s)
    modifies v
    ensures v[..] == Mixes(old(v[..]), m, s, 8)
  {
    hide Mixes; hide Mix;
    ghost var v0 := v[..];
    NoMixes(v0, m, s);
    MixColumns(m, v, s, v0);
    MixDiagonals(m, v, s, v0);
  }

  lemma {:induction false} NoMixes(v: seq<Word>, m: seq<Word>, s: seq<nat>)
    requires |v| == 16 && |m| == 16 && IsSchedule(s)
    ensures Mixes(v, m, s, 0) == v
  {
  }

  method MixColumns(m: seq<Word>, v: array<Word>, s: seq<nat>, ghost v0: seq<Word>)
    requires v.Length == 16 && |m| == 16 && IsSchedule(s) && |v0| == 16 && v[..] == Mixes(v0, m, s, 0)
    modifies v
    ensures v[..] == Mixes(v0, m, s, 4)
  {
    hide Mixes; hide Mix;
    NextMix(v0, m, s, 0, 0, 4, 8, 12);
    MixInPlace(v, 0, 4, 8, 12, m[s[0]], m[s[1]]);
    NextMix(v0, m, s, 1, 1, 5, 9, 13);
    MixInPlace(v, 1, 5, 9, 13, m[s[2]], m[s[3]]);
    NextMix(v0, m, s, 2, 2, 6, 10, 14);
    MixInPlace(v, 2, 6, 10, 14, m[s[4]], m[s[5]]);
    NextMix(v0, m, s, 3, 3, 7, 11, 15);
    MixInPlace(v, 3, 7, 11, 15, m[s[6]], m[s[7]]);
  }

  method MixDiagonals(m: seq<Word>, v: array<Word>, s: seq<nat>, ghost v0: seq<Word>)
    requires v.Length == 16 && |m| == 16 && IsSchedule(s) && |v0| == 16 && v[..] == Mixes(v0, m, s, 4)
    modifies v
    ensures v[..] == Mixes(v0, m, s, 8)
  {
    hide Mixes; hide Mix;
    NextMix(v0, m, s, 4, 0, 5, 10, 15);
    MixInPlace(v, 0, 5, 10, 15, m[s[8]], m[s[9]]);
    NextMix(v0, m, s, 5, 1, 6, 11, 12);
    MixInPlace(v, 1, 6, 11, 12, m[s[10]], m[s[11]]);
    NextMix(v0, m, s, 6, 2, 7, 8, 13);
    MixInPlace(v, 2, 7, 8, 13, m[s[12]], m[s[13]]);
    NextMix(v0, m, s, 7, 3, 4, 9, 14);
    MixInPlace(v, 3, 4, 9, 14, m[s[14]], m[s[15]]);
  }

  /** The number of bytes that a counter pair stands for. */
  function CounterValue(t0: Counter, t1: Counter): nat {
    t0 + t1 * TWO64
  }

  /** Adding with a carry detected by `sum < inc` counts modulo 2^128. */
  lemma CarryCounts(t0: Counter, t1: Counter, inc: Counter)
    ensures var s0 := (t0 + inc) % TWO64;
            var s1 := (t1 + if s0 < inc then 1 else 0) % TWO64;
            CounterValue(s0, s1) == (CounterValue(t0, t1) + inc) % TWO128
  {
    var s0 := (t0 + inc) % TWO64;
    if t0 + inc < TWO64 {
      assert s0 == t0 + inc;
    } else {
      assert s0 == t0 + inc - TWO64;
    }
  }

  /** The two counter words depend on the count modulo 2^128 only. */
  lemma CounterWords(t: nat)
    ensures t % TWO128 % TWO64 == t % TWO64
    ensures t % TWO128 / TWO64 % TWO64 == t / TWO64 % TWO64
  {
    var q, r := t / TWO128, t % TWO128;
    assert t == (q * TWO64) * TWO64 + r;
    assert t / TWO64 == q * TWO64 + r / TWO64;
  }

  lemma CounterWordsOfPair(t0: Counter, t1: Counter)
    ensures CounterValue(t0, t1) % TWO64 == t0
    ensures CounterValue(t0, t1) / TWO64 % TWO64 == t1
  {
  }

  /** A compression sees its counter modulo 2^128. */
  lemma CompressModulo(h: State, block: Block, t: nat, last: bool)
    ensures F(h, block, t % TWO128, last) == F(h, block, t, last)
  {
    hide Rounds; hide Xor; hide CounterWord;
    CounterWords(t);
  }

  /** The parameter word is assembled with a bitwise or of disjoint bits. */
  function ParameterWord(outLen: nat): (w: Word)
    requires outLen <= OUT_BYTES
    ensures w == Xor(0x0101_0000, CounterWord(outLen))
  {
    NoOverlap(CounterWord(outLen));
    CounterWord(outLen) | (1 << 16) | (1 << 24)
  }

  lemma NoOverlap(n: Word)
    ensures n <= 64 ==> n | (1 << 16) | (1 << 24) == 0x0101_0000 ^ n
  {
  }

  lemma LastBlockUnique(ll: nat, d: nat)
    requires d * BLOCK_BYTES < ll <= (d + 1) * BLOCK_BYTES
    ensures LeadingBlocks(ll) == d
  {
  }

  method CopyInto(dst: array<bv8>, at: nat, src: Bytes)
    requires at + |src| <= dst.Length
    modifies dst
    ensures dst[..] == Patched(old(dst[..]), at, src)
  {
    forall i | 0 <= i < |src| {
      dst[at + i] := src[i];
    }
  }

  lemma NothingFed(h0: State)
    ensures LeadingBlocks(0) == 0 && Chain(F, h0, [], 0) == h0
  {
    hide F;
  }

  /** A counter that is kept modulo 2^128 counts modulo 2^128. */
  lemma {:induction false} ModAdd(a: nat, b: nat)
    ensures (a % TWO128 + b) % TWO128 == (a + b) % TWO128
  {
    var q := a / TWO128;
    assert a == q * TWO128 + a % TWO128;
  }

  /** One more whole block, with the counter as the code has it. */
  lemma {:induction false} BlockStep(h0: State, all: Bytes, d: nat)
    requires (d + 1) * BLOCK_BYTES <= |all|
    ensures var block: Block := all[d * BLOCK_BYTES..(d + 1) * BLOCK_BYTES];
            var t := (d * BLOCK_BYTES % TWO128 + BLOCK_BYTES) % TWO128;
            && t == (d + 1) * BLOCK_BYTES % TWO128
            && Chain(F, h0, all, d + 1) == F(Chain(F, h0, all, d), block, t, false)
  {
    hide F;
    var n := (d + 1) * BLOCK_BYTES;
    ModAdd(d * BLOCK_BYTES, BLOCK_BYTES);
    CompressModulo(Chain(F, h0, all, d), all[d * BLOCK_BYTES..n], n, false);
  }

  /** The final compression, with the counter as the code has it. */
  lemma {:induction false} LastStep(h0: State, msg: Bytes)
    ensures var d := LeadingBlocks(|msg|);
            var rest := msg[d * BLOCK_BYTES..];
            Absorb(F, h0, msg) == F(Chain(F, h0, msg, d), rest + Zeros(BLOCK_BYTES - |rest|),
                                    (d * BLOCK_BYTES % TWO128 + |rest|) % TWO128, true)
  {
    hide F; hide Chain; hide LeadingBlocks; hide Zeros;
    var d := LeadingBlocks(|msg|);
    var rest := msg[d * BLOCK_BYTES..];
    ModAdd(d * BLOCK_BYTES, |rest|);
    assert d * BLOCK_BYTES + |rest| == |msg|;
    CompressModulo(Chain(F, h0, msg, d), rest + Zeros(BLOCK_BYTES - |rest|), |msg|, true);
  }

  /** `load64`: one byte after the other, shifted into place. */
  method Load64(src: Bytes) returns (res: Word)
    requires |src| == 8
    ensures res == LoadWord(src)
  {
    res := src[0] as bv64;
    res := res | ((src[1] as bv64) << 8);
    res := res | ((src[2] as bv64) << 16);
    res := res | ((src[3] as bv64) << 24);
    res := res | ((src[4] as bv64) << 32);
    res := res | ((src[5] as bv64) << 40);
    res := res | ((src[6] as bv64) << 48);
    res := res | ((src[7] as bv64) << 56);
  }

  /** `store64`: the low byte, then shift. */
  method Store64(w: Word) returns (out: Bytes)
    ensures out == StoreWord(w)
  {
    var v := w;
    ShiftTwice(w);
    out := [(v & 0xff) as bv8];
    v := v >> 8;
    out := out + [(v & 0xff) as bv8];
    v := v >> 8;
    out := out + [(v & 0xff) as bv8];
    v := v >> 8;
    out := out + [(v & 0xff) as bv8];
    v := v >> 8;
    out := out + [(v & 0xff) as bv8];
    v := v >> 8;
    out := out + [(v & 0xff) as bv8];
    v := v >> 8;
    out := out + [(v & 0xff) as bv8];
    v := v >> 8;
    out := out + [(v & 0xff) as bv8];
  }

  lemma {:induction false} ShiftTwice(w: Word)
    ensures w >> 8 >> 8 == w >> 16 && w >> 16 >> 8 == w >> 24 && w >> 24 >> 8 == w >> 32
    ensures w >> 32 >> 8 == w >> 40 && w >> 40 >> 8 == w >> 48 && w >> 48 >> 8 == w >> 56
  {
  }

  method LoadMessage(block: Block) returns (m: seq<Word>)
    ensures m == MessageWords(block)
  {
    hide LoadWord;
    var words := new Word[16];
    for i := 0 to 16
      invariant forall k :: 0 <= k < i ==> words[k] == LoadWord(block[8 * k..8 * k + 8])
    {
      var word := Load64(block[8 * i..8 * i + 8]);
      words[i] := word;
    }
    m := words[..];
  }

  method AllRounds(m: seq<Word>, v: array<Word>)
    requires v.Length == 16 && |m| == 16
    modifies v
    ensures v[..] == Rounds(old(v[..]), m, 12)
  {
    hide Mixes; hide Schedule;
    for r := 0 to 12
      invariant v[..] == Rounds(old(v[..]), m, r)
    {
      RowsRepeat(r);
      RoundInPlace(m, v, SIGMA_ROWS[r]);
    }
  }

  method FillWorkVector(h: array<Word>, v: array<Word>, t0: Counter, t1: Counter, f0: Word)
    requires h.Length == 8 && v.Length == 16 && h != v && (f0 == NOT_LAST || f0 == LAST)
    modifies v
    ensures v[..] == WorkVector(h[..], CounterValue(t0, t1), f0 == LAST)
  {
    hide Xor; hide CounterWord;
    for i := 0 to 8
      invariant forall k :: 0 <= k < i ==> v[k] == h[k] && v[k + 8] == BLAKE2B_IV[k]
    {
      v[i] := h[i];
      v[i + 8] := BLAKE2B_IV[i];
    }
    v[12] := Xor(v[12], CounterWord(t0));
    v[13] := Xor(v[13], CounterWord(t1));
    v[14] := Xor(v[14], f0);
    CounterWordsOfPair(t0, t1);
  }

  class Blake2b {
    const h: array<Word>
    const buf: array<bv8>
    var t0: Counter
    var t1: Counter
    var bufLen: nat
    ghost var nn: nat       // the digest length given to Init
    ghost var fed: Bytes    // everything given to Update since then

    ghost predicate Shape() reads this {
      h.Length == 8 && buf.Length == BLOCK_BYTES && bufLen <= BLOCK_BYTES && nn <= OUT_BYTES && h as object != buf
    }

    /** The chaining value, the buffer and the counter are those of the bytes fed so far, of which
        the buffer holds the possibly last block. */
    ghost predicate Valid() reads this, h, buf {
      && Shape()
      && var d := LeadingBlocks(|fed|);
      && h[..] == Chain(F, Initial(nn), fed, d)
      && CounterValue(t0, t1) == d * BLOCK_BYTES % TWO128
      && bufLen == |fed| - d * BLOCK_BYTES
      && buf[..bufLen] == fed[d * BLOCK_BYTES..]
    }

    constructor ()
      ensures fresh(h) && fresh(buf) && Shape()
    {
      h := new Word[8](_ => 0);
      buf := new bv8[BLOCK_BYTES](_ => 0);
      t0, t1, bufLen, nn, fed := 0, 0, 0, 0, [];
      new;
      assert h as object != buf;
    }

    method Init(outLen: nat)
      requires Shape() && outLen <= OUT_BYTES
      modifies this, h
      ensures Valid() && fed == [] && nn == outLen
    {
      hide Xor; hide ParameterWord; hide CounterWord; hide F; hide Chain;
      NothingFed(Initial(outLen));
      t1, t0 := 0, 0;
      bufLen := 0;
      forall i | 0 <= i < 8 {
        h[i] := BLAKE2B_IV[i];
      }
      assert h[..] == IV;
      h[0] := Xor(h[0], ParameterWord(outLen));
      nn, fed := outLen, [];
      assert h[..] == Initial(outLen);
    }

    method IncrementCounter(inc: Counter)
      modifies this`t0, this`t1
      ensures CounterValue(t0, t1) == (old(CounterValue(t0, t1)) + inc) % TWO128
    {
      CarryCounts(t0, t1, inc);
      t0 := (t0 + inc) % TWO64;
      t1 := (t1 + if t0 < inc then 1 else 0) % TWO64;
    }

    method Compress(block: Block, f0: Word)
      requires Shape() && (f0 == NOT_LAST || f0 == LAST)
      modifies h
      ensures h[..] == F(old(h[..]), block, CounterValue(t0, t1), f0 == LAST)
    {
      hide Rounds; hide MessageWords; hide WorkVector; hide Xor;
      var m := LoadMessage(block);
      var v := new Word[16];
      FillWorkVector(h, v, t0, t1, f0);
      AllRounds(m, v);
      for i := 0 to 8
        modifies h
        invariant forall k :: 0 <= k < i ==> h[k] == Xor(Xor(old(h[k]), v[k]), v[k + 8])
        invariant forall k :: i <= k < 8 ==> h[k] == old(h[k])
      {
        h[i] := Xor(Xor(h[i], v[i]), v[i + 8]);
      }
      ghost var w := Rounds(WorkVector(old(h[..]), CounterValue(t0, t1), f0 == LAST), MessageWords(block), 12);
      assert v[..] == w;
      assert forall k :: 0 <= k < 8 ==> h[k] == Xor(Xor(old(h[..])[k], w[k]), w[k + 8]);
    }

    /** The first `d` blocks of `all` have been compressed and counted. */
    ghost predicate Compressed(all: Bytes, d: nat) reads this, h {
      && Shape() && d * BLOCK_BYTES <= |all|
      && h[..] == Chain(F, Initial(nn), all, d)
      && CounterValue(t0, t1) == d * BLOCK_BYTES % TWO128
    }

    /** The compression that ends block `d` of `all`, counter included. */
    method AdvanceBlock(block: Block, ghost all: Bytes, ghost d: nat)
      requires Compressed(all, d) && (d + 1) * BLOCK_BYTES <= |all|
      requires block == all[d * BLOCK_BYTES..(d + 1) * BLOCK_BYTES]
      modifies this`t0, this`t1, h
      ensures Compressed(all, d + 1)
    {
      hide F; hide Initial; hide Chain;
      BlockStep(Initial(nn), all, d);
      IncrementCounter(BLOCK_BYTES);
      Compress(block, NOT_LAST);
    }

    lemma Refill(input: Bytes)
      requires Valid()
      ensures Compressed(fed + input, LeadingBlocks(|fed|))
    {
      hide F; hide Initial;
      ChainOfPrefix(F, Initial(nn), fed, input, LeadingBlocks(|fed|));
    }

    /** The while loop of `update`: compress straight from the input while more than one block of
        it is left. */
    method AbsorbBlocks(input: Bytes, start: nat, ghost all: Bytes, ghost d: nat) returns (bin: nat, ghost d': nat)
      requires start < |input| && |all| - |input| + start == d * BLOCK_BYTES
      requires |input| <= |all| && all[|all| - |input|..] == input
      requires Compressed(all, d)
      modifies this`t0, this`t1, h
      ensures 0 < |input| - bin <= BLOCK_BYTES && |all| - |input| + bin == d' * BLOCK_BYTES
      ensures Compressed(all, d')
    {
      hide F; hide Initial; hide Chain; hide CounterValue;
      var inLen := |input| - start;
      bin, d' := start, d;
      while inLen > BLOCK_BYTES
        invariant 0 < inLen && bin + inLen == |input|
        invariant |all| - |input| + bin == d' * BLOCK_BYTES
        invariant Compressed(all, d')
      {
        assert input[bin..bin + BLOCK_BYTES] == all[d' * BLOCK_BYTES..(d' + 1) * BLOCK_BYTES];
        AdvanceBlock(input[bin..bin + BLOCK_BYTES], all, d');
        inLen := inLen - BLOCK_BYTES;
        bin := bin + BLOCK_BYTES;
        d' := d' + 1;
      }
    }

    method Update(input: Bytes)
      requires Valid()
      modifies this, h, buf
      ensures Valid() && fed == old(fed) + input && nn == old(nn)
    {
      hide F; hide Initial; hide Chain; hide CounterValue; hide LeadingBlocks; hide Patched;
      ghost var all := fed + input;
      ghost var d := LeadingBlocks(|fed|);
      Refill(input);
      if bufLen + |input| > BLOCK_BYTES {
        var bin;
        bin, d := FillAndAbsorb(input, d);
        Keep(input[bin..], all, d);
      } else {
        UnfilledBlock(fed, input, d);
        assert input[0..] == input;
        Keep(input, all, d);
      }
    }

    /** The branch of `update` for more input than the buffer has room for: complete the block in the
        buffer and compress it, then the whole blocks of the input. */
    method FillAndAbsorb(input: Bytes, ghost d: nat) returns (bin: nat, ghost d': nat)
      requires Compressed(fed + input, d) && d * BLOCK_BYTES <= |fed| <= (d + 1) * BLOCK_BYTES
      requires bufLen == |fed| - d * BLOCK_BYTES && buf[..bufLen] == fed[d * BLOCK_BYTES..]
      requires bufLen + |input| > BLOCK_BYTES
      modifies this`t0, this`t1, this`bufLen, h, buf
      ensures bin <= |input| && bufLen == 0 && Compressed(fed + input, d')
      ensures d' * BLOCK_BYTES < |fed + input| <= (d' + 1) * BLOCK_BYTES
      ensures buf[..bufLen] + input[bin..] == (fed + input)[d' * BLOCK_BYTES..]
    {
      hide F; hide Initial; hide Chain; hide CounterValue; hide Patched;
      ghost var all := fed + input;
      var left := BLOCK_BYTES - bufLen;
      FilledBlock(fed, input, d, left);
      PatchedParts(buf[..], bufLen, input[..left]);
      CopyInto(buf, bufLen, input[..left]);
      assert buf[..] == all[d * BLOCK_BYTES..(d + 1) * BLOCK_BYTES] by { WholeBuffer(buf[..]); }
      AdvanceBlock(buf[..], all, d);
      bufLen := 0;
      InputTail(fed, input, 0);
      bin, d' := AbsorbBlocks(input, left, all, d + 1);
      InputTail(fed, input, bin);
      assert buf[..0] == [];
    }

    /** The end of `update`: what is left, at most one block, stays in the buffer. */
    method Keep(rest: Bytes, ghost all: Bytes, ghost d: nat)
      requires Compressed(all, d) && |all| <= (d + 1) * BLOCK_BYTES && (d > 0 ==> d * BLOCK_BYTES < |all|)
      requires buf[..bufLen] + rest == all[d * BLOCK_BYTES..]
      modifies this`bufLen, this`fed, buf
      ensures Valid() && fed == all
    {
      hide F; hide Initial; hide Chain; hide CounterValue; hide Patched;
      assert bufLen + |rest| == |all| - d * BLOCK_BYTES;
      PatchedParts(buf[..], bufLen, rest);
      assert buf[..][..bufLen] == buf[..bufLen];
      CopyInto(buf, bufLen, rest);
      bufLen := bufLen + |rest|;
      assert buf[..][..bufLen] == buf[..bufLen];
      fed := all;
      if |all| > 0 {
        LastBlockUnique(|all|, d);
      }
    }

    /** The digest is written to `out` at `at`; the object must be initialised again before reuse. */
    method Final(out: array<bv8>, at: nat, outLen: nat)
      requires Valid() && outLen <= OUT_BYTES && at + outLen <= out.Length
      requires out != buf && out as object != h && out as object != this
      modifies this, h, buf, out
      ensures Shape()
      ensures out[..] == Patched(old(out[..]), at, WordBytes(Absorb(F, Initial(old(nn)), old(fed)))[..outLen])
    {
      hide F; hide Initial; hide Absorb; hide Chain; hide CounterValue; hide WordBytes; hide Patched;
      ghost var tag := WordBytes(Absorb(F, Initial(nn), fed));
      FinalCompress();
      if outLen == OUT_BYTES {
        StoreWords(out, at);
        assert tag[..outLen] == tag;
        return;
      }
      var buffer := new bv8[OUT_BYTES](_ => 0);
      PatchedWhole(buffer[..], tag);
      StoreWords(buffer, 0);
      assert buffer[..outLen] == buffer[..][..outLen];
      CopyInto(out, at, buffer[..outLen]);
    }

    method FinalCompress()
      requires Valid()
      modifies this, h, buf
      ensures Shape() && h[..] == Absorb(F, Initial(old(nn)), old(fed))
    {
      hide F; hide Initial; hide Chain; hide LeadingBlocks; hide Patched; hide Absorb;
      ghost var d := LeadingBlocks(|fed|);
      LastStep(Initial(nn), fed);
      IncrementCounter(bufLen);
      PatchedParts(buf[..], bufLen, Zeros(BLOCK_BYTES - bufLen));
      assert buf[..][..bufLen] == buf[..bufLen];
      CopyInto(buf, bufLen, Zeros(BLOCK_BYTES - bufLen));
      assert buf[..] == fed[d * BLOCK_BYTES..] + Zeros(BLOCK_BYTES - bufLen) by { WholeBuffer(buf[..]); }
      Compress(buf[..], LAST);
    }

    /** The eight `store64` calls. */
    method StoreWords(out: array<bv8>, at: nat)
      requires Shape() && at + OUT_BYTES <= out.Length && out as object != h
      modifies out
      ensures out[..] == Patched(old(out[..]), at, WordBytes(h[..]))
    {
      hide StoreWord; hide WordBytes; hide Patched;
      NoWords();
      PatchedNothing(out[..], at);
      assert h[..0] == [];
      for i := 0 to 8
        invariant out[..] == Patched(old(out[..]), at, WordBytes(h[..i]))
      {
        NextWord(h[..i], h[i]);
        PatchedTwice(old(out[..]), at, WordBytes(h[..i]), StoreWord(h[i]));
        var bytes := Store64(h[i]);
        CopyInto(out, at + 8 * i, bytes);
        assert h[..i + 1] == h[..i] + [h[i]];
      }
      assert h[..8] == h[..];
    }
  }

  lemma {:induction false} NoWords()
    ensures WordBytes([]) == []
  {
  }

  lemma {:induction false} NextWord(w: seq<Word>, x: Word)
    ensures WordBytes(w + [x]) == WordBytes(w) + StoreWord(x)
  {
    hide StoreWord;
    assert (w + [x])[..|w|] == w;
  }

  /** A buffer that is full holds what was written before and behind the gap. */
  lemma {:induction false} WholeBuffer(b: Bytes)
    ensures b[..|b|] == b
  {
  }

  /** Filling up the buffer completes block d. */
  lemma {:induction false} FilledBlock(fed: Bytes, input: Bytes, d: nat, left: nat)
    requires d * BLOCK_BYTES <= |fed| <= (d + 1) * BLOCK_BYTES
    requires left == (d + 1) * BLOCK_BYTES - |fed| && left <= |input|
    ensures (fed + input)[d * BLOCK_BYTES..(d + 1) * BLOCK_BYTES] == fed[d * BLOCK_BYTES..] + input[..left]
  {
  }

  /** The rest of the input is the rest of the message. */
  lemma {:induction false} InputTail(fed: Bytes, input: Bytes, bin: nat)
    requires bin <= |input|
    ensures (fed + input)[|fed| + bin..] == input[bin..]
  {
  }

  lemma {:induction false} UnfilledBlock(fed: Bytes, input: Bytes, d: nat)
    requires d * BLOCK_BYTES <= |fed|
    ensures fed[d * BLOCK_BYTES..] + input[0..] == (fed + input)[d * BLOCK_BYTES..]
  {
  }

  function Flatten(chunks: seq<Bytes>): Bytes {
    if chunks == [] then [] else Flatten(chunks[..|chunks| - 1]) + chunks[|chunks| - 1]
  }

  /** However a message is cut into `update` calls, the digest is that of the whole message. */
  method HashChunks(nn: nat, chunks: seq<Bytes>) returns (digest: Bytes)
    requires nn <= OUT_BYTES
    ensures digest == Hash(nn, Flatten(chunks))
  {
    hide F; hide Initial; hide Chain; hide CounterValue; hide WordBytes; hide Absorb; hide Patched;
    var blake := new Blake2b();
    blake.Init(nn);
    for i := 0 to |chunks|
      invariant blake.Valid() && blake.nn == nn && blake.fed == Flatten(chunks[..i])
      invariant fresh(blake) && fresh(blake.h) && fresh(blake.buf)
    {
      blake.Update(chunks[i]);
      assert chunks[..i + 1][..i] == chunks[..i];
    }
    assert chunks[..|chunks|] == chunks;
    var out := new bv8[nn];
    PatchedWhole(out[..], Hash(nn, Flatten(chunks)));
    blake.Final(out, 0, nn);
    digest := out[..];
  }
}
