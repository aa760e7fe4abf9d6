/** The worked example of appendix A of RFC 7693: BLAKE2b-512 of "abc".  It fixes every constant, rotation
    and order in `Blake2bSpec` by its effect. */
module Blake2bExample {
  import opened Blake2bSpec
  import opened Blake2bStream

  /** The mixing function on four words. */
  function Quarter(a: Word, b: Word, c: Word, d: Word, x: Word, y: Word): (Word, Word, Word, Word) {
    var a1 := Plus(Plus(a, b), x);
    var d1 := RotateRight32(Xor(d, a1));
    var c1 := Plus(c, d1);
    var b1 := RotateRight24(Xor(b, c1));
    var a2 := Plus(Plus(a1, b1), y);
    var d2 := RotateRight16(Xor(d1, a2));
    var c2 := Plus(c1, d2);
    (a2, RotateRight63(Xor(b1, c2)), c2, d2)
  }

  lemma {:induction false} MixQuarter(v: seq<Word>, a: nat, b: nat, c: nat, d: nat, x: Word, y: Word)
    requires |v| == 16 && a < 16 && b < 16 && c < 16 && d < 16 && Distinct(a, b, c, d)
    ensures Mixed(v, Mix(v, a, b, c, d, x, y), a, b, c, d, x, y)
  {
    hide Plus; hide Xor; hide RotateRight32; hide RotateRight24; hide RotateRight16; hide RotateRight63;
  }

  /** Four columns mixed at once. */
  function Columns(v: seq<Word>, x: seq<Word>): (r: seq<Word>)
    requires |v| == 16 && |x| == 16
    ensures |r| == 16
  {
    var (a0, b0, c0, d0) := Quarter(v[0], v[4], v[8], v[12], x[0], x[1]);
    var (a1, b1, c1, d1) := Quarter(v[1], v[5], v[9], v[13], x[2], x[3]);
    var (a2, b2, c2, d2) := Quarter(v[2], v[6], v[10], v[14], x[4], x[5]);
    var (a3, b3, c3, d3) := Quarter(v[3], v[7], v[11], v[15], x[6], x[7]);
    [a0, a1, a2, a3, b0, b1, b2, b3, c0, c1, c2, c3, d0, d1, d2, d3]
  }

  /** Four diagonals mixed at once. */
  function Diagonals(v: seq<Word>, x: seq<Word>): (r: seq<Word>)
    requires |v| == 16 && |x| == 16
    ensures |r| == 16
  {
    var (a0, b0, c0, d0) := Quarter(v[0], v[5], v[10], v[15], x[8], x[9]);
    var (a1, b1, c1, d1) := Quarter(v[1], v[6], v[11], v[12], x[10], x[11]);
    var (a2, b2, c2, d2) := Quarter(v[2], v[7], v[8], v[13], x[12], x[13]);
    var (a3, b3, c3, d3) := Quarter(v[3], v[4], v[9], v[14], x[14], x[15]);
    [a0, a1, a2, a3, b3, b0, b1, b2, c2, c3, c0, c1, d1, d2, d3, d0]
  }

  function Scheduled(m: seq<Word>, s: seq<nat>): (x: seq<Word>)
    requires |m| == 16 && IsSchedule(s)
    ensures |x| == 16
  {
    seq(16, i requires 0 <= i < 16 => m[s[i]])
  }

  /** One mix, word by word. */
  predicate Mixed(v: seq<Word>, r: seq<Word>, a: nat, b: nat, c: nat, d: nat, x: Word, y: Word)
    requires |v| == 16 && |r| == 16 && a < 16 && b < 16 && c < 16 && d < 16
  {
    && (r[a], r[b], r[c], r[d]) == Quarter(v[a], v[b], v[c], v[d], x, y)
    && forall i :: 0 <= i < 16 && i != a && i != b && i != c && i != d ==> r[i] == v[i]
  }

  /** What one mix does to its own four words. */
  predicate Result(v: seq<Word>, r: seq<Word>, a: nat, b: nat, c: nat, d: nat, x: Word, y: Word)
    requires |v| == 16 && |r| == 16 && a < 16 && b < 16 && c < 16 && d < 16
  {
    (r[a], r[b], r[c], r[d]) == Quarter(v[a], v[b], v[c], v[d], x, y)
  }

  predicate SameWords(v: seq<Word>, r: seq<Word>, a: nat, b: nat, c: nat, d: nat)
    requires |v| == 16 && |r| == 16 && a < 16 && b < 16 && c < 16 && d < 16
  {
    r[a] == v[a] && r[b] == v[b] && r[c] == v[c] && r[d] == v[d]
  }

  /** Mixes of other words before and after one mix do not matter to it. */
  lemma {:induction false} Between(u: seq<Word>, v: seq<Word>, r: seq<Word>, t: seq<Word>,
                                   a: nat, b: nat, c: nat, d: nat, x: Word, y: Word)
    requires |u| == 16 && |v| == 16 && |r| == 16 && |t| == 16 && a < 16 && b < 16 && c < 16 && d < 16
    requires SameWords(u, v, a, b, c, d) && Mixed(v, r, a, b, c, d, x, y) && SameWords(r, t, a, b, c, d)
    ensures Result(u, t, a, b, c, d, x, y)
  {
    hide Quarter;
  }

  lemma {:induction false} Untouched(v: seq<Word>, r: seq<Word>, a: nat, b: nat, c: nat, d: nat, x: Word, y: Word,
                                     i: nat, j: nat, k: nat, l: nat)
    requires |v| == 16 && |r| == 16 && a < 16 && b < 16 && c < 16 && d < 16 && i < 16 && j < 16 && k < 16 && l < 16
    requires Mixed(v, r, a, b, c, d, x, y) && {a, b, c, d} !! {i, j, k, l}
    ensures SameWords(v, r, i, j, k, l)
  {
    hide Quarter;
    assert i !in {a, b, c, d} && j !in {a, b, c, d} && k !in {a, b, c, d} && l !in {a, b, c, d};
  }

  lemma {:induction false} Sixteen(r: seq<Word>)
    requires |r| == 16
    ensures r == [r[0], r[1], r[2], r[3], r[4], r[5], r[6], r[7],
                  r[8], r[9], r[10], r[11], r[12], r[13], r[14], r[15]]
  {
  }

  /** Four mixes in a row, each of other words, from vs[0] to vs[4]. */
  ghost predicate InARow(vs: seq<seq<Word>>, first: nat, x: seq<Word>) {
    && |vs| == 5 && first <= 4 && |x| == 16 && (forall i :: 0 <= i < 5 ==> |vs[i]| == 16)
    && forall i :: 0 <= i < 4 ==>
         MixedQuad(vs[i], vs[i + 1], Quad(first + i), x[2 * (first + i)], x[2 * (first + i) + 1])
  }

  predicate MixedQuad(v: seq<Word>, r: seq<Word>, q: (nat, nat, nat, nat), x: Word, y: Word)
    requires |v| == 16 && |r| == 16
  {
    q.0 < 16 && q.1 < 16 && q.2 < 16 && q.3 < 16 && Mixed(v, r, q.0, q.1, q.2, q.3, x, y)
  }

  lemma {:induction false} Apart(i: nat, k: nat)
    requires i < 8 && k < 8 && i != k && (i < 4 <==> k < 4)
    ensures var p, q := Quad(i), Quad(k); {p.0, p.1, p.2, p.3} !! {q.0, q.1, q.2, q.3}
  {
  }

  lemma {:induction false} KeptBefore(vs: seq<seq<Word>>, first: nat, x: seq<Word>, k: nat, j: nat)
    requires InARow(vs, first, x) && (first == 0 || first == 4) && j <= k < 4
    ensures var q := Quad(first + k); SameWords(vs[0], vs[j], q.0, q.1, q.2, q.3)
  {
    hide Mixed; hide Quad;
    if j > 0 {
      KeptBefore(vs, first, x, k, j - 1);
      Apart(first + j - 1, first + k);
      var p, q := Quad(first + j - 1), Quad(first + k);
      assert MixedQuad(vs[j - 1], vs[j - 1 + 1], p, x[2 * (first + (j - 1))], x[2 * (first + (j - 1)) + 1]);
      Untouched(vs[j - 1], vs[j], p.0, p.1, p.2, p.3, x[2 * (first + (j - 1))], x[2 * (first + (j - 1)) + 1],
                q.0, q.1, q.2, q.3);
    }
  }

  lemma {:induction false} KeptBehind(vs: seq<seq<Word>>, first: nat, x: seq<Word>, k: nat, j: nat)
    requires InARow(vs, first, x) && (first == 0 || first == 4) && k < j <= 4
    ensures var q := Quad(first + k); SameWords(vs[k + 1], vs[j], q.0, q.1, q.2, q.3)
  {
    hide Mixed; hide Quad;
    if j > k + 1 {
      KeptBehind(vs, first, x, k, j - 1);
      Apart(first + j - 1, first + k);
      var p, q := Quad(first + j - 1), Quad(first + k);
      assert MixedQuad(vs[j - 1], vs[j - 1 + 1], p, x[2 * (first + (j - 1))], x[2 * (first + (j - 1)) + 1]);
      Untouched(vs[j - 1], vs[j], p.0, p.1, p.2, p.3, x[2 * (first + (j - 1))], x[2 * (first + (j - 1)) + 1],
                q.0, q.1, q.2, q.3);
    }
  }

  /** Each of the four mixes works on its words as if it were alone. */
  lemma {:induction false} Alone(vs: seq<seq<Word>>, first: nat, x: seq<Word>, k: nat)
    requires InARow(vs, first, x) && (first == 0 || first == 4) && k < 4
    ensures var q := Quad(first + k);
            Result(vs[0], vs[4], q.0, q.1, q.2, q.3, x[2 * (first + k)], x[2 * (first + k) + 1])
  {
    hide Mixed; hide Quad; hide SameWords; hide Result;
    KeptBefore(vs, first, x, k, k);
    KeptBehind(vs, first, x, k, 4);
    var q := Quad(first + k);
    assert MixedQuad(vs[k], vs[k + 1], q, x[2 * (first + k)], x[2 * (first + k) + 1]);
    Between(vs[0], vs[k], vs[k + 1], vs[4], q.0, q.1, q.2, q.3, x[2 * (first + k)], x[2 * (first + k) + 1]);
  }

  lemma {:induction false} ColumnsResult(v: seq<Word>, r: seq<Word>, x: seq<Word>)
    requires |v| == 16 && |r| == 16 && |x| == 16
    requires Result(v, r, 0, 4, 8, 12, x[0], x[1])
    requires Result(v, r, 1, 5, 9, 13, x[2], x[3])
    requires Result(v, r, 2, 6, 10, 14, x[4], x[5])
    requires Result(v, r, 3, 7, 11, 15, x[6], x[7])
    ensures r == Columns(v, x)
  {
    hide Quarter;
    Sixteen(r);
  }

  lemma {:induction false} DiagonalsResult(v: seq<Word>, r: seq<Word>, x: seq<Word>)
    requires |v| == 16 && |r| == 16 && |x| == 16
    requires Result(v, r, 0, 5, 10, 15, x[8], x[9])
    requires Result(v, r, 1, 6, 11, 12, x[10], x[11])
    requires Result(v, r, 2, 7, 8, 13, x[12], x[13])
    requires Result(v, r, 3, 4, 9, 14, x[14], x[15])
    ensures r == Diagonals(v, x)
  {
    hide Quarter;
    Sixteen(r);
  }

  lemma {:induction false} MixesInARow(v: seq<Word>, m: seq<Word>, s: seq<nat>, first: nat, vs: seq<seq<Word>>)
    requires |v| == 16 && |m| == 16 && IsSchedule(s) && first <= 4
    requires |vs| == 5 && forall i :: 0 <= i < 5 ==> vs[i] == Mixes(v, m, s, first + i)
    ensures InARow(vs, first, Scheduled(m, s))
  {
    hide Mixes; hide Mix; hide Mixed; hide Quad;
    forall i | 0 <= i < 4
      ensures MixedQuad(vs[i], vs[i + 1], Quad(first + i), m[s[2 * (first + i)]], m[s[2 * (first + i) + 1]])
    {
      var q := Quad(first + i);
      NextMix(v, m, s, first + i, q.0, q.1, q.2, q.3);
      Separate(first + i);
      MixQuarter(vs[i], q.0, q.1, q.2, q.3, m[s[2 * (first + i)]], m[s[2 * (first + i) + 1]]);
    }
  }

  lemma {:induction false} Separate(k: nat)
    requires k < 8
    ensures var q := Quad(k); Distinct(q.0, q.1, q.2, q.3)
  {
  }

  lemma {:induction false} ColumnsMixed(v: seq<Word>, m: seq<Word>, s: seq<nat>)
    requires |v| == 16 && |m| == 16 && IsSchedule(s)
    ensures Mixes(v, m, s, 4) == Columns(Mixes(v, m, s, 0), Scheduled(m, s))
  {
    hide Quarter; hide Mixes; hide Columns; hide InARow; hide Result; hide Scheduled;
    var vs := [Mixes(v, m, s, 0), Mixes(v, m, s, 1), Mixes(v, m, s, 2), Mixes(v, m, s, 3), Mixes(v, m, s, 4)];
    MixesInARow(v, m, s, 0, vs);
    Alone(vs, 0, Scheduled(m, s), 0);
    Alone(vs, 0, Scheduled(m, s), 1);
    Alone(vs, 0, Scheduled(m, s), 2);
    Alone(vs, 0, Scheduled(m, s), 3);
    ColumnsResult(vs[0], vs[4], Scheduled(m, s));
  }

  lemma {:induction false} DiagonalsMixed(v: seq<Word>, m: seq<Word>, s: seq<nat>)
    requires |v| == 16 && |m| == 16 && IsSchedule(s)
    ensures Mixes(v, m, s, 8) == Diagonals(Mixes(v, m, s, 4), Scheduled(m, s))
  {
    hide Quarter; hide Mixes; hide Diagonals; hide InARow; hide Result; hide Scheduled;
    var vs := [Mixes(v, m, s, 4), Mixes(v, m, s, 5), Mixes(v, m, s, 6), Mixes(v, m, s, 7), Mixes(v, m, s, 8)];
    MixesInARow(v, m, s, 4, vs);
    Alone(vs, 4, Scheduled(m, s), 0);
    Alone(vs, 4, Scheduled(m, s), 1);
    Alone(vs, 4, Scheduled(m, s), 2);
    Alone(vs, 4, Scheduled(m, s), 3);
    DiagonalsResult(vs[0], vs[4], Scheduled(m, s));
  }

  // ----- The example

  /** The message words of "abc". */
  const MESSAGE: seq<Word> := [0x636261, 0, 0, 0, 0, 0, 0, 0, 0, 0, 0, 0, 0, 0, 0, 0]

  // The working vector before the first round and after each of the twelve.
  const V0: seq<Word> :=
    [0x6a09e667f2bdc948, 0xbb67ae8584caa73b, 0x3c6ef372fe94f82b, 0xa54ff53a5f1d36f1,
     0x510e527fade682d1, 0x9b05688c2b3e6c1f, 0x1f83d9abfb41bd6b, 0x5be0cd19137e2179,
     0x6a09e667f3bcc908, 0xbb67ae8584caa73b, 0x3c6ef372fe94f82b, 0xa54ff53a5f1d36f1,
     0x510e527fade682d2, 0x9b05688c2b3e6c1f, 0xe07c265404be4294, 0x5be0cd19137e2179]
  const V1: seq<Word> :=
    [0x86b7c1568029bb79, 0xc12cbcc809ff59f3, 0xc6a5214cc0eaca8e, 0x0c87cd524c14cc5d,
     0x44ee6039bd86a9f7, 0xa447c850aa694a7e, 0xde080f1bb1c0f84b, 0x595cb8a9a1aca66c,
     0xbec3ae837eac4887, 0x6267fc79df9d6ad1, 0xfa87b01273fa6dbe, 0x521a715c63e08d8a,
     0xe02d0975b8d37a83, 0x1c7b754f08b7d193, 0x8f885a76b6e578fe, 0x2318a24e2140fc64]
  const V2: seq<Word> :=
    [0x53281e83806010f2, 0x3594b403f81b4393, 0x8cd63c7462de0dff, 0x85f693f3da53f974,
     0xbaabdbb2f386d9ae, 0xca5425aec65a10a8, 0xc6a22e2ff0f7aa48, 0xc6a56a51cb89c595,
     0x224e6a3369224f96, 0x500e125e58a92923, 0xe9e4ad0d0e1a0d48, 0x85df9dc143c59a74,
     0x92a3aaaa6d952b7f, 0xc5fdf71090fae853, 0x2a8a40f15a462dd0, 0x572d17effdd37358]
  const V3: seq<Word> :=
    [0x60ed96aa7ad41725, 0xe46a743c71800b9d, 0x1a04b543a01f156b, 0xa2f8716e775c4877,
     0xda0a61bcde4267ea, 0xb1dd230754d7bdee, 0x25a1422779e06d14, 0xe6823ae4c3ff58a5,
     0xa1677e19f37fd5da, 0x22bdce6976b08c51, 0xf1de8696bec11bf1, 0xa0ebd586a4a1d2c8,
     0xc804ebab11c99fa9, 0x8e0cec959c715793, 0x7c45557fae0d4d89, 0x716343f52fdd265e]
  const V4: seq<Word> :=
    [0xbb2a77d3a8382351, 0x45eb47971f23b103, 0x98be297f6e45c684, 0xa36077dee3370b89,
     0x8a03c4cb7e97590a, 0x24192e49ebf54ea0, 0x4f82c9401cb32d7a, 0x8ccd013726420dc4,
     0xa9c9a8f17b1fc614, 0x55908187977514a0, 0x5b44273e66b19d27, 0xb6d5c9fca2579327,
     0x086092cfb858437e, 0x5c4be2156dbeecf9, 0x2efede99ed4eff16, 0x3e7b5f234cd1f804]
  const V5: seq<Word> :=
    [0xc79c15b3d423b099, 0x2da2224e8da97556, 0x77d2b26df1c45c55, 0x8934eb09a3456052,
     0x0f6d9eeed157da2a, 0x6fe66467af88c0a9, 0x4eb0b76284c7aafb, 0x299c8e725d954697,
     0xb2240b59e6d567d3, 0x2643c2370e49ebfd, 0x79e02eef20cdb1ae, 0x64b3eed7bb602f39,
     0xb97d2d439e4df63d, 0xc718e755294c9111, 0x1f0893f2772bb373, 0x1205ea4a7859807d]
  const V6: seq<Word> :=
    [0xe58f97d6385baee4, 0x7640aa9764da137a, 0xdeb4c7c23efe287e, 0x70f6f41c8783c9f6,
     0x7127cd48c76a7708, 0x9e472af0be3db3f6, 0x0f244c62ddf71788, 0x219828aa83880842,
     0x41cca9073c8c4d0d, 0x5c7912bc10df3b4b, 0xa2c3abbd37510ee2, 0xcb5668cc2a9f7859,
     0x8733794f07ac1500, 0xc67a6be42335aa6f, 0xacb22b28681e4c82, 0xdb2161604cbc9828]
  const V7: seq<Word> :=
    [0x6e2d286eeadedc81, 0xbcf02c0787e86358, 0x57d56a56dd015edf, 0x55d899d40a5d0d0a,
     0x819415b56220c459, 0xb63c479a6a769f02, 0x258e55e0ec1f362a, 0x3a3b4ec60e19dfdc,
     0x04d769b3fcb048db, 0xb78a9a33e9bff4dd, 0x5777272ae1e930c0, 0x5a387849e578dbf6,
     0x92aac307cf2c0afc, 0x30aaccc4f06dafaa, 0x483893cc094f8863, 0xe03c6cc89c26bf92]
  const V8: seq<Word> :=
    [0xffc83ece76024d01, 0x1be7bffb8c5cc5f9, 0xa35a18cbac4c65b7, 0xb7c2c7e6d88c285f,
     0x81937da314a50838, 0xe1179523a2541963, 0x3a1fad7106232b8f, 0x1c7ede92ab8b9c46,
     0xa3c2d35e4f685c10, 0xa53d3f73aa619624, 0x30bbcc0285a22f65, 0xbcefbb6a81539e5d,
     0x3841def6f4c9848a, 0x98662c85fba726d4, 0x7762439bd5a851bd, 0xb0b9f0d443d1a889]
  const V9: seq<Word> :=
    [0x753a70a1e8faeadd, 0x6b0d43ca2c25d629, 0xf8343ba8b94f8c0b, 0xbc7d062b0db5cf35,
     0x58540ee1b1aebc47, 0x63c5b9b80d294cb9, 0x490870ecad27debd, 0xb2a90ddf667287fe,
     0x316cc9ebeefad8fc, 0x4a466bcd021526a4, 0x5da7f7638cec5669, 0xd9c8826727d306fc,
     0x88ed6c4f3bd7a537, 0x19ae688ddf67f026, 0x4d8707aab40f7e6d, 0xfd3f572687fea4f1]
  const V10: seq<Word> :=
    [0xe630c747ccd59c4f, 0xbc713d41127571ca, 0x46db183025025078, 0x6727e81260610140,
     0x2d04185eac2a8cba, 0x5f311b88904056ec, 0x40bd313009201aab, 0x0099d4f82a2a1eab,
     0x6dd4fbc1de60165d, 0xb3b0b51de3c86270, 0x900aee2f233b08e5, 0xa07199d87ad058d8,
     0x2c6b25593d717852, 0x37e8ca471beaa5f8, 0x2cfc1bac10ef4457, 0x01369ec18746e775]
  const V11: seq<Word> :=
    [0xe801f73b9768c760, 0x35c6d22320be511d, 0x306f27584f65495e, 0xb51776adf569a77b,
     0xf4f1be86690b3c34, 0x3cc88735d1475e4b, 0x5dac67921ff76949, 0x1cdb9d31ad70cc4e,
     0x35ba354a9c7df448, 0x4929cbe45679d73e, 0x733d1a17248f39db, 0x92d57b736f5f170a,
     0x61b5c0a41d491399, 0xb5c333457e12844a, 0xbd696be010d0d889, 0x02231e1a917fe0bd]
  const V12: seq<Word> :=
    [0x12ef8a641ec4f6d6, 0xbced5de977c9faf5, 0x733ca476c5148639, 0x97df596b0610f6fc,
     0xf42c16519ad5afa7, 0xaa5ac1888e10467e, 0x217d930aa51787f3, 0x906a6ff19e573942,
     0x75ab709bd3dcbf24, 0xee7ce1f345947aa4, 0xf8960d6c2faf5f5e, 0xe332538a36b6d246,
     0x885bef040ef6aa0b, 0xa4939a417bfb78a3, 0x646cbb7af6dce980, 0xe813a23c60af3b82]

  /** The words of "abc" when a round reads the first of them in place p. */
  function At(p: nat): (x: seq<Word>)
    requires p < 16
    ensures |x| == 16
  {
    [0, 0, 0, 0, 0, 0, 0, 0, 0, 0, 0, 0, 0, 0, 0, 0][p := 0x636261]
  }

  /** One round on the words of "abc". */
  function After(v: seq<Word>, p: nat): (r: seq<Word>)
    requires |v| == 16 && p < 16
    ensures |r| == 16
  {
    Diagonals(Columns(v, At(p)), At(p))
  }

  /** Where a round reads the first message word. */
  const ZERO_PLACES: seq<nat> := [0, 10, 3, 13, 1, 4, 8, 9, 6, 15, 0, 10]

  lemma {:induction false} ZeroPlace(round: nat)
    requires round < 12
    ensures var p := ZERO_PLACES[round]; p < 16 && Scheduled(MESSAGE, Schedule(round)) == At(p)
  {
    ZeroRow(round);
    RowsRepeat(round);
    ReadAt(SIGMA_ROWS[round], ZERO_PLACES[round]);
  }

  lemma {:induction false} ZeroRow(round: nat)
    requires round < 12
    ensures var p, s := ZERO_PLACES[round], SIGMA_ROWS[round];
            |s| == 16 && p < 16 && s[p] == 0 && forall i :: 0 <= i < 16 && i != p ==> s[i] != 0
  {
    if round < 6 {
      EarlyRows(round);
    } else {
      LateRows(round);
    }
  }

  lemma {:induction false} EarlyRows(round: nat)
    requires round < 6
    ensures var p, s := ZERO_PLACES[round], SIGMA_ROWS[round];
            |s| == 16 && p < 16 && s[p] == 0 && forall i :: 0 <= i < 16 && i != p ==> s[i] != 0
  {
  }

  lemma {:induction false} LateRows(round: nat)
    requires 6 <= round < 12
    ensures var p, s := ZERO_PLACES[round], SIGMA_ROWS[round];
            |s| == 16 && p < 16 && s[p] == 0 && forall i :: 0 <= i < 16 && i != p ==> s[i] != 0
  {
  }

  lemma {:induction false} ReadAt(s: seq<nat>, p: nat)
    requires IsSchedule(s) && p < 16 && s[p] == 0 && forall i :: 0 <= i < 16 && i != p ==> s[i] != 0
    ensures Scheduled(MESSAGE, s) == At(p)
  {
    assert forall j :: 1 <= j < 16 ==> MESSAGE[j] == 0;
  }

  lemma {:induction false} OneRound(v: seq<Word>, round: nat)
    requires |v| == 16 && round < 12
    ensures ZERO_PLACES[round] < 16
    ensures Mixes(v, MESSAGE, Schedule(round), 8) == After(v, ZERO_PLACES[round])
  {
    hide Quarter; hide Mixes; hide Columns; hide Diagonals; hide Schedule; hide At; hide Scheduled;
    var s := Schedule(round);
    ZeroPlace(round);
    NoMixes(v, MESSAGE, s);
    ColumnsMixed(v, MESSAGE, s);
    DiagonalsMixed(v, MESSAGE, s);
  }

  lemma {:induction false} Round1()
    ensures After(V0, 0) == V1
  {
  }

  lemma {:induction false} Round2()
    ensures After(V1, 10) == V2
  {
  }

  lemma {:induction false} Round3()
    ensures After(V2, 3) == V3
  {
  }

  lemma {:induction false} Round4()
    ensures After(V3, 13) == V4
  {
  }

  lemma {:induction false} Round5()
    ensures After(V4, 1) == V5
  {
  }

  lemma {:induction false} Round6()
    ensures After(V5, 4) == V6
  {
  }

  lemma {:induction false} Round7()
    ensures After(V6, 8) == V7
  {
  }

  lemma {:induction false} Round8()
    ensures After(V7, 9) == V8
  {
  }

  lemma {:induction false} Round9()
    ensures After(V8, 6) == V9
  {
  }

  lemma {:induction false} Round10()
    ensures After(V9, 15) == V10
  {
  }

  lemma {:induction false} Round11()
    ensures After(V10, 0) == V11
  {
  }

  lemma {:induction false} Round12()
    ensures After(V11, 10) == V12
  {
  }

  lemma {:induction false} NextRound(v: seq<Word>, n: nat)
    requires |v| == 16
    ensures Rounds(v, MESSAGE, 0) == v
    ensures Rounds(v, MESSAGE, n + 1) == Mixes(Rounds(v, MESSAGE, n), MESSAGE, Schedule(n), 8)
  {
    hide Mixes; hide Schedule;
  }

  lemma {:induction false} AllTwelve()
    ensures Rounds(V0, MESSAGE, 12) == V12
  {
    hide Rounds; hide Mixes; hide Schedule; hide After;
    NextRound(V0, 0);
    OneRound(V0, 0);
    Round1();
    NextRound(V0, 1);
    OneRound(V1, 1);
    Round2();
    NextRound(V0, 2);
    OneRound(V2, 2);
    Round3();
    NextRound(V0, 3);
    OneRound(V3, 3);
    Round4();
    NextRound(V0, 4);
    OneRound(V4, 4);
    Round5();
    NextRound(V0, 5);
    OneRound(V5, 5);
    Round6();
    NextRound(V0, 6);
    OneRound(V6, 6);
    Round7();
    NextRound(V0, 7);
    OneRound(V7, 7);
    Round8();
    NextRound(V0, 8);
    OneRound(V8, 8);
    Round9();
    NextRound(V0, 9);
    OneRound(V9, 9);
    Round10();
    NextRound(V0, 10);
    OneRound(V10, 10);
    Round11();
    NextRound(V0, 11);
    OneRound(V11, 11);
    Round12();
  }

  const ABC: Bytes := [0x61, 0x62, 0x63]

  /** The one block of the message. */
  lemma {:induction false} AbcWords()
    ensures MessageWords(ABC + Zeros(125)) == MESSAGE
  {
    var block := ABC + Zeros(125);
    hide LoadWord;
    assert block[0..8] == [0x61, 0x62, 0x63, 0, 0, 0, 0, 0];
    AbcWord();
    forall i | 1 <= i < 16 ensures LoadWord(block[8 * i..8 * i + 8]) == 0 {
      assert block[8 * i..8 * i + 8] == [0, 0, 0, 0, 0, 0, 0, 0];
    }
  }

  lemma {:induction false} AbcWord()
    ensures LoadWord([0x61, 0x62, 0x63, 0, 0, 0, 0, 0]) == 0x636261
    ensures LoadWord([0, 0, 0, 0, 0, 0, 0, 0]) == 0
  {
  }

  const START: seq<Word> :=
    [0x6a09e667f2bdc948, 0xbb67ae8584caa73b, 0x3c6ef372fe94f82b, 0xa54ff53a5f1d36f1,
     0x510e527fade682d1, 0x9b05688c2b3e6c1f, 0x1f83d9abfb41bd6b, 0x5be0cd19137e2179]

  lemma {:induction false} AbcStart()
    ensures Initial(64) == START && WorkVector(START, 3, true) == V0
  {
    assert CounterWord(64) == 64 && CounterWord(3) == 3 && CounterWord(0) == 0;
    assert 3 % TWO64 == 3 && 3 / TWO64 % TWO64 == 0;
  }

  const STATE: seq<Word> :=
    [0x0d4d1c983fa580ba, 0xe9f6129fb697276a, 0xb7c45a68142f214c, 0xd1a2ffdb6fbb124b,
     0x2d79ab2a39c5877d, 0x95cc3345ded552c2, 0x5a92f1dba88ad318, 0x239900d4ed8623b9]

  lemma {:induction false} AbcEnd()
    ensures Xor(Xor(START[0], V12[0]), V12[8]) == STATE[0]
    ensures Xor(Xor(START[1], V12[1]), V12[9]) == STATE[1]
    ensures Xor(Xor(START[2], V12[2]), V12[10]) == STATE[2]
    ensures Xor(Xor(START[3], V12[3]), V12[11]) == STATE[3]
    ensures Xor(Xor(START[4], V12[4]), V12[12]) == STATE[4]
    ensures Xor(Xor(START[5], V12[5]), V12[13]) == STATE[5]
    ensures Xor(Xor(START[6], V12[6]), V12[14]) == STATE[6]
    ensures Xor(Xor(START[7], V12[7]), V12[15]) == STATE[7]
  {
  }

  /** The words of the new chaining value, from the vector after the rounds. */
  lemma {:induction false} FinalWords(h: State, block: Block, t: nat, last: bool, v: seq<Word>)
    requires |v| == 16 && Rounds(WorkVector(h, t, last), MessageWords(block), 12) == v
    ensures forall i :: 0 <= i < 8 ==> F(h, block, t, last)[i] == Xor(Xor(h[i], v[i]), v[i + 8])
  {
    hide Rounds; hide MessageWords; hide WorkVector; hide Xor;
  }

  lemma {:induction false} AbcCompressed()
    ensures F(START, ABC + Zeros(125), 3, true) == STATE
  {
    hide F; hide Rounds; hide MessageWords; hide WorkVector; hide Xor;
    var r := F(START, ABC + Zeros(125), 3, true);
    AbcWords();
    AbcStart();
    AllTwelve();
    FinalWords(START, ABC + Zeros(125), 3, true, V12);
    AbcEnd();
    assert r == [r[0], r[1], r[2], r[3], r[4], r[5], r[6], r[7]];
  }

  lemma {:induction false} AbcAbsorbed()
    ensures Absorb(F, Initial(64), ABC) == STATE
  {
    hide F; hide Initial;
    assert LeadingBlocks(3) == 0 && ABC[0..] == ABC;
    assert Chain(F, Initial(64), ABC, 0) == Initial(64);
    AbcStart();
    AbcCompressed();
  }

  lemma {:induction false} AbcBytes()
    ensures StoreWord(STATE[0]) == [0xba, 0x80, 0xa5, 0x3f, 0x98, 0x1c, 0x4d, 0x0d]
    ensures StoreWord(STATE[1]) == [0x6a, 0x27, 0x97, 0xb6, 0x9f, 0x12, 0xf6, 0xe9]
    ensures StoreWord(STATE[2]) == [0x4c, 0x21, 0x2f, 0x14, 0x68, 0x5a, 0xc4, 0xb7]
    ensures StoreWord(STATE[3]) == [0x4b, 0x12, 0xbb, 0x6f, 0xdb, 0xff, 0xa2, 0xd1]
    ensures StoreWord(STATE[4]) == [0x7d, 0x87, 0xc5, 0x39, 0x2a, 0xab, 0x79, 0x2d]
    ensures StoreWord(STATE[5]) == [0xc2, 0x52, 0xd5, 0xde, 0x45, 0x33, 0xcc, 0x95]
    ensures StoreWord(STATE[6]) == [0x18, 0xd3, 0x8a, 0xa8, 0xdb, 0xf1, 0x92, 0x5a]
    ensures StoreWord(STATE[7]) == [0xb9, 0x23, 0x86, 0xed, 0xd4, 0x00, 0x99, 0x23]
  {
  }

  lemma {:induction false} EightWords(w: seq<Word>)
    requires |w| == 8
    ensures WordBytes(w) == StoreWord(w[0]) + StoreWord(w[1]) + StoreWord(w[2]) + StoreWord(w[3])
                          + StoreWord(w[4]) + StoreWord(w[5]) + StoreWord(w[6]) + StoreWord(w[7])
  {
    hide StoreWord; hide WordBytes;
    NoWords();
    assert w[..0] == [] && [] + StoreWord(w[0]) == StoreWord(w[0]) && w[..8] == w;
    NextWord(w[..0], w[0]);
    assert w[..1] == w[..0] + [w[0]];
    NextWord(w[..1], w[1]);
    assert w[..2] == w[..1] + [w[1]];
    NextWord(w[..2], w[2]);
    assert w[..3] == w[..2] + [w[2]];
    NextWord(w[..3], w[3]);
    assert w[..4] == w[..3] + [w[3]];
    NextWord(w[..4], w[4]);
    assert w[..5] == w[..4] + [w[4]];
    NextWord(w[..5], w[5]);
    assert w[..6] == w[..5] + [w[5]];
    NextWord(w[..6], w[6]);
    assert w[..7] == w[..6] + [w[6]];
    NextWord(w[..7], w[7]);
    assert w[..8] == w[..7] + [w[7]];
  }

  /** BLAKE2b-512 of "abc", as the appendix gives it. */
  lemma {:induction false} AbcDigest()
    ensures Hash(64, ABC)
         == [0xba, 0x80, 0xa5, 0x3f, 0x98, 0x1c, 0x4d, 0x0d] + [0x6a, 0x27, 0x97, 0xb6, 0x9f, 0x12, 0xf6, 0xe9]
          + [0x4c, 0x21, 0x2f, 0x14, 0x68, 0x5a, 0xc4, 0xb7] + [0x4b, 0x12, 0xbb, 0x6f, 0xdb, 0xff, 0xa2, 0xd1]
          + [0x7d, 0x87, 0xc5, 0x39, 0x2a, 0xab, 0x79, 0x2d] + [0xc2, 0x52, 0xd5, 0xde, 0x45, 0x33, 0xcc, 0x95]
          + [0x18, 0xd3, 0x8a, 0xa8, 0xdb, 0xf1, 0x92, 0x5a] + [0xb9, 0x23, 0x86, 0xed, 0xd4, 0x00, 0x99, 0x23]
  {
    hide Absorb; hide WordBytes; hide StoreWord;
    AbcAbsorbed();
    EightWords(STATE);
    AbcBytes();
    assert WordBytes(STATE)[..64] == WordBytes(STATE);
  }
}
