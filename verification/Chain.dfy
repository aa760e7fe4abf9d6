/** The chain simulator of treeminer/server/chain_simulator.py: a list of blocks with caches beside it. */
module Chain {
  import opened Identifiers
  import opened Options

  const MIN_DIFFICULTY: int := 100
  const MAX_DIFFICULTY: int := 100000
  const KEY_LENGTH: nat := 64
  const LOOKUP_LIMIT: nat := 100

  datatype BlockType = Normal | Super | Xuni
  datatype Block = Block(id: nat, account: string, key: string, hash: string, kind: BlockType)

  // ----- Classification

  predicate ContainsAt(s: string, p: string, i: nat) {
    i + |p| <= |s| && s[i..i + |p|] == p
  }

  predicate Contains(s: string, p: string) {
    exists i :: 0 <= i <= |s| && ContainsAt(s, p, i)
  }

  function Uppercase(s: string): nat {
    if s == "" then 0 else (if 'A' <= s[0] <= 'Z' then 1 else 0) + Uppercase(s[1..])
  }

  predicate XuniAt(s: string, i: nat) {
    ContainsAt(s, "XUNI", i) && i + 4 < |s| && '0' <= s[i + 4] <= '9'
  }

  /** `classify_block`; `window` is the verdict on the XUNI time window. */
  function Classify(marker: string, hash: string, window: bool): Option<BlockType> {
    if Contains(hash, marker) then Some(if Uppercase(hash) >= 50 then Super else Normal)
    else if (exists i :: 0 <= i <= |hash| && XuniAt(hash, i)) && window then Some(Xuni)
    else None
  }

  function Reward(kind: BlockType): real {
    match kind
    case Super => 50.0
    case Normal => 10.0
    case Xuni => 1.0
  }

  ghost function Capitals(s: string): set<int> {
    set i | 0 <= i < |s| && 'A' <= s[i] <= 'Z'
  }

  lemma {:induction false} UppercaseAppend(s: string, c: char)
    ensures Uppercase(s + [c]) == Uppercase(s) + if 'A' <= c <= 'Z' then 1 else 0
  {
    if s == "" {
      assert s + [c] == [c] && [c][1..] == "";
    } else {
      UppercaseAppend(s[1..], c);
      assert (s + [c])[1..] == s[1..] + [c];
    }
  }

  lemma {:induction false} UppercaseCount(s: string)
    ensures Uppercase(s) == |Capitals(s)|
  {
    if s == "" {
      assert Capitals(s) == {};
    } else {
      var n := |s| - 1;
      UppercaseCount(s[..n]);
      UppercaseAppend(s[..n], s[n]);
      assert s == s[..n] + [s[n]];
      var few := Capitals(s[..n]);
      assert Capitals(s) == few + if 'A' <= s[n] <= 'Z' then {n} else {};
      assert n !in few;
    }
  }

  /** The word stands in the text at place i, letter by letter. */
  ghost predicate Spells(s: string, i: int, word: string) {
    0 <= i <= |s| - |word| && forall k :: 0 <= k < |word| ==> s[i + k] == word[k]
  }

  lemma {:induction false} SpellsMeans(s: string, i: nat, word: string)
    ensures Spells(s, i, word) <==> ContainsAt(s, word, i)
  {
    if i + |word| <= |s| {
      var part := s[i..i + |word|];
      assert forall k :: 0 <= k < |word| ==> part[k] == s[i + k];
    }
  }

  /** What counts as a block: a hash with the marker somewhere in it is a super block with fifty capital
      letters or more and a normal one with fewer; without the marker, "XUNI" and a digit make a XUNI block
      inside its time window; anything else is no block. */
  lemma {:induction false} ClassifyMeans(marker: string, hash: string, window: bool)
    ensures var marked, capitals := exists i :: Spells(hash, i, marker), |Capitals(hash)|;
            var xuni := exists i :: Spells(hash, i, "XUNI") && i + 4 < |hash| && '0' <= hash[i + 4] <= '9';
            var kind := Classify(marker, hash, window);
            && (kind == Some(Super) <==> marked && capitals >= 50)
            && (kind == Some(Normal) <==> marked && capitals < 50)
            && (kind == Some(Xuni) <==> !marked && window && xuni)
  {
    hide Spells; hide ContainsAt; hide Uppercase;
    UppercaseCount(hash);
    MarkedMeans(hash, marker);
    XuniMeans(hash);
  }

  lemma {:induction false} MarkedMeans(hash: string, marker: string)
    ensures Contains(hash, marker) <==> exists i :: Spells(hash, i, marker)
  {
    hide ContainsAt;
    if i :| 0 <= i <= |hash| && ContainsAt(hash, marker, i) {
      SpellsMeans(hash, i, marker);
    }
    if i :| Spells(hash, i, marker) {
      SpellsMeans(hash, i, marker);
      assert ContainsAt(hash, marker, i);
    }
  }

  lemma {:induction false} XuniMeans(hash: string)
    ensures (exists i :: 0 <= i <= |hash| && XuniAt(hash, i))
            <==> exists i :: Spells(hash, i, "XUNI") && i + 4 < |hash| && '0' <= hash[i + 4] <= '9'
  {
    hide ContainsAt;
    if i :| 0 <= i <= |hash| && XuniAt(hash, i) {
      SpellsMeans(hash, i, "XUNI");
      assert Spells(hash, i, "XUNI");
    }
    if i :| Spells(hash, i, "XUNI") && i + 4 < |hash| && '0' <= hash[i + 4] <= '9' {
      SpellsMeans(hash, i, "XUNI");
      assert XuniAt(hash, i);
    }
  }

  // ----- The simple reading of the list of blocks

  /** What an account, in lower case, has earned. */
  function Earned(blocks: seq<Block>, account: string): real {
    if blocks == [] then 0.0
    else
      var b := blocks[|blocks| - 1];
      Earned(blocks[..|blocks| - 1], account) + if Lower(b.account) == account then Reward(b.kind) else 0.0
  }

  predicate Mined(blocks: seq<Block>, account: string) {
    exists i :: 0 <= i < |blocks| && Lower(blocks[i].account) == account
  }

  function Count(blocks: seq<Block>, kind: BlockType): nat {
    if blocks == [] then 0
    else Count(blocks[..|blocks| - 1], kind) + if blocks[|blocks| - 1].kind == kind then 1 else 0
  }

  ghost predicate Pays(b: Block, account: string, kind: BlockType) {
    Lower(b.account) == account && b.kind == kind
  }

  /** The places of an account's blocks of one kind. */
  ghost function Places(blocks: seq<Block>, account: string, kind: BlockType): set<int> {
    set i | 0 <= i < |blocks| && Pays(blocks[i], account, kind)
  }

  /** An account earns 10 for each normal, 50 for each super and 1 for each XUNI block. */
  lemma {:induction false} EarnedByKind(blocks: seq<Block>, account: string)
    ensures Earned(blocks, account) == 10.0 * |Places(blocks, account, Normal)| as real
              + 50.0 * |Places(blocks, account, Super)| as real + |Places(blocks, account, Xuni)| as real
  {
    hide Lower; hide Places;
    if blocks == [] {
      NoPlaces(account, Normal);
      NoPlaces(account, Super);
      NoPlaces(account, Xuni);
    } else {
      EarnedByKind(blocks[..|blocks| - 1], account);
      PlacesStep(blocks, account, Normal);
      PlacesStep(blocks, account, Super);
      PlacesStep(blocks, account, Xuni);
    }
  }

  lemma {:induction false} NoPlaces(account: string, kind: BlockType)
    ensures |Places([], account, kind)| == 0
  {
    assert Places([], account, kind) == {};
  }

  lemma {:induction false} PlacesStep(blocks: seq<Block>, account: string, kind: BlockType)
    requires blocks != []
    ensures var n := |blocks| - 1;
            |Places(blocks, account, kind)| == |Places(blocks[..n], account, kind)|
              + if Pays(blocks[n], account, kind) then 1 else 0
  {
    hide Pays;
    var n := |blocks| - 1;
    var few := Places(blocks[..n], account, kind);
    assert Places(blocks, account, kind) == few + if Pays(blocks[n], account, kind) then {n} else {};
    assert n !in few;
  }

  ghost predicate Is(b: Block, kind: BlockType) {
    b.kind == kind
  }

  ghost function Kinds(blocks: seq<Block>, kind: BlockType): set<int> {
    set i | 0 <= i < |blocks| && Is(blocks[i], kind)
  }

  lemma {:induction false} KindsStep(blocks: seq<Block>, kind: BlockType)
    requires blocks != []
    ensures var n := |blocks| - 1;
            |Kinds(blocks, kind)| == |Kinds(blocks[..n], kind)| + if Is(blocks[n], kind) then 1 else 0
  {
    hide Is;
    var n := |blocks| - 1;
    var few := Kinds(blocks[..n], kind);
    assert Kinds(blocks, kind) == few + if Is(blocks[n], kind) then {n} else {};
    assert n !in few;
  }

  lemma {:induction false} CountMeans(blocks: seq<Block>, kind: BlockType)
    ensures Count(blocks, kind) == |Kinds(blocks, kind)|
  {
    if blocks == [] {
      assert Kinds(blocks, kind) == {};
    } else {
      hide Kinds;
      KindsStep(blocks, kind);
      CountMeans(blocks[..|blocks| - 1], kind);
    }
  }

  /** The three counts of `get_stats` add up to the number of blocks. */
  lemma {:induction false} CountsPartition(blocks: seq<Block>)
    ensures Count(blocks, Normal) + Count(blocks, Super) + Count(blocks, Xuni) == |blocks|
  {
    if blocks != [] {
      CountsPartition(blocks[..|blocks| - 1]);
    }
  }

  // ----- Difficulty

  /** One adjustment: five per cent up, rounded down, then clamped. */
  function Adjust(d: int): int {
    var up := 21 * d / 20;
    var capped := if up < MAX_DIFFICULTY then up else MAX_DIFFICULTY;
    if capped < MIN_DIFFICULTY then MIN_DIFFICULTY else capped
  }

  /** Within the bounds an adjustment adds a twentieth, rounded down, up to the maximum. */
  lemma {:induction false} AdjustMeans(d: int)
    requires 100 <= d <= 100000
    ensures var up := Adjust(d);
            if up < 100000 then 20 * up <= 21 * d < 20 * (up + 1) else up == 100000 && 21 * d >= 20 * 100000
  {
  }

  function After(base: int, adjustments: nat): int {
    if adjustments == 0 then base else Adjust(After(base, adjustments - 1))
  }

  /** How many of the block counts 1..n are multiples of the interval. */
  function Multiples(interval: int, n: nat): nat
    requires interval > 0
  {
    if n == 0 then 0 else Multiples(interval, n - 1) + if n % interval == 0 then 1 else 0
  }

  /** There is one adjustment for every full interval. */
  lemma {:induction false} MultiplesMeans(interval: int, n: nat)
    requires interval > 0
    ensures Multiples(interval, n) == n / interval
  {
    if n > 0 {
      MultiplesMeans(interval, n - 1);
      QuotientStep(n, interval);
    } else {
      assert 0 / interval == 0;
    }
  }

  lemma {:induction false} QuotientStep(n: nat, d: int)
    requires n > 0 && d > 0
    ensures n / d == (n - 1) / d + if n % d == 0 then 1 else 0
  {
    var q, r := n / d, n % d;
    assert n == q * d + r;
    if r == 0 {
      assert n - 1 == (q - 1) * d + (d - 1);
      UniqueQuotient(n - 1, d, q - 1, d - 1);
    } else {
      assert n - 1 == q * d + (r - 1);
      UniqueQuotient(n - 1, d, q, r - 1);
    }
  }

  lemma {:induction false} UniqueQuotient(n: int, d: int, q: int, r: int)
    requires d > 0 && n == q * d + r && 0 <= r < d
    ensures n / d == q
  {
    var k, s := n / d, n % d;
    assert n == k * d + s;
    ProductGap(q, k, d);
    ProductGap(k, q, d);
  }

  lemma {:induction false} ProductGap(x: int, y: int, d: int)
    requires d > 0
    ensures x > y ==> x * d >= y * d + d
    decreases x - y
  {
    if x > y + 1 {
      ProductGap(x - 1, y, d);
    }
    assert x * d == (x - 1) * d + d;
  }

  /** The difficulty with n blocks on the chain. */
  function DifficultyAt(base: int, interval: int, n: nat): int
    requires interval > 0
  {
    After(base, Multiples(interval, n))
  }

  lemma {:induction false} AfterBounds(base: int, k: nat)
    ensures k > 0 ==> MIN_DIFFICULTY <= After(base, k) <= MAX_DIFFICULTY
  {
  }

  lemma {:induction false} AfterMonotone(base: int, j: nat, k: nat)
    requires base <= MAX_DIFFICULTY && j <= k
    ensures After(base, j) <= After(base, k)
    decreases k - j
  {
    if j < k {
      AfterMonotone(base, j, k - 1);
      AfterBounds(base, k - 1);
    }
  }

  lemma {:induction false} MultiplesMonotone(interval: int, m: nat, n: nat)
    requires interval > 0 && m <= n
    ensures Multiples(interval, m) <= Multiples(interval, n)
    decreases n - m
  {
    if m < n {
      MultiplesMonotone(interval, m, n - 1);
    }
  }

  /** The difficulty never goes down exactly when it starts at most at the maximum. */
  lemma {:induction false} DifficultyNeverDrops(base: int, interval: int)
    requires interval > 0
    ensures (forall m, n :: 0 <= m <= n ==> DifficultyAt(base, interval, m) <= DifficultyAt(base, interval, n))
            <==> base <= 100000
  {
    if base <= MAX_DIFFICULTY {
      forall m, n | 0 <= m <= n ensures DifficultyAt(base, interval, m) <= DifficultyAt(base, interval, n) {
        MultiplesMonotone(interval, m, n);
        AfterMonotone(base, Multiples(interval, m), Multiples(interval, n));
      }
    } else {
      assert interval % interval == 0;
      AfterBounds(base, Multiples(interval, interval));
      assert DifficultyAt(base, interval, 0) == base > DifficultyAt(base, interval, interval);
    }
  }

  /** It stays within its bounds exactly when it starts within them. */
  lemma {:induction false} DifficultyInRange(base: int, interval: int)
    requires interval > 0
    ensures (forall n: nat :: 100 <= DifficultyAt(base, interval, n) <= 100000) <==> 100 <= base <= 100000
  {
    assert DifficultyAt(base, interval, 0) == base;
    forall n: nat
      ensures Multiples(interval, n) > 0 ==> MIN_DIFFICULTY <= DifficultyAt(base, interval, n) <= MAX_DIFFICULTY
    {
      AfterBounds(base, Multiples(interval, n));
    }
  }

  // ----- Lookup by key prefix

  predicate HasPrefix(key: string, prefix: string) {
    |prefix| <= |key| && Lower(key)[..|prefix|] == Lower(prefix)
  }

  /** Character by character, up to case. */
  lemma {:induction false} HasPrefixMeans(key: string, prefix: string)
    ensures HasPrefix(key, prefix) <==>
              |prefix| <= |key| && forall i :: 0 <= i < |prefix| ==> LowerChar(key[i]) == LowerChar(prefix[i])
  {
    hide LowerChar;
    if |prefix| <= |key| {
      var a, b := Lower(key)[..|prefix|], Lower(prefix);
      assert forall i :: 0 <= i < |prefix| ==> a[i] == LowerChar(key[i]) && b[i] == LowerChar(prefix[i]);
    }
  }

  /** Blocks whose key starts with the prefix, in any case, newest first. */
  function Matching(blocks: seq<Block>, prefix: string): seq<Block> {
    if blocks == [] then []
    else
      var b := blocks[|blocks| - 1];
      (if HasPrefix(b.key, prefix) then [b] else []) + Matching(blocks[..|blocks| - 1], prefix)
  }

  /** `get_blocks_by_key_prefix` with its default limit. */
  function ByKeyPrefix(blocks: seq<Block>, prefix: string): seq<Block> {
    var all := Matching(blocks, prefix);
    if |all| <= LOOKUP_LIMIT then all else all[..LOOKUP_LIMIT]
  }

  lemma {:induction false} MatchingConcat(a: seq<Block>, b: seq<Block>, prefix: string)
    ensures Matching(a + b, prefix) == Matching(b, prefix) + Matching(a, prefix)
  {
    hide HasPrefix;
    if b == [] {
      assert a + b == a;
    } else {
      var last, init := b[|b| - 1], b[..|b| - 1];
      assert (a + b)[..|a + b| - 1] == a + init;
      MatchingConcat(a, init, prefix);
      var head := if HasPrefix(last.key, prefix) then [last] else [];
      assert head + (Matching(init, prefix) + Matching(a, prefix))
          == head + Matching(init, prefix) + Matching(a, prefix);
    }
  }

  lemma {:induction false} MatchingAreBlocks(blocks: seq<Block>, prefix: string)
    ensures forall b :: b in Matching(blocks, prefix) ==> b in blocks
  {
    hide HasPrefix;
    if blocks != [] {
      MatchingAreBlocks(blocks[..|blocks| - 1], prefix);
    }
  }

  /** A block stands in the result behind the later ones with the same prefix. */
  lemma {:induction false} MatchingPosition(blocks: seq<Block>, prefix: string, i: nat)
    requires i < |blocks| && HasPrefix(blocks[i].key, prefix)
    ensures var later := |Matching(blocks[i + 1..], prefix)|;
            later < |Matching(blocks, prefix)| && Matching(blocks, prefix)[later] == blocks[i]
  {
    hide HasPrefix;
    var upTo, later := blocks[..i + 1], blocks[i + 1..];
    MatchingConcat(upTo, later, prefix);
    assert upTo + later == blocks;
    assert Matching(upTo, prefix)[0] == blocks[i];
  }

  ghost predicate DistinctKeys(blocks: seq<Block>) {
    forall i, j :: 0 <= i < j < |blocks| ==> blocks[i].key != blocks[j].key
  }

  predicate FoundIn(found: seq<Block>, key: string) {
    exists k :: 0 <= k < |found| && found[k].key == key
  }

  /** A key on the chain is found by its own prefix exactly when fewer than a hundred later blocks
      share that prefix. */
  lemma {:induction false} LookupFindsKey(blocks: seq<Block>, prefix: string, i: nat)
    requires DistinctKeys(blocks) && i < |blocks| && HasPrefix(blocks[i].key, prefix)
    ensures FoundIn(ByKeyPrefix(blocks, prefix), blocks[i].key)
            <==> |Matching(blocks[i + 1..], prefix)| < 100
  {
    hide HasPrefix; hide Matching;
    var all, at, key := Matching(blocks, prefix), |Matching(blocks[i + 1..], prefix)|, blocks[i].key;
    MatchingPosition(blocks, prefix, i);
    MatchingDistinct(blocks, prefix);
    if at < LOOKUP_LIMIT {
      assert ByKeyPrefix(blocks, prefix)[at].key == key;
    }
    if k :| 0 <= k < |ByKeyPrefix(blocks, prefix)| && ByKeyPrefix(blocks, prefix)[k].key == key {
      assert all[k].key == key == all[at].key;
      assert k == at;
    }
  }

  lemma {:induction false} MatchingDistinct(blocks: seq<Block>, prefix: string)
    requires DistinctKeys(blocks)
    ensures DistinctKeys(Matching(blocks, prefix))
  {
    hide HasPrefix;
    if blocks != [] {
      var init, last := blocks[..|blocks| - 1], blocks[|blocks| - 1];
      MatchingDistinct(init, prefix);
      MatchingAreBlocks(init, prefix);
      forall b | b in Matching(init, prefix) ensures b.key != last.key {
        assert b in init;
      }
    }
  }

  // ----- The simulator

  ghost predicate KeysAgree(blocks: seq<Block>, keys: set<string>) {
    DistinctKeys(blocks) && forall k :: k in keys <==> FoundIn(blocks, k)
  }

  /** Exactly the miners have a balance, and it is what they earned. */
  ghost predicate BalancesAgree(blocks: seq<Block>, balances: map<string, real>) {
    && (forall a :: a in balances <==> Mined(blocks, a))
    && (forall a :: a in balances ==> balances[a] == Earned(blocks, a))
  }

  function Credit(balances: map<string, real>, account: string, kind: BlockType): map<string, real> {
    var a := Lower(account);
    balances[a := (if a in balances then balances[a] else 0.0) + Reward(kind)]
  }

  lemma {:induction false} DifficultyStep(base: int, interval: int, n: nat)
    requires interval > 0
    ensures DifficultyAt(base, interval, n + 1) ==
            if (n + 1) % interval == 0 then Adjust(DifficultyAt(base, interval, n)) else DifficultyAt(base, interval, n)
  {
  }

  class ChainSimulator {
    var blocks: seq<Block>
    var nextId: nat
    var balances: map<string, real>
    var knownKeys: set<string>
    var difficulty: int
    const base: int
    const interval: int
    const marker: string

    /** The caches agree with the list of blocks. */
    ghost predicate Valid() reads this {
      && interval > 0
      && nextId == |blocks| + 1 && (forall i :: 0 <= i < |blocks| ==> blocks[i].id == i + 1)
      && KeysAgree(blocks, knownKeys) && BalancesAgree(blocks, balances)
      && difficulty == DifficultyAt(base, interval, |blocks|)
    }

    constructor (base: int, interval: int, marker: string)
      requires interval > 0
      ensures Valid() && blocks == [] && this.base == base && this.interval == interval && this.marker == marker
    {
      this.base, this.interval, this.marker := base, interval, marker;
      difficulty, blocks, nextId, balances, knownKeys := base, [], 1, map[], {};
    }

    /** `submit_block`; `hexKey` is the verdict of Python's `int(key, 16)`. */
    method SubmitBlock(hash: string, key: string, account: string, hexKey: bool, window: bool)
      returns (kind: Option<BlockType>)
      requires Valid()
      modifies this
      ensures Valid()
      ensures kind == if |key| >= 64 && hexKey && !FoundIn(old(blocks), key)
                      then Classify(marker, hash, window) else None
      ensures blocks == old(blocks)
                        + if kind.Some? then [Block(|old(blocks)| + 1, account, key, hash, kind.value)] else []
    {
      hide Classify; hide BalancesAgree; hide DifficultyAt; hide Adjust; hide Lower; hide Reward;
      if |key| < KEY_LENGTH || !hexKey {
        return None;
      }
      if key in knownKeys {
        return None;
      }
      kind := Classify(marker, hash, window);
      if kind.None? {
        return;
      }
      var block := Block(nextId, account, key, hash, kind.value);
      KeysGrow(blocks, block, knownKeys);
      BalancesGrow(blocks, block, balances);
      DifficultyStep(base, interval, |blocks|);
      hide KeysAgree; hide DistinctKeys; hide FoundIn;
      blocks := blocks + [block];
      knownKeys := knownKeys + {key};
      nextId := nextId + 1;
      var address := Lower(account);
      var balance := if address in balances then balances[address] else 0.0;
      balances := balances[address := balance + Reward(kind.value)];
      if |blocks| % interval == 0 {
        difficulty := Adjust(difficulty);
      }
    }

    /** `get_balance`: the rewards of all blocks of that address, in any case. */
    method GetBalance(address: string) returns (x: real)
      requires Valid()
      ensures x == Earned(blocks, Lower(address))
    {
      var a := Lower(address);
      if a in balances {
        return balances[a];
      }
      NotMined(blocks, a);
      x := 0.0;
    }
  }

  lemma {:induction false} NotMined(blocks: seq<Block>, a: string)
    requires !Mined(blocks, a)
    ensures Earned(blocks, a) == 0.0
  {
    if blocks != [] {
      NotMined(blocks[..|blocks| - 1], a);
    }
  }

  lemma {:induction false} KeysGrow(blocks: seq<Block>, b: Block, keys: set<string>)
    requires KeysAgree(blocks, keys) && b.key !in keys
    ensures KeysAgree(blocks + [b], keys + {b.key})
  {
    var more := blocks + [b];
    forall k ensures k in keys + {b.key} <==> FoundIn(more, k) {
      assert more[|blocks|] == b;
      if FoundIn(blocks, k) {
        var i :| 0 <= i < |blocks| && blocks[i].key == k;
        assert more[i].key == k;
      }
    }
    forall i | 0 <= i < |blocks| ensures blocks[i].key != b.key {
      assert FoundIn(blocks, blocks[i].key);
    }
  }

  lemma {:induction false} BalancesGrow(blocks: seq<Block>, b: Block, balances: map<string, real>)
    requires BalancesAgree(blocks, balances)
    ensures BalancesAgree(blocks + [b], Credit(balances, b.account, b.kind))
  {
    hide Lower; hide Reward;
    var more, at := blocks + [b], Lower(b.account);
    assert more[..|blocks|] == blocks;
    assert more[|blocks|] == b;
    forall a ensures Mined(more, a) <==> a == at || Mined(blocks, a) {
      if Mined(blocks, a) {
        var i :| 0 <= i < |blocks| && Lower(blocks[i].account) == a;
        assert Lower(more[i].account) == a;
      }
    }
    if !Mined(blocks, at) {
      NotMined(blocks, at);
    }
  }
}
