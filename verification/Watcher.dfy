/** The block watcher of treeminer/server/watcher.py: it records reported blocks and counts, per lease,
    those that carry the lease's prefix and are on the chain. */
module Watcher {
  import opened Identifiers
  import opened Options
  import opened Chain

  const PREFIX_LENGTH: nat := 16

  datatype LeaseRow = LeaseRow(prefix: string, blocksFound: nat)
  datatype Row = Row(leaseId: string, key: string, prefixValid: bool, chainVerified: bool, chainId: Option<nat>)

  /** Python's `key[:16]`. */
  function KeyPrefix(key: string): string {
    if |key| <= PREFIX_LENGTH then key else key[..PREFIX_LENGTH]
  }

  predicate PrefixOk(lease: LeaseRow, key: string) {
    lease.prefix == "" || Lower(KeyPrefix(key)) == Lower(lease.prefix)
  }

  /** A lease without a prefix takes any key; otherwise the first sixteen characters of the key, or all of a
      shorter one, must be the prefix up to case. */
  lemma {:induction false} PrefixMeans(lease: LeaseRow, key: string)
    ensures var n := if |key| < 16 then |key| else 16;
            PrefixOk(lease, key) <==>
              || lease.prefix == ""
              || (|lease.prefix| == n && forall i :: 0 <= i < n ==> LowerChar(key[i]) == LowerChar(lease.prefix[i]))
  {
    hide LowerChar;
    var a, b := Lower(KeyPrefix(key)), Lower(lease.prefix);
    assert forall i :: 0 <= i < |a| ==> a[i] == LowerChar(key[i]);
    assert forall i :: 0 <= i < |b| ==> b[i] == LowerChar(lease.prefix[i]);
  }

  /** Rows of lease `l` that count. */
  function Counted(rows: seq<Row>, l: string): nat {
    if rows == [] then 0
    else
      var r := rows[|rows| - 1];
      Counted(rows[..|rows| - 1], l) + if r.leaseId == l && r.prefixValid && r.chainVerified then 1 else 0
  }

  ghost predicate CountsFor(r: Row, l: string) {
    r.leaseId == l && r.prefixValid && r.chainVerified
  }

  ghost function CountingRows(rows: seq<Row>, l: string): set<int> {
    set i | 0 <= i < |rows| && CountsFor(rows[i], l)
  }

  lemma {:induction false} CountedMeans(rows: seq<Row>, l: string)
    ensures Counted(rows, l) == |CountingRows(rows, l)|
  {
    if rows == [] {
      assert CountingRows(rows, l) == {};
    } else {
      CountedMeans(rows[..|rows| - 1], l);
      CountingStep(rows, l);
    }
  }

  lemma {:induction false} CountingStep(rows: seq<Row>, l: string)
    requires rows != []
    ensures var n := |rows| - 1;
            |CountingRows(rows, l)| == |CountingRows(rows[..n], l)| + if CountsFor(rows[n], l) then 1 else 0
  {
    hide CountsFor;
    var n := |rows| - 1;
    var few := CountingRows(rows[..n], l);
    assert CountingRows(rows, l) == few + if CountsFor(rows[n], l) then {n} else {};
    assert n !in few;
  }

  /** The counter of every lease is the number of its rows that count; rows belong to known leases. */
  ghost predicate CountersAgree(leases: map<string, LeaseRow>, rows: seq<Row>) {
    && (forall l :: l in leases ==> leases[l].blocksFound == Counted(rows, l))
    && (forall i :: 0 <= i < |rows| ==> rows[i].leaseId == "" || rows[i].leaseId in leases)
  }

  /** A verified row of a lease names the block that has its key. */
  predicate OnChain(blocks: seq<Block>, r: Row) {
    if r.leaseId == "" || !r.chainVerified then r.chainId == None
    else r.chainId.Some? && 1 <= r.chainId.value <= |blocks| && blocks[r.chainId.value - 1].key == r.key
  }

  ghost predicate AllOnChain(blocks: seq<Block>, rows: seq<Row>) {
    forall i :: 0 <= i < |rows| ==> OnChain(blocks, rows[i])
  }

  lemma {:induction false} CountedAppend(rows: seq<Row>, r: Row, l: string)
    ensures Counted(rows + [r], l)
         == Counted(rows, l) + if r.leaseId == l && r.prefixValid && r.chainVerified then 1 else 0
  {
    assert (rows + [r])[..|rows|] == rows;
  }

  lemma {:induction false} NoRowsNoCount(rows: seq<Row>, l: string)
    requires forall i :: 0 <= i < |rows| ==> rows[i].leaseId != l
    ensures Counted(rows, l) == 0
  {
    if rows != [] {
      NoRowsNoCount(rows[..|rows| - 1], l);
    }
  }

  function LeasesAfter(leases: map<string, LeaseRow>, r: Row): map<string, LeaseRow>
    requires r.leaseId in leases
  {
    if r.prefixValid && r.chainVerified then
      leases[r.leaseId := leases[r.leaseId].(blocksFound := leases[r.leaseId].blocksFound + 1)]
    else leases
  }

  lemma {:induction false} CountersStep(leases: map<string, LeaseRow>, rows: seq<Row>, r: Row)
    requires CountersAgree(leases, rows) && r.leaseId in leases
    ensures CountersAgree(LeasesAfter(leases, r), rows + [r])
  {
    hide Counted;
    forall l | l in leases ensures LeasesAfter(leases, r)[l].blocksFound == Counted(rows + [r], l) {
      CountedAppend(rows, r, l);
    }
  }

  class BlockWatcher {
    const chain: ChainSimulator?
    var leases: map<string, LeaseRow>
    var rows: seq<Row>

    ghost predicate Valid() reads this, chain {
      && CountersAgree(leases, rows) && "" !in leases
      && (chain != null ==> chain.Valid() && AllOnChain(chain.blocks, rows))
    }

    constructor (chain: ChainSimulator?)
      requires chain != null ==> chain.Valid()
      ensures Valid() && this.chain == chain && leases == map[] && rows == []
    {
      this.chain, leases, rows := chain, map[], [];
    }

    /** A new lease starts at zero. */
    method AddLease(l: string, prefix: string)
      requires Valid() && l != "" && l !in leases
      modifies this`leases
      ensures Valid() && leases == old(leases)[l := LeaseRow(prefix, 0)]
    {
      hide OnChain;
      forall i | 0 <= i < |rows| ensures rows[i].leaseId != l {
      }
      NoRowsNoCount(rows, l);
      leases := leases[l := LeaseRow(prefix, 0)];
    }

    /** The search loop over the bounded lookup. */
    method FindOnChain(key: string) returns (id: Option<nat>)
      requires chain != null && chain.Valid()
      ensures id.Some? <==> FoundIn(ByKeyPrefix(chain.blocks, KeyPrefix(key)), key)
      ensures id.Some? ==> 1 <= id.value <= |chain.blocks| && chain.blocks[id.value - 1].key == key
    {
      hide ByKeyPrefix; hide KeysAgree; hide BalancesAgree; hide DifficultyAt;
      var found := ByKeyPrefix(chain.blocks, KeyPrefix(key));
      LookupGivesBlocks(chain.blocks, KeyPrefix(key));
      for i := 0 to |found|
        invariant forall k :: 0 <= k < i ==> found[k].key != key
      {
        if found[i].key == key {
          assert found[i] in chain.blocks;
          return Some(found[i].id);
        }
      }
      id := None;
    }

    /** `handle_block_found`. */
    method HandleBlockFound(leaseId: string, key: string)
      requires Valid()
      modifies this`leases, this`rows
      ensures Valid()
      ensures leaseId == "" ==> leases == old(leases) && rows == old(rows) + [Row("", key, true, true, None)]
      ensures leaseId != "" && leaseId !in old(leases) ==> leases == old(leases) && rows == old(rows)
      ensures leaseId in old(leases) ==>
                && |rows| == |old(rows)| + 1 && rows[..|old(rows)|] == old(rows)
                && var r := rows[|old(rows)|];
                && r.leaseId == leaseId && r.key == key
                && r.prefixValid == PrefixOk(old(leases)[leaseId], key)
                && r.chainVerified == (chain == null || FoundIn(ByKeyPrefix(chain.blocks, KeyPrefix(key)), key))
                && leases == LeasesAfter(old(leases), r)
    {
      hide ByKeyPrefix; hide FoundIn; hide PrefixOk; hide CountersAgree;
      if leaseId == "" {
        var r := Row("", key, true, true, None);
        SelfRow(leases, rows, r);
        rows := rows + [r];
        return;
      }
      if leaseId !in leases {
        return;
      }
      var r := CheckBlock(leaseId, key);
      CountersStep(leases, rows, r);
      rows := rows + [r];
      if r.chainVerified && r.prefixValid {
        leases := leases[leaseId := leases[leaseId].(blocksFound := leases[leaseId].blocksFound + 1)];
      }
    }

    /** The two checks on a block that is reported for a known lease. */
    method CheckBlock(leaseId: string, key: string) returns (r: Row)
      requires Valid() && leaseId in leases
      ensures r.leaseId == leaseId && r.key == key && r.prefixValid == PrefixOk(leases[leaseId], key)
      ensures r.chainVerified == (chain == null || FoundIn(ByKeyPrefix(chain.blocks, KeyPrefix(key)), key))
      ensures chain != null ==> OnChain(chain.blocks, r)
    {
      hide ByKeyPrefix; hide FoundIn; hide Lower; hide KeyPrefix; hide CountersAgree; hide AllOnChain;
      var lease := leases[leaseId];
      var prefixValid := true;
      if lease.prefix != "" {
        prefixValid := Lower(KeyPrefix(key)) == Lower(lease.prefix);
      }
      var chainVerified, chainId := false, None;
      if chain != null {
        chainId := FindOnChain(key);
        chainVerified := chainId.Some?;
      } else {
        chainVerified := true;
      }
      r := Row(leaseId, key, prefixValid, chainVerified, chainId);
    }
  }

  lemma {:induction false} SelfRow(leases: map<string, LeaseRow>, rows: seq<Row>, r: Row)
    requires CountersAgree(leases, rows) && "" !in leases && r.leaseId == ""
    ensures CountersAgree(leases, rows + [r])
  {
    hide Counted;
    forall l | l in leases ensures leases[l].blocksFound == Counted(rows + [r], l) {
      CountedAppend(rows, r, l);
    }
  }

  lemma {:induction false} LookupGivesBlocks(blocks: seq<Block>, prefix: string)
    ensures forall b :: b in ByKeyPrefix(blocks, prefix) ==> b in blocks
  {
    hide Matching;
    MatchingAreBlocks(blocks, prefix);
  }

  /** A reported key that is on the chain is recognised exactly when fewer than a hundred later blocks
      share its first sixteen characters in any case. */
  lemma {:induction false} VerifiedIff(blocks: seq<Block>, i: nat)
    requires DistinctKeys(blocks) && i < |blocks|
    ensures FoundIn(ByKeyPrefix(blocks, KeyPrefix(blocks[i].key)), blocks[i].key)
            <==> |Matching(blocks[i + 1..], KeyPrefix(blocks[i].key))| < 100
  {
    hide ByKeyPrefix; hide Matching;
    var key := blocks[i].key;
    assert Lower(key)[..|KeyPrefix(key)|] == Lower(KeyPrefix(key));
    LookupFindsKey(blocks, KeyPrefix(key), i);
  }

  // ----- A block that is crowded out

  function HexDigit(d: nat): (c: char)
    requires d < 16
    ensures HexChar(c)
  {
    "0123456789abcdef"[d]
  }

  function CrowdDigit(i: nat, j: nat): (c: char)
    requires i < 256
    ensures HexChar(c)
  {
    if j < PREFIX_LENGTH then 'a'
    else if j == PREFIX_LENGTH then HexDigit(i / 16)
    else if j == PREFIX_LENGTH + 1 then HexDigit(i % 16)
    else '0'
  }

  /** Keys of 64 hexadecimal digits that share their first sixteen. */
  function CrowdKey(i: nat): (key: string)
    requires i < 256
    ensures HexString(key, KEY_LENGTH, KEY_LENGTH)
  {
    seq(KEY_LENGTH, j requires 0 <= j < KEY_LENGTH => CrowdDigit(i, j))
  }

  const MARKER := "XEN11"

  /** A chain with one more such block than the lookup returns. */
  function Crowd(n: nat): (blocks: seq<Block>)
    requires n <= 256
    ensures |blocks| == n
  {
    seq(n, i requires 0 <= i < n => Block(i + 1, "miner", CrowdKey(i), MARKER, Normal))
  }

  lemma {:induction false} CrowdKeysDiffer(i: nat, j: nat)
    requires i < 256 && j < 256 && CrowdKey(i) == CrowdKey(j)
    ensures i == j
  {
    var a, b := CrowdKey(i), CrowdKey(j);
    assert a[PREFIX_LENGTH] == b[PREFIX_LENGTH] && a[PREFIX_LENGTH + 1] == b[PREFIX_LENGTH + 1];
    DigitsDiffer(i / 16, j / 16);
    DigitsDiffer(i % 16, j % 16);
  }

  lemma {:induction false} DigitsDiffer(a: nat, b: nat)
    requires a < 16 && b < 16 && HexDigit(a) == HexDigit(b)
    ensures a == b
  {
  }

  lemma {:induction false} CrowdDistinct(n: nat)
    requires n <= 256
    ensures DistinctKeys(Crowd(n))
  {
    hide CrowdKey;
    forall i, j | 0 <= i < j < n ensures Crowd(n)[i].key != Crowd(n)[j].key {
      if CrowdKey(i) == CrowdKey(j) {
        CrowdKeysDiffer(i, j);
      }
    }
  }

  lemma {:induction false} CrowdPrefix(i: nat, j: nat)
    requires i < 256 && j < 256
    ensures HasPrefix(CrowdKey(i), KeyPrefix(CrowdKey(j)))
  {
    var p := KeyPrefix(CrowdKey(j));
    assert forall k :: 0 <= k < |p| ==> p[k] == 'a' && CrowdKey(i)[k] == 'a';
    assert Lower(CrowdKey(i))[..|p|] == Lower(p);
  }

  lemma {:induction false} AllMatch(blocks: seq<Block>, prefix: string)
    requires forall i :: 0 <= i < |blocks| ==> HasPrefix(blocks[i].key, prefix)
    ensures |Matching(blocks, prefix)| == |blocks|
  {
    hide HasPrefix;
    if blocks != [] {
      AllMatch(blocks[..|blocks| - 1], prefix);
    }
  }

  /** The oldest block of such a chain is not found by its own key. */
  lemma {:induction false} CrowdedOut()
    ensures var blocks := Crowd(101);
            DistinctKeys(blocks) && !FoundIn(ByKeyPrefix(blocks, KeyPrefix(blocks[0].key)), blocks[0].key)
  {
    hide CrowdKey; hide ByKeyPrefix; hide FoundIn; hide HasPrefix; hide KeyPrefix; hide Matching; hide DistinctKeys;
    var blocks := Crowd(LOOKUP_LIMIT + 1);
    var prefix := KeyPrefix(blocks[0].key);
    CrowdDistinct(LOOKUP_LIMIT + 1);
    forall i | 0 <= i < LOOKUP_LIMIT ensures HasPrefix(blocks[1..][i].key, prefix) {
      CrowdPrefix(i + 1, 0);
    }
    AllMatch(blocks[1..], prefix);
    VerifiedIff(blocks, 0);
  }

  lemma {:induction false} MarkerIsNormal(window: bool)
    ensures Classify(MARKER, MARKER, window) == Some(Normal)
  {
    assert ContainsAt(MARKER, MARKER, 0);
    assert Uppercase(MARKER) <= |MARKER| by { UppercaseBound(MARKER); }
  }

  lemma {:induction false} UppercaseBound(s: string)
    ensures Uppercase(s) <= |s|
  {
    if s != "" {
      UppercaseBound(s[1..]);
    }
  }

  lemma {:induction false} CrowdGrows(n: nat)
    requires n < 256
    ensures Crowd(n + 1) == Crowd(n) + [Block(n + 1, "miner", CrowdKey(n), MARKER, Normal)]
    ensures !FoundIn(Crowd(n), CrowdKey(n))
  {
    hide CrowdKey;
    if FoundIn(Crowd(n), CrowdKey(n)) {
      var k :| 0 <= k < n && Crowd(n)[k].key == CrowdKey(n);
      CrowdKeysDiffer(k, n);
    }
  }

  /** It happens: the simulator accepts all these blocks, and the watcher then refuses the oldest one, for
      a lease whose prefix it has. */
  method MissedBlock() returns (row: Row)
    ensures row.key == CrowdKey(0) && row.prefixValid && !row.chainVerified
  {
    hide CrowdKey; hide Crowd; hide Classify; hide ByKeyPrefix; hide FoundIn; hide KeyPrefix; hide Lower;
    hide CountersAgree; hide AllOnChain; hide KeysAgree; hide BalancesAgree; hide DifficultyAt;
    var chain := new ChainSimulator(MIN_DIFFICULTY, 100, MARKER);
    EmptyCrowd();
    for i := 0 to LOOKUP_LIMIT + 1
      invariant fresh(chain) && chain.Valid() && chain.blocks == Crowd(i) && chain.marker == MARKER
    {
      CrowdGrows(i);
      MarkerIsNormal(false);
      var _ := chain.SubmitBlock(MARKER, CrowdKey(i), "miner", true, false);
    }
    CrowdedOut();
    FirstOfCrowd(LOOKUP_LIMIT + 1);
    var watcher := new BlockWatcher(chain);
    watcher.AddLease("lease-1", KeyPrefix(CrowdKey(0)));
    watcher.HandleBlockFound("lease-1", CrowdKey(0));
    row := watcher.rows[0];
  }

  lemma {:induction false} EmptyCrowd()
    ensures Crowd(0) == []
  {
  }

  lemma {:induction false} FirstOfCrowd(n: nat)
    requires 1 <= n <= 256
    ensures Crowd(n)[0].key == CrowdKey(0)
  {
    hide CrowdKey;
  }
}
