/** Accounting in the mining loops: how many hash attempts are reported with each find
    (treeminer/src/MineUnit.cpp, treeminer/src/CpuMiningWorker.cpp), and who is mined for in each slot. */
module MiningLoop {

  /** A candidate find: its position in the batch, and whether its digest passes the CPU's own check. */
  datatype Match = Match(index: nat, accepted: bool)
  datatype Batch = Batch(attempts: nat, matches: seq<Match>)

  function Sum(xs: seq<nat>): nat {
    if xs == [] then 0 else Sum(xs[..|xs| - 1]) + xs[|xs| - 1]
  }

  /** One past the highest position seen. */
  function Reach(matches: seq<Match>): nat {
    if matches == [] then 0
    else
      var r, i := Reach(matches[..|matches| - 1]), matches[|matches| - 1].index;
      if i >= r then i + 1 else r
  }

  function Credited(b: Batch): nat {
    if b.attempts >= Reach(b.matches) then b.attempts else Reach(b.matches)
  }

  /** A batch is credited with exactly its attempts when and only when all finds lie inside it. */
  lemma {:induction false} CreditedExactly(b: Batch)
    ensures Credited(b) == b.attempts <==> forall i :: 0 <= i < |b.matches| ==> b.matches[i].index < b.attempts
  {
    ReachBound(b.matches, b.attempts);
  }

  lemma {:induction false} ReachBound(matches: seq<Match>, n: nat)
    ensures Reach(matches) <= n <==> forall i :: 0 <= i < |matches| ==> matches[i].index < n
  {
    if matches != [] {
      ReachBound(matches[..|matches| - 1], n);
    }
  }

  lemma {:induction false} SumAppend(xs: seq<nat>, x: nat)
    ensures Sum(xs + [x]) == Sum(xs) + x
  {
    assert (xs + [x])[..|xs|] == xs;
  }

  /** Up to and including find k, what is reported is what was carried over and all positions up to
      the highest one seen by then. */
  ghost predicate SharedOut(carried: nat, matches: seq<Match>, reported: seq<nat>) {
    && |reported| == |matches|
    && forall k :: 0 < k <= |matches| ==> Sum(reported[..k]) == carried + Reach(matches[..k])
  }

  lemma {:induction false} NextFind(carried: nat, matches: seq<Match>, m: Match, reported: seq<nat>, x: nat)
    requires SharedOut(carried, matches, reported)
    requires Sum(reported) + x == carried + Reach(matches + [m])
    ensures SharedOut(carried, matches + [m], reported + [x])
  {
    hide Sum; hide Reach;
    var longer, all := reported + [x], matches + [m];
    SumAppend(reported, x);
    forall k | 0 < k <= |all| ensures Sum(longer[..k]) == carried + Reach(all[..k]) {
      if k < |all| {
        assert longer[..k] == reported[..k] && all[..k] == matches[..k];
      } else {
        assert longer[..k] == longer && all[..k] == all;
      }
    }
  }

  /** `MineUnit::submitMatches`: the finds of a batch, in any order, share out its attempts and what was
      carried over; the rest is carried on. */
  method SubmitMatches(carried: nat, b: Batch) returns (reported: seq<nat>, attempts: nat)
    ensures SharedOut(carried, b.matches, reported)
    ensures Sum(reported) + attempts == carried + Credited(b)
  {
    hide SharedOut; hide Sum;
    reported, attempts := [], carried;
    var next := 0;
    NothingShared(carried);
    for k := 0 to |b.matches|
      invariant next == Reach(b.matches[..k]) && SharedOut(carried, b.matches[..k], reported)
      invariant Sum(reported) + attempts == carried + next
    {
      assert b.matches[..k + 1] == b.matches[..k] + [b.matches[k]];
      var index := b.matches[k].index;
      if index >= next {
        attempts := attempts + (index - next + 1);
        next := index + 1;
      }
      NextFind(carried, b.matches[..k], b.matches[k], reported, attempts);
      SumAppend(reported, attempts);
      reported := reported + [attempts];
      attempts := 0;
    }
    assert b.matches[..|b.matches|] == b.matches;
    if b.attempts >= next {
      attempts := attempts + (b.attempts - next);
    }
  }

  lemma {:induction false} NothingShared(carried: nat)
    ensures Sum([]) == 0 && SharedOut(carried, [], []) && AcceptedShare(carried, [], [])
  {
  }

  function AcceptedCount(matches: seq<Match>): nat {
    if matches == [] then 0
    else AcceptedCount(matches[..|matches| - 1]) + if matches[|matches| - 1].accepted then 1 else 0
  }

  ghost function AcceptedPlaces(matches: seq<Match>): set<int> {
    set i | 0 <= i < |matches| && matches[i].accepted
  }

  lemma {:induction false} AcceptedMeans(matches: seq<Match>)
    ensures AcceptedCount(matches) == |AcceptedPlaces(matches)|
  {
    if matches == [] {
      assert AcceptedPlaces(matches) == {};
    } else {
      var n := |matches| - 1;
      AcceptedMeans(matches[..n]);
      var few := AcceptedPlaces(matches[..n]);
      assert AcceptedPlaces(matches) == few + if matches[n].accepted then {n} else {};
      assert n !in few;
    }
  }

  /** For each accepted find: what was carried over and all positions up to the highest one seen by
      then.  A rejected find has no entry. */
  function AcceptedUpTo(matches: seq<Match>, carried: nat): seq<nat> {
    if matches == [] then []
    else
      var init, m := matches[..|matches| - 1], matches[|matches| - 1];
      AcceptedUpTo(init, carried) + if m.accepted then [carried + Reach(matches)] else []
  }

  /** The running sums of the reports are exactly those numbers. */
  ghost predicate AcceptedShare(carried: nat, matches: seq<Match>, reported: seq<nat>) {
    && |reported| == |AcceptedUpTo(matches, carried)|
    && forall k :: 0 <= k < |reported| ==> Sum(reported[..k + 1]) == AcceptedUpTo(matches, carried)[k]
  }

  lemma {:induction false} NextAccepted(carried: nat, matches: seq<Match>, m: Match, reported: seq<nat>, x: nat)
    requires AcceptedShare(carried, matches, reported)
    requires Sum(reported) + x == carried + Reach(matches + [m])
    ensures AcceptedShare(carried, matches + [m], if m.accepted then reported + [x] else reported)
  {
    hide Sum; hide Reach;
    var longer, all := reported + [x], matches + [m];
    assert all[..|matches|] == matches;
    SumAppend(reported, x);
    assert forall n :: 0 <= n <= |reported| ==> longer[..n] == reported[..n];
    assert longer[..|longer|] == longer;
  }

  /** The loop in `CpuMiningWorker::runWorker`: a find whose digest is rejected is skipped, and its
      attempts stay with the next one. */
  method CpuMatches(carried: nat, b: Batch) returns (reported: seq<nat>, attempts: nat)
    ensures |reported| == AcceptedCount(b.matches) && AcceptedShare(carried, b.matches, reported)
    ensures Sum(reported) + attempts == carried + Credited(b)
  {
    hide AcceptedShare; hide Sum;
    reported, attempts := [], carried;
    var next := 0;
    NothingShared(carried);
    for k := 0 to |b.matches|
      invariant next == Reach(b.matches[..k]) && AcceptedShare(carried, b.matches[..k], reported)
      invariant Sum(reported) + attempts == carried + next && |reported| == AcceptedCount(b.matches[..k])
    {
      assert b.matches[..k + 1] == b.matches[..k] + [b.matches[k]];
      var index := b.matches[k].index;
      if index >= next {
        attempts := attempts + (index - next + 1);
        next := index + 1;
      }
      NextAccepted(carried, b.matches[..k], b.matches[k], reported, attempts);
      if !b.matches[k].accepted {
        continue;
      }
      SumAppend(reported, attempts);
      reported := reported + [attempts];
      attempts := 0;
    }
    assert b.matches[..|b.matches|] == b.matches;
    if b.attempts >= next {
      attempts := attempts + (b.attempts - next);
    }
  }

  function TotalAttempts(batches: seq<Batch>): nat {
    if batches == [] then 0 else TotalAttempts(batches[..|batches| - 1]) + batches[|batches| - 1].attempts
  }

  /** How many finds are reported: all of them on a GPU, the accepted ones on a CPU. */
  function Finds(batches: seq<Batch>, cpu: bool): nat {
    if batches == [] then 0
    else
      var matches := batches[|batches| - 1].matches;
      Finds(batches[..|batches| - 1], cpu) + if cpu then AcceptedCount(matches) else |matches|
  }

  lemma {:induction false} SumConcat(xs: seq<nat>, ys: seq<nat>)
    ensures Sum(xs + ys) == Sum(xs) + Sum(ys)
  {
    if ys == [] {
      assert xs + ys == xs;
    } else {
      assert (xs + ys)[..|xs + ys| - 1] == xs + ys[..|ys| - 1];
      SumConcat(xs, ys[..|ys| - 1]);
    }
  }

  /** Over any number of batches, on either kind of worker: what the finds report and what is still
      carried is exactly what was hashed. */
  method MineBatches(batches: seq<Batch>, cpu: bool) returns (reported: seq<nat>, attempts: nat)
    requires forall k, i :: 0 <= k < |batches| && 0 <= i < |batches[k].matches| ==>
               batches[k].matches[i].index < batches[k].attempts
    ensures Sum(reported) + attempts == TotalAttempts(batches) && |reported| == Finds(batches, cpu)
  {
    reported, attempts := [], 0;
    for k := 0 to |batches|
      invariant Sum(reported) + attempts == TotalAttempts(batches[..k]) && |reported| == Finds(batches[..k], cpu)
    {
      assert batches[..k + 1][..k] == batches[..k];
      CreditedExactly(batches[k]);
      var more;
      if cpu {
        more, attempts := CpuMatches(attempts, batches[k]);
      } else {
        more, attempts := SubmitMatches(attempts, batches[k]);
      }
      SumConcat(reported, more);
      reported := reported + more;
    }
    assert batches[..|batches|] == batches;
  }

  // ----- Fee slots

  datatype Beneficiary = User | Developer | Eco

  /** The rule of `MineUnit::runMineLoop` for batch `count` of a cycle of a thousand. */
  function GpuBeneficiary(count: nat, permillage: nat, eco: bool): Beneficiary {
    if 1000 - count <= permillage then
      if 1000 - count <= permillage / 2 && eco then Eco else Developer
    else User
  }

  /** The rule of the CPU work provider in treeminer/src/main.cpp. */
  function CpuBeneficiary(sequence: nat, permillage: nat, eco: bool): Beneficiary
    requires permillage <= 1000
  {
    if permillage > 0 && sequence % 1000 >= 1000 - permillage then
      if eco && sequence % 1000 >= 1000 - permillage / 2 then Eco else Developer
    else User
  }

  lemma {:induction false} SameBeneficiary(slot: nat, permillage: nat, eco: bool)
    requires permillage <= 1000
    ensures CpuBeneficiary(slot, permillage, eco) == GpuBeneficiary(slot % 1000, permillage, eco)
  {
  }

  /** Whom the first n slots serve. */
  function Schedule(n: nat, permillage: nat, eco: bool): (r: seq<Beneficiary>)
    ensures |r| == n
  {
    seq(n, i requires 0 <= i < n => GpuBeneficiary(i % 1000, permillage, eco))
  }

  function Tally(served: seq<Beneficiary>, who: Beneficiary): nat {
    if served == [] then 0
    else Tally(served[..|served| - 1], who) + if served[|served| - 1] == who then 1 else 0
  }

  /** How many of the first n slots go to `who`. */
  function Slots(n: nat, permillage: nat, eco: bool, who: Beneficiary): nat {
    Tally(Schedule(n, permillage, eco), who)
  }

  lemma {:induction false} NextSlot(n: nat, permillage: nat, eco: bool, who: Beneficiary)
    ensures Slots(0, permillage, eco, who) == 0
    ensures Slots(n + 1, permillage, eco, who) == Slots(n, permillage, eco, who)
            + if GpuBeneficiary(n % 1000, permillage, eco) == who then 1 else 0
  {
    hide GpuBeneficiary;
    assert Schedule(n + 1, permillage, eco)[..n] == Schedule(n, permillage, eco);
  }

  /** The counter of `MineUnit::runMineLoop` over n batches from the start of a cycle. */
  method GpuSlots(n: nat, permillage: nat, eco: bool) returns (served: seq<Beneficiary>)
    ensures served == Schedule(n, permillage, eco)
  {
    hide GpuBeneficiary;
    served := [];
    var batchComputeCount := 0;
    for k := 0 to n
      invariant batchComputeCount == k % 1000
      invariant |served| == k && forall i :: 0 <= i < k ==> served[i] == GpuBeneficiary(i % 1000, permillage, eco)
    {
      served := served + [GpuBeneficiary(batchComputeCount, permillage, eco)];
      batchComputeCount := batchComputeCount + 1;
      if batchComputeCount >= 1000 {
        batchComputeCount := 0;
      }
    }
  }

  /** The sequence counter of the CPU work provider over n requests, which moves only while there is a
      fee: the same slots go to the same beneficiaries. */
  method CpuSlots(n: nat, permillage: nat, eco: bool) returns (served: seq<Beneficiary>)
    requires permillage <= 1000
    ensures served == Schedule(n, permillage, eco)
  {
    hide GpuBeneficiary;
    served := [];
    var cpuWorkSequence := 0;
    for k := 0 to n
      invariant permillage > 0 ==> cpuWorkSequence == k
      invariant |served| == k && forall i :: 0 <= i < k ==> served[i] == GpuBeneficiary(i % 1000, permillage, eco)
    {
      SameBeneficiary(k, permillage, eco);
      var who := User;
      if permillage > 0 {
        var slot := cpuWorkSequence % 1000;
        cpuWorkSequence := cpuWorkSequence + 1;
        if slot >= 1000 - permillage {
          who := if eco && slot >= 1000 - permillage / 2 then Eco else Developer;
        }
      }
      served := served + [who];
    }
  }

  function Over(n: nat, bound: nat): nat {
    if n % 1000 + bound > 1000 then n % 1000 + bound - 1000 else 0
  }

  /** Exact counts after n slots: every whole cycle gives p fee slots, the last p/2 of them to the eco
      address when there is one, and an unfinished cycle gives what its tail has reached. */
  lemma {:induction false} SlotCounts(n: nat, p: nat, eco: bool)
    requires p <= 1000
    ensures var half := if eco then p / 2 else 0;
            && Slots(n, p, eco, Eco) == n / 1000 * half + Over(n, half)
            && Slots(n, p, eco, Eco) + Slots(n, p, eco, Developer) == n / 1000 * p + Over(n, p)
  {
    hide Slots;
    NextSlot(if n > 0 then n - 1 else 0, p, eco, Eco);
    NextSlot(if n > 0 then n - 1 else 0, p, eco, Developer);
    if n > 0 {
      SlotCounts(n - 1, p, eco);
      var half := if eco then p / 2 else 0;
      CycleStep(n, p);
      CycleStep(n, half);
    }
  }

  lemma {:induction false} CycleStep(n: nat, p: nat)
    requires n > 0 && p <= 1000
    ensures n / 1000 * p + Over(n, p)
         == (n - 1) / 1000 * p + Over(n - 1, p) + if 1000 - (n - 1) % 1000 <= p then 1 else 0
  {
    if n % 1000 == 0 {
      assert n / 1000 == (n - 1) / 1000 + 1;
      assert n / 1000 * p == (n - 1) / 1000 * p + p;
    } else {
      assert n / 1000 == (n - 1) / 1000;
    }
  }

  /** A cycle has exactly p fee slots, and at no point of a run has more than the share p/1000 been
      taken. */
  lemma {:induction false} FeeShare(n: nat, p: nat, eco: bool)
    requires p <= 1000
    ensures Slots(1000, p, eco, Eco) + Slots(1000, p, eco, Developer) == p
    ensures Slots(1000, p, eco, Eco) == if eco then p / 2 else 0
    ensures 1000 * (Slots(n, p, eco, Eco) + Slots(n, p, eco, Developer)) <= n * p
  {
    hide Slots;
    SlotCounts(1000, p, eco);
    SlotCounts(n, p, eco);
    WholeCycles(n, p);
    TailShare(n % 1000, p);
    ProductNonNegative(n % 1000, p);
  }

  lemma {:induction false} TailShare(r: nat, p: nat)
    requires r < 1000 && p <= 1000
    ensures 1000 * (r + p - 1000) <= r * p
  {
    Distribute(r, p);
    ProductNonNegative(1000 - r, 1000 - p);
  }

  lemma {:induction false} Distribute(r: int, p: int)
    ensures (1000 - r) * (1000 - p) == 1000000 - 1000 * p - 1000 * r + r * p
  {
  }

  lemma {:induction false} ProductNonNegative(x: nat, y: nat)
    ensures x * y >= 0
  {
  }

  lemma {:induction false} WholeCycles(n: nat, p: nat)
    ensures n * p == 1000 * (n / 1000 * p) + n % 1000 * p
  {
    var q, r := n / 1000, n % 1000;
    assert n == 1000 * q + r;
    assert (1000 * q + r) * p == 1000 * (q * p) + r * p;
  }
}
