/** The Merkle root that treeminer/src/MerkleTree.cpp computes over the hashes of a block list, for any
    hash function of fixed width. */
module MerkleTree {

  const WIDTH: nat := 64

  type Hash = string -> string

  ghost predicate FixedWidth(h: Hash) {
    forall s :: |h(s)| == WIDTH
  }

  ghost predicate Leaves(xs: seq<string>) {
    forall i :: 0 <= i < |xs| ==> |xs[i]| == WIDTH
  }

  /** What node i of the next level hashes: two neighbours, the last one doubled when it has none. */
  function Pair(xs: seq<string>, i: nat): string
    requires 2 * i < |xs|
  {
    xs[2 * i] + if 2 * i + 1 < |xs| then xs[2 * i + 1] else xs[2 * i]
  }

  function Level(h: Hash, xs: seq<string>): (r: seq<string>)
    ensures |r| == (|xs| + 1) / 2
  {
    seq((|xs| + 1) / 2, i requires 0 <= i < (|xs| + 1) / 2 => h(Pair(xs, i)))
  }

  /** Halving ends because ceil(n/2) < n for n > 1. */
  function Root(h: Hash, xs: seq<string>): string
    requires xs != []
    decreases |xs|
  {
    if |xs| == 1 then xs[0] else Root(h, Level(h, xs))
  }

  /** The smallest trees, written out: left before right, and the last one doubled. */
  lemma {:induction false} SmallRoots(h: Hash, a: string, b: string, c: string)
    ensures Root(h, [a]) == a && Root(h, [a, b]) == h(a + b) && Root(h, [a, b, c]) == h(h(a + b) + h(c + c))
  {
    TwoLeaves(h, a, b);
    TwoLeaves(h, h(a + b), h(c + c));
    var xs := [a, b, c];
    assert Pair(xs, 0) == a + b && Pair(xs, 1) == c + c;
    assert |Level(h, xs)| == 2 && Level(h, xs)[0] == h(a + b) && Level(h, xs)[1] == h(c + c);
    assert Level(h, xs) == [h(a + b), h(c + c)];
  }

  lemma {:induction false} TwoLeaves(h: Hash, a: string, b: string)
    ensures Root(h, [a, b]) == h(a + b)
  {
    var xs := [a, b];
    assert Pair(xs, 0) == a + b;
    assert |Level(h, xs)| == 1 && Level(h, xs)[0] == h(a + b);
  }

  /** Everything that is hashed on the way from the leaves to the root. */
  function Inputs(h: Hash, xs: seq<string>): set<string>
    requires xs != []
    decreases |xs|
  {
    if |xs| == 1 then {}
    else (set i | 0 <= i < (|xs| + 1) / 2 :: Pair(xs, i)) + Inputs(h, Level(h, xs))
  }

  ghost predicate Collision(h: Hash, a: string, b: string) {
    a != b && h(a) == h(b)
  }

  /** Two pairs of neighbours that hash alike are the same, or are a collision. */
  lemma {:induction false} PairsAgree(h: Hash, xs: seq<string>, ys: seq<string>, i: nat)
    requires |xs| == |ys| && Leaves(xs) && Leaves(ys) && 2 * i < |xs|
    requires Pair(xs, i) == Pair(ys, i)
    ensures xs[2 * i] == ys[2 * i] && (2 * i + 1 < |xs| ==> xs[2 * i + 1] == ys[2 * i + 1])
  {
    var p, q := Pair(xs, i), Pair(ys, i);
    assert xs[2 * i] == p[..WIDTH] == q[..WIDTH] == ys[2 * i];
    if 2 * i + 1 < |xs| {
      assert xs[2 * i + 1] == p[WIDTH..] == q[WIDTH..] == ys[2 * i + 1];
    }
  }

  lemma {:induction false} SameBelow(h: Hash, xs: seq<string>, ys: seq<string>)
    requires |xs| == |ys| && Leaves(xs) && Leaves(ys)
    requires forall i :: 0 <= i < (|xs| + 1) / 2 ==> Pair(xs, i) == Pair(ys, i)
    ensures xs == ys
  {
    forall k | 0 <= k < |xs| ensures xs[k] == ys[k] {
      PairsAgree(h, xs, ys, k / 2);
      assert k == 2 * (k / 2) || k == 2 * (k / 2) + 1;
    }
  }

  /** Two lists of leaves with the same root are the same, or a collision of the hash function can be
      read off the two trees. */
  lemma {:induction false} ExtractCollision(h: Hash, xs: seq<string>, ys: seq<string>) returns (a: string, b: string)
    requires FixedWidth(h) && |xs| == |ys| > 0 && Leaves(xs) && Leaves(ys) && Root(h, xs) == Root(h, ys)
    ensures xs == ys || (a in Inputs(h, xs) && b in Inputs(h, ys) && Collision(h, a, b))
    decreases |xs|
  {
    a, b := "", "";
    if |xs| == 1 {
      assert xs == [xs[0]] && ys == [ys[0]];
    } else {
      var us, vs := Level(h, xs), Level(h, ys);
      assert Leaves(us) && Leaves(vs) by {
        forall i | 0 <= i < |us| ensures |us[i]| == WIDTH && |vs[i]| == WIDTH {
          assert us[i] == h(Pair(xs, i)) && vs[i] == h(Pair(ys, i));
        }
      }
      a, b := ExtractCollision(h, us, vs);
      if us == vs {
        if i :| 0 <= i < (|xs| + 1) / 2 && Pair(xs, i) != Pair(ys, i) {
          assert us[i] == h(Pair(xs, i)) && vs[i] == h(Pair(ys, i));
          a, b := Pair(xs, i), Pair(ys, i);
        } else {
          SameBelow(h, xs, ys);
        }
      }
    }
  }

  /** For lists of one length, root and leaves decide each other as long as the two trees themselves
      contain no collision. */
  lemma {:induction false} RootDeterminesLeaves(h: Hash, xs: seq<string>, ys: seq<string>)
    requires FixedWidth(h) && |xs| == |ys| > 0 && Leaves(xs) && Leaves(ys)
    requires forall a, b :: a in Inputs(h, xs) && b in Inputs(h, ys) ==> !Collision(h, a, b)
    ensures Root(h, xs) == Root(h, ys) <==> xs == ys
  {
    if Root(h, xs) == Root(h, ys) {
      var a, b := ExtractCollision(h, xs, ys);
    }
  }

  /** The length matters: repeating the last leaf of an odd list changes nothing. */
  lemma {:induction false} RepeatedLastLeaf(h: Hash, xs: seq<string>)
    requires |xs| > 1 && |xs| % 2 == 1
    ensures Root(h, xs + [xs[|xs| - 1]]) == Root(h, xs)
  {
    var ys := xs + [xs[|xs| - 1]];
    forall i | 0 <= i < (|xs| + 1) / 2 ensures Pair(xs, i) == Pair(ys, i) {
    }
    assert Level(h, xs) == Level(h, ys);
  }

  // ----- Lists of different lengths

  /** How many levels lie above n leaves. */
  function Depth(n: nat): nat
    requires n >= 1
  {
    if n == 1 then 0 else 1 + Depth((n + 1) / 2)
  }

  function Power2(d: nat): (p: nat)
    ensures p >= 1
  {
    if d == 0 then 1 else 2 * Power2(d - 1)
  }

  /** The d-th level above the leaves. */
  function Raise(h: Hash, xs: seq<string>, d: nat): (r: seq<string>)
    requires xs != [] && d <= Depth(|xs|)
    ensures r != [] && Depth(|r|) == Depth(|xs|) - d
    decreases d
  {
    if d == 0 then xs else Raise(h, Level(h, xs), d - 1)
  }

  /** Any level of a tree, taken as a list of leaves, has the same root, and hashes nothing new. */
  lemma {:induction false} LevelsForge(h: Hash, xs: seq<string>, d: nat)
    requires xs != [] && d <= Depth(|xs|)
    ensures Root(h, Raise(h, xs, d)) == Root(h, xs)
    ensures Inputs(h, Raise(h, xs, d)) <= Inputs(h, xs)
    decreases d
  {
    if d > 0 {
      hide Level; hide Root; hide Inputs;
      LevelForges(h, xs);
      LevelsForge(h, Level(h, xs), d - 1);
    }
  }

  lemma {:induction false} LevelForges(h: Hash, xs: seq<string>)
    requires |xs| > 1
    ensures Root(h, Level(h, xs)) == Root(h, xs) && Inputs(h, Level(h, xs)) <= Inputs(h, xs)
  {
    hide Level;
  }

  lemma {:induction false} RaisedLeaves(h: Hash, xs: seq<string>, d: nat)
    requires xs != [] && d <= Depth(|xs|) && FixedWidth(h) && Leaves(xs)
    ensures Leaves(Raise(h, xs, d))
    decreases d
  {
    if d > 0 {
      LevelLeaves(h, xs);
      RaisedLeaves(h, Level(h, xs), d - 1);
    }
  }

  lemma {:induction false} LevelLeaves(h: Hash, xs: seq<string>)
    requires FixedWidth(h)
    ensures Leaves(Level(h, xs))
  {
    var us := Level(h, xs);
    forall i | 0 <= i < |us| ensures |us[i]| == WIDTH {
      assert us[i] == h(Pair(xs, i));
    }
  }

  /** Which of n leaves stands at place i of the full tree, where each node without a right neighbour
      has its own subtree repeated in that place. */
  function Source(n: nat, i: nat): (k: nat)
    requires n >= 1
    ensures k < n
    ensures i < n ==> k == i
  {
    if n == 1 then 0
    else
      var j := 2 * Source((n + 1) / 2, i / 2) + i % 2;
      if j < n then j else j - 1
  }

  /** The list filled up to a power of two by repeating the last subtree at each level. */
  function Completion(xs: seq<string>): (r: seq<string>)
    requires xs != []
    ensures |r| == Power2(Depth(|xs|))
  {
    seq(Power2(Depth(|xs|)), i requires 0 <= i < Power2(Depth(|xs|)) => xs[Source(|xs|, i)])
  }

  lemma {:induction false} DepthFits(n: nat)
    requires n >= 1
    ensures n <= Power2(Depth(n))
  {
    if n > 1 {
      DepthFits((n + 1) / 2);
    }
  }

  /** Completion only appends. */
  lemma {:induction false} CompletionExtends(xs: seq<string>)
    requires xs != []
    ensures |xs| <= |Completion(xs)| && Completion(xs)[..|xs|] == xs
  {
    hide Source; hide Depth;
    DepthFits(|xs|);
  }

  lemma {:induction false} SourcePair(n: nat, k: nat)
    requires n > 1
    ensures var j := Source((n + 1) / 2, k);
            && Source(n, 2 * k) == 2 * j < n
            && Source(n, 2 * k + 1) == if 2 * j + 1 < n then 2 * j + 1 else 2 * j
  {
    assert (2 * k) / 2 == k && (2 * k) % 2 == 0;
    assert (2 * k + 1) / 2 == k && (2 * k + 1) % 2 == 1;
  }

  /** Neighbours of the completed list are neighbours of the list. */
  lemma {:induction false} CompletedPair(xs: seq<string>, k: nat)
    requires |xs| > 1 && 2 * k + 1 < Power2(Depth(|xs|))
    ensures |Completion(xs)| == Power2(Depth(|xs|))
    ensures var j := Source((|xs| + 1) / 2, k);
            2 * j < |xs| && Pair(Completion(xs), k) == Pair(xs, j)
  {
    hide Depth; hide Source; hide Power2;
    SourcePair(|xs|, k);
    var c := Completion(xs);
    assert c[2 * k] == xs[Source(|xs|, 2 * k)] && c[2 * k + 1] == xs[Source(|xs|, 2 * k + 1)];
  }

  /** Completing and hashing a level commute. */
  lemma {:induction false} CompletedLevel(h: Hash, xs: seq<string>)
    requires |xs| > 1
    ensures Level(h, Completion(xs)) == Completion(Level(h, xs))
  {
    hide Source;
    var n := |xs|;
    var a, b := Level(h, Completion(xs)), Completion(Level(h, xs));
    assert Power2(Depth(n)) == 2 * Power2(Depth((n + 1) / 2));
    forall k | 0 <= k < |a| ensures a[k] == b[k] {
      CompletedPair(xs, k);
    }
  }

  /** The completed list has the same root. */
  lemma {:induction false} CompletedRoot(h: Hash, xs: seq<string>)
    requires xs != []
    ensures Root(h, Completion(xs)) == Root(h, xs)
    decreases |xs|
  {
    hide Source; hide Level; hide Completion;
    if |xs| == 1 {
      CompletedOne(xs);
    } else {
      CompletedRoot(h, Level(h, xs));
      CompletedLevel(h, xs);
      assert |Completion(xs)| == 2 * Power2(Depth((|xs| + 1) / 2));
    }
  }

  lemma {:induction false} CompletedOne(xs: seq<string>)
    requires |xs| == 1
    ensures Completion(xs) == xs
  {
    assert Power2(0) == 1;
  }

  /** Its tree hashes nothing else. */
  lemma {:induction false} CompletedInputs(h: Hash, xs: seq<string>, s: string)
    requires xs != [] && s in Inputs(h, Completion(xs))
    ensures s in Inputs(h, xs)
    decreases |xs|
  {
    hide Source; hide Level; hide Completion; hide Depth; hide Power2; hide Pair;
    if |xs| == 1 {
      CompletedOne(xs);
    } else {
      var c, us := Completion(xs), Level(h, xs);
      CompletedLevel(h, xs);
      CompletedLength(xs);
      if s in Inputs(h, Level(h, c)) {
        CompletedInputs(h, us, s);
      } else {
        var k :| 0 <= k < (|c| + 1) / 2 && Pair(c, k) == s;
        CompletedPair(xs, k);
      }
    }
  }

  lemma {:induction false} CompletedLength(xs: seq<string>)
    requires |xs| > 1
    ensures |Completion(xs)| == Power2(Depth(|xs|)) == 2 * Power2(Depth((|xs| + 1) / 2)) && |Completion(xs)| > 1
  {
  }

  lemma {:induction false} CompletedLeaves(xs: seq<string>)
    requires xs != [] && Leaves(xs)
    ensures Leaves(Completion(xs))
  {
    hide Source; hide Depth;
  }

  /** Trees of equal depth without a collision have the same root exactly when their completed lists
      are the same. */
  lemma {:induction false} SameDepth(h: Hash, xs: seq<string>, ys: seq<string>)
    requires FixedWidth(h) && xs != [] && ys != [] && Leaves(xs) && Leaves(ys) && Depth(|xs|) == Depth(|ys|)
    requires forall a, b :: a in Inputs(h, xs) && b in Inputs(h, ys) ==> !Collision(h, a, b)
    ensures Root(h, xs) == Root(h, ys) <==> Completion(xs) == Completion(ys)
  {
    hide Source; hide Depth; hide Inputs; hide Root; hide Leaves; hide Completion; hide Collision;
    CompletedRoot(h, xs);
    CompletedRoot(h, ys);
    CompletedLeaves(xs);
    CompletedLeaves(ys);
    forall a, b | a in Inputs(h, Completion(xs)) && b in Inputs(h, Completion(ys)) ensures !Collision(h, a, b) {
      CompletedInputs(h, xs, a);
      CompletedInputs(h, ys, b);
    }
    RootDeterminesLeaves(h, Completion(xs), Completion(ys));
  }

  /** The level of a tree that is at most d levels deep. */
  function Trim(h: Hash, xs: seq<string>, d: nat): (r: seq<string>)
    requires xs != []
    ensures r != [] && Depth(|r|) == if Depth(|xs|) < d then Depth(|xs|) else d
  {
    if Depth(|xs|) <= d then xs else Raise(h, xs, Depth(|xs|) - d)
  }

  /** The exact condition for any two lists: trees without a collision have the same root exactly when
      their levels of equal depth, the leaves of the shallower tree and the level of the deeper one that
      is as deep, have the same completed list. */
  lemma {:induction false} SameRootIff(h: Hash, xs: seq<string>, ys: seq<string>)
    requires FixedWidth(h) && xs != [] && ys != [] && Leaves(xs) && Leaves(ys)
    requires forall a, b :: a in Inputs(h, xs) && b in Inputs(h, ys) ==> !Collision(h, a, b)
    ensures Root(h, xs) == Root(h, ys)
            <==> Completion(Trim(h, xs, Depth(|ys|))) == Completion(Trim(h, ys, Depth(|xs|)))
  {
    hide Source; hide Inputs; hide Root; hide Leaves; hide Completion; hide Raise; hide Depth; hide Collision;
    var us, vs := Trim(h, xs, Depth(|ys|)), Trim(h, ys, Depth(|xs|));
    TrimmedTree(h, xs, Depth(|ys|));
    TrimmedTree(h, ys, Depth(|xs|));
    SameDepth(h, us, vs);
  }

  lemma {:induction false} TrimmedTree(h: Hash, xs: seq<string>, d: nat)
    requires xs != [] && FixedWidth(h) && Leaves(xs)
    ensures var us := Trim(h, xs, d); Leaves(us) && Root(h, us) == Root(h, xs) && Inputs(h, us) <= Inputs(h, xs)
  {
    hide Inputs; hide Root; hide Leaves; hide Raise; hide Depth;
    if Depth(|xs|) > d {
      LevelsForge(h, xs, Depth(|xs|) - d);
      RaisedLeaves(h, xs, Depth(|xs|) - d);
    }
  }

  /** The tree object: its root and the children of every inner node. */
  class Tree {
    var root: string
    var nodes: map<string, (string, string)>

    /** Every recorded node is the hash of its two children. */
    ghost predicate Hashed(h: Hash) reads this {
      forall k :: k in nodes ==> h(nodes[k].0 + nodes[k].1) == k
    }

    constructor (h: Hash, elements: seq<string>)
      requires elements != []
      ensures root == Root(h, elements) && Hashed(h)
      ensures nodes.Keys == Inner(h, elements)
    {
      root, nodes := "", map[];
      new;
      BuildTree(h, elements);
    }

    /** `buildTree`. */
    method BuildTree(h: Hash, elements: seq<string>)
      requires elements != [] && Hashed(h)
      modifies this
      ensures root == Root(h, elements) && Hashed(h)
      ensures nodes.Keys == old(nodes.Keys) + Inner(h, elements)
      decreases |elements|
    {
      if |elements| == 1 {
        root := elements[0];
        return;
      }
      var newElements := [];
      var i := 0;
      while i < |elements|
        invariant i == 2 * |newElements| && |newElements| <= (|elements| + 1) / 2
        invariant forall k :: 0 <= k < |newElements| ==> newElements[k] == h(Pair(elements, k))
        invariant Hashed(h) && nodes.Keys == old(nodes.Keys) + set k | k in newElements
        decreases |elements| - i
      {
        var left := elements[i];
        var right := if i + 1 < |elements| then elements[i + 1] else left;
        var newHash := h(left + right);
        assert left + right == Pair(elements, |newElements|);
        nodes := nodes[newHash := (left, right)];
        newElements := newElements + [newHash];
        i := i + 2;
      }
      assert newElements == Level(h, elements);
      BuildTree(h, newElements);
    }
  }

  /** All hashes above the leaves. */
  function Inner(h: Hash, xs: seq<string>): set<string>
    requires xs != []
    decreases |xs|
  {
    if |xs| == 1 then {} else (set k | k in Level(h, xs)) + Inner(h, Level(h, xs))
  }

  lemma {:induction false} RootIsInner(h: Hash, xs: seq<string>)
    requires |xs| > 1
    ensures Root(h, xs) in Inner(h, xs)
    decreases |xs|
  {
    var us := Level(h, xs);
    if |us| == 1 {
      assert us[0] in us;
    } else {
      RootIsInner(h, us);
    }
  }
}
