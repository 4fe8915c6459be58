/** Completeness, soundness, binding and cost of the Merkle tree. */
module MerkleTheorems {
  import opened Merkle

  function Pow2(n: nat): nat { if n == 0 then 1 else 2 * Pow2(n - 1) }

  /** The hash does not confuse these two strings. */
  ghost predicate Separates(h: HashFn, x: Bytes, y: Bytes) {
    h(x) == h(y) ==> x == y
  }

  // ----- reference definition: a node by its height and position -----

  function Width(n: nat, k: nat): nat {
    if k == 0 then n else (Width(n, k - 1) + 1) / 2
  }

  lemma {:induction false} WidthPositive(n: nat, k: nat)
    requires n > 0
    ensures Width(n, k) > 0
  {
    if k > 0 { WidthPositive(n, k - 1); }
  }

  /** The digest at height k, position j, read top-down; a missing right child repeats the left one. */
  function NodeAt(h: HashFn, level: seq<Digest>, k: nat, j: nat): Digest
    requires level != [] && j < Width(|level|, k)
  {
    if k == 0 then level[j]
    else
      var w := Width(|level|, k - 1);
      h(Cat(NodeAt(h, level, k - 1, 2 * j), NodeAt(h, level, k - 1, if 2 * j + 1 < w then 2 * j + 1 else 2 * j)))
  }

  /** The level reached after k rounds of the loop. */
  function Up(h: HashFn, level: seq<Digest>, k: nat): (up: seq<Digest>)
    ensures |up| == Width(|level|, k)
  {
    if k == 0 then level else Next(h, Up(h, level, k - 1))
  }

  lemma {:induction false} UpFromNext(h: HashFn, level: seq<Digest>, k: nat)
    ensures Up(h, level, k + 1) == Up(h, Next(h, level), k)
  {
    if k > 0 { UpFromNext(h, level, k - 1); }
  }

  /** Every node the loop computes is the node of the top-down definition. */
  lemma {:induction false} LoopComputesNodes(h: HashFn, level: seq<Digest>, k: nat, j: nat)
    requires level != [] && j < Width(|level|, k)
    ensures Up(h, level, k)[j] == NodeAt(h, level, k, j)
  {
    if k > 0 {
      var below := Up(h, level, k - 1);
      var right := if 2 * j + 1 < |below| then 2 * j + 1 else 2 * j;
      LoopComputesNodes(h, level, k - 1, 2 * j);
      LoopComputesNodes(h, level, k - 1, right);
      assert Up(h, level, k)[j] == h(PairAt(below, j));
    }
  }

  /** The tree holds one level per height, root first, and its root is the single node at the full height. */
  lemma {:induction false} TreeIsItsNodes(h: HashFn, level: seq<Digest>)
    requires level != []
    ensures |Levels(h, level)| == Height(|level|) + 1
    ensures forall k :: 0 <= k <= Height(|level|) ==> Levels(h, level)[Height(|level|) - k] == Up(h, level, k)
    ensures Up(h, level, Height(|level|)) == [RootOf(h, level)]
    decreases |level|
  {
    if |level| > 1 {
      var next := Next(h, level);
      var top := Height(|level|);
      TreeIsItsNodes(h, next);
      UpFromNext(h, level, Height(|next|));
      forall k | 0 <= k <= top ensures Levels(h, level)[top - k] == Up(h, level, k) {
        if k > 0 {
          UpFromNext(h, level, k - 1);
          assert Levels(h, next)[Height(|next|) - (k - 1)] == Up(h, next, k - 1);
        }
      }
    } else {
      assert level == [level[0]];
    }
  }

  // ----- completeness -----

  /** Climbing along the tree's own proof from node i ends in the root. */
  lemma {:induction false} OwnProofClimbs(h: HashFn, level: seq<Digest>, i: nat)
    requires i < |level|
    ensures Climb(h, level[i], ProofOf(h, level, i), i) == RootOf(h, level)
    ensures |ProofOf(h, level, i)| == Height(|level|)
    decreases |level|
  {
    if |level| > 1 {
      var next, p := Next(h, level), ProofOf(h, level, i);
      assert p == [Sibling(level, i)] + ProofOf(h, next, i / 2);
      assert p[1..] == ProofOf(h, next, i / 2);
      assert Combine(level[i], Sibling(level, i), i) == PairAt(level, i / 2);
      OwnProofClimbs(h, next, i / 2);
    }
  }

  /** verifyProof(leaf[i], getProof(i), getRoot(), i) accepts, for every leaf list and index. */
  lemma EveryLeafVerifies(h: HashFn, leaves: seq<Leaf>, i: nat)
    requires i < |leaves|
    ensures var bottom := HashedLeaves(h, leaves);
            Climb(h, h(leaves[i].bytes), ProofOf(h, bottom, i), i) == RootOf(h, bottom)
  {
    OwnProofClimbs(h, HashedLeaves(h, leaves), i);
  }

  // ----- soundness -----

  /** Along the climb, what verification hashes is not confused with what building hashed for the same node. */
  ghost predicate PathSeparated(h: HashFn, level: seq<Digest>, d: Digest, proof: seq<Bytes>, i: nat)
    requires i < |level|
    decreases |proof|
  {
    proof == [] ||
    var mine := Combine(d, proof[0], i);
    Separates(h, mine, PairAt(level, i / 2)) && PathSeparated(h, Next(h, level), h(mine), proof[1..], i / 2)
  }

  function Halved(i: nat, k: nat): nat { if k == 0 then i else Halved(i / 2, k - 1) }

  lemma {:induction false} HalvedInWidth(i: nat, n: nat, k: nat)
    requires i < n
    ensures Halved(i, k) < Width(n, k)
  {
    if k > 0 {
      HalvedInWidth(i / 2, (n + 1) / 2, k - 1);
      WidthFromNext(n, k - 1);
    }
  }

  lemma {:induction false} WidthFromNext(n: nat, k: nat)
    ensures Width(n, k + 1) == Width((n + 1) / 2, k)
  {
    if k > 0 { WidthFromNext(n, k - 1); }
  }

  lemma CombineIsThePair(level: seq<Digest>, d: Digest, sibling: Bytes, i: nat)
    requires i < |level| && Combine(d, sibling, i) == PairAt(level, i / 2)
    ensures d == level[i]
  {
    var s := PairAt(level, i / 2);
    assert |s| == 64;
    if i % 2 == 0 {
      assert d == s[..32] == level[i];
    } else {
      assert |sibling| == 32;
      assert d == s[32..] == level[i];
    }
  }

  /**
   * Whatever siblings a proof holds, if the climb from digest d at position i
   * meets the tree's own node |proof| levels up, then d is the tree's node i.
   */
  lemma {:induction false} ClimbPinsNode(h: HashFn, level: seq<Digest>, d: Digest, proof: seq<Bytes>, i: nat)
    requires i < |level| && PathSeparated(h, level, d, proof, i)
    requires Halved(i, |proof|) < Width(|level|, |proof|)
    requires Climb(h, d, proof, i) == Up(h, level, |proof|)[Halved(i, |proof|)]
    ensures d == level[i]
    decreases |proof|
  {
    if proof != [] {
      var next, mine := Next(h, level), Combine(d, proof[0], i);
      UpFromNext(h, level, |proof| - 1);
      WidthFromNext(|level|, |proof| - 1);
      ClimbPinsNode(h, next, h(mine), proof[1..], i / 2);
      CombineIsThePair(level, d, proof[0], i);
    }
  }

  /**
   * Soundness: an accepted proof as long as the tree is high, with arbitrary
   * sibling strings, is a proof about leaf i of the tree.
   */
  lemma AcceptedProofIsAboutLeaf(h: HashFn, leaves: seq<Leaf>, x: Leaf, proof: seq<Bytes>, i: nat)
    requires i < |leaves| && |proof| == Height(|leaves|)
    requires Climb(h, h(x.bytes), proof, i) == RootOf(h, HashedLeaves(h, leaves))
    requires PathSeparated(h, HashedLeaves(h, leaves), h(x.bytes), proof, i)
    requires Separates(h, x.bytes, leaves[i].bytes)
    ensures x.bytes == leaves[i].bytes
  {
    var bottom := HashedLeaves(h, leaves);
    TreeIsItsNodes(h, bottom);
    HalvedInWidth(i, |leaves|, |proof|);
    ClimbPinsNode(h, bottom, h(x.bytes), proof, i);
  }

  /** Only the tree's own proof from the tree's own node climbs to the root. */
  lemma {:induction false} OnlyOwnProofClimbs(h: HashFn, level: seq<Digest>, d: Digest, proof: seq<Bytes>, i: nat)
    requires i < |level| && |proof| == Height(|level|) && PathSeparated(h, level, d, proof, i)
    ensures Climb(h, d, proof, i) == RootOf(h, level) <==> d == level[i] && proof == ProofOf(h, level, i)
    decreases |proof|
  {
    OwnProofClimbs(h, level, i);
    if proof != [] && Climb(h, d, proof, i) == RootOf(h, level) {
      var next, mine := Next(h, level), Combine(d, proof[0], i);
      OnlyOwnProofClimbs(h, next, h(mine), proof[1..], i / 2);
      assert mine == PairAt(level, i / 2);
      CombineIsThePair(level, d, proof[0], i);
      SiblingIsInThePair(level, d, proof[0], i);
      assert proof == [proof[0]] + proof[1..];
    }
  }

  lemma SiblingIsInThePair(level: seq<Digest>, d: Digest, sibling: Bytes, i: nat)
    requires i < |level| && Combine(d, sibling, i) == PairAt(level, i / 2)
    ensures sibling == Sibling(level, i)
  {
    var s := PairAt(level, i / 2);
    assert |s| == 64 && |sibling| == 32;
    if i % 2 == 0 {
      assert sibling == s[32..];
    } else {
      assert sibling == s[..32];
    }
  }

  /**
   * What a shorter proof shows: for a proof that stops k levels early, whatever its
   * siblings, acceptance at position i means exactly that the value's digest is node i
   * of level k and the siblings are that node's own. The length condition of soundness
   * is therefore needed.
   */
  lemma ShorterProofMeansInnerNode(h: HashFn, level: seq<Digest>, k: nat, d: Digest, proof: seq<Bytes>, i: nat)
    requires level != [] && k + |proof| == Height(|level|) && i < Width(|level|, k)
    requires PathSeparated(h, Up(h, level, k), d, proof, i)
    ensures Climb(h, d, proof, i) == RootOf(h, level)
       <==> d == NodeAt(h, level, k, i) && proof == ProofOf(h, Up(h, level, k), i)
  {
    RootFromAnyLevel(h, level, k);
    LoopComputesNodes(h, level, k, i);
    OnlyOwnProofClimbs(h, Up(h, level, k), d, proof, i);
  }

  lemma {:induction false} RootFromAnyLevel(h: HashFn, level: seq<Digest>, k: nat)
    requires level != [] && k <= Height(|level|)
    ensures Up(h, level, k) != [] && RootOf(h, Up(h, level, k)) == RootOf(h, level)
    ensures Height(Width(|level|, k)) == Height(|level|) - k
    decreases k
  {
    if k > 0 {
      var next := Next(h, level);
      RootFromAnyLevel(h, next, k - 1);
      UpFromNext(h, level, k - 1);
      WidthFromNext(|level|, k - 1);
    }
  }

  // ----- binding -----

  /** Building the two trees never confuses two strings hashed for the same position. */
  ghost predicate TreesSeparated(h: HashFn, a: seq<Digest>, b: seq<Digest>)
    requires |a| == |b|
    decreases |a|
  {
    |a| <= 1 ||
    ((forall j :: 0 <= j < |Next(h, a)| ==> Separates(h, PairAt(a, j), PairAt(b, j)))
     && TreesSeparated(h, Next(h, a), Next(h, b)))
  }

  lemma {:induction false} RootBindsLevel(h: HashFn, a: seq<Digest>, b: seq<Digest>)
    requires |a| == |b| > 0 && TreesSeparated(h, a, b) && RootOf(h, a) == RootOf(h, b)
    ensures a == b
    decreases |a|
  {
    if |a| > 1 {
      RootBindsLevel(h, Next(h, a), Next(h, b));
      forall i | 0 <= i < |a| ensures a[i] == b[i] {
        assert Next(h, a)[i / 2] == Next(h, b)[i / 2];
        assert PairAt(a, i / 2) == PairAt(b, i / 2);
        PairsEqual(a, b, i);
      }
    }
  }

  lemma PairsEqual(a: seq<Digest>, b: seq<Digest>, i: nat)
    requires |a| == |b| && i < |a| && PairAt(a, i / 2) == PairAt(b, i / 2)
    ensures a[i] == b[i]
  {
    var s := PairAt(a, i / 2);
    if i % 2 == 0 {
      assert a[i] == s[..32] && b[i] == s[..32];
    } else {
      assert a[i] == s[32..] && b[i] == s[32..];
    }
  }

  /** Equally long leaf lists with the same root hold the same leaf bytes. */
  lemma RootBindsLeaves(h: HashFn, a: seq<Leaf>, b: seq<Leaf>)
    requires |a| == |b| > 0
    requires RootOf(h, HashedLeaves(h, a)) == RootOf(h, HashedLeaves(h, b))
    requires TreesSeparated(h, HashedLeaves(h, a), HashedLeaves(h, b))
    requires forall i :: 0 <= i < |a| ==> Separates(h, a[i].bytes, b[i].bytes)
    ensures forall i :: 0 <= i < |a| ==> a[i].bytes == b[i].bytes
  {
    var ha, hb := HashedLeaves(h, a), HashedLeaves(h, b);
    RootBindsLevel(h, ha, hb);
    forall i | 0 <= i < |a| ensures a[i].bytes == b[i].bytes {
      assert ha[i] == hb[i];
    }
  }

  /** Equal lengths are needed: repeating the last of an odd number of leaves, at least three, keeps the root. */
  lemma RepeatingOddLastKeepsRoot(h: HashFn, leaves: seq<Leaf>)
    requires |leaves| >= 3 && |leaves| % 2 == 1
    ensures RootOf(h, HashedLeaves(h, leaves + [leaves[|leaves| - 1]])) == RootOf(h, HashedLeaves(h, leaves))
  {
    var a, b := HashedLeaves(h, leaves), HashedLeaves(h, leaves + [leaves[|leaves| - 1]]);
    forall j | 0 <= j < |Next(h, a)| ensures PairAt(a, j) == PairAt(b, j) {
    }
    assert Next(h, a) == Next(h, b);
  }

  // ----- cost -----

  /** Proof length is the base-two logarithm of the leaf count, rounded up. */
  lemma {:induction false} HeightIsCeilLog2(n: nat)
    requires n > 0
    ensures n <= Pow2(Height(n))
    ensures Height(n) > 0 ==> Pow2(Height(n) - 1) < n
  {
    if n > 1 {
      var m := (n + 1) / 2;
      HeightIsCeilLog2(m);
      if Height(m) == 0 {
        assert Pow2(0) == 1;
      }
    }
  }

  function TotalNodes(levels: seq<seq<Digest>>): nat {
    if levels == [] then 0 else TotalNodes(levels[..|levels| - 1]) + |levels[|levels| - 1]|
  }

  /** The whole tree holds at most 2n + ceil(log2 n) nodes. */
  lemma {:induction false} TreeIsLinear(h: HashFn, level: seq<Digest>)
    requires level != []
    ensures TotalNodes(Levels(h, level)) <= 2 * |level| + Height(|level|)
    decreases |level|
  {
    var levels := Levels(h, level);
    if |level| > 1 {
      TreeIsLinear(h, Next(h, level));
      assert levels[..|levels| - 1] == Levels(h, Next(h, level));
    } else {
      assert levels[..|levels| - 1] == [];
      assert TotalNodes([]) == 0;
    }
  }
}
