/**
 * Which leaf lists share a root, and what an accepted proof is about, for every
 * length and every index.
 *
 * The frontier of a list is its leaves as the finished tree holds them: wherever a
 * level is odd its last node stands twice, and with it all leaves below that node.
 */
module MerkleFrontier {
  import opened Merkle
  import opened MerkleTheorems

  /** One round of the level loop, with runs of leaves put side by side in place of hashes. */
  function NextRuns<T>(runs: seq<seq<T>>): (next: seq<seq<T>>)
    ensures |next| == (|runs| + 1) / 2
  {
    seq((|runs| + 1) / 2, j requires 0 <= j < (|runs| + 1) / 2 =>
          runs[2 * j] + if 2 * j + 1 < |runs| then runs[2 * j + 1] else runs[2 * j])
  }

  function Merged<T>(runs: seq<seq<T>>): seq<T>
    requires runs != []
    decreases |runs|
  {
    if |runs| == 1 then runs[0] else Merged(NextRuns(runs))
  }

  function Singles<T>(s: seq<T>): seq<seq<T>> {
    seq(|s|, i requires 0 <= i < |s| => [s[i]])
  }

  function Frontier<T>(s: seq<T>): seq<T>
    requires s != []
  {
    Merged(Singles(s))
  }

  ghost predicate Uniform<T(!new)>(runs: seq<seq<T>>, k: nat) {
    forall i :: 0 <= i < |runs| ==> |runs[i]| == Pow2(k)
  }

  lemma {:induction false} MergedLength<T(!new)>(runs: seq<seq<T>>, k: nat)
    requires runs != [] && Uniform(runs, k)
    ensures |Merged(runs)| == Pow2(k + Height(|runs|))
    decreases |runs|
  {
    if |runs| > 1 { MergedLength(NextRuns(runs), k + 1); }
  }

  /** A frontier is a full bottom level. */
  lemma FrontierLength<T(!new)>(s: seq<T>)
    requires s != []
    ensures |Frontier(s)| == Pow2(Height(|s|)) >= |s| && Frontier(s) != []
  {
    assert Pow2(0) == 1;
    MergedLength(Singles(s), 0);
    HeightIsCeilLog2(|s|);
  }

  lemma {:induction false} HeightOfPow2(k: nat)
    ensures Pow2(k) > 0 && Height(Pow2(k)) == k
  {
    if k > 0 { HeightOfPow2(k - 1); }
  }

  // ----- the root of the frontier -----

  lemma {:induction false} RootOfHalves(h: HashFn, x: seq<Digest>, y: seq<Digest>, k: nat)
    requires |x| == |y| == Pow2(k) > 0
    ensures RootOf(h, x + y) == h(Cat(RootOf(h, x), RootOf(h, y)))
    decreases k
  {
    HeightOfPow2(k);
    if k == 0 {
      RootOfTwo(h, x, y);
    } else {
      HeightOfPow2(k - 1);
      var p, q := Next(h, x), Next(h, y);
      RootOfHalves(h, p, q, k - 1);
      NextOfHalves(h, x, y);
      RootFromHalves(h, x, y, p, q);
    }
  }

  lemma RootFromHalves(h: HashFn, x: seq<Digest>, y: seq<Digest>, p: seq<Digest>, q: seq<Digest>)
    requires |x| > 1 && |y| > 1 && Next(h, x) == p && Next(h, y) == q && Next(h, x + y) == p + q
    requires RootOf(h, p + q) == h(Cat(RootOf(h, p), RootOf(h, q)))
    ensures RootOf(h, x + y) == h(Cat(RootOf(h, x), RootOf(h, y)))
  {
  }

  lemma RootOfTwo(h: HashFn, x: seq<Digest>, y: seq<Digest>)
    requires |x| == |y| == 1
    ensures RootOf(h, x + y) == h(Cat(x[0], y[0]))
  {
    assert PairAt(x + y, 0) == Cat(x[0], y[0]);
    assert Next(h, x + y) == [h(Cat(x[0], y[0]))];
  }

  lemma NextOfHalves(h: HashFn, x: seq<Digest>, y: seq<Digest>)
    requires |x| % 2 == 0
    ensures Next(h, x + y) == Next(h, x) + Next(h, y)
  {
    var all, a, b := x + y, Next(h, x), Next(h, y);
    assert |Next(h, all)| == |a| + |b|;
    forall j | 0 <= j < |a| + |b| ensures Next(h, all)[j] == if j < |a| then a[j] else b[j - |a|] {
      PairInHalves(x, y, j);
    }
    SplitAt(Next(h, all), a, b);
  }

  lemma SplitAt<T>(s: seq<T>, a: seq<T>, b: seq<T>)
    requires |s| == |a| + |b| && forall j :: 0 <= j < |a| + |b| ==> s[j] == if j < |a| then a[j] else b[j - |a|]
    ensures s == a + b
  {
  }

  lemma PairInHalves(x: seq<Digest>, y: seq<Digest>, j: nat)
    requires |x| % 2 == 0 && 2 * j < |x + y|
    ensures PairAt(x + y, j) == if j < |x| / 2 then PairAt(x, j) else PairAt(y, j - |x| / 2)
  {
    var all := x + y;
    var i := 2 * j - |x|;
    if j < |x| / 2 {
      assert all[2 * j] == x[2 * j] && all[2 * j + 1] == x[2 * j + 1];
    } else {
      assert 2 * (j - |x| / 2) == i && all[2 * j] == y[i];
      assert i + 1 < |y| ==> all[2 * j + 1] == y[i + 1];
    }
  }

  function Roots(h: HashFn, runs: seq<seq<Digest>>): seq<Digest>
    requires forall i :: 0 <= i < |runs| ==> runs[i] != []
  {
    seq<Digest>(|runs|, i requires 0 <= i < |runs| => RootOf(h, runs[i]))
  }

  lemma {:induction false} RootOfMerged(h: HashFn, runs: seq<seq<Digest>>, k: nat)
    requires runs != [] && Uniform(runs, k) && Pow2(k) > 0
    ensures Merged(runs) != [] && RootOf(h, Merged(runs)) == RootOf(h, Roots(h, runs))
    decreases |runs|
  {
    if |runs| > 1 {
      var next := NextRuns(runs);
      RootOfMerged(h, next, k + 1);
      forall j | 0 <= j < |next| ensures Roots(h, next)[j] == Next(h, Roots(h, runs))[j] {
        RootOfHalves(h, runs[2 * j], if 2 * j + 1 < |runs| then runs[2 * j + 1] else runs[2 * j], k);
      }
      assert Roots(h, next) == Next(h, Roots(h, runs));
    }
  }

  /** A level and its frontier have the same root. */
  lemma RootOfFrontier(h: HashFn, level: seq<Digest>)
    requires level != []
    ensures Frontier(level) != [] && RootOf(h, Frontier(level)) == RootOf(h, level)
  {
    assert Pow2(0) == 1;
    RootOfMerged(h, Singles(level), 0);
    assert Roots(h, Singles(level)) == level;
  }

  // ----- the frontier of a list and of its digests -----

  function Hashed(h: HashFn, texts: seq<Bytes>): seq<Digest> {
    seq<Digest>(|texts|, i requires 0 <= i < |texts| => h(texts[i]))
  }

  function BytesOf(leaves: seq<Leaf>): seq<Bytes> {
    seq(|leaves|, i requires 0 <= i < |leaves| => leaves[i].bytes)
  }

  function HashedRuns(h: HashFn, runs: seq<seq<Bytes>>): seq<seq<Digest>> {
    seq<seq<Digest>>(|runs|, i requires 0 <= i < |runs| => Hashed(h, runs[i]))
  }

  lemma {:induction false} MergedOfHashed(h: HashFn, runs: seq<seq<Bytes>>)
    requires runs != []
    ensures Merged(HashedRuns(h, runs)) == Hashed(h, Merged(runs))
    decreases |runs|
  {
    if |runs| > 1 {
      MergedOfHashed(h, NextRuns(runs));
      NextOfHashed(h, runs);
    }
  }

  lemma NextOfHashed(h: HashFn, runs: seq<seq<Bytes>>)
    ensures NextRuns(HashedRuns(h, runs)) == HashedRuns(h, NextRuns(runs))
  {
    var next := NextRuns(runs);
    forall j | 0 <= j < |next| ensures NextRuns(HashedRuns(h, runs))[j] == HashedRuns(h, next)[j] {
      HashedConcat(h, runs[2 * j], if 2 * j + 1 < |runs| then runs[2 * j + 1] else runs[2 * j]);
    }
  }

  lemma HashedConcat(h: HashFn, x: seq<Bytes>, y: seq<Bytes>)
    ensures Hashed(h, x + y) == Hashed(h, x) + Hashed(h, y)
  {
  }

  lemma FrontierOfHashed(h: HashFn, texts: seq<Bytes>)
    requires texts != []
    ensures Frontier(Hashed(h, texts)) == Hashed(h, Frontier(texts))
  {
    MergedOfHashed(h, Singles(texts));
    forall i | 0 <= i < |texts| ensures HashedRuns(h, Singles(texts))[i] == Singles(Hashed(h, texts))[i] {
      assert Hashed(h, [texts[i]]) == [h(texts[i])];
    }
    assert HashedRuns(h, Singles(texts)) == Singles(Hashed(h, texts));
  }

  // ----- which lists share a root -----

  /** Nothing hashed in the tree over one frontier is confused with what the other tree hashes at the same place. */
  ghost predicate FrontiersApart(h: HashFn, a: seq<Bytes>, b: seq<Bytes>)
    requires a != [] && b != [] && Height(|a|) == Height(|b|)
  {
    FrontierLength(a);
    FrontierLength(b);
    FrontierOfHashed(h, a);
    FrontierOfHashed(h, b);
    && TreesSeparated(h, Frontier(Hashed(h, a)), Frontier(Hashed(h, b)))
    && forall i :: 0 <= i < |Frontier(a)| ==> Separates(h, Frontier(a)[i], Frontier(b)[i])
  }

  /** Two lists with trees of one height have the same root exactly when their frontiers are the same. */
  lemma EqualHeightSameRootIff(h: HashFn, a: seq<Bytes>, b: seq<Bytes>)
    requires a != [] && b != [] && Height(|a|) == Height(|b|) && FrontiersApart(h, a, b)
    ensures RootOf(h, Hashed(h, a)) == RootOf(h, Hashed(h, b)) <==> Frontier(a) == Frontier(b)
  {
    var x, y := Frontier(Hashed(h, a)), Frontier(Hashed(h, b));
    FrontierLength(a);
    FrontierLength(b);
    FrontierOfHashed(h, a);
    FrontierOfHashed(h, b);
    RootOfFrontier(h, Hashed(h, a));
    RootOfFrontier(h, Hashed(h, b));
    if RootOf(h, Hashed(h, a)) == RootOf(h, Hashed(h, b)) {
      RootBindsLevel(h, x, y);
      forall i | 0 <= i < |Frontier(a)| ensures Frontier(a)[i] == Frontier(b)[i] {
        assert x[i] == h(Frontier(a)[i]) && y[i] == h(Frontier(b)[i]);
      }
    }
  }

  /** The strings hashed into the nodes d levels up: the leaves themselves, or pairs of digests. */
  function TextsAt(h: HashFn, texts: seq<Bytes>, d: nat): (t: seq<Bytes>)
    ensures texts != [] ==> t != []
  {
    if d == 0 then texts
    else
      var below := Hashed(h, TextsAt(h, texts, d - 1));
      seq((|below| + 1) / 2, j requires 0 <= j < (|below| + 1) / 2 => PairAt(below, j))
  }

  lemma {:induction false} TextsAreHashedUp(h: HashFn, texts: seq<Bytes>, d: nat)
    ensures Hashed(h, TextsAt(h, texts, d)) == Up(h, Hashed(h, texts), d)
  {
    if d > 0 { TextsAreHashedUp(h, texts, d - 1); }
  }

  /** The level of the higher tree at which the lower one starts. */
  function Rise(n: nat, m: nat): nat
    requires Height(n) >= Height(m)
  {
    Height(n) - Height(m)
  }

  lemma TextsKeepRoot(h: HashFn, a: seq<Bytes>, d: nat)
    requires a != [] && d <= Height(|a|)
    ensures RootOf(h, Hashed(h, TextsAt(h, a, d))) == RootOf(h, Hashed(h, a))
    ensures Height(|TextsAt(h, a, d)|) == Height(|a|) - d
  {
    TextsAreHashedUp(h, a, d);
    RootFromAnyLevel(h, Hashed(h, a), d);
    assert |TextsAt(h, a, d)| == |Up(h, Hashed(h, a), d)|;
  }

  ghost predicate ListsApart(h: HashFn, a: seq<Bytes>, b: seq<Bytes>)
    requires a != [] && b != [] && Height(|a|) >= Height(|b|)
  {
    TextsKeepRoot(h, a, Rise(|a|, |b|));
    FrontiersApart(h, TextsAt(h, a, Rise(|a|, |b|)), b)
  }

  /**
   * Two lists of any lengths have the same root exactly when, at the level where the
   * lower tree starts, the frontiers of what is hashed there are the same.
   */
  lemma SameRootIff(h: HashFn, a: seq<Leaf>, b: seq<Leaf>)
    requires a != [] && b != [] && Height(|a|) >= Height(|b|) && ListsApart(h, BytesOf(a), BytesOf(b))
    ensures RootOf(h, HashedLeaves(h, a)) == RootOf(h, HashedLeaves(h, b))
       <==> Frontier(TextsAt(h, BytesOf(a), Rise(|a|, |b|))) == Frontier(BytesOf(b))
  {
    var x, y, d := BytesOf(a), BytesOf(b), Rise(|a|, |b|);
    TextsKeepRoot(h, x, d);
    EqualHeightSameRootIff(h, TextsAt(h, x, d), y);
    assert HashedLeaves(h, a) == Hashed(h, x) && HashedLeaves(h, b) == Hashed(h, y);
  }

  // ----- lists of different lengths -----

  function Joined<T>(runs: seq<seq<T>>): seq<T> {
    if runs == [] then [] else runs[0] + Joined(runs[1..])
  }

  lemma {:induction false} JoinedGrows<T>(runs: seq<seq<T>>)
    ensures Joined(runs) <= Joined(NextRuns(runs))
    decreases |runs|
  {
    if |runs| == 1 {
      assert NextRuns(runs) == [runs[0] + runs[0]];
      assert runs[1..] == [] && NextRuns(runs)[1..] == [];
    } else if |runs| > 1 {
      JoinedGrows(runs[2..]);
      assert runs[1..][1..] == runs[2..];
      assert NextRuns(runs)[1..] == NextRuns(runs[2..]);
      assert NextRuns(runs)[0] == runs[0] + runs[1];
    }
  }

  lemma {:induction false} JoinedStartsMerged<T>(runs: seq<seq<T>>)
    requires runs != []
    ensures Joined(runs) <= Merged(runs)
    decreases |runs|
  {
    if |runs| > 1 {
      JoinedGrows(runs);
      JoinedStartsMerged(NextRuns(runs));
    } else {
      assert runs[1..] == [] && runs[0] + [] == runs[0];
    }
  }

  lemma {:induction false} JoinedSingles<T>(s: seq<T>)
    ensures Joined(Singles(s)) == s
  {
    if s != [] {
      JoinedSingles(s[1..]);
      assert Singles(s)[1..] == Singles(s[1..]);
    }
  }

  /** A frontier starts with the leaves themselves. */
  lemma FrontierStartsWithLeaves<T(!new)>(s: seq<T>)
    requires s != []
    ensures |s| <= |Frontier(s)| && Frontier(s)[..|s|] == s
  {
    JoinedSingles(s);
    JoinedStartsMerged(Singles(s));
  }

  /** A list of m leaves shares the frontier of `a` exactly when the first m leaves of that frontier do. */
  lemma AnotherLengthIff<T(!new)>(a: seq<T>, m: nat)
    requires a != [] && m > 0
    ensures (exists b: seq<T> :: |b| == m && Frontier(b) == Frontier(a))
       <==> m <= |Frontier(a)| && Frontier(Frontier(a)[..m]) == Frontier(a)
  {
    forall b: seq<T> | |b| == m && Frontier(b) == Frontier(a)
      ensures m <= |Frontier(a)| && Frontier(Frontier(a)[..m]) == Frontier(a)
    {
      FrontierStartsWithLeaves(b);
    }
    if m <= |Frontier(a)| && Frontier(Frontier(a)[..m]) == Frontier(a) {
      assert |Frontier(a)[..m]| == m;
    }
  }

  lemma {:induction false} SameTreesSeparated(h: HashFn, level: seq<Digest>)
    ensures TreesSeparated(h, level, level)
    decreases |level|
  {
    if |level| > 1 { SameTreesSeparated(h, Next(h, level)); }
  }

  lemma SameFrontiersApart(h: HashFn, a: seq<Bytes>, b: seq<Bytes>)
    requires a != [] && b != [] && Height(|a|) == Height(|b|) && Frontier(a) == Frontier(b)
    ensures FrontiersApart(h, a, b)
  {
    FrontierOfHashed(h, a);
    FrontierOfHashed(h, b);
    SameTreesSeparated(h, Frontier(Hashed(h, a)));
  }

  /** Some list of m leaves, its tree as high, has the root of `a` exactly when the first m of its frontier do. */
  lemma AnotherLengthSameRootIff(h: HashFn, a: seq<Bytes>, m: nat)
    requires a != [] && m > 0 && Height(m) == Height(|a|)
    ensures m <= |Frontier(a)|
    ensures (exists b: seq<Bytes> ::
               |b| == m && FrontiersApart(h, a, b) && RootOf(h, Hashed(h, a)) == RootOf(h, Hashed(h, b)))
       <==> Frontier(Frontier(a)[..m]) == Frontier(a)
  {
    FrontierLength(a);
    HeightIsCeilLog2(m);
    AnotherLengthIff(a, m);
    forall b: seq<Bytes> | |b| == m && FrontiersApart(h, a, b) && RootOf(h, Hashed(h, a)) == RootOf(h, Hashed(h, b))
      ensures Frontier(b) == Frontier(a)
    {
      EqualHeightSameRootIff(h, a, b);
    }
    if Frontier(Frontier(a)[..m]) == Frontier(a) {
      var b := Frontier(a)[..m];
      SameFrontiersApart(h, a, b);
      EqualHeightSameRootIff(h, a, b);
    }
  }

  lemma {:induction false} MergedOfCopies<T(!new)>(runs: seq<seq<T>>, x: T)
    requires runs != [] && forall i, j :: 0 <= i < |runs| && 0 <= j < |runs[i]| ==> runs[i][j] == x
    ensures forall j :: 0 <= j < |Merged(runs)| ==> Merged(runs)[j] == x
    decreases |runs|
  {
    if |runs| > 1 { MergedOfCopies(NextRuns(runs), x); }
  }

  lemma CopiesShareFrontier<T(!new)>(a: seq<T>, b: seq<T>, x: T)
    requires a != [] && b != [] && Height(|a|) == Height(|b|)
    requires (forall i :: 0 <= i < |a| ==> a[i] == x) && (forall i :: 0 <= i < |b| ==> b[i] == x)
    ensures Frontier(a) == Frontier(b)
  {
    FrontierLength(a);
    FrontierLength(b);
    MergedOfCopies(Singles(a), x);
    MergedOfCopies(Singles(b), x);
  }

  /** A leaf that is 64 bytes long can pass for a pair of digests; the first leaf of the lower tree is not one. */
  ghost predicate ShareRoot(h: HashFn, a: seq<Bytes>, b: seq<Bytes>)
    requires a != [] && b != [] && Height(|a|) >= Height(|b|)
  {
    |b[0]| != 64 && ListsApart(h, a, b) && RootOf(h, Hashed(h, a)) == RootOf(h, Hashed(h, b))
  }

  lemma SharedRootSameHeight(h: HashFn, a: seq<Bytes>, b: seq<Bytes>)
    requires a != [] && b != [] && Height(|a|) >= Height(|b|) && ShareRoot(h, a, b)
    ensures Height(|a|) == Height(|b|)
  {
    var d := Rise(|a|, |b|);
    var t := TextsAt(h, a, d);
    TextsKeepRoot(h, a, d);
    EqualHeightSameRootIff(h, t, b);
    FrontierStartsWithLeaves(t);
    FrontierStartsWithLeaves(b);
    assert t[0] == Frontier(t)[0] == Frontier(b)[0] == b[0];
  }

  /** Lists of n and of m leaves can share a root exactly when their trees are equally high. */
  lemma LengthsShareRootIff(h: HashFn, n: nat, m: nat)
    requires n > 0 && m > 0 && Height(n) >= Height(m)
    ensures (exists a: seq<Bytes>, b: seq<Bytes> :: |a| == n && |b| == m && ShareRoot(h, a, b))
       <==> Height(n) == Height(m)
  {
    forall a: seq<Bytes>, b: seq<Bytes> | |a| == n && |b| == m && ShareRoot(h, a, b)
      ensures Height(n) == Height(m)
    {
      SharedRootSameHeight(h, a, b);
    }
    if Height(n) == Height(m) {
      var x: Bytes := [];
      var a, b := seq<Bytes>(n, i => x), seq<Bytes>(m, i => x);
      CopiesShareFrontier(a, b, x);
      SameFrontiersApart(h, a, b);
      EqualHeightSameRootIff(h, a, b);
      assert TextsAt(h, a, 0) == a && ShareRoot(h, a, b);
    }
  }

  /** With 64-byte leaves allowed, every list of at least two has the root of a list about half as long. */
  lemma HalfAsManyLeaves(h: HashFn, a: seq<Bytes>) returns (b: seq<Bytes>)
    requires |a| > 1
    ensures |b| == (|a| + 1) / 2 && RootOf(h, Hashed(h, b)) == RootOf(h, Hashed(h, a))
    ensures forall i :: 0 <= i < |b| ==> |b[i]| == 64
  {
    b := TextsAt(h, a, 1);
    TextsKeepRoot(h, a, 1);
    assert TextsAt(h, a, 0) == a;
  }

  // ----- accepted proofs, at any index -----

  lemma HalfOfRemainder(i: int, m: nat)
    requires m > 0
    ensures (i % (2 * m)) % 2 == i % 2 && (i % (2 * m)) / 2 == (i / 2) % m
  {
    var q, r := i / (2 * m), i % (2 * m);
    assert i == 2 * (m * q) + r;
    assert i / 2 == m * q + r / 2;
    RemainderUnique(i / 2, m, q, r / 2);
  }

  lemma RemainderUnique(n: int, m: nat, q: int, r: nat)
    requires m > 0 && n == m * q + r && r < m
    ensures n % m == r
  {
    var d := n / m - q;
    assert m * d == r - n % m;
    SmallMultiple(m, d);
  }

  lemma SmallMultiple(m: int, d: int)
    requires m > 0 && -m < m * d < m
    ensures d == 0
  {
  }

  /** Verification reads no more of the index than the proof is long. */
  lemma {:induction false} ClimbReadsLowBits(h: HashFn, d: Digest, proof: seq<Bytes>, i: int)
    ensures Pow2(|proof|) > 0 && Climb(h, d, proof, i) == Climb(h, d, proof, i % Pow2(|proof|))
    decreases |proof|
  {
    HeightOfPow2(|proof|);
    if proof != [] {
      var m := Pow2(|proof| - 1);
      ClimbReadsLowBits(h, h(Combine(d, proof[0], i)), proof[1..], i / 2);
      HalfOfRemainder(i, m);
    }
  }

  /** A proof as long as a level is deep: the frontier's own proof of what stands at the index modulo its width. */
  lemma FullProofIff(h: HashFn, texts: seq<Bytes>, x: Bytes, proof: seq<Bytes>, index: int)
    requires texts != [] && |proof| == Height(|texts|)
    requires var f := Frontier(texts);
             && f != [] && |f| == |Hashed(h, f)|
             && PathSeparated(h, Hashed(h, f), h(x), proof, index % |f|) && Separates(h, x, f[index % |f|])
    ensures var f := Frontier(texts);
            (Climb(h, h(x), proof, index) == RootOf(h, Hashed(h, texts))
             <==> x == f[index % |f|] && proof == ProofOf(h, Hashed(h, f), index % |f|))
  {
    var f := Frontier(texts);
    FrontierLength(texts);
    FrontierOfHashed(h, texts);
    RootOfFrontier(h, Hashed(h, texts));
    HeightOfPow2(|proof|);
    ClimbReadsLowBits(h, h(x), proof, index);
    OnlyOwnProofClimbs(h, Hashed(h, f), h(x), proof, index % |f|);
  }

  /** What verification can tell apart when a proof of x stops k levels below the leaves' height, for any index. */
  ghost predicate ProofSeparated(h: HashFn, leaves: seq<Leaf>, k: nat, x: Bytes, proof: seq<Bytes>, index: int)
    requires leaves != [] && k + |proof| == Height(|leaves|)
  {
    var f := Frontier(TextsAt(h, BytesOf(leaves), k));
    f != [] && PathSeparated(h, Hashed(h, f), h(x), proof, index % |f|) && Separates(h, x, f[index % |f|])
  }

  /**
   * Exactly what a proof k steps shorter than the tree is high shows, for any index:
   * it is the frontier's own proof, k levels up, of what was hashed into the node
   * that stands at the index modulo the width of that frontier.
   */
  lemma ShorterProofIff(h: HashFn, leaves: seq<Leaf>, k: nat, x: Leaf, proof: seq<Bytes>, index: int)
    requires leaves != [] && k + |proof| == Height(|leaves|) && ProofSeparated(h, leaves, k, x.bytes, proof, index)
    ensures var f := Frontier(TextsAt(h, BytesOf(leaves), k));
            && f != []
            && (Climb(h, h(x.bytes), proof, index) == RootOf(h, HashedLeaves(h, leaves))
                <==> x.bytes == f[index % |f|] && proof == ProofOf(h, Hashed(h, f), index % |f|))
  {
    assert HashedLeaves(h, leaves) == Hashed(h, BytesOf(leaves));
    TextsKeepRoot(h, BytesOf(leaves), k);
    FullProofIff(h, TextsAt(h, BytesOf(leaves), k), x.bytes, proof, index);
  }

  /**
   * The case of a proof as long as the tree is high: it is the frontier's own proof of
   * the leaf that stands at the index, taken modulo the width of the frontier.
   */
  lemma AcceptedProofIff(h: HashFn, leaves: seq<Leaf>, x: Leaf, proof: seq<Bytes>, index: int)
    requires leaves != [] && |proof| == Height(|leaves|) && ProofSeparated(h, leaves, 0, x.bytes, proof, index)
    ensures var f := Frontier(BytesOf(leaves));
            && f != []
            && (Climb(h, h(x.bytes), proof, index) == RootOf(h, HashedLeaves(h, leaves))
                <==> x.bytes == f[index % |f|] && proof == ProofOf(h, Hashed(h, f), index % |f|))
  {
    ShorterProofIff(h, leaves, 0, x, proof, index);
  }

  // ----- proofs longer than the tree is high -----

  function Shifted(index: int, n: nat): int
    decreases n
  {
    if n == 0 then index else Shifted(index / 2, n - 1)
  }

  lemma {:induction false} ClimbInParts(h: HashFn, d: Digest, proof: seq<Bytes>, m: nat, index: int)
    requires m <= |proof|
    ensures Climb(h, d, proof, index) == Climb(h, Climb(h, d, proof[..m], index), proof[m..], Shifted(index, m))
    decreases m
  {
    if m == 0 {
      assert proof[0..] == proof;
    } else {
      ClimbInParts(h, h(Combine(d, proof[0], index)), proof[1..], m - 1, index / 2);
      assert proof[1..][..m - 1] == proof[..m][1..] && proof[1..][m - 1..] == proof[m..];
    }
  }

  /** The string hashed in step m of a climb from x. */
  function TextOfStep(h: HashFn, x: Bytes, proof: seq<Bytes>, m: nat, index: int): Bytes
    requires 0 < m <= |proof|
  {
    Combine(Climb(h, h(x), proof[..m - 1], index), proof[m - 1], Shifted(index, m - 1))
  }

  lemma ClimbEndsInStep(h: HashFn, x: Bytes, proof: seq<Bytes>, m: nat, index: int)
    requires 0 < m <= |proof|
    ensures Climb(h, h(x), proof[..m], index) == h(TextOfStep(h, x, proof, m, index))
  {
    var front := proof[..m];
    ClimbInParts(h, h(x), front, m - 1, index);
    assert front[..m - 1] == proof[..m - 1] && front[m - 1..] == [proof[m - 1]] && [proof[m - 1]][1..] == [];
  }

  /**
   * Exactly what a proof m steps longer than the tree is high shows: what its step m
   * hashes is a leaf of the frontier, and the remaining steps are that leaf's own proof.
   */
  lemma LongerProofIff(h: HashFn, leaves: seq<Leaf>, m: nat, x: Leaf, proof: seq<Bytes>, index: int)
    requires leaves != [] && m > 0 && |proof| == Height(|leaves|) + m
    requires ProofSeparated(h, leaves, 0, TextOfStep(h, x.bytes, proof, m, index), proof[m..], Shifted(index, m))
    ensures var f := Frontier(BytesOf(leaves));
            && f != []
            && (Climb(h, h(x.bytes), proof, index) == RootOf(h, HashedLeaves(h, leaves))
                <==> TextOfStep(h, x.bytes, proof, m, index) == f[Shifted(index, m) % |f|]
                     && proof[m..] == ProofOf(h, Hashed(h, f), Shifted(index, m) % |f|))
  {
    var text := Raw(TextOfStep(h, x.bytes, proof, m, index));
    ClimbInParts(h, h(x.bytes), proof, m, index);
    ClimbEndsInStep(h, x.bytes, proof, m, index);
    AcceptedProofIff(h, leaves, text, proof[m..], Shifted(index, m));
  }

  /** So no longer proof is accepted for any value if every leaf is shorter than a digest. */
  lemma ShortLeavesRefuseLongerProofs(h: HashFn, leaves: seq<Leaf>, m: nat, x: Leaf, proof: seq<Bytes>, index: int)
    requires leaves != [] && m > 0 && |proof| == Height(|leaves|) + m
    requires ProofSeparated(h, leaves, 0, TextOfStep(h, x.bytes, proof, m, index), proof[m..], Shifted(index, m))
    requires forall i :: 0 <= i < |leaves| ==> |leaves[i].bytes| < 32
    ensures Climb(h, h(x.bytes), proof, index) != RootOf(h, HashedLeaves(h, leaves))
  {
    LongerProofIff(h, leaves, m, x, proof, index);
    FrontierMembers(BytesOf(leaves));
    assert |TextOfStep(h, x.bytes, proof, m, index)| >= 32;
  }

  lemma {:induction false} MergedMembers<T(!new)>(runs: seq<seq<T>>, s: seq<T>)
    requires runs != [] && forall i, j :: 0 <= i < |runs| && 0 <= j < |runs[i]| ==> runs[i][j] in s
    ensures forall j :: 0 <= j < |Merged(runs)| ==> Merged(runs)[j] in s
    decreases |runs|
  {
    if |runs| > 1 { MergedMembers(NextRuns(runs), s); }
  }

  lemma FrontierMembers<T(!new)>(s: seq<T>)
    requires s != []
    ensures forall j :: 0 <= j < |Frontier(s)| ==> Frontier(s)[j] in s
  {
    MergedMembers(Singles(s), s);
  }

  /** And a leaf that starts with the digest of x lets x pass, with the rest of that leaf as one more step. */
  lemma LeafPassesAsStep(h: HashFn, leaves: seq<Leaf>, i: nat, x: Leaf, rest: Bytes)
    requires i < |leaves| && leaves[i].bytes == Cat(h(x.bytes), rest)
    ensures var bottom := HashedLeaves(h, leaves);
            Climb(h, h(x.bytes), [rest] + ProofOf(h, bottom, i), 2 * i) == RootOf(h, bottom)
  {
    var own := ProofOf(h, HashedLeaves(h, leaves), i);
    EveryLeafVerifies(h, leaves, i);
    assert ([rest] + own)[1..] == own;
  }
}
