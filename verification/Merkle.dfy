/**
 * The Buffer-based Merkle tree: levels built bottom-up, proofs, and verification.
 *
 * The hash is any function into 32-byte digests. Theorems that need it to
 * separate strings say which strings: those hashed by the calls in question.
 */
module Merkle {
  import opened Common

  newtype byte = b: int | 0 <= b < 256

  type Bytes = seq<byte>

  function Blank(n: nat): (b: Bytes)
    ensures |b| == n
  {
    if n == 0 then [] else Blank(n - 1) + [0]
  }

  type Digest = b: Bytes | |b| == 32 witness Blank(32)

  type HashFn = Bytes -> Digest

  /** A leaf value: a string (by its UTF-8 bytes) or a buffer. */
  datatype Leaf = Text(bytes: Bytes) | Raw(bytes: Bytes)

  datatype MerkleError = NoLeaves | TooManyLeaves | EmptyText

  /** Buffer.concat of two buffers. */
  function Cat(a: Bytes, b: Bytes): Bytes { a + b }

  // ----- the tree as a function of its bottom level -----

  /** What is hashed into node j of the level above: two neighbours, or the odd last node twice. */
  function PairAt(level: seq<Digest>, j: nat): Bytes
    requires 2 * j < |level|
  {
    Cat(level[2 * j], if 2 * j + 1 < |level| then level[2 * j + 1] else level[2 * j])
  }

  function Next(h: HashFn, level: seq<Digest>): (next: seq<Digest>)
    ensures |next| == (|level| + 1) / 2
    ensures forall j :: 0 <= j < |next| ==> next[j] == h(PairAt(level, j))
  {
    seq<Digest>((|level| + 1) / 2, j requires 0 <= j < (|level| + 1) / 2 => h(PairAt(level, j)))
  }

  /** All levels, root level first. */
  function Levels(h: HashFn, level: seq<Digest>): (levels: seq<seq<Digest>>)
    requires level != []
    ensures levels != [] && levels[|levels| - 1] == level
    decreases |level|
  {
    if |level| == 1 then [level] else Levels(h, Next(h, level)) + [level]
  }

  function RootOf(h: HashFn, level: seq<Digest>): Digest
    requires level != []
    decreases |level|
  {
    if |level| == 1 then level[0] else RootOf(h, Next(h, level))
  }

  function Sibling(level: seq<Digest>, i: nat): Digest
    requires i < |level|
  {
    var s := if i % 2 == 0 then i + 1 else i - 1;
    if s < |level| then level[s] else level[i]
  }

  function ProofOf(h: HashFn, level: seq<Digest>, i: nat): seq<Digest>
    requires i < |level|
    decreases |level|
  {
    if |level| == 1 then [] else [Sibling(level, i)] + ProofOf(h, Next(h, level), i / 2)
  }

  /** What verification hashes at one step: the side is chosen by the parity of the index. */
  function Combine(hash: Bytes, sibling: Bytes, index: int): Bytes {
    if index % 2 == 0 then Cat(hash, sibling) else Cat(sibling, hash)
  }

  function Climb(h: HashFn, hash: Digest, proof: seq<Bytes>, index: int): Digest
    decreases |proof|
  {
    if proof == [] then hash else Climb(h, h(Combine(hash, proof[0], index)), proof[1..], index / 2)
  }

  function HashedLeaves(h: HashFn, leaves: seq<Leaf>): seq<Digest> {
    seq<Digest>(|leaves|, i requires 0 <= i < |leaves| => h(leaves[i].bytes))
  }

  /** Number of halvings from n nodes to one. */
  function Height(n: nat): nat {
    if n <= 1 then 0 else 1 + Height((n + 1) / 2)
  }

  // ----- the class -----

  class MerkleTree {
    const h: HashFn
    var levels: seq<seq<Digest>>

    ghost predicate Valid()
      reads this
    {
      levels != [] && levels[|levels| - 1] != [] && levels == Levels(h, levels[|levels| - 1])
    }

    ghost function Bottom(): seq<Digest>
      reads this
      requires Valid()
    {
      levels[|levels| - 1]
    }

    /** The level loop of the constructor, over leaves already accepted and hashed. */
    constructor (h: HashFn, hashed: seq<Digest>)
      requires hashed != []
      ensures Valid() && Bottom() == hashed && this.h == h
    {
      this.h := h;
      levels := [hashed];
      new;
      var level := hashed;
      while |level| > 1
        invariant |level| >= 1 && levels != [] && levels[0] == level
        invariant BuiltFrom(h, hashed, level, levels)
        decreases |level|
      {
        var next := HashPairs(h, level);
        LevelsGrow(h, hashed, level, levels);
        levels := [next] + levels;
        level := next;
      }
    }

    /** One round of the level loop. */
    static method HashPairs(h: HashFn, level: seq<Digest>) returns (next: seq<Digest>)
      ensures next == Next(h, level)
    {
      next := [];
      var i := 0;
      while i < |level|
        invariant 0 <= i <= |level| + 1 && i % 2 == 0 && |next| == i / 2
        invariant forall j :: 0 <= j < |next| ==> 2 * j < |level| && next[j] == h(PairAt(level, j))
      {
        var left := level[i];
        var right := if i + 1 < |level| then level[i + 1] else level[i];
        assert Cat(left, right) == PairAt(level, i / 2);
        next := next + [h(Cat(left, right))];
        i := i + 2;
      }
    }

    /** Rejects the leaf lists the constructor throws on, and builds the tree of any other. */
    static method Create(h: HashFn, leaves: seq<Leaf>, maxLeaves: nat) returns (r: Result<MerkleTree, MerkleError>)
      ensures r.Err? <==> leaves == [] || |leaves| > maxLeaves || exists l :: l in leaves && l.Text? && l.bytes == []
      ensures r.Ok? ==> fresh(r.value) && r.value.Valid() && r.value.h == h
      ensures r.Ok? ==> r.value.Bottom() == HashedLeaves(h, leaves)
      ensures r.Err? ==> r.error == if leaves == [] then NoLeaves
                                    else if |leaves| > maxLeaves then TooManyLeaves else EmptyText
    {
      if |leaves| == 0 { return Err(NoLeaves); }
      if |leaves| > maxLeaves { return Err(TooManyLeaves); }
      if exists l :: l in leaves && l.Text? && l.bytes == [] { return Err(EmptyText); }
      var tree := new MerkleTree(h, HashedLeaves(h, leaves));
      return Ok(tree);
    }

    method GetRoot() returns (root: Digest)
      requires Valid()
      ensures root == RootOf(h, Bottom())
    {
      TopIsRoot(h, Bottom());
      root := levels[0][0];
    }

    method GetProof(leafIndex: int) returns (proof: seq<Digest>)
      requires Valid()
      ensures proof == if 0 <= leafIndex < |Bottom()| then ProofOf(h, Bottom(), leafIndex) else []
    {
      proof := [];
      var levels := this.levels;
      var index := leafIndex;
      var bottomLevel := levels[|levels| - 1];
      if index < 0 || index >= |bottomLevel| { return; }
      ghost var whole := ProofOf(h, bottomLevel, leafIndex);
      assert levels[..|levels|] == levels;
      var lvl := |levels| - 1;
      while lvl > 0
        invariant 0 <= lvl < |levels| && 0 <= index && HeadIsTree(h, levels, lvl, index)
        invariant proof + ProofOf(h, levels[lvl], index) == whole
      {
        ProofStep(h, levels, lvl, index);
        var sibling := SiblingIn(levels[lvl], index);
        ghost var rest := ProofOf(h, levels[lvl - 1], index / 2);
        assert proof + ([sibling] + rest) == proof + [sibling] + rest;
        proof := proof + [sibling];
        index := index / 2;
        lvl := lvl - 1;
      }
      LevelsCount(h, levels[0]);
    }

    static method SiblingIn(level: seq<Digest>, index: nat) returns (sibling: Digest)
      requires index < |level|
      ensures sibling == Sibling(level, index)
    {
      var siblingIndex := if index % 2 == 0 then index + 1 else index - 1;
      sibling := if siblingIndex < |level| then level[siblingIndex] else level[index];
    }

    /** Accepts exactly when climbing from the leaf's digest along the proof ends in the root. */
    static method VerifyProof(h: HashFn, leaf: Leaf, proof: seq<Bytes>, root: Bytes, leafIndex: int) returns (ok: bool)
      ensures ok <==> Climb(h, h(leaf.bytes), proof, leafIndex) == root
    {
      var hash: Digest := h(leaf.bytes);
      var index := leafIndex;
      for k := 0 to |proof|
        invariant Climb(h, hash, proof[k..], index) == Climb(h, h(leaf.bytes), proof, leafIndex)
      {
        var sibling := proof[k];
        assert proof[k..][1..] == proof[k + 1..];
        hash := if index % 2 == 0 then h(Cat(hash, sibling)) else h(Cat(sibling, hash));
        index := index / 2;
      }
      ok := hash == root;
    }
  }

  /** The first lvl+1 levels are the tree over level lvl, which has a node `index`. */
  ghost predicate HeadIsTree(h: HashFn, levels: seq<seq<Digest>>, lvl: nat, index: nat) {
    lvl < |levels| && index < |levels[lvl]| && levels[..lvl + 1] == Levels(h, levels[lvl])
  }

  lemma ProofStep(h: HashFn, levels: seq<seq<Digest>>, lvl: nat, index: nat)
    requires lvl > 0 && HeadIsTree(h, levels, lvl, index)
    ensures HeadIsTree(h, levels, lvl - 1, index / 2)
    ensures ProofOf(h, levels[lvl], index)
         == [Sibling(levels[lvl], index)] + ProofOf(h, levels[lvl - 1], index / 2)
  {
    var level := levels[lvl];
    assert |level| > 1 by { LevelsCount(h, level); }
    assert levels[..lvl] == levels[..lvl + 1][..lvl] == Levels(h, Next(h, level));
    assert levels[lvl - 1] == levels[..lvl][lvl - 1] == Next(h, level);
  }

  /** `levels` is the lower part, from `level` down, of the levels over `bottom`. */
  ghost predicate BuiltFrom(h: HashFn, bottom: seq<Digest>, level: seq<Digest>, levels: seq<seq<Digest>>)
    requires bottom != [] && level != []
  {
    Levels(h, bottom) == Levels(h, level)[..|Levels(h, level)| - 1] + levels
  }

  lemma LevelsGrow(h: HashFn, bottom: seq<Digest>, level: seq<Digest>, levels: seq<seq<Digest>>)
    requires bottom != [] && |level| > 1 && BuiltFrom(h, bottom, level, levels)
    ensures BuiltFrom(h, bottom, Next(h, level), [Next(h, level)] + levels)
  {
    var next := Next(h, level);
    var upper := Levels(h, next);
    assert Levels(h, bottom) == upper + levels by {
      assert Levels(h, level) == upper + [level];
      DropAdded(upper, level);
    }
    Regroup(upper, next, levels);
  }

  lemma DropAdded<T>(s: seq<T>, x: T)
    ensures (s + [x])[..|s + [x]| - 1] == s
  {}

  lemma Regroup<T>(s: seq<T>, x: T, rest: seq<T>)
    requires s != [] && s[|s| - 1] == x
    ensures s + rest == s[..|s| - 1] + ([x] + rest)
  {}

  lemma {:induction false} TopIsRoot(h: HashFn, level: seq<Digest>)
    requires level != []
    ensures Levels(h, level)[0] == [RootOf(h, level)]
    decreases |level|
  {
    if |level| > 1 {
      TopIsRoot(h, Next(h, level));
    } else {
      assert level == [level[0]];
    }
  }

  lemma {:induction false} LevelsCount(h: HashFn, level: seq<Digest>)
    requires level != []
    ensures |Levels(h, level)| == Height(|level|) + 1
    decreases |level|
  {
    if |level| > 1 { LevelsCount(h, Next(h, level)); }
  }
}
