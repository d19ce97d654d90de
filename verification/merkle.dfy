/**
 The Merkle tree builder in the configuration `{ sortPairs: true }` with the
 library's defaults otherwise: leaves are used as given (not re-hashed, not
 re-sorted), siblings are sorted before hashing, and a trailing unpaired node
 is carried up to the next level unchanged rather than duplicated.
 */
module MerkleTree {
  import opened Bytes
  import opened Wrappers

  /** Parent of two siblings: the hash of the two digests concatenated in
      ascending byte-wise order. */
  function Combine(h: Hasher, a: Node, b: Node): (r: Node)
  {
    if LexLessEq(a, b) then h(a + b) else h(b + a)
  }

  /** The pair is ordered as 256-bit big-endian numbers: the numerically
      smaller digest is hashed first. */
  lemma CombineSortsNumerically(h: Hasher, a: Node, b: Node)
    ensures FromBigEndian(a) <= FromBigEndian(b) ==> Combine(h, a, b) == h(a + b)
    ensures FromBigEndian(b) < FromBigEndian(a) ==> Combine(h, a, b) == h(b + a)
  {
    LexLessEqIsNumericOrder(a, b);
  }

  /** Sorting each pair makes the parent independent of which sibling is listed first. */
  lemma CombineCommutative(h: Hasher, a: Node, b: Node)
    ensures Combine(h, a, b) == Combine(h, b, a)
  {
    LexLessEqTotal(a, b);
    if LexLessEq(a, b) && LexLessEq(b, a) {
      LexLessEqAntisymmetric(a, b);
    }
  }

  /** The level above `level`: consecutive pairs combined, in order, with a
      trailing odd node promoted as it is. */
  function NextLevel(h: Hasher, level: seq<Node>): (r: seq<Node>)
    ensures |r| == (|level| + 1) / 2
    ensures |level| % 2 == 1 ==> r[|r| - 1] == level[|level| - 1]
    decreases |level|
  {
    if |level| == 0 then []
    else if |level| == 1 then [level[0]]
    else [Combine(h, level[0], level[1])] + NextLevel(h, level[2..])
  }

  /** Node `k` of the next level is the parent of the `k`-th pair, i.e. of
      the nodes at positions `2k` and `2k + 1`. */
  lemma {:induction false} NextLevelPair(h: Hasher, level: seq<Node>, k: nat)
    requires 2 * k + 1 < |level|
    ensures NextLevel(h, level)[k] == Combine(h, level[2 * k], level[2 * k + 1])
    decreases k
  {
    if k > 0 {
      NextLevelPair(h, level[2..], k - 1);
    }
  }

  /** Number of levels above the leaves of a tree over `n` leaves. */
  function Height(n: nat): nat
  {
    if n <= 1 then 0 else 1 + Height((n + 1) / 2)
  }

  /** 2 to the power `k`. */
  function Pow2(k: nat): (p: nat)
    ensures p >= 1
  {
    if k == 0 then 1 else 2 * Pow2(k - 1)
  }

  /** The height is the ceiling of log2 of the leaf count: the least `k`
      with `n <= 2^k`. */
  lemma {:induction false} HeightIsCeilLog2(n: nat)
    requires n >= 1
    ensures n <= Pow2(Height(n))
    ensures Height(n) > 0 ==> Pow2(Height(n) - 1) < n
    decreases n
  {
    if n > 1 {
      var m := (n + 1) / 2;
      HeightIsCeilLog2(m);
      if Height(m) > 0 {
        assert Pow2(Height(m) - 1) < m;
        assert Pow2(Height(n) - 1) == 2 * Pow2(Height(m) - 1);
      }
    }
  }

  /** All levels of the tree, leaves first, root level last. */
  function Levels(h: Hasher, leaves: seq<Node>): (ls: seq<seq<Node>>)
    requires |leaves| > 0
    ensures |ls| == Height(|leaves|) + 1
    ensures ls[0] == leaves
    ensures forall i :: 0 <= i < |ls| - 1 ==> |ls[i]| > 1 && ls[i + 1] == NextLevel(h, ls[i])
    ensures |ls[|ls| - 1]| == 1
    ensures ls[|ls| - 1][0] == Root(h, leaves)
    decreases |leaves|
  {
    if |leaves| == 1 then [leaves]
    else [leaves] + Levels(h, NextLevel(h, leaves))
  }

  /** The single node left once levels have been built until one remains. */
  function Root(h: Hasher, leaves: seq<Node>): Node
    requires |leaves| > 0
    decreases |leaves|
  {
    if |leaves| == 1 then leaves[0] else Root(h, NextLevel(h, leaves))
  }

  /** Position of the sibling of node `i` in a level (it may lie past the end). */
  function SiblingIndex(i: nat): nat
  {
    if i % 2 == 1 then i - 1 else i + 1
  }

  /** The proof of the leaf at position `i`: its sibling at each level,
      bottom-up, skipping the levels where it is the unpaired carried node. */
  function Proof(h: Hasher, leaves: seq<Node>, i: nat): seq<Node>
    requires i < |leaves|
    decreases |leaves|
  {
    if |leaves| == 1 then []
    else
      var here := if SiblingIndex(i) < |leaves| then [leaves[SiblingIndex(i)]] else [];
      here + Proof(h, NextLevel(h, leaves), i / 2)
  }

  /** Rehashing a leaf along a proof, combining the running digest with each
      proof element in turn. */
  function FoldProof(h: Hasher, leaf: Node, proof: seq<Node>): Node
    decreases |proof|
  {
    if |proof| == 0 then leaf else FoldProof(h, Combine(h, leaf, proof[0]), proof[1..])
  }

  /** What a downstream verifier checks: the proof leads from the leaf to the root. */
  predicate Verify(h: Hasher, proof: seq<Node>, root: seq<byte>, leaf: Node)
  {
    FoldProof(h, leaf, proof) == root
  }

  /** One step up: a node combined with its sibling, or carried alone, is
      its parent in the next level. */
  lemma StepUp(h: Hasher, level: seq<Node>, i: nat)
    requires 1 < |level| && i < |level|
    ensures i / 2 < |NextLevel(h, level)|
    ensures SiblingIndex(i) < |level| ==>
              Combine(h, level[i], level[SiblingIndex(i)]) == NextLevel(h, level)[i / 2]
    ensures SiblingIndex(i) >= |level| ==> level[i] == NextLevel(h, level)[i / 2]
  {
    var next := NextLevel(h, level);
    if SiblingIndex(i) < |level| {
      NextLevelPair(h, level, i / 2);
      if i % 2 == 1 {
        CombineCommutative(h, level[i - 1], level[i]);
      }
    } else {
      assert i + 1 == |level| && |level| % 2 == 1;
    }
  }

  /** Proof soundness: folding any leaf with its proof reproduces the root. */
  lemma {:induction false} ProofSound(h: Hasher, leaves: seq<Node>, i: nat)
    requires i < |leaves|
    ensures Verify(h, Proof(h, leaves, i), Root(h, leaves), leaves[i])
    decreases |leaves|
  {
    if |leaves| > 1 {
      var next := NextLevel(h, leaves);
      StepUp(h, leaves, i);
      ProofSound(h, next, i / 2);
      var rest := Proof(h, next, i / 2);
      if SiblingIndex(i) < |leaves| {
        var p := [leaves[SiblingIndex(i)]] + rest;
        assert Proof(h, leaves, i) == p;
        assert p[1..] == rest;
        assert FoldProof(h, leaves[i], p) == FoldProof(h, next[i / 2], rest);
      } else {
        assert Proof(h, leaves, i) == rest;
      }
    }
  }

  /** Number of levels at which the node above leaf `i` is the unpaired
      trailing node of an odd-sized level. */
  function Carries(n: nat, i: nat): nat
    requires i < n
    decreases n
  {
    if n <= 1 then 0
    else (if SiblingIndex(i) >= n then 1 else 0) + Carries((n + 1) / 2, i / 2)
  }

  /** A proof holds one sibling per level above the leaves, except at the
      levels where its node is carried up unpaired; so it is never longer
      than the height. */
  lemma {:induction false} ProofLength(h: Hasher, leaves: seq<Node>, i: nat)
    requires i < |leaves|
    ensures Carries(|leaves|, i) <= Height(|leaves|)
    ensures |Proof(h, leaves, i)| == Height(|leaves|) - Carries(|leaves|, i)
    decreases |leaves|
  {
    if |leaves| > 1 {
      StepUp(h, leaves, i);
      ProofLength(h, NextLevel(h, leaves), i / 2);
    }
  }

  /** Over 2^k leaves every node is paired at every level, so every proof has
      exactly k elements. */
  lemma {:induction false} FullTreeProofLength(h: Hasher, leaves: seq<Node>, i: nat, k: nat)
    requires |leaves| == Pow2(k) && i < |leaves|
    ensures |Proof(h, leaves, i)| == k
    decreases k
  {
    if k > 0 {
      var next := NextLevel(h, leaves);
      assert |next| == Pow2(k - 1);
      StepUp(h, leaves, i);
      FullTreeProofLength(h, next, i / 2, k - 1);
    }
  }

  /** Swapping the two members of any sibling pair leaves the root unchanged;
      only the grouping of leaves into pairs matters. */
  lemma SwapWithinPairKeepsRoot(h: Hasher, leaves: seq<Node>, k: nat)
    requires 2 * k + 1 < |leaves|
    ensures Root(h, leaves[2 * k := leaves[2 * k + 1]][2 * k + 1 := leaves[2 * k]]) == Root(h, leaves)
  {
    var swapped := leaves[2 * k := leaves[2 * k + 1]][2 * k + 1 := leaves[2 * k]];
    var a, b := NextLevel(h, leaves), NextLevel(h, swapped);
    assert |a| == |b|;
    forall j | 0 <= j < |a|
      ensures a[j] == b[j]
    {
      if 2 * j + 1 < |leaves| {
        NextLevelPair(h, leaves, j);
        NextLevelPair(h, swapped, j);
        if j == k {
          CombineCommutative(h, leaves[2 * k], leaves[2 * k + 1]);
        }
      } else {
        assert swapped[2 * j] == leaves[2 * j];
      }
    }
    assert a == b;
  }

  /** Position of `leaf` among the leaves, as a lookup by value finds it: the
      last matching position, or nothing when the value is not a leaf. */
  function FindLeaf(leaves: seq<Node>, leaf: Node): (r: Option<nat>)
    ensures r.None? <==> leaf !in leaves
    ensures r.Some? ==> r.value < |leaves| && leaves[r.value] == leaf
    ensures r.Some? ==> forall j :: r.value < j < |leaves| ==> leaves[j] != leaf
    decreases |leaves|
  {
    if |leaves| == 0 then None
    else if leaves[|leaves| - 1] == leaf then Some(|leaves| - 1)
    else FindLeaf(leaves[..|leaves| - 1], leaf)
  }

  /** `proof` admits `leaf` into the tree over `leaves`: it leads from the
      leaf to the root in no more steps than the tree is high. */
  predicate ProvesMembership(h: Hasher, leaves: seq<Node>, leaf: Node, proof: seq<Node>)
    requires |leaves| > 0
  {
    && Verify(h, proof, Root(h, leaves), leaf)
    && |proof| <= Height(|leaves|)
  }

  /** `proof` is what a lookup of `leaf` by value yields: the sibling path of
      the position `FindLeaf` finds, or the empty proof when there is none. */
  predicate IsLookupPath(h: Hasher, leaves: seq<Node>, leaf: Node, proof: seq<Node>)
  {
    match FindLeaf(leaves, leaf)
    case None => proof == []
    case Some(i) => proof == Proof(h, leaves, i)
  }

  /** The proof returned for a leaf value: the proof at its position, or the
      empty proof for a value that is not a leaf. The name follows the
      library call; the proof stays a sequence of nodes, not hex strings. */
  method GetHexProof(h: Hasher, leaves: seq<Node>, leaf: Node) returns (proof: seq<Node>)
    ensures leaf in leaves ==> ProvesMembership(h, leaves, leaf, proof)
    ensures leaf !in leaves ==> proof == []
    ensures IsLookupPath(h, leaves, leaf, proof)
  {
    match FindLeaf(leaves, leaf)
    case None =>
      proof := [];
    case Some(i) =>
      ProofSound(h, leaves, i);
      ProofLength(h, leaves, i);
      proof := Proof(h, leaves, i);
  }

  /** `root` commits to `leaves`: it is their tree's root, and the proof of
      every position leads from that position's leaf to it. */
  predicate CommitsTo(h: Hasher, leaves: seq<Node>, root: seq<byte>)
  {
    && (|leaves| > 0 ==> root == Root(h, leaves))
    && forall i {:trigger Proof(h, leaves, i)} :: 0 <= i < |leaves| ==> Verify(h, Proof(h, leaves, i), root, leaves[i])
  }

  /** The root as it is reported: the 32-byte root, or no bytes at all for a
      tree without leaves. The name follows the library call; the root stays
      a byte sequence, not a hex string. */
  method GetHexRoot(h: Hasher, leaves: seq<Node>) returns (root: seq<byte>)
    ensures |leaves| == 0 <==> root == []
    ensures CommitsTo(h, leaves, root)
  {
    if |leaves| == 0 {
      root := [];
    } else {
      root := Root(h, leaves);
      forall i | 0 <= i < |leaves|
        ensures Verify(h, Proof(h, leaves, i), root, leaves[i])
      {
        ProofSound(h, leaves, i);
      }
    }
  }

  /** A one-leaf tree: the root is the leaf and its proof is empty. */
  lemma SingleLeaf(h: Hasher, a: Node)
    ensures Root(h, [a]) == a
    ensures Proof(h, [a], 0) == []
  {
  }

  /** A two-leaf tree: the root is the combined pair whichever order the two
      leaves are listed in. */
  lemma TwoLeaves(h: Hasher, a: Node, b: Node)
    ensures Root(h, [a, b]) == Combine(h, a, b)
    ensures Root(h, [b, a]) == Root(h, [a, b])
    ensures Proof(h, [a, b], 0) == [b] && Proof(h, [a, b], 1) == [a]
  {
    CombineCommutative(h, a, b);
  }

  /** A three-leaf tree: the third leaf is carried up past the first level,
      so its proof is the single parent of the first pair. */
  lemma ThreeLeaves(h: Hasher, a: Node, b: Node, c: Node)
    ensures NextLevel(h, [a, b, c]) == [Combine(h, a, b), c]
    ensures Root(h, [a, b, c]) == Combine(h, Combine(h, a, b), c)
    ensures Proof(h, [a, b, c], 0) == [b, c]
    ensures Proof(h, [a, b, c], 2) == [Combine(h, a, b)]
  {
    var next := NextLevel(h, [a, b, c]);
    assert next == [Combine(h, a, b), c];
    var top := NextLevel(h, next);
    assert top == [Combine(h, Combine(h, a, b), c)];
    assert Root(h, [a, b, c]) == Root(h, next) == Root(h, top);
    assert Proof(h, next, 0) == [c] + Proof(h, top, 0);
    assert Proof(h, [a, b, c], 0) == [b] + Proof(h, next, 0);
  }

  /** A leaf listed twice is looked up at its later position: in `[a, b, a]`
      the lookup of `a` returns the carried third leaf's path, not the first's. */
  lemma DuplicateLeafLastMatch(h: Hasher, a: Node, b: Node)
    ensures FindLeaf([a, b, a], a) == Some(2)
    ensures IsLookupPath(h, [a, b, a], a, [Combine(h, a, b)])
  {
    ThreeLeaves(h, a, b, a);
  }
}
