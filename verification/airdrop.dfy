/**
 Artifact assembly: one leaf per recipient in recipient order, one tree over
 all leaves, then one claim record per recipient (address, amount and the
 proof for its leaf) and the exact total of all amounts.
 */
module Airdrop {
  import opened Bytes
  import opened Wrappers
  import opened Leaf
  import opened MerkleTree

  /** One airdrop entry: a checksummed address and its amount in base units. */
  datatype Recipient = Recipient(address: Address, value: nat)

  /** One record of the artifact: what a claimant submits to the verifier. */
  datatype Claim = Claim(address: Address, amount: nat, proofs: seq<Node>)

  /** The whole output: the root, the total of all amounts and one claim per recipient. */
  datatype Artifact = Artifact(root: seq<byte>, total: nat, airdrops: seq<Claim>)

  /** Whether every amount fits the `uint256` slot of its leaf. */
  predicate AllFit(recipients: seq<Recipient>)
  {
    forall i :: 0 <= i < |recipients| ==> FitsUint256(recipients[i].value)
  }

  /** The exact (unbounded) sum of all amounts. */
  function TotalOf(recipients: seq<Recipient>): nat
    decreases |recipients|
  {
    if |recipients| == 0 then 0 else recipients[0].value + TotalOf(recipients[1..])
  }

  /** The total of a concatenation is the sum of the totals: no amount is
      lost, counted twice or truncated, whichever way the list is split. */
  lemma {:induction false} TotalOfAppend(a: seq<Recipient>, b: seq<Recipient>)
    ensures TotalOf(a + b) == TotalOf(a) + TotalOf(b)
    decreases |a|
  {
    if |a| == 0 {
      assert a + b == b;
    } else {
      assert (a + b)[1..] == a[1..] + b;
      TotalOfAppend(a[1..], b);
    }
  }

  /** Adding amounts front to back, as the artifact builder does, reaches the total. */
  lemma TotalOfPrefix(recipients: seq<Recipient>, i: nat)
    requires i < |recipients|
    ensures TotalOf(recipients[..i + 1]) == TotalOf(recipients[..i]) + recipients[i].value
  {
    assert recipients[..i + 1] == recipients[..i] + [recipients[i]];
    TotalOfAppend(recipients[..i], [recipients[i]]);
  }

  /** Position `i` holds the first amount that does not fit 256 bits. */
  predicate FirstOverflow(recipients: seq<Recipient>, i: nat)
  {
    && i < |recipients|
    && !FitsUint256(recipients[i].value)
    && forall j :: 0 <= j < i ==> FitsUint256(recipients[j].value)
  }

  /** The leaves, one per recipient and in recipient order; the first amount
      that does not fit 256 bits stops the whole build. */
  function BuildLeaves(h: Hasher, recipients: seq<Recipient>): (r: Result<seq<Node>, LeafError>)
    ensures r.Success? <==> AllFit(recipients)
    ensures r.Success? ==> |r.value| == |recipients|
    ensures r.Success? ==> forall i {:trigger r.value[i]} :: 0 <= i < |recipients| ==>
              GenerateLeaf(h, recipients[i].address, recipients[i].value) == Success(r.value[i])
    ensures r.Failure? ==>
              exists i: nat :: FirstOverflow(recipients, i) && r.error == AmountOutOfRange(recipients[i].value)
    decreases |recipients|
  {
    if |recipients| == 0 then Success([])
    else
      var first, rest := recipients[0], recipients[1..];
      match GenerateLeaf(h, first.address, first.value)
      case Failure(e) =>
        assert FirstOverflow(recipients, 0);
        Failure(e)
      case Success(leaf) =>
        match BuildLeaves(h, rest)
        case Failure(e) =>
          var i: nat :| FirstOverflow(rest, i) && e == AmountOutOfRange(rest[i].value);
          assert recipients[i + 1] == rest[i];
          assert FirstOverflow(recipients, i + 1) by {
            forall j | 1 <= j < i + 1
              ensures FitsUint256(recipients[j].value)
            {
              assert recipients[j] == rest[j - 1];
            }
          }
          Failure(e)
        case Success(leaves) =>
          Success([leaf] + leaves)
  }

  /** A claim is accepted by a verifier holding `root` when the leaf rebuilt
      from its address and amount folds with its proofs to the root. */
  predicate ClaimVerifies(h: Hasher, root: seq<byte>, claim: Claim)
  {
    match GenerateLeaf(h, claim.address, claim.amount)
    case Success(leaf) => FoldProof(h, leaf, claim.proofs) == root
    case Failure(_) => false
  }

  /** `claim` is the record of `recipient` in the tree over `leaves`:
      address and amount copied unchanged, the proof the tree's lookup
      returns for the recipient's leaf, at most as long as the tree is high,
      and accepted against `root`. */
  predicate ClaimFor(h: Hasher, leaves: seq<Node>, root: seq<byte>, recipient: Recipient, claim: Claim)
  {
    && claim.address == recipient.address
    && claim.amount == recipient.value
    && |claim.proofs| <= Height(|leaves|)
    && ClaimVerifies(h, root, claim)
    && match GenerateLeaf(h, recipient.address, recipient.value)
       case Success(leaf) => IsLookupPath(h, leaves, leaf, claim.proofs)
       case Failure(_) => false
  }

  /** Appending the record of the next recipient keeps every record matched
      to its recipient. */
  lemma ClaimsExtend(h: Hasher, leaves: seq<Node>, root: seq<byte>, recipients: seq<Recipient>,
                     claims: seq<Claim>, claim: Claim)
    requires |claims| < |recipients|
    requires forall j :: 0 <= j < |claims| ==> ClaimFor(h, leaves, root, recipients[j], claims[j])
    requires ClaimFor(h, leaves, root, recipients[|claims|], claim)
    ensures forall j :: 0 <= j < |claims| + 1 ==> ClaimFor(h, leaves, root, recipients[j], (claims + [claim])[j])
  {
    forall j | 0 <= j < |claims| + 1
      ensures ClaimFor(h, leaves, root, recipients[j], (claims + [claim])[j])
    {
      if j < |claims| {
        assert (claims + [claim])[j] == claims[j];
      }
    }
  }

  /** Looking a recipient's leaf up by value always succeeds, at the
      recipient's own position or at a later one holding the same leaf. */
  lemma LookupSucceeds(h: Hasher, recipients: seq<Recipient>, i: nat)
    requires AllFit(recipients) && i < |recipients|
    ensures BuildLeaves(h, recipients).Success?
    ensures FindLeaf(BuildLeaves(h, recipients).value, BuildLeaves(h, recipients).value[i]).Some?
    ensures FindLeaf(BuildLeaves(h, recipients).value, BuildLeaves(h, recipients).value[i]).value >= i
  {
    var leaves := BuildLeaves(h, recipients).value;
    assert leaves[i] in leaves;
  }

  /** The record of one recipient: its address and amount copied unchanged,
      and the proof the tree returns for the recipient's leaf. */
  method MakeClaim(h: Hasher, leaves: seq<Node>, recipient: Recipient) returns (claim: Claim)
    requires GenerateLeaf(h, recipient.address, recipient.value).Success?
    requires GenerateLeaf(h, recipient.address, recipient.value).value in leaves
    ensures claim.address == recipient.address && claim.amount == recipient.value
    ensures |claim.proofs| <= Height(|leaves|)
    ensures ClaimVerifies(h, Root(h, leaves), claim)
    ensures IsLookupPath(h, leaves, GenerateLeaf(h, recipient.address, recipient.value).value, claim.proofs)
    ensures ClaimFor(h, leaves, Root(h, leaves), recipient, claim)
  {
    var leaf := GenerateLeaf(h, recipient.address, recipient.value).value;
    var proofs := GetHexProof(h, leaves, leaf);
    claim := Claim(recipient.address, recipient.value, proofs);
  }

  /** Builds the artifact. Fails, before any tree is built, when an amount
      does not fit 256 bits; otherwise the root is the root of the tree over
      the recipients' leaves, every recipient gets, in order, a claim carrying
      the tree's proof for its leaf, and the total is the exact sum. */
  method Process(h: Hasher, recipients: seq<Recipient>) returns (r: Result<Artifact, LeafError>)
    ensures r.Success? <==> AllFit(recipients)
    ensures r.Failure? ==>
              exists i: nat :: FirstOverflow(recipients, i) && r.error == AmountOutOfRange(recipients[i].value)
    ensures r.Success? ==> r.value.total == TotalOf(recipients)
    ensures r.Success? ==> (|r.value.root| == 0 <==> |recipients| == 0)
    ensures r.Success? ==> |r.value.airdrops| == |recipients|
    ensures r.Success? ==> BuildLeaves(h, recipients).Success?
    ensures r.Success? ==> CommitsTo(h, BuildLeaves(h, recipients).value, r.value.root)
    ensures r.Success? ==> forall i :: 0 <= i < |recipients| ==>
              ClaimFor(h, BuildLeaves(h, recipients).value, r.value.root, recipients[i], r.value.airdrops[i])
  {
    var built := BuildLeaves(h, recipients);
    if built.Failure? {
      return Failure(built.error);
    }
    var leaves := built.value;
    var root := GetHexRoot(h, leaves);
    var airdrops: seq<Claim> := [];
    var total: nat := 0;
    for i := 0 to |recipients|
      invariant |airdrops| == i
      invariant total == TotalOf(recipients[..i])
      invariant forall j :: 0 <= j < i ==> ClaimFor(h, leaves, root, recipients[j], airdrops[j])
    {
      assert GenerateLeaf(h, recipients[i].address, recipients[i].value) == Success(leaves[i]);
      var claim := MakeClaim(h, leaves, recipients[i]);
      ClaimsExtend(h, leaves, root, recipients, airdrops, claim);
      airdrops := airdrops + [claim];
      TotalOfPrefix(recipients, i);
      total := total + recipients[i].value;
    }
    assert recipients[..|recipients|] == recipients;
    return Success(Artifact(root, total, airdrops));
  }
}
