# Merkle airdrop generator — Dafny model

This project models how the airdrop generator builds its commitment. Each
recipient `(address, amount)` becomes one Merkle leaf: the Keccak-256 hash of
the tightly packed pair, meaning 20 address bytes followed by the amount as a
32-byte big-endian `uint256`. This is the "non-standard packed mode" of the
Solidity ABI specification.

The leaves go, in recipient order, into a Merkle tree configured with
`{ sortPairs: true }`:
- a parent is the hash of its two children concatenated in ascending byte order;
- a trailing unpaired node is carried up to the next level unchanged, not duplicated.

The generator reads the root (`getHexRoot`) and, for every recipient, the proof
of that recipient's leaf (`getHexProof`). It emits one record per recipient,
in order, together with the exact total of all amounts.

Modules:

- `Wrappers` (`wrappers.dfy`): `Option` and `Result`.
- `Bytes` (`bytes.dfy`): bytes, 32-byte nodes and the hash type `Hasher`.
  - Big-endian encoding and decoding, with their round trips.
  - Byte-wise lexicographic order, which is the order `Buffer.compare` uses.
    The module proves it equals the order of the big-endian numbers.
- `Leaf` (`leaf.dfy`): packing `(address, uint256)` and hashing it into a leaf.
  - An amount of 2^256 or more is an error value, because the packer rejects it.
- `MerkleTree` (`merkle.dfy`): the tree policy written out as functions.
  - `Combine`, `NextLevel`, `Levels`, `Root`, `Proof`, `FoldProof` and `Verify`.
  - The lookup by leaf value behind `getHexProof`, and `getHexRoot`.
- `Airdrop` (`airdrop.dfy`): building the leaves, the per-recipient claim
  records, the total, and the whole `process` step.

Keccak-256 is the parameter `h: Hasher`, a function from byte strings to
32-byte nodes. The source hands `keccak256` to the tree the same way. No
property depends on what the hash computes.

## Model

| member | source | states |
|---|---|---|
| Bytes.FromToBigEndian | src/generatorProofs.ts:51 | Reading back the `width`-byte big-endian encoding of any `v < 256^width` gives `v`. |
| Bytes.BigEndianRoundTrip | src/generatorProofs.ts:51 | Every byte string is the big-endian encoding, at its own width, of the number it denotes. |
| Bytes.FromBigEndianBound | src/generatorProofs.ts:51 | An `n`-byte big-endian value is below `256^n`, so every 32-byte slot holds a `uint256`. |
| Bytes.FromBigEndianSnoc | src/generatorProofs.ts:51 | Appending a low-order byte multiplies the value by 256 and adds the byte. |
| Bytes.LexLessEqTotal | src/generatorProofs.ts:67 | Any two byte strings are comparable under the byte-wise order used to sort pairs. |
| Bytes.LexLessEqAntisymmetric | src/generatorProofs.ts:67 | Two byte strings that each sort no later than the other are equal. |
| Bytes.LexLessEqIsNumericOrder | src/generatorProofs.ts:67 | For equal widths, byte-wise order holds exactly when the big-endian values are ordered, in both directions. |
| Leaf.Uint256LimitValue | src/generatorProofs.ts:51 | The bound on packable amounts is exactly 2^256. |
| Leaf.EncodePacked | src/generatorProofs.ts:48-54 | Packing fails exactly when the amount is 2^256 or more, and says so. Otherwise it yields 52 bytes: the address, then the 32-byte big-endian amount. |
| Leaf.DecodePacked | src/generatorProofs.ts:51 | Any 52-byte pre-image splits into an address and an amount that fits 256 bits. |
| Leaf.DecodeEncode | src/generatorProofs.ts:48-54 | Decoding the packing of an in-range entry gives back that address and amount. |
| Leaf.EncodeDecode | src/generatorProofs.ts:48-54 | Every 52-byte string is the packing of the entry it decodes to. |
| Leaf.EncodePackedInjective | src/generatorProofs.ts:48-54 | Distinct entries have distinct pre-images, so two leaves can only coincide through a hash collision. |
| Leaf.GenerateLeaf | src/generatorProofs.ts:48-54 | A leaf exists exactly when the amount fits 256 bits. It is the hash of the address followed by the 32-byte big-endian amount. |
| MerkleTree.CombineSortsNumerically | src/generatorProofs.ts:60-68 | A parent hashes the numerically smaller child digest first. |
| MerkleTree.CombineCommutative | src/generatorProofs.ts:60-68 | Because pairs are sorted, a parent does not depend on the order of its two children. |
| MerkleTree.NextLevel | src/generatorProofs.ts:60-68 | A level of `n` nodes has `(n+1)/2` nodes above it. When `n` is odd, the last node above is the last node below, carried up unchanged. |
| MerkleTree.NextLevelPair | src/generatorProofs.ts:60-68 | Node `k` of the next level is the parent of nodes `2k` and `2k+1`. |
| MerkleTree.HeightIsCeilLog2 | src/generatorProofs.ts:60-68 | The number of levels above `n >= 1` leaves is `ceil(log2 n)`, the least `k` with `n <= 2^k`. |
| MerkleTree.Levels | src/generatorProofs.ts:60-71 | The levels run from the leaves to a single node, which is the root. Each level has more than one node and is followed by its `NextLevel`. |
| MerkleTree.StepUp | src/generatorProofs.ts:60-68 | A node combined with its sibling, or carried alone when it has none, is its parent in the next level. |
| MerkleTree.ProofSound | src/generatorProofs.ts:71-89 | For every position `i`, folding `leaves[i]` with its proof reproduces the root. |
| MerkleTree.ProofLength | src/generatorProofs.ts:89 | A proof has exactly the tree height minus the number of levels where the node is carried unpaired, so at most `ceil(log2 n)`. |
| MerkleTree.FullTreeProofLength | src/generatorProofs.ts:89 | Over `2^k` leaves nothing is ever carried, so every proof has exactly `k` siblings. |
| MerkleTree.SwapWithinPairKeepsRoot | src/generatorProofs.ts:60-68 | Swapping the two leaves of any pair leaves the root unchanged. |
| MerkleTree.FindLeaf | src/generatorProofs.ts:89 | A lookup by value finds nothing exactly when the value is not a leaf. Otherwise it finds a position holding that value, with no later match. |
| MerkleTree.GetHexProof | src/generatorProofs.ts:89 | The proof is the sibling path of the position the lookup by value finds (the last match), or empty for a value that is not a leaf. For a value in the tree it verifies against the root and has at most `ceil(log2 n)` siblings. |
| MerkleTree.DuplicateLeafLastMatch | src/generatorProofs.ts:89 | For leaves `[a, b, a]` the lookup of `a` lands on the third position, and its proof is the single parent of the first pair. |
| MerkleTree.GetHexRoot | src/generatorProofs.ts:71 | The reported root is empty exactly when there are no leaves, and is otherwise the tree root. Every leaf's proof verifies against it. |
| MerkleTree.SingleLeaf | src/generatorProofs.ts:60-71 | A one-leaf tree has that leaf as its root and an empty proof. |
| MerkleTree.TwoLeaves | src/generatorProofs.ts:60-71 | A two-leaf tree's root is their sorted combination in either listing order, and each leaf's proof is the other leaf. |
| MerkleTree.ThreeLeaves | src/generatorProofs.ts:60-89 | In a three-leaf tree the third leaf is carried past the first level. Its proof is the single parent of the first pair. |
| Airdrop.TotalOfAppend | src/generatorProofs.ts:84-91 | The total of a concatenation is the sum of the totals: nothing is lost, double-counted or truncated. |
| Airdrop.TotalOfPrefix | src/generatorProofs.ts:87-91 | Adding the amounts front to back, one per recipient, accumulates the total. |
| Airdrop.BuildLeaves | src/generatorProofs.ts:62-64 | Leaves are built exactly when every amount fits, one per recipient, in order. Otherwise the first amount that does not fit is reported. |
| Airdrop.LookupSucceeds | src/generatorProofs.ts:62-89 | The leaf rebuilt for a recipient is always found in the tree, at or after that recipient's position. |
| Airdrop.MakeClaim | src/generatorProofs.ts:88-90 | A recipient's record copies its address and amount. Its proof is the tree's lookup path for the recipient's leaf, has at most `ceil(log2 n)` siblings and verifies against the root. |
| Airdrop.ClaimsExtend | src/generatorProofs.ts:87-90 | Appending the next recipient's record keeps every record matched to its recipient in order. |
| Airdrop.Process | src/generatorProofs.ts:59-92 | The artifact exists exactly when every amount fits 256 bits, and otherwise names the first that does not. Its root is the root of the tree over the recipients' leaves. It has one record per recipient, in order, each carrying the tree's lookup path for its leaf, and its total is the exact sum (details below). |

`Airdrop.Process` states:
- the artifact exists exactly when every amount fits 256 bits;
- otherwise it reports the first offending amount;
- there is one record per recipient, in order, with address and amount copied;
- each record's proof is the sibling path the tree's lookup returns for the recipient's leaf;
- each record's proof verifies against the root and has at most `ceil(log2 n)` siblings;
- the root is the root of the tree over the recipients' leaves, and every leaf's proof verifies against it;
- the root is empty exactly when there are no recipients;
- the total is the exact sum of all amounts.

## Left out

- File output, JSON serialisation, logging, `outputPath` and the `async` plumbing (lines 1-10, 57, 72, 96-106). These are I/O.
- Reading recipients in the constructor (lines 29-40).
  - The model starts from the recipient list.
  - `getAddress` checksum casing is a foreign call that only formats, so an address is its 20 bytes.
  - `parseUnits` scaling from a floating-point `number` is a foreign call, so an amount is the already-scaled non-negative integer. Negative amounts are not modelled.
- Keccak-256 itself. It is the opaque parameter `h`, which maps any byte string to a 32-byte node.
- Hex rendering of the root and the proofs (`0x`-prefixed strings). Roots and proofs stay byte sequences.
- The `merkletreejs` and `ethers` libraries are not part of this model. The tree policy for `{ sortPairs: true }` is written out from the library's documented behaviour:
  - sort each pair;
  - carry an odd trailing node up unchanged;
  - do not re-hash or re-sort the leaves.
- MerkleTree.FindLeaf: returns the last position holding the value, which is how the library's lookup by value behaves. When two recipients share a leaf (same address and amount) they therefore get the same proof, and both still verify.
- MerkleTree.GetHexRoot: the library's empty tree is modelled as an empty root. The generator never meets this case unless the recipient list is empty.
- Leaf.EncodePacked: the packer's range error is modelled as an error value that stops the whole build at the first offending recipient. The library signals it by throwing.
