/**
 The leaf encoder: an airdrop entry `(address, amount)` is packed the way
 Solidity's `abi.encodePacked(address, uint256)` packs it (20 address bytes,
 then the amount as 32 big-endian bytes, no padding or length prefixes) and
 the 52-byte pre-image is hashed.
 */
module Leaf {
  import opened Bytes
  import opened Wrappers

  /** Width in bytes of an account address. */
  const AddressWidth: nat := 20
  /** Width in bytes of a packed `uint256`. */
  const Uint256Width: nat := 32
  /** Width of the packed `(address, uint256)` pre-image. */
  const PackedWidth: nat := AddressWidth + Uint256Width

  /** A 20-byte account address (already checksum-validated upstream). */
  type Address = s: seq<byte> | |s| == AddressWidth witness seq(20, _ => 0 as byte)

  /** Why a leaf could not be built. */
  datatype LeafError = AmountOutOfRange(amount: nat)

  /** 2^256: the number of values a `uint256`, i.e. 32 bytes, can hold. */
  const Uint256Limit: nat := Pow256(Uint256Width)

  /** Whether an amount fits the `uint256` slot of the packed encoding. */
  predicate FitsUint256(amount: nat)
  {
    amount < Uint256Limit
  }

  /** The limit is 2^256, written out. */
  lemma Uint256LimitValue()
    ensures Uint256Limit == 0x1_0000_0000_0000_0000_0000_0000_0000_0000_0000_0000_0000_0000_0000_0000_0000_0000
  {
    assert Pow256(4) == 0x1_0000_0000;
    Pow256Add(4, 4);
    Pow256Add(8, 8);
    Pow256Add(16, 16);
  }

  /** Tight packing of `(address, uint256)`. Amounts of 2^256 or more do not
      fit the 32-byte slot and are rejected rather than truncated. */
  function EncodePacked(address: Address, amount: nat): (r: Result<seq<byte>, LeafError>)
    ensures r.Failure? <==> !FitsUint256(amount)
    ensures r.Failure? ==> r.error == AmountOutOfRange(amount)
    ensures r.Success? ==> |r.value| == PackedWidth
    ensures r.Success? ==> r.value[..AddressWidth] == address
    ensures r.Success? ==> r.value[AddressWidth..] == ToBigEndian(amount, Uint256Width)
  {
    if FitsUint256(amount) then
      var packed := address + ToBigEndian(amount, Uint256Width);
      assert packed[AddressWidth..] == ToBigEndian(amount, Uint256Width);
      Success(packed)
    else
      Failure(AmountOutOfRange(amount))
  }

  /** Splits a 52-byte pre-image back into its address and amount. */
  function DecodePacked(packed: seq<byte>): (r: (Address, nat))
    requires |packed| == PackedWidth
    ensures FitsUint256(r.1)
  {
    FromBigEndianBound(packed[AddressWidth..]);
    (packed[..AddressWidth], FromBigEndian(packed[AddressWidth..]))
  }

  /** Decoding an encoding gives back the entry that was encoded. */
  lemma DecodeEncode(address: Address, amount: nat)
    requires FitsUint256(amount)
    ensures EncodePacked(address, amount).Success?
    ensures DecodePacked(EncodePacked(address, amount).value) == (address, amount)
  {
    FromToBigEndian(amount, Uint256Width);
  }

  /** Every 52-byte string is the encoding of exactly the entry it decodes to. */
  lemma EncodeDecode(packed: seq<byte>)
    requires |packed| == PackedWidth
    ensures EncodePacked(DecodePacked(packed).0, DecodePacked(packed).1) == Success(packed)
  {
    var address: Address := packed[..AddressWidth];
    var tail := packed[AddressWidth..];
    BigEndianRoundTrip(tail);
    var amount := FromBigEndian(tail);
    assert DecodePacked(packed) == (address, amount);
    assert FitsUint256(amount);
    assert ToBigEndian(amount, Uint256Width) == tail;
    assert packed == address + tail;
  }

  /** Distinct entries have distinct pre-images, so the only leaf collisions
      are collisions of the hash itself. */
  lemma EncodePackedInjective(a1: Address, v1: nat, a2: Address, v2: nat)
    requires EncodePacked(a1, v1).Success? && EncodePacked(a2, v2).Success?
    requires EncodePacked(a1, v1) == EncodePacked(a2, v2)
    ensures a1 == a2 && v1 == v2
  {
    DecodeEncode(a1, v1);
    DecodeEncode(a2, v2);
  }

  /** The Merkle leaf of one airdrop entry: the hash of its packed pre-image. */
  function GenerateLeaf(h: Hasher, address: Address, amount: nat): (r: Result<Node, LeafError>)
    ensures r.Failure? <==> !FitsUint256(amount)
    ensures r.Success? ==> r.value == h(address + ToBigEndian(amount, Uint256Width))
  {
    match EncodePacked(address, amount)
    case Failure(e) => Failure(e)
    case Success(packed) =>
      assert packed == address + ToBigEndian(amount, Uint256Width);
      Success(h(packed))
  }
}
