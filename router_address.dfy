/** Addresses of the older routing code (`src/router/address.rs`): 32 bytes, the
    public key they were made from when it is known, and whether they were checked
    against it. */
module RouterAddress {
  import opened Wrappers
  import opened Bytes

  datatype Address = Address(bytes: Bytes32, public: Option<seq<char>>, verified: bool)

  /** `Address::from_message`: bytes from the network, with no key and unverified. */
  function FromMessage(bytes: Bytes32): (r: Address)
    ensures r.bytes == bytes && r.public.None? && !r.verified
  {
    Address(bytes, None, false)
  }

  /** The distance of `a` from `b`: the XOR of all 32 bytes. */
  function DistanceOf(a: Address, b: Address): Bytes32
  {
    seq(32, i requires 0 <= i < 32 => Xor(a.bytes[i], b.bytes[i]))
  }

  /** `Address::distance`: fill the array byte by byte. */
  method Distance(a: Address, source: Address) returns (d: Bytes32)
    ensures d == DistanceOf(a, source)
  {
    var buf := new Byte[32](_ => 0);
    for i := 0 to 32
      invariant forall k :: 0 <= k < i ==> buf[k] == Xor(a.bytes[k], source.bytes[k])
    {
      buf[i] := Xor(a.bytes[i], source.bytes[i]);
    }
    d := buf[..];
  }

  /** The distance is zero exactly between equal bytes, is symmetric, and depends
      on the bytes alone. */
  lemma DistanceFacts(a: Address, b: Address)
    ensures DistanceOf(a, a) == Zeros(32)
    ensures DistanceOf(a, b) == DistanceOf(b, a)
    ensures DistanceOf(a, b) == Zeros(32) <==> a.bytes == b.bytes
    ensures DistanceOf(FromMessage(a.bytes), b) == DistanceOf(a, b)
  {
    forall i | 0 <= i < 32 ensures DistanceOf(a, a)[i] == 0 && DistanceOf(a, b)[i] == DistanceOf(b, a)[i] {
      XorProperties(a.bytes[i], b.bytes[i]);
      XorProperties(a.bytes[i], a.bytes[i]);
    }
    if DistanceOf(a, b) == Zeros(32) {
      forall i | 0 <= i < 32 ensures a.bytes[i] == b.bytes[i] {
        XorProperties(b.bytes[i], b.bytes[i]);
        assert DistanceOf(a, b)[i] == Zeros(32)[i];
        assert Xor(a.bytes[i], b.bytes[i]) == Xor(b.bytes[i], b.bytes[i]);
        XorCancel(a.bytes[i], b.bytes[i], b.bytes[i]);
      }
    }
  }

  /** `Address::bucket`: the first byte of the distance from the centre. */
  function Bucket(a: Address, center: Address): (r: nat)
    ensures r < 256 && r == DistanceOf(a, center)[0]
  {
    DistanceOf(a, center)[0]
  }

  /** The centre's own bucket is 0, and the bucket is symmetric. */
  lemma BucketFacts(a: Address, center: Address)
    ensures Bucket(center, center) == 0
    ensures Bucket(a, center) == Bucket(center, a)
  {
    DistanceFacts(a, center);
    DistanceFacts(center, center);
  }

  /** `Address::cmp`: which of two addresses is closer to `center`. */
  function Cmp(a: Address, b: Address, center: Address): Ordering
  {
    LexCompare(DistanceOf(a, center), DistanceOf(b, center))
  }

  /** The distance as a number, most significant byte first: the order `cmp` uses. */
  function DistanceKey(a: Address, center: Address): int
  {
    BigEndian(DistanceOf(a, center))
  }

  /** `cmp` treats an address as equal to itself and to nothing else, swapping the
      operands reverses it, and it is the order of the distances as numbers. */
  lemma CmpFacts(a: Address, b: Address, center: Address)
    ensures Cmp(a, a, center) == Equal
    ensures Cmp(b, a, center) == Cmp(a, b, center).Reverse()
    ensures Cmp(a, b, center) == Equal <==> a.bytes == b.bytes
    ensures Cmp(a, b, center) == CompareInt(DistanceKey(a, center), DistanceKey(b, center))
  {
    LexCompareEqualIff(DistanceOf(a, center), DistanceOf(a, center));
    LexCompareEqualIff(DistanceOf(a, center), DistanceOf(b, center));
    LexCompareAntisymmetric(DistanceOf(a, center), DistanceOf(b, center));
    LexCompareIsNumeric(DistanceOf(a, center), DistanceOf(b, center));
    if DistanceOf(a, center) == DistanceOf(b, center) {
      forall i | 0 <= i < 32 ensures a.bytes[i] == b.bytes[i] {
        assert DistanceOf(a, center)[i] == DistanceOf(b, center)[i];
        XorCancel(a.bytes[i], b.bytes[i], center.bytes[i]);
      }
    }
  }
}
