/**
 * Bit packing of a bounded set: element i is bit i % 8 of byte i / 8.
 * The byte vectors here are the contents of a BitVecNSet's storage; the
 * lemmas say that the byte-level edits and the byte-by-byte operators
 * have the intended meaning on the unpacked membership flags.
 */
module Bits {

  /** The mask `1 << j` that selects bit j of a byte. */
  function Mask(j: nat): bv8
    requires j < 8
  {
    1 << j
  }

  /** Bit j of b is one. */
  predicate BitSet(b: bv8, j: nat)
    requires j < 8
  {
    b & Mask(j) != 0
  }

  /** Element i of a packed vector: bit i % 8 of byte i / 8 (absent past the last byte). */
  predicate Member(bytes: seq<bv8>, i: nat)
  {
    i / 8 < |bytes| && BitSet(bytes[i / 8], i % 8)
  }

  /** The membership flags of the first n elements of a packed vector. */
  function Unpack(bytes: seq<bv8>, n: nat): seq<bool>
  {
    seq(n, i requires 0 <= i => Member(bytes, i))
  }

  /** The storage after `bytes[i / 8] |= 1 << (i % 8)`. */
  function Insert(bytes: seq<bv8>, i: nat): seq<bv8>
    requires i / 8 < |bytes|
  {
    bytes[i / 8 := bytes[i / 8] | Mask(i % 8)]
  }

  /** The storage after `bytes[i / 8] &= ~(1 << (i % 8))`. */
  function Delete(bytes: seq<bv8>, i: nat): seq<bv8>
    requires i / 8 < |bytes|
  {
    bytes[i / 8 := bytes[i / 8] & !Mask(i % 8)]
  }

  /** Byte-by-byte `~`. */
  function NotBytes(a: seq<bv8>): seq<bv8>
  {
    seq(|a|, k requires 0 <= k < |a| => !a[k])
  }

  /** Byte-by-byte `|`. */
  function OrBytes(a: seq<bv8>, b: seq<bv8>): seq<bv8>
    requires |a| == |b|
  {
    seq(|a|, k requires 0 <= k < |a| => b[k] | a[k])
  }

  /** Byte-by-byte `&`. */
  function AndBytes(a: seq<bv8>, b: seq<bv8>): seq<bv8>
    requires |a| == |b|
  {
    seq(|a|, k requires 0 <= k < |a| => b[k] & a[k])
  }

  /** Byte-by-byte `& ~`: the bits of a that are not bits of b. */
  function AndNotBytes(a: seq<bv8>, b: seq<bv8>): seq<bv8>
    requires |a| == |b|
  {
    seq(|a|, k requires 0 <= k < |a| => a[k] & !b[k])
  }

  /** Element 8 * q + j is bit j of byte q. */
  lemma MemberAt(bytes: seq<bv8>, q: nat, j: nat)
    requires q < |bytes| && j < 8
    ensures Member(bytes, 8 * q + j) == BitSet(bytes[q], j)
  {
    assert (8 * q + j) / 8 == q && (8 * q + j) % 8 == j;
  }

  /** Two elements with the same byte and the same bit position are the same element. */
  lemma SameSlot(i: nat, k: nat)
    requires i / 8 == k / 8 && i % 8 == k % 8
    ensures i == k
  {
    assert i == 8 * (i / 8) + i % 8;
    assert k == 8 * (k / 8) + k % 8;
  }

  /** Setting bit j of a byte leaves every other bit as it was. */
  lemma SetOtherBit(b: bv8, j: nat, l: nat)
    requires j < 8 && l < 8 && j != l
    ensures BitSet(b | Mask(j), l) == BitSet(b, l)
  {
  }

  /** Clearing bit j of a byte leaves every other bit as it was. */
  lemma ClearOtherBit(b: bv8, j: nat, l: nat)
    requires j < 8 && l < 8 && j != l
    ensures BitSet(b & !Mask(j), l) == BitSet(b, l)
  {
  }

  /** Setting element i adds i and changes no other element, padding included. */
  lemma InsertMember(bytes: seq<bv8>, i: nat, k: nat)
    requires i / 8 < |bytes|
    ensures Member(Insert(bytes, i), k) == (k == i || Member(bytes, k))
  {
    if k / 8 == i / 8 {
      if k % 8 == i % 8 {
        SameSlot(i, k);
      } else {
        SetOtherBit(bytes[i / 8], i % 8, k % 8);
      }
    }
  }

  /** Clearing element i removes i and changes no other element, padding included. */
  lemma DeleteMember(bytes: seq<bv8>, i: nat, k: nat)
    requires i / 8 < |bytes|
    ensures Member(Delete(bytes, i), k) == (k != i && Member(bytes, k))
  {
    if k / 8 == i / 8 {
      if k % 8 == i % 8 {
        SameSlot(i, k);
      } else {
        ClearOtherBit(bytes[i / 8], i % 8, k % 8);
      }
    }
  }

  /** Adding element i sets exactly flag i of the unpacked vector; adding a present element changes no byte. */
  lemma InsertUnpack(bytes: seq<bv8>, n: nat, i: nat)
    requires i < n && i / 8 < |bytes|
    ensures Unpack(Insert(bytes, i), n) == Unpack(bytes, n)[i := true]
    ensures Member(bytes, i) ==> Insert(bytes, i) == bytes
  {
    forall k | 0 <= k < n
      ensures Unpack(Insert(bytes, i), n)[k] == Unpack(bytes, n)[i := true][k]
    {
      InsertMember(bytes, i, k);
    }
  }

  /** Removing element i clears exactly flag i of the unpacked vector; removing an absent element changes no byte. */
  lemma DeleteUnpack(bytes: seq<bv8>, n: nat, i: nat)
    requires i < n && i / 8 < |bytes|
    ensures Unpack(Delete(bytes, i), n) == Unpack(bytes, n)[i := false]
    ensures !Member(bytes, i) ==> Delete(bytes, i) == bytes
  {
    forall k | 0 <= k < n
      ensures Unpack(Delete(bytes, i), n)[k] == Unpack(bytes, n)[i := false][k]
    {
      DeleteMember(bytes, i, k);
    }
  }

  /**
   * Complementing every byte negates every element below n. The padding
   * bits past n are complemented as well, but they are never unpacked.
   */
  lemma NotUnpack(a: seq<bv8>, n: nat)
    requires n / 8 < |a|
    ensures forall i :: 0 <= i < n ==> Unpack(NotBytes(a), n)[i] == !Unpack(a, n)[i]
  {
    forall i | 0 <= i < n ensures Member(NotBytes(a), i) == !Member(a, i) {
      assert i / 8 <= n / 8;
      var b, m := a[i / 8], Mask(i % 8);
      assert (!b) & m != 0 <==> b & m == 0;
    }
  }

  /** Complementing twice restores every byte, padding bits included. */
  lemma NotNot(a: seq<bv8>)
    ensures NotBytes(NotBytes(a)) == a
  {
    forall k | 0 <= k < |a| ensures NotBytes(NotBytes(a))[k] == a[k] {
      var b := a[k];
      assert !(!b) == b;
    }
  }

  /** Byte-by-byte OR is element-wise union. */
  lemma OrUnpack(a: seq<bv8>, b: seq<bv8>, n: nat)
    requires |a| == |b|
    ensures forall i :: 0 <= i < n ==> Unpack(OrBytes(a, b), n)[i] == (Unpack(a, n)[i] || Unpack(b, n)[i])
  {
    forall i | 0 <= i < n ensures Member(OrBytes(a, b), i) == (Member(a, i) || Member(b, i)) {
      if i / 8 < |a| {
        var x, y, m := a[i / 8], b[i / 8], Mask(i % 8);
        assert (y | x) & m != 0 <==> x & m != 0 || y & m != 0;
      }
    }
  }

  /** Byte-by-byte AND is element-wise intersection. */
  lemma AndUnpack(a: seq<bv8>, b: seq<bv8>, n: nat)
    requires |a| == |b|
    ensures forall i :: 0 <= i < n ==> Unpack(AndBytes(a, b), n)[i] == (Unpack(a, n)[i] && Unpack(b, n)[i])
  {
    forall i | 0 <= i < n ensures Member(AndBytes(a, b), i) == (Member(a, i) && Member(b, i)) {
      if i / 8 < |a| {
        var x, y, m := a[i / 8], b[i / 8], Mask(i % 8);
        assert (y & x) & m != 0 <==> x & m != 0 && y & m != 0;
      }
    }
  }

  /** Byte-by-byte AND-NOT is element-wise difference. */
  lemma AndNotUnpack(a: seq<bv8>, b: seq<bv8>, n: nat)
    requires |a| == |b|
    ensures forall i :: 0 <= i < n ==> Unpack(AndNotBytes(a, b), n)[i] == (Unpack(a, n)[i] && !Unpack(b, n)[i])
  {
    forall i | 0 <= i < n ensures Member(AndNotBytes(a, b), i) == (Member(a, i) && !Member(b, i)) {
      if i / 8 < |a| {
        var x, y, m := a[i / 8], b[i / 8], Mask(i % 8);
        assert (x & !y) & m != 0 <==> x & m != 0 && y & m == 0;
      }
    }
  }

  /** The character toString draws for one element: '.' if present, ' ' if absent. */
  function Glyph(present: bool): char
  {
    if present then '.' else ' '
  }

  /** One glyph per element, in order. */
  function Picture(flags: seq<bool>): string
  {
    seq(|flags|, i requires 0 <= i < |flags| => Glyph(flags[i]))
  }

  /** k padding characters 'x'. */
  function Padding(k: nat): string
  {
    seq(k, _ => 'x')
  }

  /** Drawing element 8 * q + j appends the glyph that bit j of byte q selects. */
  lemma DrawBit(bytes: seq<bv8>, n: nat, q: nat, j: nat)
    requires q < |bytes| && j < 8 && 8 * q + j < n
    ensures Picture(Unpack(bytes, n)[..8 * q + j + 1])
         == Picture(Unpack(bytes, n)[..8 * q + j]) + [if bytes[q] & Mask(j) == 0 then ' ' else '.']
  {
    MemberAt(bytes, q, j);
    PictureStep(Unpack(bytes, n), 8 * q + j);
  }

  /** Drawing one more element appends its glyph. */
  lemma PictureStep(flags: seq<bool>, k: nat)
    requires k < |flags|
    ensures Picture(flags[..k + 1]) == Picture(flags[..k]) + [Glyph(flags[k])]
  {
  }
}
