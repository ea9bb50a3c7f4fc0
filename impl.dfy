/**
 * The two implementations of the bounded integer set over [0, range):
 * BitVecNSet packs membership into bytes, BArrayNSet keeps one boolean per
 * element. NSet is the interface both implement, closed over the two of
 * them, and NSetIterator the interface of their iterators.
 *
 * Every operation is specified against the abstract membership vector
 * Flags() (flag i tells whether i is in the set) and, for iteration,
 * against the ascending sequence Adt.MembersFrom of the present elements.
 */
module Impl {
  import opened Adt
  import Bits

  /** A set of either implementation, as the binary operations receive their operand. */
  datatype NSet = BitVec(bv: BitVecNSet) | BArray(ba: BArrayNSet)
  {
    ghost predicate Valid()
    {
      BitVec? ==> bv.Valid()
    }

    /** The objects whose state is the set's membership. */
    function Repr(): set<object>
    {
      if BitVec? then {bv.internal} else {ba.internal}
    }

    /** `range()`, dispatched to the implementation. */
    function Range(): (n: nat)
      ensures BitVec? ==> n == bv.range
      ensures BArray? ==> n == ba.internal.Length
    {
      if BitVec? then bv.range else ba.internal.Length
    }

    ghost function Flags(): (f: seq<bool>)
      reads Repr()
      requires Valid()
      ensures |f| == Range()
    {
      if BitVec? then bv.Flags() else ba.Flags()
    }

    /** `contains`, dispatched to the implementation. */
    function Contains(item: int): (r: Result<bool>)
      reads Repr()
      requires Valid()
      ensures r == if 0 <= item < Range() then Ok(Flags()[item]) else Err(BadNSetParameter)
    {
      if BitVec? then bv.Contains(item) else ba.Contains(item)
    }

    /** `iterator`, dispatched to the implementation. */
    method Iterator() returns (it: NSetIterator)
      requires Valid()
      ensures fresh(it.Obj()) && it.Owner() == this && it.Valid()
      ensures it.Remaining() == Members(Flags())
    {
      if BitVec? {
        var i := bv.Iterator();
        it := BitVecIt(i);
      } else {
        var i := ba.Iterator();
        it := BArrayIt(i);
      }
    }
  }

  /** An iterator of either implementation. */
  datatype NSetIterator = BitVecIt(bi: BitVecIterator) | BArrayIt(ai: BArrayIterator)
  {
    function Obj(): object
    {
      if BitVecIt? then bi else ai
    }

    function Owner(): NSet
    {
      if BitVecIt? then BitVec(bi.owner) else BArray(ai.owner)
    }

    /** The cursor object and the storage of the set it traverses. */
    function Repr(): set<object>
    {
      if BitVecIt? then {bi, bi.owner.internal} else {ai, ai.owner.internal}
    }

    ghost predicate Valid()
      reads Repr()
    {
      if BitVecIt? then bi.Valid() else ai.Valid()
    }

    ghost function Remaining(): (r: seq<int>)
      reads Repr()
      requires Valid()
      ensures forall x :: x in r ==> 0 <= x < Owner().Range() && Owner().Flags()[x]
    {
      if BitVecIt? then bi.Remaining() else ai.Remaining()
    }

    function HasNext(): (b: bool)
      reads Repr()
      requires Valid()
      ensures b <==> Remaining() != []
    {
      if BitVecIt? then bi.HasNext() else ai.HasNext()
    }

    method Next() returns (r: Result<int>)
      requires Valid()
      modifies Obj()
      ensures Valid()
      ensures old(Remaining()) == [] ==> r == Err(NoSuchElement) && Remaining() == []
      ensures old(Remaining()) != [] ==> r == Ok(old(Remaining())[0]) && Remaining() == old(Remaining())[1..]
    {
      if BitVecIt? {
        r := bi.Next();
      } else {
        r := ai.Next();
      }
    }
  }

  /** The packed implementation: element i is bit i % 8 of byte i / 8 of `internal`. */
  class BitVecNSet {
    /** The bytes used as a bit vector. */
    const internal: array<bv8>
    /** One greater than the largest element the set can hold. */
    const range: nat

    /** The storage has range / 8 + 1 bytes, so bits past `range` in the last byte are padding. */
    ghost predicate Valid()
    {
      internal.Length == range / 8 + 1
    }

    /** Abstract membership of the elements in [0, range); padding bits are not part of it. */
    ghost function Flags(): (f: seq<bool>)
      reads internal
      ensures |f| == range
    {
      Bits.Unpack(internal[..], range)
    }

    constructor (range: nat)
      ensures Valid() && this.range == range && fresh(internal)
      ensures forall k :: 0 <= k < internal.Length ==> internal[k] == 0
      ensures forall i :: 0 <= i < range ==> !Flags()[i]
    {
      this.range := range;
      internal := new bv8[range / 8 + 1](_ => 0);
    }

    /** Throws unless x is in [0, range). */
    function CheckIndex(x: int): (r: Outcome)
      ensures r.Pass? <==> 0 <= x < range
      ensures r.Fail? ==> r.error == BadNSetParameter
    {
      if x < 0 || x >= range then Fail(BadNSetParameter) else Pass
    }

    /** Throws unless the operand is a packed set of the same range. */
    function CheckParameter(other: NSet): (r: Outcome)
      ensures r.Pass? <==> other.BitVec? && other.Range() == range
      ensures r.Fail? ==> r.error == BadNSetParameter
    {
      if !other.BitVec? || other.Range() != range then Fail(BadNSetParameter) else Pass
    }

    method Add(item: int) returns (r: Outcome)
      requires Valid()
      modifies internal
      ensures r == if 0 <= item < range then Pass else Fail(BadNSetParameter)
      ensures r.Fail? ==> internal[..] == old(internal[..])
      ensures r.Pass? ==> internal[..] == Bits.Insert(old(internal[..]), item)
      ensures r.Pass? ==> Flags() == old(Flags())[item := true]
      ensures r.Pass? && old(Flags())[item] ==> internal[..] == old(internal[..])
    {
      r := CheckIndex(item);
      if r.Fail? {
        return;
      }
      Bits.InsertUnpack(internal[..], range, item);
      internal[item / 8] := internal[item / 8] | Bits.Mask(item % 8);
    }

    function Contains(item: int): (r: Result<bool>)
      reads internal
      requires Valid()
      ensures r == if 0 <= item < range then Ok(Flags()[item]) else Err(BadNSetParameter)
    {
      var check := CheckIndex(item);
      if check.Fail? then Err(check.error)
      else Ok(internal[item / 8] & Bits.Mask(item % 8) != 0)
    }

    method Remove(item: int) returns (r: Outcome)
      requires Valid()
      modifies internal
      ensures r == if 0 <= item < range then Pass else Fail(BadNSetParameter)
      ensures r.Fail? ==> internal[..] == old(internal[..])
      ensures r.Pass? ==> internal[..] == Bits.Delete(old(internal[..]), item)
      ensures r.Pass? ==> Flags() == old(Flags())[item := false]
      ensures r.Pass? && !old(Flags())[item] ==> internal[..] == old(internal[..])
    {
      r := CheckIndex(item);
      if r.Fail? {
        return;
      }
      Bits.DeleteUnpack(internal[..], range, item);
      internal[item / 8] := internal[item / 8] & !Bits.Mask(item % 8);
    }

    /** Empty iff counting by iteration gives zero. */
    method IsEmpty() returns (b: bool)
      requires Valid()
      ensures b <==> forall i :: 0 <= i < range ==> !Flags()[i]
      ensures b <==> Elems(Flags()) == {}
    {
      var n := Size();
      b := n == 0;
      EmptyIff(Flags());
    }

    function Range(): (n: nat)
      reads internal
      ensures n == |Flags()|
    {
      range
    }

    method Complement() returns (s: BitVecNSet)
      requires Valid()
      ensures fresh(s) && fresh(s.internal) && s.Valid() && s.range == range
      ensures s.internal[..] == Bits.NotBytes(internal[..])
      ensures forall i :: 0 <= i < range ==> s.Flags()[i] == !Flags()[i]
    {
      s := new BitVecNSet(range);
      for i := 0 to internal.Length
        invariant forall k :: 0 <= k < i ==> s.internal[k] == !internal[k]
      {
        s.internal[i] := !internal[i];
      }
      assert s.internal[..] == Bits.NotBytes(internal[..]);
      Bits.NotUnpack(internal[..], range);
    }

    method Union(other: NSet) returns (r: Result<BitVecNSet>)
      requires Valid() && other.Valid()
      ensures r.Err? <==> !(other.BitVec? && other.Range() == range)
      ensures r.Err? ==> r.error == BadNSetParameter
      ensures r.Ok? ==> fresh(r.value) && fresh(r.value.internal) && r.value.Valid() && r.value.range == range
      ensures r.Ok? ==> r.value.internal[..] == Bits.OrBytes(internal[..], other.bv.internal[..])
      ensures r.Ok? ==> forall i :: 0 <= i < range ==> r.value.Flags()[i] == (Flags()[i] || other.Flags()[i])
    {
      var check := CheckParameter(other);
      if check.Fail? {
        return Err(check.error);
      }
      var temp := new BitVecNSet(range);
      var convert := other.bv;
      for i := 0 to internal.Length
        invariant forall k :: 0 <= k < i ==> temp.internal[k] == (convert.internal[k] | internal[k])
      {
        temp.internal[i] := convert.internal[i] | internal[i];
      }
      assert temp.internal[..] == Bits.OrBytes(internal[..], convert.internal[..]);
      Bits.OrUnpack(internal[..], convert.internal[..], range);
      r := Ok(temp);
    }

    method Intersection(other: NSet) returns (r: Result<BitVecNSet>)
      requires Valid() && other.Valid()
      ensures r.Err? <==> !(other.BitVec? && other.Range() == range)
      ensures r.Err? ==> r.error == BadNSetParameter
      ensures r.Ok? ==> fresh(r.value) && fresh(r.value.internal) && r.value.Valid() && r.value.range == range
      ensures r.Ok? ==> r.value.internal[..] == Bits.AndBytes(internal[..], other.bv.internal[..])
      ensures r.Ok? ==> forall i :: 0 <= i < range ==> r.value.Flags()[i] == (Flags()[i] && other.Flags()[i])
    {
      var check := CheckParameter(other);
      if check.Fail? {
        return Err(check.error);
      }
      var temp := new BitVecNSet(range);
      var convert := other.bv;
      for i := 0 to internal.Length
        invariant forall k :: 0 <= k < i ==> temp.internal[k] == (convert.internal[k] & internal[k])
      {
        temp.internal[i] := convert.internal[i] & internal[i];
      }
      assert temp.internal[..] == Bits.AndBytes(internal[..], convert.internal[..]);
      Bits.AndUnpack(internal[..], convert.internal[..], range);
      r := Ok(temp);
    }

    method Difference(other: NSet) returns (r: Result<BitVecNSet>)
      requires Valid() && other.Valid()
      ensures r.Err? <==> !(other.BitVec? && other.Range() == range)
      ensures r.Err? ==> r.error == BadNSetParameter
      ensures r.Ok? ==> fresh(r.value) && fresh(r.value.internal) && r.value.Valid() && r.value.range == range
      ensures r.Ok? ==> r.value.internal[..] == Bits.AndNotBytes(internal[..], other.bv.internal[..])
      ensures r.Ok? ==> forall i :: 0 <= i < range ==> r.value.Flags()[i] == (Flags()[i] && !other.Flags()[i])
    {
      var check := CheckParameter(other);
      if check.Fail? {
        return Err(check.error);
      }
      var temp := new BitVecNSet(range);
      var convert := other.bv;
      for i := 0 to internal.Length
        invariant forall k :: 0 <= k < i ==> temp.internal[k] == (internal[k] & !convert.internal[k])
      {
        temp.internal[i] := internal[i] & !convert.internal[i];
      }
      assert temp.internal[..] == Bits.AndNotBytes(internal[..], convert.internal[..]);
      Bits.AndNotUnpack(internal[..], convert.internal[..], range);
      r := Ok(temp);
    }

    /** The number of elements, counted by running an iterator to exhaustion. */
    method Size() returns (n: int)
      requires Valid()
      ensures n == |Elems(Flags())|
    {
      n := 0;
      var it := Iterator();
      while it.HasNext()
        invariant fresh(it) && it.owner == this && it.Valid()
        invariant n + |it.Remaining()| == |Members(Flags())|
        decreases |it.Remaining()|
      {
        var _ := it.Next();
        n := n + 1;
      }
      MembersCard(Flags());
    }

    /** The smallest element, or `range` if there is none. */
    method FirstValue() returns (y: int)
      requires Valid()
      ensures 0 <= y <= range
      ensures forall k :: 0 <= k < y ==> !Flags()[k]
      ensures y < range ==> Flags()[y]
    {
      y := 0;
      while y < Range() && !Contains(y).value
        invariant 0 <= y <= range
        invariant forall k :: 0 <= k < y ==> !Flags()[k]
      {
        y := y + 1;
      }
    }

    /** A fresh cursor whose traversal yields every element in ascending order. */
    method Iterator() returns (it: BitVecIterator)
      requires Valid()
      ensures fresh(it) && it.owner == this && it.Valid()
      ensures it.Remaining() == Members(Flags())
    {
      var y := FirstValue();
      SkipAbsent(Flags(), 0, y);
      it := new BitVecIterator(this, y);
    }

    /**
     * "[", one glyph per element, then 'x' for the rest of the last byte's
     * bit positions (8 - range % 8 of them), then "]".
     */
    method ToString() returns (s: string)
      requires Valid()
      ensures s == "[" + Bits.Picture(Flags()) + Bits.Padding(8 - range % 8) + "]"
      ensures |s| == range + 8 - range % 8 + 2
    {
      ghost var f := Flags();
      assert range == 8 * (range / 8) + range % 8;
      s := "[";
      for i := 0 to internal.Length - 1
        invariant s == "[" + Bits.Picture(f[..8 * i])
      {
        s := DrawBits(s, i, 8);
      }
      var last := internal.Length - 1;
      s := DrawBits(s, last, range % 8);
      assert f[..8 * last + range % 8] == f;
      for j := range % 8 to 8
        invariant s == "[" + Bits.Picture(f) + Bits.Padding(j - range % 8)
      {
        assert Bits.Padding(j + 1 - range % 8) == Bits.Padding(j - range % 8) + "x";
        s := s + "x";
      }
      s := s + "]";
    }

    /** The inner loops of toString: appends the glyphs of the first `count` bits of byte q. */
    method DrawBits(s: string, q: int, count: int) returns (t: string)
      requires Valid() && 0 <= q < internal.Length && 0 <= count <= 8 && 8 * q + count <= range
      requires s == "[" + Bits.Picture(Flags()[..8 * q])
      ensures t == "[" + Bits.Picture(Flags()[..8 * q + count])
    {
      t := s;
      for j := 0 to count
        invariant t == "[" + Bits.Picture(Flags()[..8 * q + j])
      {
        Bits.DrawBit(internal[..], range, q, j);
        if internal[q] & Bits.Mask(j) == 0 {
          t := t + " ";
        } else {
          t := t + ".";
        }
      }
    }
  }

  /** The packed set's iterator: a forward cursor over the set it was made from. */
  class BitVecIterator {
    const owner: BitVecNSet
    /** The next element to yield, or `owner.range` once exhausted. */
    var index: int

    ghost predicate Valid()
      reads this, owner.internal
    {
      owner.Valid() && 0 <= index <= owner.range && (index < owner.range ==> owner.Flags()[index])
    }

    /** What the cursor has still to yield. */
    ghost function Remaining(): (r: seq<int>)
      reads this, owner.internal
      requires Valid()
      ensures forall x :: x in r <==> index <= x < |owner.Flags()| && owner.Flags()[x]
    {
      MembersFromSound(owner.Flags(), index);
      MembersFrom(owner.Flags(), index)
    }

    /** A cursor at the first element y (or at range, if there is none). */
    constructor (owner: BitVecNSet, y: int)
      requires owner.Valid() && 0 <= y <= owner.range && (y < owner.range ==> owner.Flags()[y])
      ensures this.owner == owner && index == y && Valid()
    {
      this.owner := owner;
      index := y;
    }

    function HasNext(): (b: bool)
      reads this, owner.internal
      requires Valid()
      ensures b <==> Remaining() != []
    {
      owner.Range() > index
    }

    method Next() returns (r: Result<int>)
      requires Valid()
      modifies this
      ensures Valid()
      ensures old(Remaining()) == [] ==> r == Err(NoSuchElement) && index == old(index)
      ensures old(Remaining()) != [] ==> r == Ok(old(Remaining())[0]) && Remaining() == old(Remaining())[1..]
    {
      if !HasNext() {
        return Err(NoSuchElement);
      }
      var temp := index;
      index := index + 1;
      while index < owner.Range() && !owner.Contains(index).value
        invariant temp < index <= owner.range
        invariant MembersFrom(owner.Flags(), temp + 1) == MembersFrom(owner.Flags(), index)
      {
        index := index + 1;
      }
      r := Ok(temp);
    }
  }

  /** The dense implementation: i is in the set iff internal[i]; the range is the array's length. */
  class BArrayNSet {
    const internal: array<bool>

    /** Abstract membership: the flag array itself. */
    ghost function Flags(): (f: seq<bool>)
      reads internal
      ensures |f| == internal.Length
    {
      internal[..]
    }

    constructor (range: nat)
      ensures fresh(internal) && internal.Length == range
      ensures forall i :: 0 <= i < range ==> !internal[i]
    {
      internal := new bool[range](_ => false);
    }

    /** Throws unless x is in [0, internal.Length). */
    function CheckIndex(x: int): (r: Outcome)
      ensures r.Pass? <==> 0 <= x < internal.Length
      ensures r.Fail? ==> r.error == BadNSetParameter
    {
      if x < 0 || x >= internal.Length then Fail(BadNSetParameter) else Pass
    }

    method Add(item: int) returns (r: Outcome)
      modifies internal
      ensures r == if 0 <= item < internal.Length then Pass else Fail(BadNSetParameter)
      ensures internal[..] == if r.Pass? then old(internal[..])[item := true] else old(internal[..])
    {
      r := CheckIndex(item);
      if r.Fail? {
        return;
      }
      internal[item] := true;
    }

    function Contains(item: int): (r: Result<bool>)
      reads internal
      ensures r == if 0 <= item < internal.Length then Ok(Flags()[item]) else Err(BadNSetParameter)
    {
      var check := CheckIndex(item);
      if check.Fail? then Err(check.error) else Ok(internal[item])
    }

    method Remove(item: int) returns (r: Outcome)
      modifies internal
      ensures r == if 0 <= item < internal.Length then Pass else Fail(BadNSetParameter)
      ensures internal[..] == if r.Pass? then old(internal[..])[item := false] else old(internal[..])
    {
      r := CheckIndex(item);
      if r.Fail? {
        return;
      }
      internal[item] := false;
    }

    /** Empty iff no flag is set, found by OR-ing all flags together. */
    method IsEmpty() returns (b: bool)
      ensures b <==> forall i :: 0 <= i < internal.Length ==> !internal[i]
      ensures b <==> Elems(Flags()) == {}
    {
      var hasSomething := false;
      for i := 0 to internal.Length
        invariant hasSomething <==> exists k :: 0 <= k < i && internal[k]
      {
        hasSomething := hasSomething || internal[i];
      }
      b := !hasSomething;
      EmptyIff(Flags());
    }

    /** The number of set flags. */
    method Size() returns (n: int)
      ensures n == |Elems(Flags())|
    {
      n := 0;
      for i := 0 to internal.Length
        invariant n == |Elems(internal[..i])|
      {
        ElemsPrefixStep(internal[..], i);
        assert internal[..][..i] == internal[..i] && internal[..][..i + 1] == internal[..i + 1];
        if internal[i] {
          n := n + 1;
        }
      }
      assert internal[..internal.Length] == internal[..];
    }

    function Range(): (n: nat)
      reads internal
      ensures n == |Flags()|
    {
      internal.Length
    }

    method Complement() returns (s: BArrayNSet)
      ensures fresh(s) && fresh(s.internal) && s.Range() == Range()
      ensures forall i :: 0 <= i < Range() ==> s.internal[i] == !internal[i]
    {
      s := new BArrayNSet(internal.Length);
      for i := 0 to internal.Length
        invariant forall k :: 0 <= k < i ==> s.internal[k] == !internal[k]
      {
        s.internal[i] := !internal[i];
      }
    }

    /** Throws unless the operand is a dense set of the same range. */
    function CheckParameter(other: NSet): (r: Outcome)
      ensures r.Pass? <==> other.BArray? && other.Range() == internal.Length
      ensures r.Fail? ==> r.error == BadNSetParameter
    {
      if !other.BArray? || other.Range() != internal.Length then Fail(BadNSetParameter) else Pass
    }

    /** Inserts the elements of a fresh traversal of `other` into `temp`. */
    method Union(other: NSet) returns (r: Result<BArrayNSet>)
      requires other.Valid()
      ensures r.Err? <==> !(other.BArray? && other.Range() == Range())
      ensures r.Err? ==> r.error == BadNSetParameter
      ensures r.Ok? ==> fresh(r.value) && fresh(r.value.internal)
      ensures r.Ok? ==> r.value.Range() == Max(Range(), other.Range())
      ensures r.Ok? ==> forall i :: 0 <= i < r.value.Range() ==> r.value.internal[i] == (internal[i] || other.Flags()[i])
    {
      var check := CheckParameter(other);
      if check.Fail? {
        return Err(check.error);
      }
      var max := Range();
      if other.Range() > Range() {
        max := other.Range();
      }
      var temp := new BArrayNSet(max);
      var it := other.Iterator();
      temp.SetEach(it, true);
      MembersSound(other.Flags());
      assert temp.internal !in other.Repr();
      for len := 0 to internal.Length
        invariant forall k :: 0 <= k < max ==> temp.internal[k] == (other.Flags()[k] || (k < len && internal[k]))
      {
        if internal[len] {
          var _ := temp.Add(len);
        }
      }
      r := Ok(temp);
    }

    method Intersection(other: NSet) returns (r: Result<BArrayNSet>)
      requires other.Valid()
      ensures r.Err? <==> !(other.BArray? && other.Range() == Range())
      ensures r.Err? ==> r.error == BadNSetParameter
      ensures r.Ok? ==> fresh(r.value) && fresh(r.value.internal)
      ensures r.Ok? ==> r.value.Range() == Max(Range(), other.Range())
      ensures r.Ok? ==> forall i :: 0 <= i < r.value.Range() ==>
                r.value.internal[i] == (i < Range() && internal[i] && other.Flags()[i])
    {
      var check := CheckParameter(other);
      if check.Fail? {
        return Err(check.error);
      }
      var max := Range();
      if other.Range() > Range() {
        max := other.Range();
      }
      var temp := new BArrayNSet(max);
      for len := 0 to internal.Length
        invariant forall k :: 0 <= k < max ==> temp.internal[k] == (k < len && internal[k] && other.Flags()[k])
      {
        if internal[len] && other.Contains(len).value {
          var _ := temp.Add(len);
        }
      }
      r := Ok(temp);
    }

    /**
     * Copies this set's elements into `temp`, then removes everything a fresh
     * traversal of `other` yields. No check is made on `other`.
     */
    method Difference(other: NSet) returns (s: BArrayNSet)
      requires other.Valid()
      ensures fresh(s) && fresh(s.internal)
      ensures s.Range() == Max(Range(), other.Range())
      ensures forall i :: 0 <= i < s.Range() ==>
                s.internal[i] == (i < Range() && internal[i] && i !in Members(other.Flags()))
      ensures forall i :: 0 <= i < s.Range() ==>
                s.internal[i] == (i < Range() && internal[i] && !(i < other.Range() && other.Flags()[i]))
    {
      var max := Range();
      if other.Range() > Range() {
        max := other.Range();
      }
      var temp := new BArrayNSet(max);
      for len := 0 to internal.Length
        invariant forall k :: 0 <= k < max ==> temp.internal[k] == (k < len && internal[k])
      {
        if internal[len] {
          var _ := temp.Add(len);
        }
      }
      var it := other.Iterator();
      temp.SetEach(it, false);
      MembersSound(other.Flags());
      s := temp;
    }

    /**
     * The for-each loops of union and difference: `add(x)` (when `value`) or
     * `remove(x)` (otherwise) for every x the cursor still yields.
     */
    method SetEach(it: NSetIterator, value: bool)
      requires it.Valid() && internal !in it.Repr() && it.Owner().Range() <= internal.Length
      modifies internal, it.Obj()
      ensures it.Valid() && it.Remaining() == []
      ensures forall k :: 0 <= k < internal.Length ==>
                internal[k] == if k in old(it.Remaining()) then value else old(internal[k])
    {
      ghost var all := it.Remaining();
      ghost var done: set<int> := {};
      while it.HasNext()
        invariant it.Valid()
        invariant forall k :: k in all <==> k in done || k in it.Remaining()
        invariant forall k :: 0 <= k < internal.Length ==> internal[k] == if k in done then value else old(internal[k])
        decreases |it.Remaining()|
      {
        ghost var rem := it.Remaining();
        var x := SetNext(it, value);
        assert forall k :: k in rem <==> k == x || k in it.Remaining();
        done := done + {x};
      }
      assert forall k :: k in all <==> k in done;
    }

    /** One pass of those loops: advance the cursor, then add or remove the value it yields. */
    method SetNext(it: NSetIterator, value: bool) returns (x: int)
      requires it.Valid() && it.Remaining() != [] && internal !in it.Repr() && it.Owner().Range() <= internal.Length
      modifies internal, it.Obj()
      ensures it.Valid() && old(it.Remaining()) == [x] + it.Remaining()
      ensures 0 <= x < internal.Length
      ensures forall k :: 0 <= k < internal.Length ==> internal[k] == if k == x then value else old(internal[k])
    {
      ghost var rem := it.Remaining();
      var y := it.Next();
      x := y.value;
      assert rem == [x] + it.Remaining();
      if value {
        var _ := Add(x);
      } else {
        var _ := Remove(x);
      }
    }

    /** The smallest element, or the range if there is none. */
    method FirstValue() returns (y: int)
      ensures 0 <= y <= internal.Length
      ensures forall k :: 0 <= k < y ==> !internal[k]
      ensures y < internal.Length ==> internal[y]
    {
      y := 0;
      while y < Range() && !internal[y]
        invariant 0 <= y <= internal.Length
        invariant forall k :: 0 <= k < y ==> !internal[k]
      {
        y := y + 1;
      }
    }

    /** A fresh cursor whose traversal yields every element in ascending order. */
    method Iterator() returns (it: BArrayIterator)
      ensures fresh(it) && it.owner == this && it.Valid()
      ensures it.Remaining() == Members(Flags())
    {
      var y := FirstValue();
      SkipAbsent(Flags(), 0, y);
      it := new BArrayIterator(this, y);
    }
  }

  /** The dense set's iterator: a forward cursor over the set it was made from. */
  class BArrayIterator {
    const owner: BArrayNSet
    /** The next element to yield, or the owner's range once exhausted. */
    var index: int

    ghost predicate Valid()
      reads this, owner.internal
    {
      0 <= index <= owner.internal.Length && (index < owner.internal.Length ==> owner.internal[index])
    }

    /** What the cursor has still to yield. */
    ghost function Remaining(): (r: seq<int>)
      reads this, owner.internal
      requires Valid()
      ensures forall x :: x in r <==> index <= x < |owner.Flags()| && owner.Flags()[x]
    {
      MembersFromSound(owner.Flags(), index);
      MembersFrom(owner.Flags(), index)
    }

    /** A cursor at the first element y (or at the range, if there is none). */
    constructor (owner: BArrayNSet, y: int)
      requires 0 <= y <= owner.internal.Length && (y < owner.internal.Length ==> owner.internal[y])
      ensures this.owner == owner && index == y && Valid()
    {
      this.owner := owner;
      index := y;
    }

    function HasNext(): (b: bool)
      reads this, owner.internal
      requires Valid()
      ensures b <==> Remaining() != []
    {
      owner.internal.Length > index
    }

    method Next() returns (r: Result<int>)
      requires Valid()
      modifies this
      ensures Valid()
      ensures old(Remaining()) == [] ==> r == Err(NoSuchElement) && index == old(index)
      ensures old(Remaining()) != [] ==> r == Ok(old(Remaining())[0]) && Remaining() == old(Remaining())[1..]
    {
      if !HasNext() {
        return Err(NoSuchElement);
      }
      var temp := index;
      index := index + 1;
      while index < owner.internal.Length && !owner.internal[index]
        invariant temp < index <= owner.internal.Length
        invariant MembersFrom(owner.Flags(), temp + 1) == MembersFrom(owner.Flags(), index)
      {
        index := index + 1;
      }
      r := Ok(temp);
    }
  }
}
