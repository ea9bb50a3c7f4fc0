/**
 * Worked uses of the two set classes: the dense range-5 example with
 * A = {0, 1, 2} and B = {2, 3, 4}, and the validation asymmetry between
 * the dense set's binary operations.
 */
module Scenarios {
  import opened Adt
  import opened Impl

  /** A dense set of the given range holding exactly `elems`. */
  method DenseOf(range: nat, elems: seq<int>) returns (s: BArrayNSet)
    requires forall k :: 0 <= k < |elems| ==> 0 <= elems[k] < range
    ensures fresh(s.internal) && s.Range() == range
    ensures forall i :: 0 <= i < range ==> (s.internal[i] <==> i in elems)
  {
    s := new BArrayNSet(range);
    for k := 0 to |elems|
      invariant forall i :: 0 <= i < range ==> (s.internal[i] <==> i in elems[..k])
    {
      var _ := s.Add(elems[k]);
      assert elems[..k + 1] == elems[..k] + [elems[k]];
    }
    assert elems[..|elems|] == elems;
  }

  method DenseAlgebra() {
    var a := DenseOf(5, [0, 1, 2]);
    var b := DenseOf(5, [2, 3, 4]);
    var u := a.Union(BArray(b));
    assert forall i :: 0 <= i < 5 ==> u.value.internal[i];
    var n := a.Intersection(BArray(b));
    assert forall i :: 0 <= i < 5 ==> (n.value.internal[i] <==> i == 2);
    var d := a.Difference(BArray(b));
    assert forall i :: 0 <= i < 5 ==> (d.internal[i] <==> i == 0 || i == 1);
  }

  /** Union rejects an operand of another range; difference accepts it and sizes its result to the larger range. */
  method DenseMismatch() {
    var a := DenseOf(5, [0, 1, 2]);
    var c := DenseOf(8, [1, 7]);
    var u := a.Union(BArray(c));
    assert u == Err(BadNSetParameter);
    var d := a.Difference(BArray(c));
    assert d.Range() == 8;
    assert forall i :: 0 <= i < 8 ==> (d.internal[i] <==> i == 0 || i == 2);
  }

  /** Out-of-range indices are rejected, and a packed operand is rejected by either class's union. */
  method Rejections() {
    var p := new BitVecNSet(10);
    var r := p.Add(10);
    assert r == Fail(BadNSetParameter);
    r := p.Add(9);
    assert r == Pass && p.Contains(9) == Ok(true);
    assert p.Contains(-1) == Err(BadNSetParameter);
    var a := DenseOf(10, []);
    var u := a.Union(BitVec(p));
    assert u.Err?;
    var v := p.Union(BArray(a));
    assert v.Err?;
  }
}
