/**
 * The abstract side of a bounded integer set: the errors its operations
 * raise, and what a vector of membership flags means as a set and as the
 * ascending sequence an iterator produces.
 */
module Adt {

  /** The two exceptions the set operations throw. */
  datatype NSetError =
    | BadNSetParameter   // an index outside [0, range), or an incompatible operand
    | NoSuchElement      // advancing an exhausted iterator

  /** The result of an operation that returns nothing but may throw. */
  datatype Outcome = Pass | Fail(error: NSetError)

  /** The result of an operation that returns a value but may throw. */
  datatype Result<T> = Ok(value: T) | Err(error: NSetError)

  /** The larger of two ranges: how the dense set sizes the results of its binary operations. */
  function Max(a: int, b: int): (m: int)
    ensures m >= a && m >= b && (m == a || m == b)
  {
    if b > a then b else a
  }

  /** The set that a membership vector denotes: element i is present iff flags[i]. */
  ghost function Elems(flags: seq<bool>): set<int>
  {
    set i | 0 <= i < |flags| && flags[i]
  }

  /** The present elements in [from, |flags|). */
  ghost function ElemsFrom(flags: seq<bool>, from: nat): set<int>
  {
    set i | from <= i < |flags| && flags[i]
  }

  /**
   * The present elements at or after `from`, in ascending order: what an
   * iterator whose cursor stands at `from` still yields.
   */
  function MembersFrom(flags: seq<bool>, from: nat): seq<int>
    decreases |flags| - from
  {
    if from >= |flags| then []
    else if flags[from] then [from] + MembersFrom(flags, from + 1)
    else MembersFrom(flags, from + 1)
  }

  /** Everything a fresh iterator yields. */
  function Members(flags: seq<bool>): seq<int>
  {
    MembersFrom(flags, 0)
  }

  ghost predicate StrictlyIncreasing(s: seq<int>)
  {
    forall i, j :: 0 <= i < j < |s| ==> s[i] < s[j]
  }

  /** An iterator at `from` yields exactly the present elements at or after `from`, in strictly increasing order. */
  lemma {:induction false} MembersFromSound(flags: seq<bool>, from: nat)
    ensures StrictlyIncreasing(MembersFrom(flags, from))
    ensures forall k :: k in MembersFrom(flags, from) <==> from <= k < |flags| && flags[k]
    decreases |flags| - from
  {
    if from < |flags| {
      MembersFromSound(flags, from + 1);
      var rest := MembersFrom(flags, from + 1);
      if flags[from] {
        var s := [from] + rest;
        forall i, j | 0 <= i < j < |s| ensures s[i] < s[j] {
          assert s[j] == rest[j - 1] && s[j] in rest;
          if i > 0 {
            assert s[i] == rest[i - 1];
          }
        }
      }
    }
  }

  /** A full traversal yields exactly the set's elements, in strictly increasing order. */
  lemma MembersSound(flags: seq<bool>)
    ensures StrictlyIncreasing(Members(flags))
    ensures forall k :: k in Members(flags) <==> k in Elems(flags)
  {
    MembersFromSound(flags, 0);
  }

  /** An iterator at `from` yields as many values as there are present elements at or after `from`. */
  lemma {:induction false} MembersFromCard(flags: seq<bool>, from: nat)
    ensures |MembersFrom(flags, from)| == |ElemsFrom(flags, from)|
    decreases |flags| - from
  {
    if from >= |flags| {
      assert ElemsFrom(flags, from) == {};
    } else {
      MembersFromCard(flags, from + 1);
      if flags[from] {
        assert ElemsFrom(flags, from) == {from} + ElemsFrom(flags, from + 1);
      } else {
        assert ElemsFrom(flags, from) == ElemsFrom(flags, from + 1);
      }
    }
  }

  /** Counting what a full traversal yields gives the cardinality of the set. */
  lemma MembersCard(flags: seq<bool>)
    ensures |Members(flags)| == |Elems(flags)|
  {
    MembersFromCard(flags, 0);
    assert ElemsFrom(flags, 0) == Elems(flags);
  }

  /** Skipping absent positions does not change what an iterator still yields. */
  lemma {:induction false} SkipAbsent(flags: seq<bool>, a: nat, b: nat)
    requires a <= b <= |flags|
    requires forall k :: a <= k < b ==> !flags[k]
    ensures MembersFrom(flags, a) == MembersFrom(flags, b)
    decreases b - a
  {
    if a < b {
      SkipAbsent(flags, a + 1, b);
    }
  }

  /** A set is empty iff a full traversal yields nothing iff no flag is set. */
  lemma EmptyIff(flags: seq<bool>)
    ensures Elems(flags) == {} <==> Members(flags) == []
    ensures Elems(flags) == {} <==> forall i :: 0 <= i < |flags| ==> !flags[i]
  {
    MembersSound(flags);
    if Members(flags) != [] {
      assert Members(flags)[0] in Elems(flags);
    }
    if Elems(flags) == {} {
      forall i | 0 <= i < |flags| ensures !flags[i] {
        assert flags[i] ==> i in Elems(flags);
      }
    }
  }

  /** Extending a prefix of the vector by one position adds that position to the set iff its flag is set. */
  lemma ElemsPrefixStep(flags: seq<bool>, i: nat)
    requires i < |flags|
    ensures |Elems(flags[..i + 1])| == |Elems(flags[..i])| + (if flags[i] then 1 else 0)
  {
    var before, after := Elems(flags[..i]), Elems(flags[..i + 1]);
    if flags[i] {
      assert after == before + {i};
      assert i !in before;
    } else {
      assert after == before;
    }
  }
}
