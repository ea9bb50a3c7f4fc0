# Bounded integer sets: packed bit vector and dense boolean array

This project models the two implementations of the bounded integer set
`NSet` of the `impl` package. An `NSet` holds integers drawn from
`[0, range)`, and `range` is fixed when the set is built.

- `BitVecNSet` packs membership into `range / 8 + 1` bytes. Element `i` is bit `i % 8` of byte `i / 8`.
  - `add`, `contains` and `remove` are single bit operations.
  - `complement`, `union`, `intersection` and `difference` combine the bytes one by one with `~`, `|`, `&` and `& ~`.
  - `size` counts by running the iterator.
  - `toString` draws a bitmap.
- `BArrayNSet` keeps one boolean per element. Its range is the array length.
  - Its binary operations build a fresh set through calls to `add` and `remove`.
  - Their result has range `max(range(), other.range())`.
  - `difference` checks neither the class nor the range of its operand.

Both classes are Dafny classes over an `array` (`array<bv8>` and
`array<bool>`). Their methods update the array in place, and their loops
keep the loops of the Java code. Each iterator is a class with a mutable
`index` field, and its `Next` method has the same skipping loop as the
source.

Every contract is stated against an abstract membership vector
`Flags(): seq<bool>`, where flag `i` says whether `i` is in the set.
`Bits.Unpack` reads that vector off the bytes of the packed set. The dense
set's vector is its array. An iterator is specified by `Remaining()`, the
ascending sequence `Adt.MembersFrom` of the elements it has still to yield.
The lemmas of `Adt` show that this sequence is strictly increasing, holds
exactly the members, and is as long as the set is large.

Modules:

- `Adt`: the error values and the abstract meaning of a membership vector.
  - `Outcome` for a call that returns nothing, `Result` for one that returns a value.
  - `Elems` is the set, and `MembersFrom`/`Members` the ascending sequence an iterator yields.
- `Bits`: bit packing, the byte-by-byte operators, and the drawing used by `toString`, with the lemmas that connect them to the membership vector.
- `Impl`: the two set classes and their iterators.
  - `NSet` is the interface both classes implement, written as a datatype with one case per class.
  - `NSetIterator` is the interface of their iterators, written the same way.
  - Binary operations take their operand as an `NSet`. This lets the class check `other instanceof BitVecNSet` be stated as `other.BitVec?`.
- `Scenarios`: worked uses of the classes.
  - the dense range-5 example with A = {0, 1, 2} and B = {2, 3, 4};
  - `difference` accepting an operand of another range that `union` rejects;
  - out-of-range indices and cross-class operands being rejected.

Exceptions are returned as values. `Fail(BadNSetParameter)` and
`Err(BadNSetParameter)` stand for `BadNSetParameterException`.
`Err(NoSuchElement)` stands for `NoSuchElementException`. The code throws
`BadNSetParameterException` both for an index out of range and for an
incompatible operand, and the model does the same.

## Model

| member | source | states |
|---|---|---|
| Adt.Max | impl/BArrayNSet.java:148-150 | The result size used by the dense binary operations is the larger of the two ranges. |
| Adt.MembersFromSound | impl/BArrayNSet.java:244-254 | A cursor at `from` yields a strictly increasing sequence that contains exactly the present elements at or after `from`. |
| Adt.MembersSound | impl/BitVecNSet.java:209-234 | A full traversal yields exactly the set's elements, in strictly increasing order. |
| Adt.MembersFromCard | impl/BitVecNSet.java:186-193 | A cursor at `from` yields as many values as there are present elements at or after `from`. |
| Adt.MembersCard | impl/BitVecNSet.java:186-193 | Counting a full traversal gives the cardinality of the set. |
| Adt.SkipAbsent | impl/BitVecNSet.java:200-214 | Starting the cursor past a run of absent positions loses no element. |
| Adt.EmptyIff | impl/BitVecNSet.java:98-100 | The set is empty iff a traversal yields nothing iff no flag is set. |
| Adt.ElemsPrefixStep | impl/BArrayNSet.java:95-102 | Counting one more flag adds one exactly when that flag is set. |
| Bits.MemberAt | impl/BitVecNSet.java:238-244 | Element `8 * q + j` is bit `j` of byte `q`. |
| Bits.SameSlot | impl/BitVecNSet.java:70 | Two elements with the same byte and bit position are equal. |
| Bits.InsertMember | impl/BitVecNSet.java:70 | `internal[i / 8] \|= 1 << (i % 8)` adds `i` and changes no other element, padding bits included. |
| Bits.DeleteMember | impl/BitVecNSet.java:90 | `internal[i / 8] &= ~(1 << (i % 8))` removes `i` and changes no other element, padding bits included. |
| Bits.InsertUnpack | impl/BitVecNSet.java:68-71 | Adding `i` sets exactly flag `i`. Adding a present element leaves every byte as it was. |
| Bits.DeleteUnpack | impl/BitVecNSet.java:88-91 | Removing `i` clears exactly flag `i`. Removing an absent element leaves every byte as it was. |
| Bits.NotUnpack | impl/BitVecNSet.java:120-126 | Byte-wise `~` negates every element below `range`. The padding bits it also flips never become elements. |
| Bits.NotNot | impl/BitVecNSet.java:120-126 | Complementing twice restores every byte, so double complement restores membership. |
| Bits.OrUnpack | impl/BitVecNSet.java:137-145 | Byte-wise `\|` is element-wise union. |
| Bits.AndUnpack | impl/BitVecNSet.java:154-162 | Byte-wise `&` is element-wise intersection. |
| Bits.AndNotUnpack | impl/BitVecNSet.java:172-180 | Byte-wise `& ~` is element-wise difference. |
| Bits.DrawBit | impl/BitVecNSet.java:240-244 | Drawing element `8 * q + j` appends `' '` if bit `j` of byte `q` is clear and `'.'` if it is set, which is that element's glyph. |
| Bits.PictureStep | impl/BitVecNSet.java:236-249 | Drawing one more element appends its glyph to the bitmap. |
| Impl.NSet.Contains | impl/BArrayNSet.java:179 | `other.contains(i)` on either class fails iff `i` is out of range, and otherwise returns flag `i`. |
| Impl.NSet.Range | impl/BArrayNSet.java:149-150 | `other.range()` on either class is that class's own `range()`: the constructor argument of a packed set, the array length of a dense one. |
| Impl.NSet.Iterator | impl/BArrayNSet.java:153 | `other.iterator()` on either class is a fresh valid cursor that yields `Members(other.Flags())`. |
| Impl.NSetIterator.Remaining | impl/BArrayNSet.java:153-155 | Everything an iterator of either class still yields is a member of the set it traverses. |
| Impl.NSetIterator.HasNext | impl/BArrayNSet.java:153 | `hasNext` on either class is true iff the cursor still has something to yield. |
| Impl.NSetIterator.Next | impl/BArrayNSet.java:207-209 | `next` on either class throws `NoSuchElement` when exhausted. Otherwise it yields the head of the remaining sequence and advances past it. |
| Impl.BitVecNSet.constructor | impl/BitVecNSet.java:37-40 | A fresh set has `range / 8 + 1` bytes, all zero, and no element below `range`. |
| Impl.BitVecNSet.CheckIndex | impl/BitVecNSet.java:48-51 | Fails with `BadNSetParameter` iff `x < 0 \|\| x >= range`. |
| Impl.BitVecNSet.CheckParameter | impl/BitVecNSet.java:58-62 | Passes iff the operand is a packed set of the same range. |
| Impl.BitVecNSet.Add | impl/BitVecNSet.java:68-71 | Fails exactly for out-of-range items and then changes nothing. Otherwise it stores the bytes of `Bits.Insert`, sets flag `item` and no other, and leaves the bytes alone if `item` was present. |
| Impl.BitVecNSet.Contains | impl/BitVecNSet.java:78-81 | Fails exactly for out-of-range items. Otherwise it returns flag `item`. |
| Impl.BitVecNSet.Remove | impl/BitVecNSet.java:88-91 | Fails exactly for out-of-range items and then changes nothing. Otherwise it stores the bytes of `Bits.Delete`, clears flag `item` and no other, and leaves the bytes alone if `item` was absent. |
| Impl.BitVecNSet.IsEmpty | impl/BitVecNSet.java:98-100 | True iff no element below `range` is present, that is, iff the abstract set is empty. |
| Impl.BitVecNSet.Range | impl/BitVecNSet.java:110-112 | The range is the length of the membership vector. |
| Impl.BitVecNSet.Complement | impl/BitVecNSet.java:120-126 | A fresh set of the same range whose bytes are the complements of this set's bytes. It contains `i` iff this set does not, for every `i` below `range`. |
| Impl.BitVecNSet.Union | impl/BitVecNSet.java:137-145 | Fails iff the operand is not a packed set of the same range. Otherwise it returns a fresh set whose bytes are the byte-wise OR and whose membership is `a \|\| b`. |
| Impl.BitVecNSet.Intersection | impl/BitVecNSet.java:154-162 | The same check. The bytes are the byte-wise AND and the membership is `a && b`. |
| Impl.BitVecNSet.Difference | impl/BitVecNSet.java:172-180 | The same check. The bytes are the byte-wise AND-NOT and the membership is `a && !b`. |
| Impl.BitVecNSet.Size | impl/BitVecNSet.java:186-193 | Running the iterator to exhaustion counts the cardinality of the abstract set. |
| Impl.BitVecNSet.FirstValue | impl/BitVecNSet.java:200-204 | The smallest element, or `range` if there is none: every position before it is absent. |
| Impl.BitVecNSet.Iterator | impl/BitVecNSet.java:209-214 | A fresh valid cursor over this set whose traversal yields `Members(Flags())`. |
| Impl.BitVecNSet.ToString | impl/BitVecNSet.java:236-249 | `"["`, then one glyph per element (`'.'` present, `' '` absent), then `8 - range % 8` `'x'`, then `"]"`. Its length is `range + 8 - range % 8 + 2`. |
| Impl.BitVecNSet.DrawBits | impl/BitVecNSet.java:238-244 | The inner loops of `toString` extend the drawing of the first `8 * q` elements to the first `8 * q + count`. |
| Impl.BitVecIterator.Remaining | impl/BitVecNSet.java:214-232 | What the cursor still yields is exactly the present elements at or after `index`. |
| Impl.BitVecIterator.constructor | impl/BitVecNSet.java:210-214 | The cursor starts at the first value. |
| Impl.BitVecIterator.HasNext | impl/BitVecNSet.java:217-219 | `range() > index` holds iff something remains to be yielded. |
| Impl.BitVecIterator.Next | impl/BitVecNSet.java:222-232 | Throws `NoSuchElement` when exhausted. Otherwise it yields the smallest remaining element and skips to the next present one, so what remains is the tail. |
| Impl.BArrayNSet.constructor | impl/BArrayNSet.java:34-36 | A fresh set of `range` flags, all false. |
| Impl.BArrayNSet.CheckIndex | impl/BArrayNSet.java:44-47 | Fails with `BadNSetParameter` iff `x < 0 \|\| x >= internal.length`. |
| Impl.BArrayNSet.Add | impl/BArrayNSet.java:54-57 | Fails exactly for out-of-range items and then changes nothing. Otherwise it sets `internal[item]` and nothing else. |
| Impl.BArrayNSet.Contains | impl/BArrayNSet.java:64-67 | Fails exactly for out-of-range items. Otherwise it returns `internal[item]`. |
| Impl.BArrayNSet.Remove | impl/BArrayNSet.java:74-77 | Fails exactly for out-of-range items and then changes nothing. Otherwise it clears `internal[item]` and nothing else. |
| Impl.BArrayNSet.IsEmpty | impl/BArrayNSet.java:84-89 | True iff no flag is set, that is, iff the abstract set is empty. |
| Impl.BArrayNSet.Size | impl/BArrayNSet.java:95-102 | The number of set flags, that is, the cardinality of the abstract set. |
| Impl.BArrayNSet.Range | impl/BArrayNSet.java:112 | The range is the array length. |
| Impl.BArrayNSet.Complement | impl/BArrayNSet.java:120-125 | A fresh set of the same range with every flag negated. |
| Impl.BArrayNSet.CheckParameter | impl/BArrayNSet.java:133-137 | Passes iff the operand is a dense set of the same range. |
| Impl.BArrayNSet.Union | impl/BArrayNSet.java:146-162 | Fails iff the operand is not a dense set of the same range. Otherwise it returns a fresh set of range `max(range(), other.range())` holding `internal[i] \|\| other.contains(i)`. |
| Impl.BArrayNSet.Intersection | impl/BArrayNSet.java:171-186 | The same check. The result has range `max(range(), other.range())` and holds `i` iff `i < range() && internal[i] && other.contains(i)`. |
| Impl.BArrayNSet.Difference | impl/BArrayNSet.java:196-211 | No check, and it never fails. The result has range `max(range(), other.range())` and holds `i` iff `i < range() && internal[i]` and `other`'s iterator does not yield `i`, that is, iff `other` does not contain `i`. |
| Impl.BArrayNSet.SetEach | impl/BArrayNSet.java:153-155 | The for-each loops over `other` (this one and 207-209) add or remove every value the cursor still yields and change no other flag. |
| Impl.BArrayNSet.SetNext | impl/BArrayNSet.java:207-209 | One pass of those loops advances the cursor by one element and writes that element's flag. |
| Impl.BArrayNSet.FirstValue | impl/BArrayNSet.java:217-221 | The smallest element, or the range if there is none. |
| Impl.BArrayNSet.Iterator | impl/BArrayNSet.java:227-236 | A fresh valid cursor over this set whose traversal yields `Members(Flags())`. |
| Impl.BArrayIterator.Remaining | impl/BArrayNSet.java:236-254 | What the cursor still yields is exactly the set flags at or after `index`. |
| Impl.BArrayIterator.constructor | impl/BArrayNSet.java:232-236 | The cursor starts at the first value. |
| Impl.BArrayIterator.HasNext | impl/BArrayNSet.java:239-241 | `internal.length > index` holds iff something remains to be yielded. |
| Impl.BArrayIterator.Next | impl/BArrayNSet.java:244-254 | Throws `NoSuchElement` when exhausted. Otherwise it yields the smallest remaining element and skips to the next set flag. |

## Left out

- The `adt` package is not part of this model. `NSet` becomes the two-case datatype `Impl.NSet`. `BadNSetParameterException` and `NoSuchElementException` become the values of `Adt.NSetError`.
  - Other implementations of `NSet` cannot be expressed. Union, intersection and the packed set's difference would reject them at the class check. The dense set's difference has no check: it would remove whatever the foreign iterator yields, and would throw `BadNSetParameterException` for any yielded value outside `[0, max)`.
- Exception messages are not modelled. The Java code builds them with `getClass()` and string concatenation; the model records only whether a call throws.
- Java iterator plumbing is not modelled: the anonymous classes, `Integer` boxing and `null` items. Each for-each loop over `other` becomes a loop over an explicit cursor of `NSetIterator`. The dense set's two such loops share one method, `SetEach`, whose flag argument chooses `add` or `remove`.
- Signed bytes and int promotion are not modelled. Bytes are `bv8`, so the `(byte)` casts and `~` on a promoted byte reduce to the same 8-bit pattern.
- A negative `range` at construction is excluded by the `nat` parameter type. Java would throw for most negative ranges in both constructors; for small negatives the packed set would even allocate a byte.
- Integers are unbounded. Every value in play is at most `range`, so Java's 32-bit `int` never overflows here.
- Changing a set while one of its iterators is in use is not modelled. The iterator contracts assume the set is left alone between calls.
- Performance is not modelled: the traversal-based `size` of the packed set and the element-wise loops of the dense set.
- The binary operations return the concrete class (`BitVecNSet`, `BArrayNSet`) rather than the interface type.
