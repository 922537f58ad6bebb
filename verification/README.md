# Typed growable array and binary search, in Dafny

This project models a small Cython library. `array(typecode, values)` is a growable array of one
numeric element kind: `'i'` is a C `int`, `'d'` is a C `double`. `binary(arr, key)` does a binary
search over such an array. The implementation files (`dynamic_array_c.pyx`, `binary_search.py`)
are not part of this model. The behaviour is taken from the repository's table-driven tests,
`test_dynamic_array.py` and `test_binary_search.py`. Where the tests are silent, the model makes
its own choice. Each such choice, with its reason, is listed under "Left out".

Files:

- `typed_array.dfy`, module `TypedArray`. It holds the data model and every array operation as a
  pure function. An array is a kind tag plus a `seq<real>` of elements. A caller's value is an
  integer literal, a float literal or a non-number. Raising an exception is an `Err` result. An
  operation that mutates the array returns the new array. A failed call returns no array, so the
  caller's array is unchanged. The invariant `Valid` says that an `'i'` array holds only integral
  values within the 32-bit signed range. Every operation preserves it.
- `array_properties.dfy`, module `ArrayProperties`. Lemmas that relate operations to each other:
  read-after-construct, read-after-write, the two index policies, insert undone by pop, reversal,
  and value equality.
- `binary_search.dfy`, module `BinarySearch`. The leftmost bisection as a method with loop
  invariants. It is proved to return exactly what a linear front-to-back scan returns.
- `test_tables.dfy`, module `TestTables`. Rows of the test tables, stated over the model. The
  fixture lemmas link each starting array to the `array(...)` call that builds it. The method
  `BinarySearchTable` calls `Binary` on every binary-search row and asserts the expected answer.

Index rules. `Get`, `Set` and `Pop` use a strict rule (`Resolve`). A negative index counts from
the end, and any index outside `[0, len)` after that raises `IndexError`. `Insert` uses Python's
lenient rule (`InsertPosition`): an index past either end is clamped to that end.

Test tables and model disagree in one place. In `TEST_INSERT`, the rows at lines 49 and 50 give the
same call (`[2, 5]`, index 1, value 8) two different expected contents: `[2, 8, 5]` and
`[2, 5, 8]`. The test compares only lengths, so neither row's contents are checked. The model places the value as
Python's `insert` does and agrees with line 49. `TestTables.InsertRowFiftyDisagrees` states the
disagreement with line 50.

## Model

| member | source | states |
|---|---|---|
| TypedArray.Coerce | test_dynamic_array.py:155-179 | a non-number is refused with ValueError; a `'d'` array accepts every number and stores its numeric value; an `'i'` array accepts exactly the integers in the C `int` range; an accepted value always conforms to the array's kind |
| TypedArray.Construct | test_dynamic_array.py:7-18 | construction succeeds iff every value is accepted; the length equals the number of values, duplicates included, so an empty list gives length 0; slot i holds the numeric value of the i-th value; the kind tag is the one requested and the kind invariant holds |
| TypedArray.Resolve | test_dynamic_array.py:128-135 | an index resolves iff `-len <= i < len`; a negative index resolves to `len + i`, and a non-negative one to itself |
| TypedArray.Get | test_dynamic_array.py:119-135 | reading succeeds iff `-len <= i < len`, otherwise IndexError; the value read is the element at the resolved index and conforms to the kind |
| TypedArray.Set | test_dynamic_array.py:137-153 | an out-of-range index gives IndexError whatever the value; an in-range index with an unacceptable value gives ValueError; on success, the resolved slot holds the new value's number and every other slot, the length and the kind are unchanged |
| TypedArray.Append | test_dynamic_array.py:25-40 | append succeeds iff the value is accepted, otherwise ValueError; the length grows by one, the old elements stay as a prefix, the new last element is the value, and every element keeps the array's kind |
| TypedArray.InsertPosition | test_dynamic_array.py:42-53 | the insert position is always in `[0, len]`; an in-range index maps as Python maps it; an index past the front clamps to 0 and one past the end clamps to len |
| TypedArray.Insert | test_dynamic_array.py:181-188 | insert succeeds iff the value is accepted; the length grows by exactly one; the value sits at the insert position; the elements before it are unchanged and those after it are shifted by one |
| TypedArray.FirstIndex | test_dynamic_array.py:55-62 | gives None iff the value does not occur; otherwise the index of an occurrence with no occurrence before it |
| TypedArray.Remove | test_dynamic_array.py:190-204 | remove succeeds iff the value is a number occurring in the array; exactly one element goes, namely the first equal one; the others keep their order and kind, and the multiset of elements loses one copy of the value |
| TypedArray.Pop | test_dynamic_array.py:206-230 | pop succeeds iff `-len <= i < len`, otherwise IndexError; on success it returns the element at the resolved index, and the rest is the array without that slot, in order and of the same kind |
| TypedArray.Reverse | test_dynamic_array.py:86-95 | the reversal has the same length, and slot i holds the element that was at `len - 1 - i` |
| TypedArray.Reversed | test_dynamic_array.py:232-238 | `reversed()` keeps the kind and the length, mirrors every slot, and preserves the kind invariant |
| TypedArray.ReverseInPlace | test_dynamic_array.py:232-238 | swapping each front-half slot with its mirror slot produces exactly the reversed array |
| TypedArray.Equals | test_dynamic_array.py:240-245 | two arrays are equal iff they have the same length and numerically equal elements in order |
| ArrayProperties.LengthMatchesIndexing | test_dynamic_array.py:112-117 | `len(a)` is the number of readable indices from 0: every index below it reads an element, and the index equal to it raises IndexError |
| ArrayProperties.GetReturnsConstructionValue | test_dynamic_array.py:119-126 | for every `0 <= i < len`, `a[i]` on a built array is the i-th construction value |
| ArrayProperties.BoundaryIndicesRefused | test_dynamic_array.py:128-153 | get, set and pop all raise IndexError at index `len` and at index `-(len + 1)` |
| ArrayProperties.NegativeIndexing | test_dynamic_array.py:119-135 | for `1 <= k <= len`, `a[-k]` succeeds and equals `a[len - k]` |
| ArrayProperties.SetThenGet | test_dynamic_array.py:137-144 | after a successful `a[i] = v`, `a[i]` reads back v's number, so the integer -42 reads back as -42 in a `'d'` array |
| ArrayProperties.InsertPositionAgreesWithResolve | test_dynamic_array.py:42-53 | where the strict rule accepts an index, the insert rule resolves it to the same slot; index `len` is refused by the strict rule but appends under the insert rule |
| ArrayProperties.InsertGrowsByOne | test_dynamic_array.py:181-188 | for any index, including 0 on an empty array and negative ones, an accepted insert grows the length by exactly one |
| ArrayProperties.InsertThenPop | test_dynamic_array.py:181-230 | inserting v at i in `[0, len]` and then popping i returns v and gives back the original array |
| ArrayProperties.AppendIsInsertAtEnd | test_dynamic_array.py:25-53 | append is the same operation as insert at index len, errors included |
| ArrayProperties.ReversedTwice | test_dynamic_array.py:232-238 | reversing twice gives back the original array |
| ArrayProperties.ReverseKeepsAccepted | test_dynamic_array.py:86-95 | if every value of a list is accepted, so is every value of the reversed list |
| ArrayProperties.ReversedSlotMatches | test_dynamic_array.py:86-95 | when one value list holds at slot i what another holds at the mirror slot, the arrays built from them agree at slot i and its mirror |
| ArrayProperties.ReversedMatchesConstruct | test_dynamic_array.py:86-95 | reversing `array(k, values)` gives `array(k, reversed values)` |
| ArrayProperties.SameNumbersCompareEqual | test_dynamic_array.py:97-106 | two arrays of one kind, built from the same numbers written any way (list or tuple, int or float literals), compare equal |
| BinarySearch.Binary | test_binary_search.py:26-32 | on a non-decreasing array, the result is None iff the key is absent; otherwise it is the smallest index holding the key, with every earlier element smaller; this is exactly the linear scan's answer |
| BinarySearch.FirstIndexIsUnique | test_binary_search.py:7-21 | any answer that is None for an absent key, or an index of the key with no earlier occurrence, equals the linear scan's answer |
| TestTables.LenFloatRows | test_dynamic_array.py:8-12 | each `'d'` TEST_LEN row gives its expected length: 0, 1, 2, 2 and 5, repeated values counted |
| TestTables.LenIntRows | test_dynamic_array.py:13-17 | each `'i'` TEST_LEN row gives its expected length: 0, 1, 2, 2 and 5, repeated values counted |
| TestTables.AppendFloatRows | test_dynamic_array.py:26-29 | each `'d'` TEST_APPEND row gives the expected array: the old elements followed by the appended 1.0 |
| TestTables.AppendIntRows | test_dynamic_array.py:30-33 | each `'i'` TEST_APPEND row gives the expected array: the old elements followed by the appended 1 |
| TestTables.AppendErrorRows | test_dynamic_array.py:36-40 | appending a string raises ValueError in each TEST_APPEND_ERROR row |
| TestTables.SetItemFloatRows | test_dynamic_array.py:137-144 | writing -42 at each index 0-2 of `array('d', [2.0, 3.0, 4.0])` succeeds and reads back -42 |
| TestTables.SetItemIntRows | test_dynamic_array.py:137-144 | writing -42 at each index 0-2 of `array('i', [5, 1, 1])` succeeds and reads back -42 |
| TestTables.InsertRows | test_dynamic_array.py:43-52 | every TEST_INSERT row except line 50 gives its expected contents, each one element longer than the input |
| TestTables.InsertRowFiftyDisagrees | test_dynamic_array.py:49-50 | the call shared by lines 49 and 50 does not give line 50's `[2,5,8]` |
| TestTables.RemoveOnlyRows | test_dynamic_array.py:56-59 | removing the only element of `[1.0]` or `[1]` leaves an empty array (lines 56 and 59) |
| TestTables.RemoveRepeatedFloatRow | test_dynamic_array.py:57 | removing 2.0 from `[2.0, 2.0, 2.0]` leaves `[2.0, 2.0]` |
| TestTables.RemoveRepeatedIntRow | test_dynamic_array.py:60 | removing 2 from `[2, 2, 2]` leaves `[2, 2]` |
| TestTables.RemoveLastRows | test_dynamic_array.py:58-61 | removing 5 from `[2.0, 5.0]` or `[2, 5]` leaves `[2]` (lines 58 and 61) |
| TestTables.PopFloatRows | test_dynamic_array.py:65-69 | each `'d'` TEST_POP row returns the expected item and leaves the expected rest |
| TestTables.PopIntRows | test_dynamic_array.py:70-72 | each `'i'` TEST_POP row with a non-negative index returns the expected item and leaves the expected rest |
| TestTables.PopIntNegativeRows | test_dynamic_array.py:73-74 | each `'i'` TEST_POP row with a negative index returns the expected item and leaves the expected rest |
| TestTables.PopErrorRows | test_dynamic_array.py:77-84 | each TEST_POP_INDEX_ERROR row raises IndexError |
| TestTables.ReversedRows | test_dynamic_array.py:86-95 | each TEST_REVERSED row reverses to its expected array |
| TestTables.EqRows | test_dynamic_array.py:97-106 | each TEST_EQ array equals the array built from its values; the tuple at line 105 is the same value sequence as the list |
| TestTables.BinarySearchHitRows | test_binary_search.py:8-19 | the rows whose key occurs give its leftmost index: 2, 3, 0, 0, 1, 1 and 3 |
| TestTables.BinarySearchMissRows | test_binary_search.py:9-20 | the rows whose key is absent (below the minimum, above the maximum, empty array) give None |
| TestTables.BuiltFrom | test_dynamic_array.py:112-117 | an array is built from values exactly when each value converts to the matching listed number |
| TestTables.BinarySearchFourFixtures | test_binary_search.py:8-17 | the four-element arrays of TEST_BINARY_SEARCH (`'d'` and `'i'` `[1,2,3,4]`, `[1,1,1,1]`, `[1,2,2,4]`) hold the listed numbers |
| TestTables.BinarySearchOtherFixtures | test_binary_search.py:15-20 | the arrays `[]`, `[1]` and `[-3,0,2,5,5]` of TEST_BINARY_SEARCH hold the listed numbers |
| TestTables.BinarySearchFixturesSorted | test_binary_search.py:7-21 | every TEST_BINARY_SEARCH fixture is in non-decreasing order, so each meets `Binary`'s precondition |
| TestTables.FloatFixtures | test_dynamic_array.py:26-98 | the `'d'` arrays the append, insert, remove, pop, reversed and eq rows start from are what `array('d', ...)` builds |
| TestTables.IntFixtures | test_dynamic_array.py:30-104 | the `'i'` arrays the append, insert, remove, pop, reversed and eq rows start from are what `array('i', ...)` builds |

## Left out

- `setup.py` is packaging with no logic.
- Capacity and the growth policy are not modelled. The tests cannot observe them. `test_time_append` only measures and prints wall-clock time.
- Floating point is not modelled. `'d'` elements are exact reals, so rounding, NaN and infinities are absent.
- Python's coercion of arbitrary objects is not modelled. A caller's value is an int literal, a float literal or a non-number.
- TypedArray.Coerce: no test covers a float literal or an out-of-range integer offered to an `'i'` array. The model refuses both with ValueError rather than truncating or wrapping the value, so an `'i'` array never holds a number other than the one offered. The real extension may raise a different exception, such as OverflowError.
- TypedArray.Set: no test combines a bad index with a bad value. The model checks the index first.
- TypedArray.Remove: no test asserts what happens when the value is not found. The model raises ValueError, as Python's `list.remove` does.
- TypedArray.Equals: no test compares arrays of different kinds. The model compares numbers only and ignores the kind tags.
- TypedArray.Pop: `pop()` with no argument is not modelled. Every test passes an index.
- BinarySearch.Binary: the key is a number. A non-numeric key, and what happens on unsorted input, are not modelled. Sortedness is the caller's precondition.
