/**
 Properties that relate several operations of the typed array: reading back
 what was constructed or written, the two index-resolution policies, insert
 undone by pop, reversal, and value equality.
 */
module ArrayProperties {
  import opened TypedArray

  /** Reading index `i` of a freshly built array gives back the `i`-th
      construction value, as a number. */
  lemma GetReturnsConstructionValue(kind: Kind, values: seq<Value>, i: int)
    requires Construct(kind, values).Ok?
    requires 0 <= i < |values|
    ensures Get(Construct(kind, values).value, i) == Ok(NumericValue(values[i]).value)
  {
  }

  /** `len(a)` is exactly the number of indices from 0 that can be read:
      every index below it reads an element and the index equal to it does
      not. */
  lemma LengthMatchesIndexing(a: DynArray)
    ensures forall i :: 0 <= i < Length(a) ==> Get(a, i).Ok?
    ensures Get(a, Length(a)).Err?
  {
  }

  /** Get and set refuse the first index past either end with `IndexError`. */
  lemma BoundaryIndicesRefused(a: DynArray, v: Value)
    ensures Get(a, Length(a)) == Err(IndexError)
    ensures Get(a, -(Length(a) + 1)) == Err(IndexError)
    ensures Set(a, Length(a), v) == Err(IndexError)
    ensures Set(a, -(Length(a) + 1), v) == Err(IndexError)
    ensures Pop(a, Length(a)) == Err(IndexError)
    ensures Pop(a, -(Length(a) + 1)) == Err(IndexError)
  {
  }

  /** A negative index `-k` reads the same slot as `Length(a) - k`. */
  lemma NegativeIndexing(a: DynArray, k: int)
    requires 1 <= k <= Length(a)
    ensures Get(a, -k) == Get(a, Length(a) - k)
    ensures Get(a, -k).Ok?
  {
  }

  /** Writing `v` at an index and reading the same index gives `v` back, as
      a number; for a float array an integer `v` is read back as its value. */
  lemma SetThenGet(a: DynArray, i: int, v: Value)
    requires Set(a, i, v).Ok?
    ensures Get(Set(a, i, v).value, i) == Ok(NumericValue(v).value)
  {
  }

  /** Where the strict policy accepts an index, the lenient insert policy
      resolves it to the same position; the one index the strict policy
      refuses but insert does not clamp is `Length`, which appends. */
  lemma InsertPositionAgreesWithResolve(i: int, n: nat)
    ensures InBounds(i, n) ==> Resolve(i, n) == Some(InsertPosition(i, n))
    ensures InsertPosition(n, n) == n && Resolve(n, n).None?
  {
  }

  /** Insert always grows the array by exactly one element when the value
      is accepted, whatever the index. */
  lemma InsertGrowsByOne(a: DynArray, i: int, v: Value)
    requires Coerce(a.kind, v).Ok?
    ensures Insert(a, i, v).Ok? && Length(Insert(a, i, v).value) == Length(a) + 1
  {
  }

  /** Inserting at a position and then popping that position gives back the
      inserted value and the original array. */
  lemma InsertThenPop(a: DynArray, i: int, v: Value)
    requires 0 <= i <= Length(a)
    requires Coerce(a.kind, v).Ok?
    ensures Insert(a, i, v).Ok?
    ensures Pop(Insert(a, i, v).value, i) == Ok(Popped(NumericValue(v).value, a))
  {
    var b := Insert(a, i, v).value;
    assert b.elems == a.elems[..i] + [NumericValue(v).value] + a.elems[i..];
    assert b.elems[..i] + b.elems[i + 1..] == a.elems;
  }

  /** Appending is inserting at the end. */
  lemma AppendIsInsertAtEnd(a: DynArray, v: Value)
    ensures Append(a, v) == Insert(a, Length(a), v)
  {
    if Coerce(a.kind, v).Ok? {
      var x := Coerce(a.kind, v).value;
      assert InsertPosition(Length(a), Length(a)) == Length(a);
      assert a.elems[..Length(a)] + [x] + a.elems[Length(a)..] == a.elems + [x];
    }
  }

  /** Reversing twice restores the array. */
  lemma ReversedTwice(a: DynArray)
    ensures Reversed(Reversed(a)) == a
  {
    var r := Reversed(Reversed(a));
    assert r.elems == a.elems by {
      forall i | 0 <= i < Length(a)
        ensures r.elems[i] == a.elems[i]
      {
      }
    }
  }

  /** Every value of the reversed list is accepted when every value of the
      list is. */
  lemma ReverseKeepsAccepted(kind: Kind, values: seq<Value>)
    requires Construct(kind, values).Ok?
    ensures Construct(kind, Reverse(values)).Ok?
  {
    var rv := Reverse(values);
    forall i | 0 <= i < |rv|
      ensures Coerce(kind, rv[i]).Ok?
    {
      assert rv[i] == values[|values| - 1 - i];
    }
  }

  /** When `ws` holds at slot `i` the value `values` holds at the mirror
      slot, slot `i` of the array built from `ws` is the mirror slot of the
      array built from `values`. */
  lemma ReversedSlotMatches(kind: Kind, values: seq<Value>, ws: seq<Value>, a: DynArray, b: DynArray, i: int)
    requires Construct(kind, values) == Ok(a)
    requires Construct(kind, ws) == Ok(b)
    requires |ws| == |values|
    requires 0 <= i < |values| && ws[i] == values[|values| - 1 - i]
    ensures b.elems[i] == a.elems[|values| - 1 - i]
  {
    var m := |values| - 1 - i;
    assert Some(a.elems[m]) == NumericValue(values[m]);
    assert Some(b.elems[i]) == NumericValue(ws[i]);
  }

  /** Reversing a built array gives the array built from the reversed values. */
  lemma ReversedMatchesConstruct(kind: Kind, values: seq<Value>)
    requires Construct(kind, values).Ok?
    ensures Construct(kind, Reverse(values)).Ok?
    ensures Reversed(Construct(kind, values).value) == Construct(kind, Reverse(values)).value
  {
    ReverseKeepsAccepted(kind, values);
    var a := Reversed(Construct(kind, values).value);
    var b := Construct(kind, Reverse(values)).value;
    forall i | 0 <= i < |values|
      ensures a.elems[i] == b.elems[i]
    {
      ReversedSlotMatches(kind, values, Reverse(values), Construct(kind, values).value, b, i);
    }
    assert a.elems == b.elems;
  }

  /** Two arrays built from the same numbers compare equal, however the
      numbers were written (integer or float literals, list or tuple). */
  lemma SameNumbersCompareEqual(kind: Kind, xs: seq<Value>, ys: seq<Value>)
    requires Construct(kind, xs).Ok? && Construct(kind, ys).Ok?
    requires |xs| == |ys|
    requires forall i :: 0 <= i < |xs| ==> NumericValue(xs[i]) == NumericValue(ys[i])
    ensures Equals(Construct(kind, xs).value, Construct(kind, ys).value)
  {
  }
}
