/**
 Model of the typed growable array `array(typecode, values)`.

 An array carries an element kind fixed at construction (`'i'`, a C `int`,
 or `'d'`, a C `double`) and the ordered sequence of its elements. Every
 element is kept as a `real`; the kind tag says how it is materialised, and
 the `Valid` invariant says that an integer array only ever holds integral
 values in the range of a 32-bit signed integer.

 Every operation is a pure function: an operation that mutates the array in
 place returns the new array, and an operation that raises returns `Err`
 (the caller keeps the old array, so a failed call leaves it unchanged).
 */
module TypedArray {

  /** The typecode chosen at construction: `'i'` or `'d'`. */
  datatype Kind = Int | Double

  /** A value offered by a caller: a Python integer, a Python float, or
      anything that is not a number (a string, say). */
  datatype Value = IntLit(i: int) | FloatLit(f: real) | NonNumeric

  /** The exceptions the array raises. */
  datatype Error = IndexError | ValueError

  datatype Result<T> = Ok(value: T) | Err(error: Error)

  datatype Option<T> = None | Some(value: T)

  /** Bounds of a 32-bit signed C `int`, the storage of an `'i'` array. */
  const INT_MIN: int := -0x8000_0000
  const INT_MAX: int := 0x7FFF_FFFF

  datatype DynArray = DynArray(kind: Kind, elems: seq<real>)

  /** The result of `pop`: the removed element and the array left behind. */
  datatype Popped = Popped(item: real, rest: DynArray)

  /** `x` is a value a C `int` can hold. */
  predicate IsCInt(x: real) {
    x.Floor as real == x && INT_MIN <= x.Floor <= INT_MAX
  }

  /** `x` can be stored in an array of kind `kind`. */
  predicate Conforms(kind: Kind, x: real) {
    kind == Int ==> IsCInt(x)
  }

  /** Every stored element conforms to the array's kind. */
  predicate Valid(a: DynArray) {
    forall i :: 0 <= i < |a.elems| ==> Conforms(a.kind, a.elems[i])
  }

  /** The number a caller's value denotes, if it denotes one. */
  function NumericValue(v: Value): Option<real> {
    match v
    case IntLit(i) => Some(i as real)
    case FloatLit(f) => Some(f)
    case NonNumeric => None
  }

  /** Converts a caller's value to the stored representation of `kind`.
      A non-number is always refused; a float array takes every number; an
      integer array takes integers within the C `int` range and nothing else. */
  function Coerce(kind: Kind, v: Value): (r: Result<real>)
    ensures r.Ok? ==> NumericValue(v) == Some(r.value) && Conforms(kind, r.value)
    ensures r.Err? ==> r.error == ValueError
    ensures NumericValue(v).None? ==> r.Err?
    ensures kind == Double ==> (r.Ok? <==> NumericValue(v).Some?)
    ensures kind == Int ==> (r.Ok? <==> v.IntLit? && INT_MIN <= v.i <= INT_MAX)
  {
    match v
    case NonNumeric => Err(ValueError)
    case FloatLit(f) => if kind == Double then Ok(f) else Err(ValueError)
    case IntLit(i) =>
      if kind == Double || INT_MIN <= i <= INT_MAX then Ok(i as real) else Err(ValueError)
  }

  /** `array(kind, values)`: converts every value in order; fails with
      `ValueError` as soon as one cannot be stored. */
  function Construct(kind: Kind, values: seq<Value>): (r: Result<DynArray>)
    ensures r.Ok? <==> forall i :: 0 <= i < |values| ==> Coerce(kind, values[i]).Ok?
    ensures r.Err? ==> r.error == ValueError
    ensures r.Ok? ==> && r.value.kind == kind
                      && Valid(r.value)
                      && Length(r.value) == |values|
                      && forall i :: 0 <= i < |values| ==>
                           Some(r.value.elems[i]) == NumericValue(values[i])
  {
    if |values| == 0 then Ok(DynArray(kind, []))
    else
      match Coerce(kind, values[0])
      case Err(e) => Err(e)
      case Ok(x) =>
        match Construct(kind, values[1..])
        case Err(e) => Err(e)
        case Ok(tail) => Ok(DynArray(kind, [x] + tail.elems))
  }

  /** `len(a)` */
  function Length(a: DynArray): nat {
    |a.elems|
  }

  /** `i` names an element of an array of length `n`, counting negative
      indices from the end. */
  predicate InBounds(i: int, n: int) {
    -n <= i < n
  }

  /** Strict index resolution shared by get, set and pop: a negative index
      counts from the end; anything outside `[0, n)` after that is refused. */
  function Resolve(i: int, n: nat): (r: Option<nat>)
    ensures r.Some? <==> InBounds(i, n)
    ensures r.Some? ==> r.value < n && r.value as int == (if i < 0 then n + i else i)
  {
    if 0 <= i < n then Some(i)
    else if 0 <= n + i && i < 0 then Some(n + i)
    else None
  }

  /** `a[i]` */
  function Get(a: DynArray, i: int): (r: Result<real>)
    ensures r.Ok? <==> InBounds(i, Length(a))
    ensures r.Err? ==> r.error == IndexError
    ensures r.Ok? ==> r.value == a.elems[Resolve(i, Length(a)).value]
    ensures Valid(a) && r.Ok? ==> Conforms(a.kind, r.value)
  {
    match Resolve(i, Length(a))
    case None => Err(IndexError)
    case Some(j) => Ok(a.elems[j])
  }

  /** `a[i] = v`: the index is checked first, then the value. */
  function Set(a: DynArray, i: int, v: Value): (r: Result<DynArray>)
    ensures r.Ok? <==> InBounds(i, Length(a)) && Coerce(a.kind, v).Ok?
    ensures !(InBounds(i, Length(a))) ==> r == Err(IndexError)
    ensures r.Err? ==> (r.error == ValueError <==> InBounds(i, Length(a)))
    ensures r.Ok? ==>
      var j := Resolve(i, Length(a)).value;
      && r.value.kind == a.kind
      && Length(r.value) == Length(a)
      && Some(r.value.elems[j]) == NumericValue(v)
      && (forall k :: 0 <= k < Length(a) && k != j ==> r.value.elems[k] == a.elems[k])
    ensures Valid(a) && r.Ok? ==> Valid(r.value)
  {
    match Resolve(i, Length(a))
    case None => Err(IndexError)
    case Some(j) =>
      match Coerce(a.kind, v)
      case Err(e) => Err(e)
      case Ok(x) => Ok(a.(elems := a.elems[j := x]))
  }

  /** `a.append(v)` */
  function Append(a: DynArray, v: Value): (r: Result<DynArray>)
    ensures r.Ok? <==> Coerce(a.kind, v).Ok?
    ensures r.Err? ==> r.error == ValueError
    ensures r.Ok? ==>
      && r.value.kind == a.kind
      && Length(r.value) == Length(a) + 1
      && r.value.elems[..Length(a)] == a.elems
      && Some(r.value.elems[Length(a)]) == NumericValue(v)
    ensures Valid(a) && r.Ok? ==> Valid(r.value)
  {
    match Coerce(a.kind, v)
    case Err(e) => Err(e)
    case Ok(x) => Ok(a.(elems := a.elems + [x]))
  }

  /** Lenient index resolution used by insert: a negative index counts from
      the end, and whatever falls outside `[0, n]` is clamped to the nearer
      end instead of being refused. */
  function InsertPosition(i: int, n: nat): (p: nat)
    ensures p <= n
    ensures 0 <= i <= n ==> p == i
    ensures 0 <= n + i && i < 0 ==> p == n + i
    ensures i > n ==> p == n
    ensures n + i < 0 ==> p == 0
  {
    if i < 0 then (if n + i < 0 then 0 else n + i)
    else if i > n then n
    else i
  }

  /** `a.insert(i, v)`: shifts the elements from the insert position one
      slot to the right and stores `v` there. */
  function Insert(a: DynArray, i: int, v: Value): (r: Result<DynArray>)
    ensures r.Ok? <==> Coerce(a.kind, v).Ok?
    ensures r.Err? ==> r.error == ValueError
    ensures r.Ok? ==>
      var p := InsertPosition(i, Length(a));
      && r.value.kind == a.kind
      && Length(r.value) == Length(a) + 1
      && Some(r.value.elems[p]) == NumericValue(v)
      && r.value.elems[..p] == a.elems[..p]
      && r.value.elems[p + 1..] == a.elems[p..]
    ensures Valid(a) && r.Ok? ==> Valid(r.value)
  {
    match Coerce(a.kind, v)
    case Err(e) => Err(e)
    case Ok(x) =>
      var p := InsertPosition(i, Length(a));
      Ok(a.(elems := a.elems[..p] + [x] + a.elems[p..]))
  }

  /** The lowest index holding `x`, scanning from the front; `None` when
      `x` does not occur. */
  function FirstIndex(s: seq<real>, x: real): (r: Option<nat>)
    ensures r.None? <==> x !in s
    ensures r.Some? ==> r.value < |s| && s[r.value] == x
    ensures r.Some? ==> forall j :: 0 <= j < r.value ==> s[j] != x
  {
    if |s| == 0 then None
    else if s[0] == x then Some(0)
    else
      match FirstIndex(s[1..], x)
      case None => None
      case Some(k) => Some(k + 1)
  }

  /** Deleting slot `k` leaves one element fewer and takes exactly one copy
      of `s[k]` out of the multiset of elements. */
  lemma SplitAt(s: seq<real>, k: nat)
    requires k < |s|
    ensures |s[..k] + s[k + 1..]| == |s| - 1
    ensures multiset(s[..k] + s[k + 1..]) + multiset{s[k]} == multiset(s)
  {
    assert s == s[..k] + [s[k]] + s[k + 1..];
  }

  /** `a.remove(v)`: deletes the first element numerically equal to `v`;
      `ValueError` when there is none. */
  function Remove(a: DynArray, v: Value): (r: Result<DynArray>)
    ensures r.Ok? <==> NumericValue(v).Some? && NumericValue(v).value in a.elems
    ensures r.Err? ==> r.error == ValueError
    ensures r.Ok? ==>
      && r.value.kind == a.kind
      && Length(r.value) == Length(a) - 1
      && multiset(r.value.elems) + multiset{NumericValue(v).value} == multiset(a.elems)
      && exists k :: 0 <= k < Length(a)
           && a.elems[k] == NumericValue(v).value
           && (forall j :: 0 <= j < k ==> a.elems[j] != a.elems[k])
           && r.value.elems == a.elems[..k] + a.elems[k + 1..]
    ensures Valid(a) && r.Ok? ==> Valid(r.value)
  {
    match NumericValue(v)
    case None => Err(ValueError)
    case Some(x) =>
      match FirstIndex(a.elems, x)
      case None => Err(ValueError)
      case Some(k) =>
        SplitAt(a.elems, k);
        assert a.elems[k] == x && forall j :: 0 <= j < k ==> a.elems[j] != a.elems[k];
        Ok(a.(elems := a.elems[..k] + a.elems[k + 1..]))
  }

  /** `a.pop(i)`: removes and returns the element at the strictly resolved
      index, shifting the later elements one slot to the left. */
  function Pop(a: DynArray, i: int): (r: Result<Popped>)
    ensures r.Ok? <==> InBounds(i, Length(a))
    ensures r.Err? ==> r.error == IndexError
    ensures r.Ok? ==>
      var j := Resolve(i, Length(a)).value;
      && r.value.item == a.elems[j]
      && r.value.rest.kind == a.kind
      && Length(r.value.rest) == Length(a) - 1
      && r.value.rest.elems == a.elems[..j] + a.elems[j + 1..]
      && multiset(r.value.rest.elems) + multiset{r.value.item} == multiset(a.elems)
    ensures Valid(a) && r.Ok? ==> Valid(r.value.rest) && Conforms(a.kind, r.value.item)
  {
    match Resolve(i, Length(a))
    case None => Err(IndexError)
    case Some(j) =>
      SplitAt(a.elems, j);
      Ok(Popped(a.elems[j], a.(elems := a.elems[..j] + a.elems[j + 1..])))
  }

  /** The elements of `s` in the opposite order. */
  function Reverse<T>(s: seq<T>): (r: seq<T>)
    ensures |r| == |s|
    ensures forall i :: 0 <= i < |s| ==> r[i] == s[|s| - 1 - i]
  {
    if |s| == 0 then [] else Reverse(s[1..]) + [s[0]]
  }

  /** `a.reversed()`: reverses the array in place. */
  function Reversed(a: DynArray): (r: DynArray)
    ensures r.kind == a.kind
    ensures Length(r) == Length(a)
    ensures forall i :: 0 <= i < Length(a) ==> r.elems[i] == a.elems[Length(a) - 1 - i]
    ensures Valid(a) ==> Valid(r)
  {
    a.(elems := Reverse(a.elems))
  }

  /** The in-place reversal itself: swaps slot `i` with its mirror slot for
      every `i` in the front half, one swap per pair. */
  method ReverseInPlace(a: DynArray) returns (r: DynArray)
    ensures r == Reversed(a)
  {
    var s := a.elems;
    var n := |s|;
    var i := 0;
    while i < n / 2
      invariant 0 <= i <= n / 2
      invariant |s| == n
      invariant forall k :: 0 <= k < i ==> s[k] == a.elems[n - 1 - k] && s[n - 1 - k] == a.elems[k]
      invariant forall k :: i <= k < n - i ==> s[k] == a.elems[k]
    {
      var tmp := s[i];
      s := s[i := s[n - 1 - i]][n - 1 - i := tmp];
      i := i + 1;
    }
    r := a.(elems := s);
    assert r.elems == Reversed(a).elems;
  }

  /** `a == b`: equal lengths and numerically equal elements in order; the
      kind tags are not compared. */
  function Equals(a: DynArray, b: DynArray): (r: bool)
    ensures r <==> Length(a) == Length(b) && forall i :: 0 <= i < Length(a) ==> a.elems[i] == b.elems[i]
  {
    a.elems == b.elems
  }
}
