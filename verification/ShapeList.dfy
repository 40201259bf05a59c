/**
 Lists of shapes on their way from Go to an operation's attribute and back: Go flattens them
 (`graph.go`), a C helper points into the flat run, the C library stores them (`c_api.cc`), reports how
 much storage they need, copies them into that storage behind a moving pointer, and Go cuts them out
 again (`attrs.go`).  A pointer is an offset into the array it points into.
 */
module ShapeList {

  /** A shape of unknown rank, or its dimensions (none for a scalar, -1 for one that is not known). */
  datatype Shape = Unknown | Dims(dims: seq<int>)

  datatype Result<T> = Ok(value: T) | NotEnoughStorage

  function NumDimensions(s: Shape): int {
    if s.Unknown? then -1 else |s.dims|
  }

  function DimsOf(s: Shape): seq<int> {
    if s.Unknown? then [] else s.dims
  }

  /** The dimensions of all shapes, one after the other. */
  function AllDims(shapes: seq<Shape>): seq<int> {
    if shapes == [] then [] else AllDims(shapes[..|shapes| - 1]) + DimsOf(shapes[|shapes| - 1])
  }

  /** Where the dimensions of shape `i` begin. */
  function Offset(shapes: seq<Shape>, i: nat): nat
    requires i <= |shapes|
  {
    |AllDims(shapes[..i])|
  }

  lemma OffsetNext(shapes: seq<Shape>, i: nat)
    requires i < |shapes|
    ensures AllDims(shapes[..i + 1]) == AllDims(shapes[..i]) + DimsOf(shapes[i])
    ensures Offset(shapes, i + 1) == Offset(shapes, i) + |DimsOf(shapes[i])|
  {
    assert shapes[..i + 1][..i] == shapes[..i];
  }

  lemma {:induction false} OffsetsAscend(shapes: seq<Shape>, i: nat, j: nat)
    requires i <= j <= |shapes|
    ensures AllDims(shapes[..i]) <= AllDims(shapes[..j])
    decreases j
  {
    hide AllDims;
    if i < j {
      OffsetNext(shapes, j - 1);
      OffsetsAscend(shapes, i, j - 1);
      PrefixGrows(AllDims(shapes[..i]), AllDims(shapes[..j - 1]), DimsOf(shapes[j - 1]));
    }
  }

  lemma PrefixGrows(a: seq<int>, b: seq<int>, c: seq<int>)
    requires a <= b
    ensures a <= b + c
  {
  }

  /** Each shape has a stretch of the flat run to itself, with its dimensions in it. */
  lemma SliceOfShape(shapes: seq<Shape>, i: nat)
    requires i < |shapes|
    ensures Offset(shapes, i) + |DimsOf(shapes[i])| <= |AllDims(shapes)|
    ensures AllDims(shapes)[Offset(shapes, i)..Offset(shapes, i) + |DimsOf(shapes[i])|] == DimsOf(shapes[i])
    ensures forall j :: i < j < |shapes| ==> Offset(shapes, i) + |DimsOf(shapes[i])| <= Offset(shapes, j)
  {
    hide AllDims, DimsOf;
    OffsetNext(shapes, i);
    OffsetsAscend(shapes, i + 1, |shapes|);
    assert shapes[..|shapes|] == shapes;
    SliceOfPrefix(AllDims(shapes[..i]), DimsOf(shapes[i]), AllDims(shapes));
    forall j | i < j < |shapes| ensures Offset(shapes, i + 1) <= Offset(shapes, j) {
      OffsetsAscend(shapes, i + 1, j);
    }
  }

  lemma SliceOfPrefix(a: seq<int>, b: seq<int>, all: seq<int>)
    requires a + b <= all
    ensures all[|a|..|a| + |b|] == b
  {
    assert all[|a|..|a| + |b|] == (a + b)[|a|..];
  }

  ghost predicate Ranks(shapes: seq<Shape>, ndims: seq<int>) {
    |ndims| == |shapes| && forall i :: 0 <= i < |shapes| ==> ndims[i] == NumDimensions(shapes[i])
  }

  ghost predicate Pointers(shapes: seq<Shape>, dims: seq<int>) {
    |dims| == |shapes| && forall i :: 0 <= i < |shapes| ==> dims[i] == Offset(shapes, i)
  }

  ghost predicate InBounds(flat: seq<int>, dims: seq<int>, numDims: seq<int>) {
    |dims| == |numDims| && forall i :: 0 <= i < |dims| ==> 0 <= dims[i] <= |flat| && dims[i] + numDims[i] <= |flat|
  }

  /** The shape of rank `n` whose dimensions begin at `p`. */
  function ShapeAt(flat: seq<int>, p: int, n: int): Shape
    requires 0 <= p && p + n <= |flat|
  {
    if n < 0 then Unknown else Dims(flat[p..p + n])
  }

  ghost predicate ReadFrom(flat: seq<int>, dims: seq<int>, numDims: seq<int>, shapes: seq<Shape>)
    requires InBounds(flat, dims, numDims)
  {
    |shapes| == |dims| && forall i :: 0 <= i < |shapes| ==> shapes[i] == ShapeAt(flat, dims[i], numDims[i])
  }

  /** Pointers and ranks into the flat run lead back to the shapes. */
  lemma PointersLeadBack(shapes: seq<Shape>, flat: seq<int>, dims: seq<int>, numDims: seq<int>)
    requires AllDims(shapes) <= flat && Pointers(shapes, dims) && Ranks(shapes, numDims)
    ensures InBounds(flat, dims, numDims) && ReadFrom(flat, dims, numDims, shapes)
  {
    hide AllDims;
    forall i | 0 <= i < |shapes|
      ensures 0 <= dims[i] <= |flat| && dims[i] + numDims[i] <= |flat|
      ensures shapes[i] == ShapeAt(flat, dims[i], numDims[i])
    {
      SliceOfShape(shapes, i);
      var p, q := Offset(shapes, i), Offset(shapes, i) + |DimsOf(shapes[i])|;
      assert flat[p..q] == AllDims(shapes)[p..q];
    }
  }

  lemma ReadIsUnique(flat: seq<int>, dims: seq<int>, numDims: seq<int>, a: seq<Shape>, b: seq<Shape>)
    requires InBounds(flat, dims, numDims) && ReadFrom(flat, dims, numDims, a) && ReadFrom(flat, dims, numDims, b)
    ensures a == b
  {
  }

  // ---------------------------------------------------------------- from Go to the attribute

  /** The loops that flatten the list. */
  method FlattenShapes(value: seq<Shape>) returns (flatDims: seq<int>, ndims: array<int>)
    ensures flatDims == AllDims(value)
    ensures fresh(ndims) && Ranks(value, ndims[..])
    ensures ndims.Length == |value| && forall i :: 0 <= i < |value| ==>
              (value[i].Unknown? ==> ndims[i] == -1) && (value[i].Dims? ==> ndims[i] == |value[i].dims|)
  {
    flatDims := [];
    ndims := new int[|value|];
    for i := 0 to |value|
      invariant flatDims == AllDims(value[..i])
      invariant forall k :: 0 <= k < i ==> ndims[k] == NumDimensions(value[k])
    {
      ndims[i] := NumDimensions(value[i]);
      var dims := DimsOf(value[i]);
      ghost var before := flatDims;
      for j := 0 to |dims|
        invariant flatDims == before + dims[..j]
      {
        flatDims := flatDims + [dims[j]];
      }
      OffsetNext(value, i);
    }
    assert value[..|value|] == value;
  }

  /** The C helper: one pointer for each shape. */
  method PointersToShapes(ndims: array<int>, ghost value: seq<Shape>) returns (dims: array<int>)
    requires Ranks(value, ndims[..])
    ensures fresh(dims) && Pointers(value, dims[..])
  {
    dims := new int[ndims.Length];
    var p := 0;
    assert ndims.Length == |value|;
    for i := 0 to ndims.Length
      invariant p == Offset(value, i)
      invariant forall k :: 0 <= k < i ==> dims[k] == Offset(value, k)
    {
      dims[i] := p;
      assert ndims[i] == ndims[..][i] == NumDimensions(value[i]);
      OffsetNext(value, i);
      if ndims[i] > 0 {
        p := p + ndims[i];
      }
    }
  }

  /** The C library reads every shape from where its pointer points. */
  method SetAttrShapeList(flat: seq<int>, dims: array<int>, numDims: array<int>) returns (shapes: seq<Shape>)
    requires InBounds(flat, dims[..], numDims[..])
    ensures ReadFrom(flat, dims[..], numDims[..], shapes)
  {
    shapes := [];
    for i := 0 to numDims.Length
      invariant |shapes| == i <= dims.Length
      invariant forall k :: 0 <= k < i ==> shapes[k] == ShapeAt(flat, dims[..][k], numDims[..][k])
    {
      assert dims[i] == dims[..][i] && numDims[i] == numDims[..][i];
      if numDims[i] < 0 {
        shapes := shapes + [Unknown];
      } else {
        shapes := shapes + [Dims(flat[dims[i]..dims[i] + numDims[i]])];
      }
    }
  }

  /** Setting the attribute stores the list that was given. */
  method SetAttr(value: seq<Shape>) returns (shapes: seq<Shape>)
    ensures shapes == value
  {
    hide AllDims, Pointers, Ranks, InBounds, ReadFrom;
    if |value| == 0 {
      return [];
    }
    var flatDims, ndims := FlattenShapes(value);
    var dims := PointersToShapes(ndims, value);
    PointersLeadBack(value, flatDims, dims[..], ndims[..]);
    shapes := SetAttrShapeList(flatDims, dims, ndims);
    ReadIsUnique(flatDims, dims[..], ndims[..], shapes, value);
  }

  // ---------------------------------------------------------------- from the attribute to Go

  /** What the metadata say about the list. */
  method ListMetadata(shapes: seq<Shape>) returns (listSize: nat, totalSize: int)
    ensures listSize == |shapes|
    ensures totalSize == if shapes == [] then -1 else |AllDims(shapes)|
  {
    if |shapes| == 0 {
      return 0, -1;
    }
    listSize, totalSize := |shapes|, 0;
    for i := 0 to |shapes|
      invariant totalSize == Offset(shapes, i)
    {
      OffsetNext(shapes, i);
      totalSize := totalSize + if shapes[i].Unknown? then 0 else |shapes[i].dims|;
    }
    assert shapes[..|shapes|] == shapes;
  }

  /** Copies one shape to where the pointer stands. */
  method CopyDims(s: Shape, storage: array<int>, p: nat)
    requires s.Dims? && p + |s.dims| <= storage.Length
    modifies storage
    ensures storage[..] == old(storage[..p]) + s.dims + old(storage[p + |s.dims|..])
  {
    for j := 0 to |s.dims|
      invariant storage[..p] == old(storage[..p])
      invariant storage[p..p + j] == s.dims[..j]
      invariant storage[p + j..] == old(storage[p + j..])
    {
      storage[p + j] := s.dims[j];
    }
    var q := p + |s.dims|;
    assert storage[..] == storage[..p] + storage[p..q] + storage[q..];
  }

  /** The state of the copying loop before shape `i`. */
  ghost predicate Copied(
    shapes: seq<Shape>, i: nat, dims: seq<int>, numDims: seq<int>, storage: seq<int>, was: seq<int>)
    requires i <= |shapes|
  {
    && i <= |dims| && i <= |numDims| && |storage| == |was| && Offset(shapes, i) <= |storage|
    && (forall k :: 0 <= k < i ==> dims[k] == Offset(shapes, k) && numDims[k] == NumDimensions(shapes[k]))
    && storage == AllDims(shapes[..i]) + was[Offset(shapes, i)..]
  }

  lemma CopiedNone(shapes: seq<Shape>, dims: seq<int>, numDims: seq<int>, storage: seq<int>)
    ensures Offset(shapes, 0) == 0 && Copied(shapes, 0, dims, numDims, storage, storage)
  {
    assert shapes[..0] == [];
  }

  lemma CopiedNext(shapes: seq<Shape>, i: nat, dims: seq<int>, numDims: seq<int>, storage: seq<int>, was: seq<int>,
                   dims': seq<int>, numDims': seq<int>, storage': seq<int>)
    requires i < |shapes| && Copied(shapes, i, dims, numDims, storage, was) && i < |dims| && i < |numDims|
    requires dims' == dims[i := Offset(shapes, i)] && numDims' == numDims[i := NumDimensions(shapes[i])]
    requires Offset(shapes, i) + |DimsOf(shapes[i])| <= |storage|
    requires storage' ==
               storage[..Offset(shapes, i)] + DimsOf(shapes[i]) + storage[Offset(shapes, i) + |DimsOf(shapes[i])|..]
    ensures Copied(shapes, i + 1, dims', numDims', storage', was)
  {
    OffsetNext(shapes, i);
    var p, q := Offset(shapes, i), Offset(shapes, i + 1);
    assert storage[..p] == AllDims(shapes[..i]);
    assert storage[q..] == was[q..];
  }

  /** One round of the loop: `p` is the moving pointer, `left` the storage behind it. */
  method CopyShape(shapes: seq<Shape>, i: nat, dims: array<int>, numDims: array<int>, storage: array<int>,
                   p: nat, left: nat, ghost was: seq<int>) returns (ok: bool, p': nat, left': nat)
    requires dims != numDims && dims != storage && numDims != storage
    requires i < |shapes| && i < dims.Length && i < numDims.Length
    requires p == Offset(shapes, i) && p + left <= storage.Length
    requires Copied(shapes, i, dims[..], numDims[..], storage[..], was)
    modifies dims, numDims, storage
    ensures ok <==> |DimsOf(shapes[i])| <= left
    ensures ok ==> p' == Offset(shapes, i + 1) && p' + left' == p + left
    ensures ok ==> Copied(shapes, i + 1, dims[..], numDims[..], storage[..], was)
  {
    hide Copied, Offset;
    ghost var dims0, numDims0, storage0 := dims[..], numDims[..], storage[..];
    OffsetNext(shapes, i);
    var n := NumDimensions(shapes[i]);
    numDims[i] := n;
    dims[i] := p;
    assert dims[..] == dims0[i := p] && numDims[..] == numDims0[i := n];
    ok, p', left' := true, p, left;
    if n >= 0 {
      if left < n {
        return false, p, left;
      }
      left' := left - n;
      CopyDims(shapes[i], storage, p);
      p' := p + n;
    }
    assert storage[..] == storage0[..p] + DimsOf(shapes[i]) + storage0[p + |DimsOf(shapes[i])|..];
    CopiedNext(shapes, i, dims0, numDims0, storage0, was, dims[..], numDims[..], storage[..]);
  }

  /**
   Copies the first `numShapes` shapes, or fails: exactly when their dimensions do not fit into
   `storageSize`, and never by writing outside the storage.
   */
  method GetAttrShapeList(shapes: seq<Shape>, dims: array<int>, numDims: array<int>, numShapes: nat,
                          storage: array<int>, storageSize: nat) returns (ok: bool)
    requires dims != numDims && dims != storage && numDims != storage
    requires numShapes <= dims.Length && numShapes <= numDims.Length && storageSize <= storage.Length
    modifies dims, numDims, storage
    ensures var len := if |shapes| < numShapes then |shapes| else numShapes;
            && (ok <==> Offset(shapes, len) <= storageSize)
            && (ok ==> Copied(shapes, len, dims[..], numDims[..], storage[..], old(storage[..])))
  {
    hide Copied, AllDims;
    var len := if |shapes| < numShapes then |shapes| else numShapes;
    var p: nat, storageLeft: nat := 0, storageSize;
    CopiedNone(shapes, dims[..], numDims[..], storage[..]);
    for i := 0 to len
      invariant p == Offset(shapes, i) && p + storageLeft == storageSize
      invariant Copied(shapes, i, dims[..], numDims[..], storage[..], old(storage[..]))
    {
      var enough;
      enough, p, storageLeft := CopyShape(shapes, i, dims, numDims, storage, p, storageLeft, old(storage[..]));
      OffsetNext(shapes, i);
      if !enough {
        OffsetsAscend(shapes, i + 1, len);
        return false;
      }
    }
    return true;
  }

  lemma CopiedAll(shapes: seq<Shape>, dims: seq<int>, numDims: seq<int>, storage: seq<int>, was: seq<int>)
    requires Copied(shapes, |shapes|, dims, numDims, storage, was) && |dims| == |numDims| == |shapes|
    ensures AllDims(shapes) <= storage && Pointers(shapes, dims) && Ranks(shapes, numDims)
  {
    assert shapes[..|shapes|] == shapes;
  }

  /** Cuts the shapes out of the storage (`makeCShape`). */
  method MakeShapes(storage: array<int>, dims: array<int>, numDims: array<int>) returns (list: seq<Shape>)
    requires InBounds(storage[..], dims[..], numDims[..])
    ensures ReadFrom(storage[..], dims[..], numDims[..], list)
  {
    ghost var flat := storage[..];
    list := [];
    for i := 0 to numDims.Length
      invariant |list| == i <= dims.Length
      invariant forall k :: 0 <= k < i ==> list[k] == ShapeAt(flat, dims[..][k], numDims[..][k])
    {
      assert dims[i] == dims[..][i] && numDims[i] == numDims[..][i];
      if numDims[i] < 0 {
        list := list + [Unknown];
      } else {
        list := list + [Dims(storage[dims[i]..dims[i] + numDims[i]])];
      }
    }
  }

  /** Reading the attribute with storage sized by the metadata never fails and returns the list. */
  method ListAttribute(shapes: seq<Shape>) returns (r: Result<seq<Shape>>)
    ensures r == Ok(shapes)
  {
    hide AllDims, Pointers, Ranks, InBounds, ReadFrom, Copied;
    var listSize, totalSize := ListMetadata(shapes);
    if listSize == 0 {
      return Ok([]);
    }
    var dims := new int[listSize];
    var numDims := new int[listSize];
    var storage := new int[totalSize + 1];
    ghost var was := storage[..];
    assert shapes[..|shapes|] == shapes;
    var ok := GetAttrShapeList(shapes, dims, numDims, listSize, storage, totalSize);
    if !ok {
      return NotEnoughStorage;
    }
    CopiedAll(shapes, dims[..], numDims[..], storage[..], was);
    PointersLeadBack(shapes, storage[..], dims[..], numDims[..]);
    var list := MakeShapes(storage, dims, numDims);
    ReadIsUnique(storage[..], dims[..], numDims[..], list, shapes);
    return Ok(list);
  }

  /** A list of shapes that is set on an operation is the list that is read from it. */
  method RoundTrip(value: seq<Shape>) returns (r: Result<seq<Shape>>)
    ensures r == Ok(value)
  {
    var shapes := SetAttr(value);
    r := ListAttribute(shapes);
  }
}
