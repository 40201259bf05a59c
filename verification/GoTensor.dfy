/**
 Go tensors (`tensor.go`): `NewTensor` turns nested slices and arrays into a shape and a flat run of
 bytes; `Value` turns them back into nested slices.  An element is a block of `size` bytes; for a string
 that block is its `TF_TString`.
 */
module GoTensor {
  import opened Common

  type Byte = x: int | 0 <= x < 256

  type Block = seq<Byte>

  /** Strings are written one by one; types outside the table of data types are refused. */
  datatype ElementKind = Numeric | Text | Unsupported

  /** The Go type of a value. */
  datatype Type = Element(kind: ElementKind) | SliceOf(inner: Type) | ArrayOf(length: nat, inner: Type)

  /** A Go value: an element, or the elements of a slice or an array. */
  datatype Value = Leaf(block: Block) | List(elems: seq<Value>)

  datatype Error = MismatchedLengths | UnsupportedType | WrongSize

  datatype Result<T> = Ok(value: T) | Err(error: Error)

  datatype Tensor = Tensor(shape: seq<nat>, data: seq<Byte>)

  predicate HasType(v: Value, t: Type, size: nat)
    decreases v
  {
    match t
    case Element(_) => v.Leaf? && |v.block| == size
    case SliceOf(inner) => v.List? && forall e :: e in v.elems ==> HasType(e, inner, size)
    case ArrayOf(n, inner) => v.List? && |v.elems| == n && forall e :: e in v.elems ==> HasType(e, inner, size)
  }

  function Rank(t: Type): nat {
    if t.Element? then 0 else 1 + Rank(t.inner)
  }

  function ElementOf(t: Type): ElementKind {
    if t.Element? then t.kind else ElementOf(t.inner)
  }

  /** The elements in order. */
  function Leaves(v: Value): seq<Block>
    decreases v
  {
    if v.Leaf? then [v.block] else AllLeaves(v.elems)
  }

  function AllLeaves(vs: seq<Value>): seq<Block>
    decreases vs
  {
    if vs == [] then [] else AllLeaves(vs[..|vs| - 1]) + Leaves(vs[|vs| - 1])
  }

  function Join(blocks: seq<Block>): seq<Byte> {
    if blocks == [] then [] else Join(blocks[..|blocks| - 1]) + blocks[|blocks| - 1]
  }

  function Product(shape: seq<nat>): nat {
    if shape == [] then 1 else Product(shape[..|shape| - 1]) * shape[|shape| - 1]
  }

  /** The value has this shape: at each depth everything has the same length. */
  predicate Conforms(v: Value, shape: seq<nat>)
    decreases v
  {
    if shape == [] then v.Leaf?
    else v.List? && |v.elems| == shape[0] && forall e :: e in v.elems ==> Conforms(e, shape[1..])
  }

  ghost predicate Rectangular(v: Value, t: Type) {
    exists shape :: |shape| == Rank(t) && Conforms(v, shape)
  }

  // ---------------------------------------------------------------- the shape

  /** A value of the type, or the empty list that stands in for one below an empty dimension. */
  predicate HasTypeOrEmpty(v: Value, t: Type, size: nat) {
    HasType(v, t, size) || v == List([])
  }

  /** The lengths along the path of first elements; an empty list leaves only zeros. */
  function FirstShape(v: Value, t: Type, size: nat): (shape: seq<nat>)
    requires HasTypeOrEmpty(v, t, size)
    ensures |shape| == Rank(t)
    decreases t
  {
    if t.Element? then []
    else if |v.elems| > 0 then [|v.elems|] + FirstShape(v.elems[0], t.inner, size)
    else [0] + FirstShape(v, t.inner, size)
  }

  predicate SameLengths(vs: seq<Value>) {
    forall i :: 0 <= i < |vs| ==> vs[0].List? && vs[i].List? && |vs[i].elems| == |vs[0].elems|
  }

  /** Along that path, slices next to each other have the same length. */
  predicate PathAgrees(v: Value, t: Type, size: nat)
    requires HasTypeOrEmpty(v, t, size)
    decreases t
  {
    if t.Element? then true
    else if |v.elems| > 0 then (t.inner.SliceOf? ==> SameLengths(v.elems)) && PathAgrees(v.elems[0], t.inner, size)
    else PathAgrees(v, t.inner, size)
  }

  method LengthsAgree(vs: seq<Value>) returns (same: bool)
    requires |vs| > 0 && forall v :: v in vs ==> v.List?
    ensures same <==> SameLengths(vs)
  {
    var expected := |vs[0].elems|;
    for i := 1 to |vs|
      invariant forall j :: 0 <= j < i ==> |vs[j].elems| == expected
    {
      if |vs[i].elems| != expected {
        return false;
      }
    }
    return true;
  }

  /** One dimension of the walk. */
  lemma WalkStep(v: Value, t: Type, size: nat)
    requires HasTypeOrEmpty(v, t, size) && !t.Element?
    ensures v.List? && (t.inner.SliceOf? ==> forall e :: e in v.elems ==> e.List?)
    ensures v.elems == [] ==>
              && HasTypeOrEmpty(v, t.inner, size)
              && FirstShape(v, t, size) == [0] + FirstShape(v, t.inner, size)
              && (PathAgrees(v, t, size) <==> PathAgrees(v, t.inner, size))
    ensures v.elems != [] ==>
              && HasTypeOrEmpty(v.elems[0], t.inner, size)
              && FirstShape(v, t, size) == [|v.elems|] + FirstShape(v.elems[0], t.inner, size)
              && (PathAgrees(v, t, size) <==>
                  (t.inner.SliceOf? ==> SameLengths(v.elems)) && PathAgrees(v.elems[0], t.inner, size))
  {
    assert forall e :: e in v.elems ==> HasType(e, t.inner, size);
  }

  /** What is left of the walk after the dimensions in `shape`. */
  ghost predicate Walked(v: Value, t: Type, size: nat, val: Value, typ: Type, shape: seq<nat>) {
    && HasTypeOrEmpty(v, t, size) && HasTypeOrEmpty(val, typ, size)
    && FirstShape(v, t, size) == shape + FirstShape(val, typ, size)
    && (PathAgrees(v, t, size) <==> PathAgrees(val, typ, size))
    && ElementOf(t) == ElementOf(typ)
  }

  lemma WalkOn(v: Value, t: Type, size: nat, val: Value, typ: Type, shape: seq<nat>)
    requires Walked(v, t, size, val, typ, shape) && !typ.Element?
    ensures val.List? && (typ.inner.SliceOf? ==> forall e :: e in val.elems ==> e.List?)
    ensures val.elems == [] ==> Walked(v, t, size, val, typ.inner, shape + [0])
    ensures val.elems != [] && (typ.inner.SliceOf? ==> SameLengths(val.elems)) ==>
              Walked(v, t, size, val.elems[0], typ.inner, shape + [|val.elems|])
    ensures val.elems != [] && typ.inner.SliceOf? && !SameLengths(val.elems) ==> !PathAgrees(v, t, size)
  {
    hide HasTypeOrEmpty, FirstShape, PathAgrees, SameLengths;
    WalkStep(val, typ, size);
    if val.elems == [] {
      assert (shape + [0]) + FirstShape(val, typ.inner, size) == shape + ([0] + FirstShape(val, typ.inner, size));
    } else {
      var rest := FirstShape(val.elems[0], typ.inner, size);
      assert (shape + [|val.elems|]) + rest == shape + ([|val.elems|] + rest);
    }
  }

  lemma WalkEnds(v: Value, t: Type, size: nat, val: Value, typ: Type, shape: seq<nat>)
    requires Walked(v, t, size, val, typ, shape) && typ.Element?
    ensures FirstShape(v, t, size) == shape && PathAgrees(v, t, size) && ElementOf(t) == typ.kind
  {
    assert shape + [] == shape;
  }

  method ShapeOf(v: Value, t: Type, size: nat) returns (r: Result<seq<nat>>)
    requires HasType(v, t, size)
    ensures r == if !PathAgrees(v, t, size) then Err(MismatchedLengths)
                 else if ElementOf(t) == Unsupported then Err(UnsupportedType)
                 else Ok(FirstShape(v, t, size))
  {
    hide HasType, SameLengths, FirstShape, PathAgrees;
    var val, typ := v, t;
    var shape: seq<nat> := [];
    while !typ.Element?
      invariant Walked(v, t, size, val, typ, shape)
      decreases typ
    {
      hide Walked;
      WalkOn(v, t, size, val, typ, shape);
      shape := shape + [|val.elems|];
      if |val.elems| > 0 {
        if typ.inner.SliceOf? {
          var same := LengthsAgree(val.elems);
          if !same {
            return Err(MismatchedLengths);
          }
        }
        val := val.elems[0];
      }
      typ := typ.inner;
    }
    WalkEnds(v, t, size, val, typ, shape);
    if typ.kind == Unsupported {
      return Err(UnsupportedType);
    }
    return Ok(shape);
  }

  /** If two values have a common shape, the second also has the shape read off the first. */
  lemma {:induction false} ShapeIsShared(a: Value, b: Value, t: Type, size: nat, shape: seq<nat>)
    requires HasTypeOrEmpty(a, t, size) && |shape| == Rank(t) && Conforms(a, shape) && Conforms(b, shape)
    ensures Conforms(b, FirstShape(a, t, size))
    decreases t
  {
    if !t.Element? {
      var first := FirstShape(a, t, size);
      if |a.elems| > 0 {
        forall e | e in b.elems ensures Conforms(e, first[1..]) {
          ShapeIsShared(a.elems[0], e, t.inner, size, shape[1..]);
        }
      }
    }
  }

  /** A rectangular value passes the check of slice lengths. */
  lemma {:induction false} RectangularAgrees(v: Value, t: Type, size: nat, shape: seq<nat>)
    requires HasTypeOrEmpty(v, t, size) && |shape| == Rank(t) && Conforms(v, shape)
    ensures PathAgrees(v, t, size)
    decreases t
  {
    if !t.Element? {
      if |v.elems| > 0 {
        assert v.elems[0] in v.elems;
        RectangularAgrees(v.elems[0], t.inner, size, shape[1..]);
        if t.inner.SliceOf? {
          forall i | 0 <= i < |v.elems| ensures v.elems[i].List? && |v.elems[i].elems| == |v.elems[0].elems| {
            assert v.elems[i] in v.elems;
          }
        }
      } else {
        EmptyAgrees(v, t.inner, size);
      }
    }
  }

  lemma {:induction false} EmptyAgrees(v: Value, t: Type, size: nat)
    requires v == List([])
    ensures PathAgrees(v, t, size)
    decreases t
  {
    if !t.Element? { EmptyAgrees(v, t.inner, size); }
  }

  /** A value is rectangular exactly when it has the shape of its first elements. */
  lemma RectangularIffFirstShape(v: Value, t: Type, size: nat)
    requires HasType(v, t, size)
    ensures Rectangular(v, t) <==> Conforms(v, FirstShape(v, t, size))
    ensures Rectangular(v, t) ==> PathAgrees(v, t, size)
  {
    if Rectangular(v, t) {
      var shape :| |shape| == Rank(t) && Conforms(v, shape);
      ShapeIsShared(v, v, t, size, shape);
      RectangularAgrees(v, t, size, shape);
    }
  }

  /** Below an empty dimension all dimensions are zero. */
  lemma {:induction false} ZerosBelowEmpty(v: Value, t: Type, size: nat, i: nat, j: nat)
    requires HasTypeOrEmpty(v, t, size) && i < j < Rank(t) && FirstShape(v, t, size)[i] == 0
    ensures FirstShape(v, t, size)[j] == 0
    decreases t
  {
    hide HasTypeOrEmpty;
    WalkStep(v, t, size);
    var rest := if v.elems == [] then v else v.elems[0];
    if i > 0 {
      ZerosBelowEmpty(rest, t.inner, size, i - 1, j - 1);
    } else {
      EmptyHasZeros(t.inner, size, j - 1);
    }
  }

  lemma {:induction false} EmptyHasZeros(t: Type, size: nat, j: nat)
    requires j < Rank(t)
    ensures FirstShape(List([]), t, size)[j] == 0
    decreases t
  {
    if j > 0 { EmptyHasZeros(t.inner, size, j - 1); }
  }

  /** What stands `depth` steps down the path of first elements. */
  function FirstAt(v: Value, depth: nat): Value {
    if depth == 0 || v.Leaf? || v.elems == [] then v else FirstAt(v.elems[0], depth - 1)
  }

  function TypeAt(t: Type, depth: nat): Type {
    if depth == 0 || t.Element? then t else TypeAt(t.inner, depth - 1)
  }

  /** Below the list at this depth of the path stand two slices of different lengths. */
  ghost predicate LengthsDiffer(v: Value, t: Type, depth: nat) {
    && TypeAt(t, depth + 1).SliceOf?
    && var l := FirstAt(v, depth);
       && l.List?
       && exists a, b :: a in l.elems && b in l.elems && a.List? && b.List? && |a.elems| != |b.elems|
  }

  lemma SameLengthsIff(vs: seq<Value>)
    requires forall e :: e in vs ==> e.List?
    ensures SameLengths(vs) <==> !exists a, b :: a in vs && b in vs && a.List? && b.List? && |a.elems| != |b.elems|
  {
    if i :| 0 <= i < |vs| && |vs[i].elems| != |vs[0].elems| {
      assert vs[i] in vs && vs[0] in vs;
    }
  }

  lemma DifferAtFirst(v: Value, t: Type, size: nat)
    requires HasTypeOrEmpty(v, t, size) && !t.Element?
    ensures v.List? && (LengthsDiffer(v, t, 0) <==> t.inner.SliceOf? && !SameLengths(v.elems))
  {
    WalkStep(v, t, size);
    assert TypeAt(t, 0 + 1) == t.inner;
    if t.inner.SliceOf? { SameLengthsIff(v.elems); }
  }

  lemma DifferBelow(v: Value, t: Type, depth: nat)
    requires v.List? && v.elems != [] && !t.Element?
    ensures LengthsDiffer(v, t, depth + 1) <==> LengthsDiffer(v.elems[0], t.inner, depth)
  {
    assert TypeAt(t, depth + 1 + 1) == TypeAt(t.inner, depth + 1);
    assert FirstAt(v, depth + 1) == FirstAt(v.elems[0], depth);
  }

  lemma NothingDiffers(v: Value, t: Type, depth: nat)
    requires v == List([]) || t.Element?
    ensures !LengthsDiffer(v, t, depth)
  {
  }

  /** The walk finds a mismatch exactly if there is one at some depth of the path of first elements. */
  lemma {:induction false} PathAgreesIff(v: Value, t: Type, size: nat)
    requires HasTypeOrEmpty(v, t, size)
    ensures PathAgrees(v, t, size) <==> forall d: nat :: !LengthsDiffer(v, t, d)
    decreases t
  {
    hide HasTypeOrEmpty, SameLengths, LengthsDiffer;
    forall d: nat ensures v == List([]) || t.Element? ==> !LengthsDiffer(v, t, d) {
      if v == List([]) || t.Element? { NothingDiffers(v, t, d); }
    }
    if !t.Element? {
      WalkStep(v, t, size);
      if v.elems == [] {
        PathAgreesIff(v, t.inner, size);
        forall d: nat ensures !LengthsDiffer(v, t.inner, d) { NothingDiffers(v, t.inner, d); }
      } else {
        PathAgreesIff(v.elems[0], t.inner, size);
        DifferAtFirst(v, t, size);
        forall d: nat | LengthsDiffer(v.elems[0], t.inner, d) ensures LengthsDiffer(v, t, d + 1) {
          DifferBelow(v, t, d);
        }
        forall d: nat | d > 0 && LengthsDiffer(v, t, d) ensures LengthsDiffer(v.elems[0], t.inner, d - 1) {
          DifferBelow(v, t, d - 1);
        }
      }
    }
  }

  method NumElements(shape: seq<nat>) returns (n: nat)
    ensures n == Product(shape)
  {
    n := 1;
    for i := 0 to |shape|
      invariant n == Product(shape[..i])
    {
      assert shape[..i + 1][..i] == shape[..i];
      n := n * shape[i];
    }
    assert shape[..|shape|] == shape;
  }

  // ---------------------------------------------------------------- encoding

  /** `bytes.Buffer`. */
  class Buffer {
    var bytes: seq<Byte>

    constructor ()
      ensures bytes == []
    {
      bytes := [];
    }
  }

  /** Where the shape does not end in an empty dimension, arrays have the length it says. */
  predicate Fits(t: Type, shape: seq<nat>)
    decreases t
  {
    if t.Element? then shape == []
    else
      && shape != [] && |shape| == Rank(t)
      && (t.ArrayOf? ==> shape[0] == t.length)
      && (shape[0] > 0 ==> Fits(t.inner, shape[1..]))
  }

  lemma {:induction false} FirstShapeFits(v: Value, t: Type, size: nat)
    requires HasType(v, t, size)
    ensures Fits(t, FirstShape(v, t, size))
    decreases t
  {
    if !t.Element? && |v.elems| > 0 {
      assert v.elems[0] in v.elems;
      FirstShapeFits(v.elems[0], t.inner, size);
      assert FirstShape(v, t, size)[1..] == FirstShape(v.elems[0], t.inner, size);
    }
  }

  lemma Regroup<T>(a: seq<T>, b: seq<T>, c: seq<T>)
    ensures (a + b) + c == a + (b + c)
  {
  }

  lemma JoinSnoc(a: seq<Block>, b: Block)
    ensures Join(a + [b]) == Join(a) + b
  {
    assert (a + [b])[..|a|] == a;
  }

  lemma {:induction false} JoinAppend(a: seq<Block>, b: seq<Block>)
    ensures Join(a + b) == Join(a) + Join(b)
  {
    if b == [] {
      assert a + b == a;
    } else {
      hide Join;
      var k := |b| - 1;
      JoinAppend(a, b[..k]);
      LastApart(a, b);
      JoinSnoc(a + b[..k], b[k]);
      JoinSnoc(b[..k], b[k]);
      Regroup(Join(a), Join(b[..k]), b[k]);
    }
  }

  lemma LeavesOfPrefix(vs: seq<Value>, i: nat)
    requires i < |vs|
    ensures AllLeaves(vs[..i + 1]) == AllLeaves(vs[..i]) + Leaves(vs[i])
    ensures Join(AllLeaves(vs[..i + 1])) == Join(AllLeaves(vs[..i])) + Join(Leaves(vs[i]))
  {
    assert vs[..i + 1][..i] == vs[..i];
    JoinAppend(AllLeaves(vs[..i]), Leaves(vs[i]));
  }

  lemma ConformsIff(v: Value, shape: seq<nat>)
    requires shape != [] && v.List?
    ensures Conforms(v, shape) <==>
              |v.elems| == shape[0] && forall k :: 0 <= k < |v.elems| ==> Conforms(v.elems[k], shape[1..])
  {
    assert forall k :: 0 <= k < |v.elems| ==> v.elems[k] in v.elems;
  }

  /** What the type guarantees to the encoder; only the lengths of slices are left to check. */
  lemma TypeGuarantees(v: Value, t: Type, shape: seq<nat>, size: nat)
    requires HasType(v, t, size) && !t.Element? && Fits(t, shape)
    ensures v.List? && shape != [] && (t.ArrayOf? ==> |v.elems| == shape[0])
    ensures |v.elems| == shape[0] && |shape| == 1 ==> Conforms(v, shape)
    ensures |v.elems| == shape[0] && (|shape| != 1 || ElementOf(t) == Text) ==> forall k :: 0 <= k < |v.elems| ==>
              && HasType(v.elems[k], t.inner, size) && (t.inner.Element? ==> t.inner.kind == Text)
              && Fits(t.inner, shape[1..])
  {
    assert forall k :: 0 <= k < |v.elems| ==> v.elems[k] in v.elems;
    if shape[0] > 0 {
      assert Fits(t.inner, shape[1..]);
      assert t.inner.Element? ==> |shape| == 1 && ElementOf(t) == t.inner.kind;
    }
  }

  /** The first `i` values have been written and conform. */
  ghost predicate Written(start: seq<Byte>, now: seq<Byte>, vs: seq<Value>, i: nat, n: nat, shape: seq<nat>)
    requires i <= |vs|
  {
    && now == start + Join(AllLeaves(vs[..i])) && n == |Join(AllLeaves(vs[..i]))|
    && (forall k :: 0 <= k < i ==> Conforms(vs[k], shape))
  }

  lemma WrittenNext(start: seq<Byte>, now: seq<Byte>, vs: seq<Value>, i: nat, n: nat, shape: seq<nat>)
    requires i < |vs| && Written(start, now, vs, i, n, shape) && Conforms(vs[i], shape)
    ensures Written(start, now + Join(Leaves(vs[i])), vs, i + 1, n + |Join(Leaves(vs[i]))|, shape)
  {
    hide Conforms, Join, AllLeaves, Leaves;
    LeavesOfPrefix(vs, i);
  }

  lemma WrittenAll(start: seq<Byte>, now: seq<Byte>, v: Value, n: nat, shape: seq<nat>)
    requires v.List? && shape != [] && |v.elems| == shape[0] && Written(start, now, v.elems, |v.elems|, n, shape[1..])
    ensures Conforms(v, shape) && now == start + Join(Leaves(v)) && n == |Join(Leaves(v))|
  {
    ConformsIff(v, shape);
    assert v.elems[..|v.elems|] == v.elems;
  }

  /** Writes the elements of `v`, unless a slice has a length other than that of the shape. */
  method Encode(w: Buffer, v: Value, t: Type, shape: seq<nat>, size: nat) returns (r: Result<nat>)
    requires HasType(v, t, size) && Fits(t, shape) && ElementOf(t) != Unsupported && (t.Element? ==> t.kind == Text)
    modifies w
    ensures r.Ok? <==> Conforms(v, shape)
    ensures r.Ok? ==> w.bytes == old(w.bytes) + Join(Leaves(v)) && r.value == |Join(Leaves(v))|
    ensures r.Err? ==> r.error == MismatchedLengths && old(w.bytes) <= w.bytes
    decreases t
  {
    hide HasType, Fits, Conforms, Join, Leaves, AllLeaves, Written;
    if t.Element? {
      StringWrites(v, t, shape, size);
      w.bytes := w.bytes + v.block;
      return Ok(|v.block|);
    }
    TypeGuarantees(v, t, shape, size);
    ConformsIff(v, shape);
    if t.SliceOf? {
      var expected := shape[0];
      if |v.elems| != expected {
        return Err(MismatchedLengths);
      }
    }
    if |shape| == 1 && |v.elems| > 0 && ElementOf(t) != Text {
      w.bytes := w.bytes + Join(Leaves(v));
      return Ok(|Join(Leaves(v))|);
    }
    var n: nat := 0;
    var subShape := shape[1..];
    WrittenNone(w.bytes, v.elems, subShape);
    for i := 0 to |v.elems|
      invariant Written(old(w.bytes), w.bytes, v.elems, i, n, subShape)
    {
      WrittenExtends(old(w.bytes), w.bytes, v.elems, i, n, subShape);
      WrittenNextIf(old(w.bytes), w.bytes, v.elems, i, n, subShape);
      var j := Encode(w, v.elems[i], t.inner, subShape, size);
      if j.Err? {
        return j;
      }
      n := n + j.value;
    }
    WrittenAll(old(w.bytes), w.bytes, v, n, shape);
    return Ok(n);
  }

  lemma StringWrites(v: Value, t: Type, shape: seq<nat>, size: nat)
    requires HasType(v, t, size) && t.Element? && Fits(t, shape)
    ensures v.Leaf? && Conforms(v, shape) && Join(Leaves(v)) == v.block
  {
    assert Leaves(v) == [v.block];
  }

  lemma WrittenNone(start: seq<Byte>, vs: seq<Value>, shape: seq<nat>)
    ensures Written(start, start, vs, 0, 0, shape)
  {
  }

  lemma WrittenExtends(start: seq<Byte>, now: seq<Byte>, vs: seq<Value>, i: nat, n: nat, shape: seq<nat>)
    requires i <= |vs| && Written(start, now, vs, i, n, shape)
    ensures start <= now
  {
  }

  lemma WrittenNextIf(start: seq<Byte>, now: seq<Byte>, vs: seq<Value>, i: nat, n: nat, shape: seq<nat>)
    requires i < |vs| && Written(start, now, vs, i, n, shape)
    ensures Conforms(vs[i], shape) ==>
              Written(start, now + Join(Leaves(vs[i])), vs, i + 1, n + |Join(Leaves(vs[i]))|, shape)
  {
    if Conforms(vs[i], shape) { WrittenNext(start, now, vs, i, n, shape); }
  }

  predicate IsAllArray(t: Type) {
    match t
    case Element(kind) => kind != Text
    case SliceOf(_) => false
    case ArrayOf(_, inner) => IsAllArray(inner)
  }

  /** The lengths that an all-array type fixes. */
  function ArrayShape(t: Type): (shape: seq<nat>)
    requires IsAllArray(t)
    ensures |shape| == Rank(t)
  {
    if t.Element? then [] else [t.length] + ArrayShape(t.inner)
  }

  lemma {:induction false} ArraysConform(v: Value, t: Type, size: nat)
    requires HasType(v, t, size) && IsAllArray(t)
    ensures Conforms(v, ArrayShape(t))
    decreases t
  {
    if !t.Element? {
      forall e | e in v.elems ensures Conforms(e, ArrayShape(t)[1..]) {
        ArraysConform(e, t.inner, size);
      }
    }
  }

  lemma Associate(a: nat, b: nat, c: nat)
    ensures (a * b) * c == a * (b * c)
  {
  }

  lemma ProductSnoc(shape: seq<nat>, d: nat)
    ensures Product(shape + [d]) == Product(shape) * d
  {
    assert (shape + [d])[..|shape|] == shape;
  }

  lemma {:induction false} ProductFromFirst(shape: seq<nat>)
    requires shape != []
    ensures Product(shape) == shape[0] * Product(shape[1..])
  {
    var k := |shape| - 1;
    if k > 0 {
      hide Product;
      var middle, d := shape[1..][..k - 1], shape[k];
      ProductFromFirst(shape[..k]);
      assert shape[..k][1..] == middle && shape[..k] + [d] == shape && middle + [d] == shape[1..];
      ProductSnoc(shape[..k], d);
      ProductSnoc(middle, d);
      Associate(shape[0], Product(middle), d);
    } else {
      assert shape[..0] == [] && shape[1..] == [];
    }
  }

  /** A value of a shape has as many elements as the shape says. */
  lemma {:induction false} LeafCount(v: Value, shape: seq<nat>)
    requires Conforms(v, shape)
    ensures |Leaves(v)| == Product(shape)
    decreases v, 1
  {
    if shape != [] {
      AllLeafCount(v.elems, shape[1..]);
      ProductFromFirst(shape);
    }
  }

  lemma {:induction false} AllLeafCount(vs: seq<Value>, shape: seq<nat>)
    requires forall e :: e in vs ==> Conforms(e, shape)
    ensures |AllLeaves(vs)| == Span(|vs|, Product(shape))
    decreases vs, 0
  {
    if vs != [] {
      hide Product, Conforms, Span;
      var k := |vs| - 1;
      assert forall e :: e in vs[..k] ==> e in vs;
      AllLeafCount(vs[..k], shape);
      assert vs[k] in vs;
      LeafCount(vs[k], shape);
      SpanNext(k, Product(shape));
    }
  }

  /** What `n` things of `size` units take. */
  function Span(n: nat, size: nat): nat { n * size }

  lemma SpanNext(n: nat, size: nat)
    ensures Span(n + 1, size) == Span(n, size) + size
  {
  }

  predicate Sized(blocks: seq<Block>, size: nat) {
    forall b :: b in blocks ==> |b| == size
  }

  lemma {:induction false} LeavesSized(v: Value, t: Type, size: nat)
    requires HasType(v, t, size)
    ensures Sized(Leaves(v), size)
    decreases v, 1
  {
    if v.List? { AllLeavesSized(v.elems, t.inner, size); }
  }

  lemma {:induction false} AllLeavesSized(vs: seq<Value>, t: Type, size: nat)
    requires forall e :: e in vs ==> HasType(e, t, size)
    ensures Sized(AllLeaves(vs), size)
    decreases vs, 0
  {
    if vs != [] {
      var k := |vs| - 1;
      assert forall e :: e in vs[..k] ==> e in vs;
      AllLeavesSized(vs[..k], t, size);
      LeavesSized(vs[k], t, size);
    }
  }

  lemma SizedInit(blocks: seq<Block>, size: nat)
    requires Sized(blocks, size) && blocks != []
    ensures var k := |blocks| - 1;
            Sized(blocks[..k], size) && |blocks[k]| == size && blocks[..k] + [blocks[k]] == blocks
  {
    assert blocks[|blocks| - 1] in blocks && forall b :: b in blocks[..|blocks| - 1] ==> b in blocks;
  }

  lemma {:induction false} JoinLength(blocks: seq<Block>, size: nat)
    requires Sized(blocks, size)
    ensures |Join(blocks)| == Span(|blocks|, size)
  {
    if blocks != [] {
      hide Span, Join, Sized;
      var k := |blocks| - 1;
      SizedInit(blocks, size);
      JoinLength(blocks[..k], size);
      JoinSnoc(blocks[..k], blocks[k]);
      SpanNext(k, size);
    }
  }

  // ---------------------------------------------------------------- where an element is stored

  /** The elements of the `k`-th value among those of a list. */
  lemma LeavesOf(vs: seq<Value>, k: nat)
    requires k < |vs|
    ensures var at := |AllLeaves(vs[..k])|;
            at + |Leaves(vs[k])| <= |AllLeaves(vs)| && AllLeaves(vs)[at..at + |Leaves(vs[k])|] == Leaves(vs[k])
  {
    hide AllLeaves, Leaves, Join;
    LeavesOfPrefix(vs, k);
    assert vs == vs[..k + 1] + vs[k + 1..];
    AllLeavesAppend(vs[..k + 1], vs[k + 1..]);
  }

  /** Elements are stored row by row: those of row `k` follow those of the `k` rows before it, in their order. */
  lemma RowMajor(v: Value, shape: seq<nat>, k: nat, j: nat)
    requires Conforms(v, shape) && shape != [] && k < shape[0] && j < Product(shape[1..])
    ensures v.List? && k < |v.elems| && j < |Leaves(v.elems[k])|
    ensures k * Product(shape[1..]) + j < |Leaves(v)|
    ensures Leaves(v)[k * Product(shape[1..]) + j] == Leaves(v.elems[k])[j]
  {
    ConformsIff(v, shape);
    assert forall e :: e in v.elems[..k] ==> e in v.elems;
    AllLeafCount(v.elems[..k], shape[1..]);
    LeafCount(v.elems[k], shape[1..]);
    hide Conforms, Product, AllLeaves;
    LeavesOf(v.elems, k);
    var at := |AllLeaves(v.elems[..k])|;
    assert at == k * Product(shape[1..]);
    assert AllLeaves(v.elems)[at..at + |Leaves(v.elems[k])|][j] == AllLeaves(v.elems)[at + j];
  }

  /** The bytes of element `k` stand at `k` times their number. */
  lemma {:induction false} BytesOf(blocks: seq<Block>, size: nat, k: nat)
    requires Sized(blocks, size) && k < |blocks|
    ensures k * size + size <= |Join(blocks)| && Join(blocks)[k * size..k * size + size] == blocks[k]
  {
    hide Join, Sized;
    var n := |blocks| - 1;
    SizedInit(blocks, size);
    JoinLength(blocks[..n], size);
    JoinSnoc(blocks[..n], blocks[n]);
    assert |Join(blocks[..n])| == n * size;
    if k < n {
      BytesOf(blocks[..n], size, k);
      StretchOfPrefix(Join(blocks[..n]), blocks[n], k * size, k * size + size);
    } else {
      assert (Join(blocks[..n]) + blocks[n])[|Join(blocks[..n])|..] == blocks[n];
    }
  }

  lemma StretchOfPrefix(a: seq<Byte>, b: seq<Byte>, from: nat, upto: nat)
    requires from <= upto <= |a|
    ensures (a + b)[from..upto] == a[from..upto]
  {
  }

  /** Accepts exactly the rectangular values of a supported type and writes exactly the bytes it has room for. */
  method NewTensor(v: Value, t: Type, size: nat) returns (r: Result<Tensor>)
    requires HasType(v, t, size)
    ensures r.Ok? <==> Rectangular(v, t) && ElementOf(t) != Unsupported
    ensures r.Ok? ==> r.value.shape == FirstShape(v, t, size) && Conforms(v, r.value.shape)
    ensures r.Ok? ==> r.value.data == Join(Leaves(v)) && |r.value.data| == Span(Product(r.value.shape), size)
    ensures r.Err? ==> r.error == MismatchedLengths || r.error == UnsupportedType
    ensures r.Err? && r.error == MismatchedLengths ==> !Rectangular(v, t)
    ensures r == Err(UnsupportedType) <==> ElementOf(t) == Unsupported && PathAgrees(v, t, size)
  {
    RectangularIffFirstShape(v, t, size);
    var s := ShapeOf(v, t, size);
    if s.Err? {
      return Err(s.error);
    }
    var shape := s.value;
    var nflattened := NumElements(shape);
    var nbytes := Span(nflattened, size);
    if Conforms(v, shape) { DataSize(v, t, shape, size); }
    var buf := new Buffer();
    if IsAllArray(t) {
      ArraysConform(v, t, size);
      buf.bytes := buf.bytes + Join(Leaves(v));
    } else {
      FirstShapeFits(v, t, size);
      var e := Encode(buf, v, t, shape, size);
      if e.Err? {
        return Err(e.error);
      }
    }
    if |buf.bytes| != nbytes {
      return Err(WrongSize);
    }
    return Ok(Tensor(shape, buf.bytes));
  }

  lemma DataSize(v: Value, t: Type, shape: seq<nat>, size: nat)
    requires HasType(v, t, size) && Conforms(v, shape)
    ensures |Join(Leaves(v))| == Span(Product(shape), size)
  {
    LeafCount(v, shape);
    LeavesSized(v, t, size);
    JoinLength(Leaves(v), size);
  }

  // ---------------------------------------------------------------- decoding

  /** The bytes cut into elements. */
  function Split(data: seq<Byte>, size: nat, n: nat): seq<Block>
    requires |data| == Span(n, size)
  {
    if n == 0 then []
    else
      SpanNext(n - 1, size);
      Split(data[..Span(n - 1, size)], size, n - 1) + [data[Span(n - 1, size)..]]
  }

  lemma SplitLast(data: seq<Byte>, block: Block, size: nat, n: nat)
    requires |data| == Span(n, size) && |block| == size
    ensures |data + block| == Span(n + 1, size) && Split(data + block, size, n + 1) == Split(data, size, n) + [block]
  {
    hide Span;
    SpanNext(n, size);
    assert (data + block)[..Span(n, size)] == data;
    assert (data + block)[Span(n, size)..] == block;
  }

  lemma {:induction false} SplitJoin(blocks: seq<Block>, size: nat)
    requires Sized(blocks, size)
    ensures |Join(blocks)| == Span(|blocks|, size) && Split(Join(blocks), size, |blocks|) == blocks
  {
    JoinLength(blocks, size);
    if blocks != [] {
      hide Span, Split, Join, Sized;
      var k := |blocks| - 1;
      SizedInit(blocks, size);
      SplitJoin(blocks[..k], size);
      JoinSnoc(blocks[..k], blocks[k]);
      SplitLast(Join(blocks[..k]), blocks[k], size, k);
    }
  }

  function AsLeaves(blocks: seq<Block>): seq<Value> {
    seq(|blocks|, i requires 0 <= i < |blocks| => Leaf(blocks[i]))
  }

  /** Slice headers over consecutive stretches of `n * len` values. */
  function Grouped(vs: seq<Value>, len: nat, n: nat): (r: seq<Value>)
    requires n * len <= |vs|
    ensures |r| == n
  {
    if n == 0 then []
    else
      assert n * len == (n - 1) * len + len;
      Grouped(vs, len, n - 1) + [List(vs[(n - 1) * len..n * len])]
  }

  method Group(vs: seq<Value>, len: nat, n: nat) returns (next: seq<Value>)
    requires n * len <= |vs|
    ensures next == Grouped(vs, len, n)
  {
    next := [];
    for j := 0 to n
      invariant j * len <= n * len
      invariant next == Grouped(vs, len, j)
    {
      assert (j + 1) * len == j * len + len;
      assert (j + 1) * len <= n * len by { Monotone(j + 1, n, len); }
      next := next + [List(vs[j * len..(j + 1) * len])];
    }
  }

  lemma Monotone(a: nat, b: nat, c: nat)
    requires a <= b
    ensures a * c <= b * c
  {
  }

  lemma AllLeavesSnoc(a: seq<Value>, v: Value)
    ensures AllLeaves(a + [v]) == AllLeaves(a) + Leaves(v)
  {
    assert (a + [v])[..|a|] == a;
  }

  lemma {:induction false} AllLeavesAppend(a: seq<Value>, b: seq<Value>)
    ensures AllLeaves(a + b) == AllLeaves(a) + AllLeaves(b)
    decreases |b|
  {
    if b == [] {
      assert a + b == a;
    } else {
      hide AllLeaves, Leaves;
      var k := |b| - 1;
      AllLeavesAppend(a, b[..k]);
      LastApart(a, b);
      AllLeavesSnoc(a + b[..k], b[k]);
      AllLeavesSnoc(b[..k], b[k]);
      Regroup(AllLeaves(a), AllLeaves(b[..k]), Leaves(b[k]));
    }
  }

  /** Grouping keeps the elements and adds a dimension. */
  lemma {:induction false} GroupedKeeps(vs: seq<Value>, len: nat, n: nat, shape: seq<nat>)
    requires n * len <= |vs| && forall v :: v in vs ==> Conforms(v, shape)
    ensures AllLeaves(Grouped(vs, len, n)) == AllLeaves(vs[..n * len])
    ensures forall v :: v in Grouped(vs, len, n) ==> Conforms(v, [len] + shape)
  {
    if n > 0 {
      var m := (n - 1) * len;
      assert n * len == m + len;
      var last := List(vs[m..m + len]);
      assert Grouped(vs, len, n) == Grouped(vs, len, n - 1) + [last];
      assert Leaves(last) == AllLeaves(vs[m..m + len]);
      GroupConforms(vs, m, len, shape);
      hide Grouped, AllLeaves, Leaves, Conforms;
      GroupedKeeps(vs, len, n - 1, shape);
      AllLeavesSnoc(Grouped(vs, len, n - 1), last);
      assert vs[..m + len] == vs[..m] + vs[m..m + len];
      AllLeavesAppend(vs[..m], vs[m..m + len]);
    }
  }

  lemma GroupConforms(vs: seq<Value>, m: nat, len: nat, shape: seq<nat>)
    requires m + len <= |vs| && forall v :: v in vs ==> Conforms(v, shape)
    ensures Conforms(List(vs[m..m + len]), [len] + shape)
  {
    var v, longer := List(vs[m..m + len]), [len] + shape;
    assert longer[1..] == shape && longer[0] == len;
    assert forall e :: e in v.elems ==> e in vs;
  }

  lemma {:induction false} LeavesOfLeaves(blocks: seq<Block>)
    ensures AllLeaves(AsLeaves(blocks)) == blocks
  {
    if blocks != [] {
      var k := |blocks| - 1;
      LeavesOfLeaves(blocks[..k]);
      assert AsLeaves(blocks)[..k] == AsLeaves(blocks[..k]);
    }
  }

  /** All dimensions but the last are positive. */
  predicate InnerPositive(shape: seq<nat>) {
    shape != [] ==> Product(shape[..|shape| - 1]) != 0
  }

  /** Between two dimensions the loop has `count * shape[i + 1]` values to group, or none if that is empty. */
  ghost predicate ReadyToGroup(shape: seq<nat>, i: int, slice: seq<Value>, n: nat, blocks: seq<Block>)
    requires -1 <= i <= |shape| - 2
  {
    var count := Product(shape[..i + 1]);
    && count > 0
    && (if shape[i + 1] == 0 then n == count else n == count * shape[i + 1])
    && |slice| == count * shape[i + 1]
    && (forall v :: v in slice ==> Conforms(v, shape[i + 2..]))
    && AllLeaves(slice) == blocks
  }

  lemma ExactQuotient(x: nat, a: nat, b: nat)
    requires b > 0 && x == a * b
    ensures x / b == a
  {
    var q, r := x / b, x % b;
    assert x == q * b + r;
    assert (a - q) * b == r;
    if a > q { Monotone(1, a - q, b); }
  }

  /** One round of the loop. */
  method AddDimension(shape: seq<nat>, i: nat, slice: seq<Value>, n: nat, ghost blocks: seq<Block>)
    returns (next: seq<Value>, m: nat)
    requires i + 2 <= |shape|
    requires n == 0 || ReadyToGroup(shape, i, slice, n, blocks)
    ensures n == 0 ==> m == 0 && next == []
    ensures n > 0 ==> m == |next| == Product(shape[..i + 1]) > 0
    ensures n > 0 && shape[i] > 0 ==> ReadyToGroup(shape, i - 1, next, m, blocks)
  {
    m := n;
    var subsliceLen := shape[i + 1];
    if subsliceLen != 0 {
      m := n / subsliceLen;
    }
    if n > 0 { CountIs(shape, i, slice, n, m, blocks); }
    next := Group(slice, subsliceLen, m);
    if n > 0 { GroupedIsReady(shape, i, slice, n, m, blocks); }
  }

  lemma CountIs(shape: seq<nat>, i: nat, slice: seq<Value>, n: nat, m: nat, blocks: seq<Block>)
    requires i + 2 <= |shape| && ReadyToGroup(shape, i, slice, n, blocks)
    requires m == if shape[i + 1] != 0 then n / shape[i + 1] else n
    ensures m == Product(shape[..i + 1]) && m * shape[i + 1] == |slice|
  {
    if shape[i + 1] != 0 { ExactQuotient(n, Product(shape[..i + 1]), shape[i + 1]); }
  }

  lemma GroupedIsReady(shape: seq<nat>, i: nat, slice: seq<Value>, n: nat, m: nat, blocks: seq<Block>)
    requires i + 2 <= |shape| && ReadyToGroup(shape, i, slice, n, blocks)
    requires m == Product(shape[..i + 1]) && m * shape[i + 1] == |slice|
    ensures shape[i] > 0 ==> ReadyToGroup(shape, i - 1, Grouped(slice, shape[i + 1], m), m, blocks)
  {
    hide Grouped, Conforms, AllLeaves;
    GroupedKeeps(slice, shape[i + 1], m, shape[i + 2..]);
    assert slice[..m * shape[i + 1]] == slice;
    assert [shape[i + 1]] + shape[i + 2..] == shape[i + 1..];
    assert shape[..i + 1][..i] == shape[..i];
  }

  lemma LeavesConform(blocks: seq<Block>)
    ensures |AsLeaves(blocks)| == |blocks| && forall v :: v in AsLeaves(blocks) ==> Conforms(v, [])
  {
  }

  /** The elements, as they lie in the flat slice, are ready for the innermost dimension. */
  lemma ElementsAreReady(shape: seq<nat>, blocks: seq<Block>, n: nat)
    requires |shape| >= 2 && |blocks| == Product(shape)
    requires n == if Product(shape) == 0 then Product(shape[..|shape| - 1]) else Product(shape)
    ensures Product(shape[..|shape| - 1]) == 0 ==> n == 0
    ensures Product(shape[..|shape| - 1]) > 0 ==> ReadyToGroup(shape, |shape| - 2, AsLeaves(blocks), n, blocks)
    ensures Product(shape[..|shape| - 1]) > 0 ==> n > 0
  {
    var inner, last := Product(shape[..|shape| - 1]), shape[|shape| - 1];
    assert Product(shape) == inner * last;
    LeavesConform(blocks);
    hide Product, AllLeaves, Conforms;
    LeavesOfLeaves(blocks);
    assert shape[|shape|..] == [];
    if inner > 0 && last > 0 { Monotone(1, inner, last); }
  }

  /** The loop over the dimensions, from the last but one to the first. */
  method AddDimensions(shape: seq<nat>, elements: seq<Value>, count: nat, ghost blocks: seq<Block>) returns (v: Value)
    requires |shape| >= 2
    requires Product(shape[..|shape| - 1]) == 0 ==> count == 0
    requires Product(shape[..|shape| - 1]) > 0 ==>
               count > 0 && ReadyToGroup(shape, |shape| - 2, elements, count, blocks)
    ensures Product(shape[..|shape| - 1]) > 0 ==> Conforms(v, shape) && Leaves(v) == blocks
    ensures Product(shape[..|shape| - 1]) == 0 ==> v == List([])
  {
    hide Product, ReadyToGroup, Conforms;
    ghost var inner := Product(shape[..|shape| - 1]);
    var slice, n := elements, count;
    var i := |shape| - 2;
    while i >= 0
      invariant -1 <= i <= |shape| - 2
      invariant inner == 0 ==> n == 0 && (i < |shape| - 2 ==> slice == [])
      invariant inner > 0 ==> n > 0 && ReadyToGroup(shape, i, slice, n, blocks)
    {
      if inner > 0 { FactorsPositive(shape[..|shape| - 1], i); }
      slice, n := AddDimension(shape, i, slice, n, blocks);
      i := i - 1;
    }
    if inner > 0 { AllDimensionsAdded(shape, slice, n, blocks); }
    return List(slice);
  }

  lemma AllDimensionsAdded(shape: seq<nat>, slice: seq<Value>, n: nat, blocks: seq<Block>)
    requires |shape| >= 2 && ReadyToGroup(shape, -1, slice, n, blocks)
    ensures Conforms(List(slice), shape) && Leaves(List(slice)) == blocks
  {
  }

  /**
   Nested slices for a shape and a run of elements.  The result is the value of that shape if no
   dimension but the last is empty; otherwise it is an empty list, whatever the first dimension is.
   */
  method Decode(data: seq<Byte>, shape: seq<nat>, size: nat) returns (v: Value)
    requires |data| == Span(Product(shape), size)
    ensures InnerPositive(shape) ==> Conforms(v, shape) && Leaves(v) == Split(data, size, Product(shape))
    ensures !InnerPositive(shape) ==> v == List([])
  {
    hide Split, Span, ReadyToGroup;
    var n := NumElements(shape);
    var blocks := Split(data, size, n);
    SplitCount(data, size, n);
    var slice := AsLeaves(blocks);
    LeavesOfLeaves(blocks);
    if |shape| == 0 {
      assert blocks == [blocks[0]];
      return slice[0];
    }
    if |shape| == 1 {
      assert shape[..0] == [] && shape[1..] == [];
      return List(slice);
    }
    if n == 0 {
      n := NumElements(shape[..|shape| - 1]);
    }
    ElementsAreReady(shape, blocks, n);
    v := AddDimensions(shape, slice, n, blocks);
  }

  lemma {:induction false} SplitCount(data: seq<Byte>, size: nat, n: nat)
    requires |data| == Span(n, size)
    ensures |Split(data, size, n)| == n
  {
    if n > 0 {
      SpanNext(n - 1, size);
      SplitCount(data[..Span(n - 1, size)], size, n - 1);
    }
  }

  lemma {:induction false} FactorsPositive(shape: seq<nat>, i: nat)
    requires Product(shape) > 0 && i < |shape|
    ensures shape[i] > 0
  {
    if i < |shape| - 1 { FactorsPositive(shape[..|shape| - 1], i); }
  }

  // ---------------------------------------------------------------- the round trip

  /** Shape and elements determine the value. */
  lemma {:induction false} ValueIsDetermined(a: Value, b: Value, shape: seq<nat>)
    requires Conforms(a, shape) && Conforms(b, shape) && Leaves(a) == Leaves(b)
    ensures a == b
    decreases a, 1
  {
    if shape != [] {
      ValuesAreDetermined(a.elems, b.elems, shape[1..]);
    }
  }

  lemma {:induction false} ValuesAreDetermined(a: seq<Value>, b: seq<Value>, shape: seq<nat>)
    requires |a| == |b| && AllLeaves(a) == AllLeaves(b)
    requires (forall e :: e in a ==> Conforms(e, shape)) && (forall e :: e in b ==> Conforms(e, shape))
    ensures a == b
    decreases a, 0
  {
    if a != [] {
      var k := |a| - 1;
      assert forall e :: e in a[..k] ==> e in a;
      assert forall e :: e in b[..k] ==> e in b;
      AllLeafCount(a[..k], shape);
      AllLeafCount(b[..k], shape);
      assert AllLeaves(a[..k]) == AllLeaves(a)[..|AllLeaves(a[..k])|];
      assert AllLeaves(b[..k]) == AllLeaves(b)[..|AllLeaves(b[..k])|];
      ValuesAreDetermined(a[..k], b[..k], shape);
      assert Leaves(a[k]) == AllLeaves(a)[|AllLeaves(a[..k])|..];
      assert Leaves(b[k]) == AllLeaves(b)[|AllLeaves(b[..k])|..];
      ValueIsDetermined(a[k], b[k], shape);
      assert a == a[..k] + [a[k]] && b == b[..k] + [b[k]];
    }
  }

  /** No dimension but the last is empty, or the first one is. */
  predicate SurvivesDecoding(shape: seq<nat>) {
    (forall i :: 0 <= i < |shape| - 1 ==> shape[i] > 0) || shape[0] == 0
  }

  lemma {:induction false} ProductPositive(shape: seq<nat>)
    ensures Product(shape) != 0 <==> forall i :: 0 <= i < |shape| ==> shape[i] > 0
  {
    if shape != [] {
      ProductPositive(shape[..|shape| - 1]);
    }
  }

  lemma SurvivesIff(shape: seq<nat>)
    requires shape != []
    ensures SurvivesDecoding(shape) <==> InnerPositive(shape) || shape[0] == 0
  {
    ProductPositive(shape[..|shape| - 1]);
  }

  lemma DecodedIs(v: Value, back: Value, t: Type, shape: seq<nat>, size: nat)
    requires HasType(v, t, size) && Conforms(v, shape) && |Join(Leaves(v))| == Span(Product(shape), size)
    requires InnerPositive(shape) ==>
               Conforms(back, shape) && Leaves(back) == Split(Join(Leaves(v)), size, Product(shape))
    requires !InnerPositive(shape) ==> back == List([])
    ensures back == v <==> SurvivesDecoding(shape)
  {
    hide Join, Split, Product, Leaves, HasType;
    if shape != [] { SurvivesIff(shape); }
    if InnerPositive(shape) {
      LeafCount(v, shape);
      LeavesSized(v, t, size);
      SplitJoin(Leaves(v), size);
      ValueIsDetermined(back, v, shape);
    }
  }

  /** Encoding a value and decoding it gives the value back if and only if its shape survives. */
  method RoundTrip(v: Value, t: Type, size: nat) returns (r: Result<Value>)
    requires HasType(v, t, size)
    ensures r.Ok? <==> Rectangular(v, t) && ElementOf(t) != Unsupported
    ensures r.Ok? ==> (r.value == v <==> SurvivesDecoding(FirstShape(v, t, size)))
  {
    var tensor := NewTensor(v, t, size);
    if tensor.Err? {
      return Err(tensor.error);
    }
    var shape := tensor.value.shape;
    var back := Decode(tensor.value.data, shape, size);
    DecodedIs(v, back, t, shape, size);
    return Ok(back);
  }

  /** Two empty rows come back as no rows. */
  lemma EmptyRowsAreLost()
    ensures var v := List([List([]), List([])]);
            var t := SliceOf(SliceOf(SliceOf(Element(Numeric))));
            && HasType(v, t, 4) && Rectangular(v, t)
            && FirstShape(v, t, 4) == [2, 0, 0] && !SurvivesDecoding(FirstShape(v, t, 4))
  {
    var v := List([List([]), List([])]);
    assert Conforms(List([]), [0, 0]);
    assert [2, 0, 0][1..] == [0, 0];
    assert Conforms(v, [2, 0, 0]);
    assert FirstShape(List([]), SliceOf(SliceOf(Element(Numeric))), 4) == [0, 0];
  }
}
