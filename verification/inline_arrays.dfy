/** Inline emission of an array: its elements written into the tree as
    nested sequences by a strided walk over memory. */
module InlineArrays {
  import opened Wrappers
  import opened NDArrays
  import opened Seqs

  /** A tree node: a scalar, or a sequence of nodes. */
  datatype Node<S> = Scalar(value: S) | Sequence(items: seq<Node<S>>)

  /** `n` is nested the way inline data of this shape is: rank 0 is a
      one-element sequence holding a scalar, rank 1 a sequence of
      `shape[0]` scalars, and higher ranks a sequence of `shape[0]` nodes
      of the remaining shape. */
  predicate Conforms<S>(n: Node<S>, shape: seq<int>)
    decreases |shape|
  {
    && n.Sequence?
    && (if |shape| == 0 then |n.items| == 1 && n.items[0].Scalar?
        else
          && |n.items| == shape[0]
          && if |shape| == 1 then forall i :: 0 <= i < |n.items| ==> n.items[i].Scalar?
             else forall i :: 0 <= i < |n.items| ==> Conforms(n.items[i], shape[1..]))
  }

  /** `emit_inline_array` over `scalarAt`, which reads the scalar stored at
      a byte address (`emit_scalar`). Element `i` of the leading dimension
      starts at `address + i * strides[0]`. */
  function EmitInline<S>(scalarAt: int -> S, address: int, shape: seq<int>, strides: seq<int>): (r: Node<S>)
    requires |strides| == |shape| && NonNegativeShape(shape)
    ensures Conforms(r, shape)
    decreases |shape|
  {
    if |shape| == 0 then Sequence([Scalar(scalarAt(address))])
    else if |shape| == 1 then
      Sequence(seq(shape[0], i => Scalar(scalarAt(address + i * strides[0]))))
    else
      assert NonNegativeShape(shape[1..]) by {
        assert forall d :: 0 <= d < |shape| - 1 ==> shape[1..][d] == shape[d + 1];
      }
      Sequence(seq(shape[0], i => EmitInline(scalarAt, address + i * strides[0], shape[1..], strides[1..])))
  }

  /** The byte distance of the element at `idx` from the array's start:
      the sum of `idx[d] * strides[d]` over the dimensions. */
  function Dot(idx: seq<int>, strides: seq<int>): int
    requires |idx| == |strides|
    decreases |idx|
  {
    if |idx| == 0 then 0 else idx[0] * strides[0] + Dot(idx[1..], strides[1..])
  }

  /** `idx` names an element of an array of this shape. */
  predicate InShape(idx: seq<int>, shape: seq<int>) {
    |idx| == |shape| && forall d :: 0 <= d < |idx| ==> 0 <= idx[d] < shape[d]
  }

  /** The scalar a reader finds at `idx` in inline data: item `idx[0]`, then
      item `idx[1]` of that, and so on; a rank-0 node holds its scalar as
      its single item. `None` when the walk leaves the tree. */
  function ElementAt<S>(n: Node<S>, idx: seq<int>): Option<S>
    decreases |idx|
  {
    if |idx| == 0 then
      match n
      case Scalar(v) => Some(v)
      case Sequence(items) => if |items| == 1 && items[0].Scalar? then Some(items[0].value) else None
    else
      match n
      case Scalar(_) => None
      case Sequence(items) => if 0 <= idx[0] < |items| then ElementAt(items[idx[0]], idx[1..]) else None
  }

  /** Whatever the strides, inline data holds at every index of the shape
      the scalar stored `Dot(idx, strides)` bytes past the address, and
      nothing at an index outside the shape. */
  lemma {:induction false} EmitInlineElementAt<S>(scalarAt: int -> S, address: int, shape: seq<int>,
                                                  strides: seq<int>, idx: seq<int>)
    requires |strides| == |shape| && NonNegativeShape(shape) && |idx| == |shape|
    ensures var e := ElementAt(EmitInline(scalarAt, address, shape, strides), idx);
            (InShape(idx, shape) ==> e == Some(scalarAt(address + Dot(idx, strides))))
            && (!InShape(idx, shape) ==> e.None?)
    decreases |shape|
  {
    if |shape| == 1 {
      assert idx[1..] == [] && strides[1..] == [];
    } else if |shape| > 1 {
      var rest := shape[1..];
      assert NonNegativeShape(rest) by {
        assert forall d :: 0 <= d < |rest| ==> rest[d] == shape[d + 1];
      }
      if 0 <= idx[0] < shape[0] {
        EmitInlineElementAt(scalarAt, address + idx[0] * strides[0], rest, strides[1..], idx[1..]);
        assert InShape(idx, shape) <==> InShape(idx[1..], rest) by {
          assert forall d :: 1 <= d < |idx| ==> idx[1..][d - 1] == idx[d];
        }
      }
    }
  }

  /** The scalars of a node in reading order: what a reader materialises
      from inline data. */
  function Leaves<S>(n: Node<S>): seq<S>
    decreases n
  {
    match n
    case Scalar(v) => [v]
    case Sequence(items) => Flatten(seq(|items|, i requires 0 <= i < |items| => Leaves(items[i])))
  }

  /** A node of a given shape holds exactly as many scalars as the shape has
      elements. */
  lemma {:induction false} LeafCount<S>(n: Node<S>, shape: seq<int>)
    requires Conforms(n, shape) && NonNegativeShape(shape)
    ensures |Leaves(n)| == Product(shape)
    decreases |shape|
  {
    var parts := seq(|n.items|, i requires 0 <= i < |n.items| => Leaves(n.items[i]));
    assert Leaves(n) == Flatten(parts);
    if |shape| == 0 {
      assert parts == [[n.items[0].value]];
      assert parts[..0] == [];
      assert Flatten(parts) == Flatten(parts[..0]) + parts[0];
    } else if |shape| == 1 {
      assert forall i :: 0 <= i < |parts| ==> parts[i] == [n.items[i].value];
      FlattenLength(parts, 1);
      assert Product(shape[1..]) == 1;
    } else {
      var rest := shape[1..];
      assert NonNegativeShape(rest) by {
        assert forall d :: 0 <= d < |rest| ==> rest[d] == shape[d + 1];
      }
      ProductNonNegative(rest);
      forall i | 0 <= i < |parts|
        ensures |parts[i]| == Product(rest)
      {
        LeafCount(n.items[i], rest);
      }
      FlattenLength(parts, Product(rest));
    }
  }

  /** Every inline emission holds one scalar per element of the shape. */
  lemma EmitInlineLeafCount<S>(scalarAt: int -> S, address: int, shape: seq<int>, strides: seq<int>)
    requires |strides| == |shape| && NonNegativeShape(shape)
    ensures |Leaves(EmitInline(scalarAt, address, shape, strides))| == Product(shape)
  {
    LeafCount(EmitInline(scalarAt, address, shape, strides), shape);
  }

  /** The `count` scalars stored contiguously from `address`, `typeSize`
      bytes apart. */
  function Contiguous<S>(scalarAt: int -> S, address: int, typeSize: int, count: nat): (r: seq<S>)
    ensures |r| == count
  {
    seq(count, k => scalarAt(address + k * typeSize))
  }

  lemma ContiguousSplit<S>(scalarAt: int -> S, address: int, typeSize: int, m: nat, p: nat)
    ensures Contiguous(scalarAt, address, typeSize, m) + Contiguous(scalarAt, address + m * typeSize, typeSize, p)
            == Contiguous(scalarAt, address, typeSize, m + p)
  {
    var left := Contiguous(scalarAt, address, typeSize, m);
    var right := Contiguous(scalarAt, address + m * typeSize, typeSize, p);
    var whole := Contiguous(scalarAt, address, typeSize, m + p);
    forall k | m <= k < m + p
      ensures (left + right)[k] == whole[k]
    {
      assert address + m * typeSize + (k - m) * typeSize == address + k * typeSize;
    }
  }

  lemma MulAssociates(a: int, b: int, c: int)
    ensures a * (b * c) == (a * b) * c
  {
  }

  lemma MulDistributes(a: int, b: int)
    ensures a * b + b == (a + 1) * b
  {
  }

  /** Consecutive runs of `p` contiguous scalars, each `stride == p *
      typeSize` bytes after the last, concatenate to one run. */
  lemma {:induction false} FlattenRuns<S>(scalarAt: int -> S, address: int, typeSize: int, p: nat,
                                          stride: int, parts: seq<seq<S>>)
    requires stride == p * typeSize
    requires forall i :: 0 <= i < |parts| ==> parts[i] == Contiguous(scalarAt, address + i * stride, typeSize, p)
    ensures Flatten(parts) == Contiguous(scalarAt, address, typeSize, |parts| * p)
  {
    if |parts| > 0 {
      var m := |parts| - 1;
      var init := parts[..m];
      assert forall i :: 0 <= i < |init| ==> init[i] == parts[i];
      FlattenRuns(scalarAt, address, typeSize, p, stride, init);
      MulAssociates(m, p, typeSize);
      assert parts[m] == Contiguous(scalarAt, address + (m * p) * typeSize, typeSize, p);
      ContiguousSplit(scalarAt, address, typeSize, m * p, p);
      MulDistributes(m, p);
    }
  }

  /** The parts `Leaves` concatenates for a sequence node. */
  function ChildLeaves<S>(n: Node<S>): (parts: seq<seq<S>>)
    requires n.Sequence?
    ensures Leaves(n) == Flatten(parts)
  {
    seq(|n.items|, i requires 0 <= i < |n.items| => Leaves(n.items[i]))
  }

  lemma ReadingOrderRankZero<S>(scalarAt: int -> S, address: int, typeSize: int)
    ensures Leaves(EmitInline(scalarAt, address, [], [])) == Contiguous(scalarAt, address, typeSize, 1)
  {
    var parts := ChildLeaves(EmitInline(scalarAt, address, [], []));
    assert parts == [[scalarAt(address)]];
    assert parts[..0] == [];
    assert Flatten(parts) == Flatten(parts[..0]) + parts[0];
  }

  lemma ReadingOrderRankOne<S>(scalarAt: int -> S, address: int, extent: int, typeSize: int)
    requires extent >= 0
    ensures Leaves(EmitInline(scalarAt, address, [extent], [typeSize]))
            == Contiguous(scalarAt, address, typeSize, extent)
  {
    var node := EmitInline(scalarAt, address, [extent], [typeSize]);
    var parts := ChildLeaves(node);
    forall i | 0 <= i < |parts|
      ensures parts[i] == Contiguous(scalarAt, address + i * typeSize, typeSize, 1)
    {
      assert node.items[i] == Scalar(scalarAt(address + i * typeSize));
      assert parts[i] == [scalarAt(address + i * typeSize)];
    }
    FlattenRuns(scalarAt, address, typeSize, 1, typeSize, parts);
  }

  /** With the default row-major strides, inline emission reads the
      elements in the order they are stored: reading the tree back in
      order gives element `k` from `address + k * typeSize`. */
  lemma {:induction false} RowMajorReadingOrder<S>(scalarAt: int -> S, address: int, shape: seq<int>, typeSize: int)
    requires NonNegativeShape(shape)
    ensures var n := Product(shape);
            n >= 0 &&
            Leaves(EmitInline(scalarAt, address, shape, RowMajorStrides(shape, typeSize)))
              == Contiguous(scalarAt, address, typeSize, n)
    decreases |shape|
  {
    ProductNonNegative(shape);
    var strides := RowMajorStrides(shape, typeSize);
    if |shape| == 0 {
      ReadingOrderRankZero(scalarAt, address, typeSize);
    } else if |shape| == 1 {
      assert shape == [shape[0]] && strides == [typeSize];
      ReadingOrderRankOne(scalarAt, address, shape[0], typeSize);
      assert Product(shape[1..]) == 1;
    } else {
      RowMajorReadingOrderNested(scalarAt, address, shape, typeSize);
    }
  }

  lemma {:induction false} RowMajorReadingOrderNested<S>(scalarAt: int -> S, address: int, shape: seq<int>, typeSize: int)
    requires NonNegativeShape(shape) && |shape| >= 2
    ensures var n := Product(shape);
            n >= 0 &&
            Leaves(EmitInline(scalarAt, address, shape, RowMajorStrides(shape, typeSize)))
              == Contiguous(scalarAt, address, typeSize, n)
    decreases |shape|, 0
  {
    ProductNonNegative(shape);
    var strides := RowMajorStrides(shape, typeSize);
    var node := EmitInline(scalarAt, address, shape, strides);
    var parts := ChildLeaves(node);
    var rest := shape[1..];
    assert NonNegativeShape(rest) by {
      assert forall d :: 0 <= d < |rest| ==> rest[d] == shape[d + 1];
    }
    ProductNonNegative(rest);
    var p := Product(rest);
    var restStrides := RowMajorStrides(rest, typeSize);
    assert strides[1..] == restStrides;
    var stride := p * typeSize;
    if p > 0 {
      LeadingStride(shape, typeSize);
      assert strides[0] == stride;
    }
    forall i | 0 <= i < |parts|
      ensures parts[i] == Contiguous(scalarAt, address + i * stride, typeSize, p)
    {
      assert node.items[i] == EmitInline(scalarAt, address + i * strides[0], rest, restStrides);
      RowMajorReadingOrder(scalarAt, address + i * strides[0], rest, typeSize);
    }
    FlattenRuns(scalarAt, address, typeSize, p, stride, parts);
  }
}
