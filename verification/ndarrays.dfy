/** The typed N-dimensional array descriptor and the checks its
    constructor makes. */
module NDArrays {
  import opened Wrappers
  import opened BigEndian
  import opened ScalarTypes
  import opened Blobs
  import opened BlockCodec

  /** `block_format_t`. */
  datatype BlockFormat = Block | InlineArray

  datatype NDArray = NDArray(
    data: Blob,
    format: BlockFormat,
    compression: Compression,
    mask: seq<bool>,
    scalarType: ScalarType,
    byteorder: ByteOrder,
    shape: seq<int>,
    offset: int,
    strides: seq<int>)

  /** Reasons the constructor's assertions fail. */
  datatype ArrayError =
    | NegativeDimension
    | UnsupportedScalarType
    | DataSizeMismatch
    | MaskSizeMismatch
    | NegativeOffset
    | StrideRankMismatch
    | ZeroStride
    | MaskNotSupported  // writing an array whose mask is not empty

  /** The number of elements of an array of this shape. */
  function Product(shape: seq<int>): int {
    if |shape| == 0 then 1 else shape[0] * Product(shape[1..])
  }

  predicate NonNegativeShape(shape: seq<int>) {
    forall d :: 0 <= d < |shape| ==> shape[d] >= 0
  }

  predicate NonzeroStrides(strides: seq<int>) {
    forall d :: 0 <= d < |strides| ==> strides[d] >= 1 || strides[d] <= -1
  }

  lemma {:induction false} ProductNonNegative(shape: seq<int>)
    requires NonNegativeShape(shape)
    ensures Product(shape) >= 0
    ensures Product(shape) > 0 <==> forall d :: 0 <= d < |shape| ==> shape[d] > 0
  {
    if |shape| > 0 {
      ProductNonNegative(shape[1..]);
      assert forall d :: 1 <= d < |shape| ==> shape[d] == shape[1..][d - 1];
    }
  }

  /** Default strides as the constructor computes them: from the last
      dimension inwards, starting at the element size and multiplying by
      each dimension's extent. */
  function RowMajorStridesAsWritten(shape: seq<int>, typeSize: int): (r: seq<int>)
    ensures |r| == |shape|
    ensures |shape| > 0 ==> r[|shape| - 1] == typeSize
    ensures forall d :: 0 <= d < |shape| - 1 ==> r[d] == r[d + 1] * shape[d + 1]
  {
    if |shape| == 0 then []
    else
      var inner := RowMajorStridesAsWritten(shape[1..], typeSize);
      [if |inner| == 0 then typeSize else inner[0] * shape[1]] + inner
  }

  /** An interior dimension of extent zero makes the stride outside it zero,
      and the constructor's own check on strides then rejects an array its
      shape and size checks accept: 3 x 0 elements of 8 bytes, no data. */
  lemma ZeroExtentGivesZeroStride()
    ensures NonNegativeShape([3, 0]) && Product([3, 0]) * 8 == 0
    ensures RowMajorStridesAsWritten([3, 0], 8) == [0, 8]
    ensures !NonzeroStrides(RowMajorStridesAsWritten([3, 0], 8))
  {
    assert RowMajorStridesAsWritten([0], 8) == [8];
    assert [3, 0][1..] == [0];
    assert RowMajorStridesAsWritten([3, 0], 8)[0] == 0;
  }

  /** The factor a dimension contributes to the strides outside it: its
      extent, or 1 for an empty dimension (the convention NumPy uses). */
  function Extent(n: int): int {
    if n == 0 then 1 else n
  }

  /** Default row-major strides, computed so that they stay nonzero when a
      dimension is empty. */
  function RowMajorStrides(shape: seq<int>, typeSize: int): (r: seq<int>)
    ensures |r| == |shape|
    ensures |shape| > 0 ==> r[|shape| - 1] == typeSize
    ensures forall d :: 0 <= d < |shape| - 1 ==> r[d] == r[d + 1] * Extent(shape[d + 1])
  {
    if |shape| == 0 then []
    else
      var inner := RowMajorStrides(shape[1..], typeSize);
      [if |inner| == 0 then typeSize else inner[0] * Extent(shape[1])] + inner
  }

  /** Where no dimension inside the outermost one is empty the two
      computations agree (the outermost extent enters neither). */
  lemma {:induction false} RowMajorStridesAgree(shape: seq<int>, typeSize: int)
    requires forall d :: 1 <= d < |shape| ==> shape[d] != 0
    ensures RowMajorStrides(shape, typeSize) == RowMajorStridesAsWritten(shape, typeSize)
  {
    if |shape| > 0 {
      assert forall d :: 0 <= d < |shape| - 1 ==> shape[1..][d] == shape[d + 1];
      RowMajorStridesAgree(shape[1..], typeSize);
    }
  }

  /** The default strides of a shape with no negative extent are all at
      least the element size, so they pass the nonzero check. */
  lemma {:induction false} RowMajorStridesPositive(shape: seq<int>, typeSize: int)
    requires NonNegativeShape(shape) && typeSize >= 1
    ensures forall d :: 0 <= d < |shape| ==> RowMajorStrides(shape, typeSize)[d] >= typeSize
  {
    if |shape| > 0 {
      assert NonNegativeShape(shape[1..]) by {
        assert forall d :: 0 <= d < |shape| - 1 ==> shape[1..][d] == shape[d + 1];
      }
      RowMajorStridesPositive(shape[1..], typeSize);
      var r := RowMajorStrides(shape, typeSize);
      assert r[1..] == RowMajorStrides(shape[1..], typeSize);
      if |shape| > 1 {
        assert r[0] == r[1] * Extent(shape[1]);
        assert Extent(shape[1]) >= 1;
        assert r[1] >= typeSize;
      }
    }
  }

  /** Closed form: the stride of the leading dimension is the element size
      times the number of elements in one slice below it, when that slice
      is not empty. */
  lemma {:induction false} LeadingStride(shape: seq<int>, typeSize: int)
    requires |shape| >= 1 && NonNegativeShape(shape)
    requires Product(shape[1..]) > 0
    ensures RowMajorStrides(shape, typeSize)[0] == typeSize * Product(shape[1..])
  {
    var rest := shape[1..];
    assert NonNegativeShape(rest) by {
      assert forall d :: 0 <= d < |rest| ==> rest[d] == shape[d + 1];
    }
    if |shape| > 1 {
      ProductNonNegative(rest);
      assert rest[0] > 0;
      assert NonNegativeShape(rest[1..]) by {
        assert forall d :: 0 <= d < |rest[1..]| ==> rest[1..][d] == rest[d + 1];
      }
      ProductNonNegative(rest[1..]);
      assert Product(rest) == rest[0] * Product(rest[1..]);
      assert Product(rest[1..]) > 0;
      LeadingStride(rest, typeSize);
      var r := RowMajorStrides(shape, typeSize);
      assert r[1..] == RowMajorStrides(rest, typeSize);
      assert r[0] == r[1] * rest[0];
      assert r[1] == typeSize * Product(rest[1..]);
      calc {
        r[0];
        typeSize * Product(rest[1..]) * rest[0];
        { MulCommutesInner(typeSize, Product(rest[1..]), rest[0]); }
        typeSize * Product(rest);
      }
    }
  }

  lemma MulCommutesInner(a: int, b: int, c: int)
    ensures a * b * c == a * (c * b)
  {
  }

  /** The invariant every constructed array keeps. */
  predicate Valid(a: NDArray) {
    && Blobs.Valid(a.data)
    && NonNegativeShape(a.shape)
    && SizeOf(a.scalarType).Some?
    && NBytes(a.data) == Product(a.shape) * SizeOf(a.scalarType).value
    && (|a.mask| == 0 || |a.mask| == Product(a.shape))
    && a.offset >= 0
    && |a.strides| == |a.shape|
    && NonzeroStrides(a.strides)
  }

  /** The strides an array gets: the given ones, or `defaults` of the shape
      and the element size when none are given. */
  function StridesOrDefault(defaults: (seq<int>, int) -> seq<int>, shape: seq<int>, typeSize: int,
                            strides: seq<int>): seq<int> {
    if |strides| == 0 then defaults(shape, typeSize) else strides
  }

  /** The checks of the `ndarray` constructor, in its order, with the rule
      for default strides as a parameter: the shape, the data size, the
      mask and the offset, then the strides, given or filled in. */
  function ConstructWith(defaults: (seq<int>, int) -> seq<int>,
                         data: Blob, format: BlockFormat, compression: Compression,
                         mask: seq<bool>, scalarType: ScalarType, byteorder: ByteOrder,
                         shape: seq<int>, offset: int, strides: seq<int>): (r: Result<NDArray, ArrayError>)
    requires Blobs.Valid(data)
    ensures r.Success? <==>
              && NonNegativeShape(shape)
              && SizeOf(scalarType).Some?
              && NBytes(data) == Product(shape) * SizeOf(scalarType).value
              && (|mask| == 0 || |mask| == Product(shape))
              && offset >= 0
              && |StridesOrDefault(defaults, shape, SizeOf(scalarType).value, strides)| == |shape|
              && NonzeroStrides(StridesOrDefault(defaults, shape, SizeOf(scalarType).value, strides))
    ensures r.Success? ==> Valid(r.value)
    ensures r.Success? ==>
              && r.value.data == data && r.value.format == format
              && r.value.compression == compression && r.value.mask == mask
              && r.value.scalarType == scalarType && r.value.byteorder == byteorder
              && r.value.shape == shape && r.value.offset == offset
              && r.value.strides == StridesOrDefault(defaults, shape, SizeOf(scalarType).value, strides)
    ensures !NonNegativeShape(shape) ==> r == Failure(NegativeDimension)
  {
    if !NonNegativeShape(shape) then Failure(NegativeDimension)
    else match SizeOf(scalarType)
      case None => Failure(UnsupportedScalarType)
      case Some(typeSize) =>
        var npoints := Product(shape);
        if NBytes(data) != npoints * typeSize then Failure(DataSizeMismatch)
        else if |mask| != 0 && |mask| != npoints then Failure(MaskSizeMismatch)
        else if offset < 0 then Failure(NegativeOffset)
        else
          var strides' := StridesOrDefault(defaults, shape, typeSize, strides);
          if |strides'| != |shape| then Failure(StrideRankMismatch)
          else if !NonzeroStrides(strides') then Failure(ZeroStride)
          else
            Success(NDArray(data, format, compression, mask, scalarType, byteorder,
                            shape, offset, strides'))
  }

  /** The `ndarray` constructor as written: missing strides are filled in
      by the loop of the constructor (`RowMajorStridesAsWritten`). */
  function ConstructAsWritten(data: Blob, format: BlockFormat, compression: Compression,
                              mask: seq<bool>, scalarType: ScalarType, byteorder: ByteOrder,
                              shape: seq<int>, offset: int, strides: seq<int>): (r: Result<NDArray, ArrayError>)
    requires Blobs.Valid(data)
    ensures r.Success? <==>
              && NonNegativeShape(shape)
              && SizeOf(scalarType).Some?
              && NBytes(data) == Product(shape) * SizeOf(scalarType).value
              && (|mask| == 0 || |mask| == Product(shape))
              && offset >= 0
              && (if |strides| == 0
                  then NonzeroStrides(RowMajorStridesAsWritten(shape, SizeOf(scalarType).value))
                  else |strides| == |shape| && NonzeroStrides(strides))
    ensures r.Success? ==> Valid(r.value)
    ensures r.Success? && |strides| > 0 ==> r.value.strides == strides
    ensures r.Success? && |strides| == 0 ==>
              r.value.strides == RowMajorStridesAsWritten(shape, SizeOf(scalarType).value)
  {
    ConstructWith(RowMajorStridesAsWritten, data, format, compression, mask, scalarType, byteorder,
                  shape, offset, strides)
  }

  /** An empty array of shape 3 x 0 with no strides given passes every
      check before the strides, and the as-written constructor then fails
      on the zero stride it computed itself; the corrected one accepts it. */
  lemma ConstructAsWrittenRejectsEmptyArray()
    ensures ConstructAsWritten(Owned(8, []), InlineArray, NoCompression, [], Int64, Little, [3, 0], 0, [])
              == Failure(ZeroStride)
    ensures Construct(Owned(8, []), InlineArray, NoCompression, [], Int64, Little, [3, 0], 0, []).Success?
  {
    ZeroExtentGivesZeroStride();
    assert Product([3, 0]) == 0 by {
      assert [3, 0][1..] == [0];
      assert [0][1..] == [];
    }
  }

  /** The `ndarray` constructor with the corrected default strides: checks
      the shape, the data size, the mask and the offset, fills in row-major
      strides when none are given, and checks the strides. Default strides
      always pass the stride checks. */
  function Construct(data: Blob, format: BlockFormat, compression: Compression,
                     mask: seq<bool>, scalarType: ScalarType, byteorder: ByteOrder,
                     shape: seq<int>, offset: int, strides: seq<int>): (r: Result<NDArray, ArrayError>)
    requires Blobs.Valid(data)
    ensures r.Success? <==>
              && NonNegativeShape(shape)
              && SizeOf(scalarType).Some?
              && NBytes(data) == Product(shape) * SizeOf(scalarType).value
              && (|mask| == 0 || |mask| == Product(shape))
              && offset >= 0
              && (|strides| == 0 || (|strides| == |shape| && NonzeroStrides(strides)))
    ensures r.Success? ==> Valid(r.value)
    ensures r.Success? ==>
              && r.value.data == data && r.value.format == format
              && r.value.compression == compression && r.value.mask == mask
              && r.value.scalarType == scalarType && r.value.byteorder == byteorder
              && r.value.shape == shape && r.value.offset == offset
    ensures r.Success? && |strides| > 0 ==> r.value.strides == strides
    ensures r.Success? && |strides| == 0 ==>
              r.value.strides == RowMajorStrides(shape, SizeOf(scalarType).value)
    ensures !NonNegativeShape(shape) ==> r == Failure(NegativeDimension)
  {
    if NonNegativeShape(shape) && SizeOf(scalarType).Some? then
      RowMajorStridesPositive(shape, SizeOf(scalarType).value);
      ConstructWith(RowMajorStrides, data, format, compression, mask, scalarType, byteorder,
                    shape, offset, strides)
    else
      ConstructWith(RowMajorStrides, data, format, compression, mask, scalarType, byteorder,
                    shape, offset, strides)
  }

  /** Where no dimension inside the outermost one is empty, the constructor
      as written and the corrected one build the same array or report the
      same error. */
  lemma ConstructAsWrittenAgrees(data: Blob, format: BlockFormat, compression: Compression,
                                 mask: seq<bool>, scalarType: ScalarType, byteorder: ByteOrder,
                                 shape: seq<int>, offset: int, strides: seq<int>)
    requires Blobs.Valid(data)
    requires forall d :: 1 <= d < |shape| ==> shape[d] != 0
    ensures ConstructAsWritten(data, format, compression, mask, scalarType, byteorder, shape, offset, strides)
              == Construct(data, format, compression, mask, scalarType, byteorder, shape, offset, strides)
  {
    if SizeOf(scalarType).Some? {
      RowMajorStridesAgree(shape, SizeOf(scalarType).value);
      SameStridesSameArray(RowMajorStridesAsWritten, RowMajorStrides, data, format, compression, mask,
                           scalarType, byteorder, shape, offset, strides);
    }
  }

  /** The constructor's outcome depends on the default-stride rule only
      through the strides it yields for this shape and element size. */
  lemma SameStridesSameArray(f: (seq<int>, int) -> seq<int>, g: (seq<int>, int) -> seq<int>,
                             data: Blob, format: BlockFormat, compression: Compression,
                             mask: seq<bool>, scalarType: ScalarType, byteorder: ByteOrder,
                             shape: seq<int>, offset: int, strides: seq<int>)
    requires Blobs.Valid(data) && SizeOf(scalarType).Some?
    requires StridesOrDefault(f, shape, SizeOf(scalarType).value, strides)
             == StridesOrDefault(g, shape, SizeOf(scalarType).value, strides)
    ensures ConstructWith(f, data, format, compression, mask, scalarType, byteorder, shape, offset, strides)
            == ConstructWith(g, data, format, compression, mask, scalarType, byteorder, shape, offset, strides)
  {
  }
}
