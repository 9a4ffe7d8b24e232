/** `ndarray::to_yaml`: the tree node written for an array, with its
    elements either deferred to a binary block or written inline. */
module ArrayNodes {
  import opened Wrappers
  import opened BigEndian
  import opened ScalarTypes
  import opened Blobs
  import opened BlockCodec
  import opened Seqs
  import opened NDArrays
  import opened InlineArrays
  import opened Sessions

  const NDArrayTag := "core/ndarray-1.0.0"

  /** `yaml_encode(byteorder_t)`. */
  function ByteOrderName(o: ByteOrder): (r: string)
    ensures r == "big" <==> o == Big
    ensures r == "little" <==> o == Little
  {
    match o
    case Big => "big"
    case Little => "little"
  }

  /** The keys of the node; a key that is not written is `None`. */
  datatype ArrayNode<S> = ArrayNode(
    tag: string,
    source: Option<nat>,
    data: Option<Node<S>>,
    datatypeName: string,
    byteorder: Option<string>,
    shape: seq<int>,
    offset: Option<int>,
    strides: Option<seq<int>>)

  /** The node and the writer state after the conversion. */
  datatype Converted<S> = Converted(node: ArrayNode<S>, writer: WriterState)

  /** The element of type `t` stored at a byte address of the array's
      memory, as `emit_scalar` renders it. */
  function ScalarReader<S>(read: (ScalarType, seq<byte>, int) -> S, a: NDArray): int -> S {
    address => read(a.scalarType, a.data.bytes, address)
  }

  /** `to_yaml`. In block format the array registers a task that writes its
      bytes as one block and the node points at the task's index; it also
      records the host byte order, the offset and the strides. In inline
      format the elements, read from the array's offset by its strides, are
      the node's `data`, and nothing is registered. A mask is refused. */
  function ToYaml<S>(a: NDArray, ws: WriterState, host: ByteOrder,
                     read: (ScalarType, seq<byte>, int) -> S): (r: Result<Converted<S>, ArrayError>)
    requires NDArrays.Valid(a) && NBytes(a.data) < TwoTo64
    ensures r.Success? <==> |a.mask| == 0
    ensures r.Failure? ==> r.error == MaskNotSupported
    ensures r.Success? ==>
              && r.value.node.tag == NDArrayTag
              && Some(r.value.node.datatypeName) == NameOf(a.scalarType)
              && r.value.node.shape == a.shape
    ensures r.Success? && a.format == Block ==>
              && r.value.node.source == Some(|ws.tasks|)
              && r.value.writer.tasks == ws.tasks + [BlockTask(a.data.bytes, a.compression)]
              && r.value.node.data.None?
              && r.value.node.byteorder == Some(ByteOrderName(host))
              && r.value.node.offset == Some(a.offset)
              && r.value.node.strides == Some(a.strides)
    ensures r.Success? && a.format == InlineArray ==>
              && r.value.writer == ws
              && r.value.node.source.None?
              && r.value.node.data.Some?
              && Conforms(r.value.node.data.value, a.shape)
              && r.value.node.byteorder.None?
              && r.value.node.offset.None?
              && r.value.node.strides.None?
  {
    if |a.mask| != 0 then Failure(MaskNotSupported)
    else
      var name := NameOf(a.scalarType).value;
      match a.format
      case Block =>
        var registered := AddTask(ws, BlockTask(a.data.bytes, a.compression));
        Success(Converted(
          ArrayNode(NDArrayTag, Some(registered.index), None, name, Some(ByteOrderName(host)),
                    a.shape, Some(a.offset), Some(a.strides)),
          registered.writer))
      case InlineArray =>
        var data := EmitInline(ScalarReader(read, a), a.offset, a.shape, a.strides);
        Success(Converted(ArrayNode(NDArrayTag, None, Some(data), name, None, a.shape, None, None), ws))
  }

  /** Inline data of an array with default strides lists its elements in
      storage order: the `k`-th scalar read back is the element stored
      `k` element sizes past the offset, for all `Product(shape)` elements. */
  lemma InlineDataInStorageOrder<S>(a: NDArray, ws: WriterState, host: ByteOrder,
                                    read: (ScalarType, seq<byte>, int) -> S)
    requires NDArrays.Valid(a) && NBytes(a.data) < TwoTo64
    requires a.format == InlineArray && |a.mask| == 0
    requires a.strides == RowMajorStrides(a.shape, SizeOf(a.scalarType).value)
    ensures var r := ToYaml(a, ws, host, read);
            && r.Success?
            && Product(a.shape) >= 0
            && Leaves(r.value.node.data.value)
                 == Contiguous(ScalarReader(read, a), a.offset, SizeOf(a.scalarType).value, Product(a.shape))
  {
    RowMajorReadingOrder(ScalarReader(read, a), a.offset, a.shape, SizeOf(a.scalarType).value);
  }

  /** Whatever the strides, the inline data of an array holds at each of
      its indices the element stored `Dot(idx, strides)` bytes past the
      offset, and nothing at an index outside the shape. */
  lemma InlineDataElementAt<S>(a: NDArray, ws: WriterState, host: ByteOrder,
                               read: (ScalarType, seq<byte>, int) -> S, idx: seq<int>)
    requires NDArrays.Valid(a) && NBytes(a.data) < TwoTo64
    requires a.format == InlineArray && |a.mask| == 0 && |idx| == |a.shape|
    ensures var r := ToYaml(a, ws, host, read);
            && r.Success?
            && (InShape(idx, a.shape) ==>
                  ElementAt(r.value.node.data.value, idx)
                    == Some(read(a.scalarType, a.data.bytes, a.offset + Dot(idx, a.strides))))
            && (!InShape(idx, a.shape) ==> ElementAt(r.value.node.data.value, idx).None?)
  {
    EmitInlineElementAt(ScalarReader(read, a), a.offset, a.shape, a.strides, idx);
  }

  /** Inline data holds one scalar per element, whatever the strides. */
  lemma InlineDataElementCount<S>(a: NDArray, ws: WriterState, host: ByteOrder,
                                  read: (ScalarType, seq<byte>, int) -> S)
    requires NDArrays.Valid(a) && NBytes(a.data) < TwoTo64
    requires a.format == InlineArray && |a.mask| == 0
    ensures var r := ToYaml(a, ws, host, read);
            r.Success? && |Leaves(r.value.node.data.value)| == Product(a.shape)
  {
    EmitInlineLeafCount(ScalarReader(read, a), a.offset, a.shape, a.strides);
  }

  /** The `source` a block-format node records names the block that holds
      the array's bytes: after any further registrations and the flush, a
      reader that loads the blocks at the offsets of the block index finds
      the array's bytes at that index. */
  lemma SourceNamesArrayBlock<S>(lib: Libraries, a: NDArray, ws: WriterState, host: ByteOrder,
                                 read: (ScalarType, seq<byte>, int) -> S, later: seq<Task>,
                                 emitIndex: seq<nat> -> seq<byte>, stream: seq<byte>)
    requires NDArrays.Valid(a) && NBytes(a.data) < TwoTo64
    requires a.format == Block && |a.mask| == 0
    requires forall i :: 0 <= i < |ws.tasks| ==>
               Reversible(lib, ws.tasks[i].compression, ws.tasks[i].data)
    requires Reversible(lib, a.compression, a.data.bytes)
    requires forall i :: 0 <= i < |later| ==> Reversible(lib, later[i].compression, later[i].data)
    ensures var c := ToYaml(a, ws, host, read).value;
            var tasks := c.writer.tasks + later;
            var blocks := Outputs(t => BlockOf(lib, t), tasks);
            var offsets := Offsets(blocks, |stream|);
            var loaded := LoadBlocks(lib, stream + Flatten(blocks) + Trailer(emitIndex, offsets), offsets);
            && c.node.source.Some?
            && loaded.Success?
            && GetBlock(loaded.value, c.node.source.value) == Success(Owned(1, a.data.bytes))
  {
    LoadRegisteredBlock(lib, ws.tasks, BlockTask(a.data.bytes, a.compression), later, emitIndex, stream);
  }
}
