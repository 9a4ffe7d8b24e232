# asdf-cxx core, modelled in Dafny

This project models the part of asdf-cxx that turns an `ndarray` into ASDF
output, and the part that reads its blocks back:

- the scalar-type table: element widths and the `datatype` names;
- the byte buffers behind an array (`blob_t<T>`, `blob_t<bool>`, `ptr_blob_t`);
- the `ndarray` constructor, with its checks and its default row-major strides;
- `emit_inline_array`, the strided walk that writes an array's elements into the tree;
- `ndarray::to_yaml`, which chooses between a deferred binary block and inline data;
- `ndarray::write_block`, the binary block framing of the ASDF Standard 1.1.0:
  - the `SBLK` magic and the 16-bit `header_size`;
  - the flags and the compression tag;
  - three 64-bit sizes and a 16-byte MD5 checksum;
  - then the stored payload;
- `writer_state::add_task` and `writer_state::flush`, which write the deferred
  blocks and then the block index;
- `reader_state::get_block`;
- the `block_format_t` and `compression_t` enums.

All values are immutable. Each operation is a function from its inputs to a
result. An error path (a failing `assert`, a throwing `at()`) is a
`Failure` value of a `Result`.

asdf-cxx's block reader (`read_block` and the `reader_state` constructor
that reads a stream) is not among the files modelled.
`BlockCodec.ParseBlock` and `BlockCodec.DecodeBlock` take its place here.
They are an independent reader of the block layout that the ASDF Standard
describes. The writer is proved against it: a block written with a
reversible compression decodes to the original bytes. A flushed stream,
read back at the offsets of its block index, gives every array's bytes at
the index its node records.

Modules, one per file:

| Module | File | Role |
|---|---|---|
| `Wrappers` | `wrappers.dfy` | `Option` and `Result` |
| `BigEndian` | `big_endian.dfy` | byte strings as big-endian integers, and the `output<T>` helper |
| `ScalarTypes` | `scalar_types.dfy` | the scalar kinds |
| `Blobs` | `blobs.dfy` | byte buffers |
| `BlockCodec` | `block_codec.dfy` | one block: writing it and reading it |
| `NDArrays` | `ndarrays.dfy` | the array descriptor and its constructor |
| `Seqs` | `seqs.dfy` | concatenations of byte runs and their offsets |
| `InlineArrays` | `inline_arrays.dfy` | inline emission |
| `Sessions` | `sessions.dfy` | writer and reader state |
| `ArrayNodes` | `array_nodes.dfy` | `to_yaml` |

## Model

| member | source | states |
|---|---|---|
| ScalarTypes.SizeOf | asdf.cpp:90-122 | Every numeric kind has a width of 1, 2, 4, 8 or 16 bytes. Exactly the two string kinds have none; for them the source reaches `assert(0)`. |
| ScalarTypes.NameOf | asdf.cpp:124-156 | Every numeric kind has a name of at least four characters. Exactly the two string kinds have none. |
| ScalarTypes.NameSpellsWidth | asdf.cpp:90-156 | The two tables agree: every named kind's name ends in its width in bits (`int16` is 2 bytes, `complex128` is 16). |
| ScalarTypes.NameIdentifiesType | asdf.cpp:124-156 | No two kinds share a name, so a `datatype` name identifies its kind. |
| ScalarTypes.ComplexText | asdf.cpp:158-169 | A complex number is written as the real text, a sign, the imaginary text and `i`. `+` is inserted exactly when the imaginary text does not begin with `-`. The imaginary text can be read back from the result. |
| BigEndian.Encode | asdf.cpp:289-294 | A header field of `width` bytes holds `v` most significant byte first: it has `width` bytes and decodes to `v`. |
| BigEndian.EncodeDecode | asdf.cpp:289-294 | Encoding is also the left inverse of decoding, so a field's bytes are determined by its value. |
| BigEndian.OutputAsWritten | asdf.cpp:289-294 | `output<T>` as written: `width` bytes, the object's memory bytes taken from the last address to the first, whatever the host's byte order. |
| BigEndian.OutputAsWrittenLittleHost | asdf.cpp:289-294 | On a little-endian host, copying an integer's memory from its last byte to its first gives its big-endian encoding. |
| BigEndian.OutputAsWrittenBigHost | asdf.cpp:289-294 | On a big-endian host the same copy gives the little-endian bytes. `header_size` 48 comes out as `30 00`, which reads as 12288. |
| Blobs.FromPointer | asdf_ndarray.hpp:79 | The `(void *, size_t)` constructor creates a borrowed view exactly when the pointer is not null. It then reports the viewed size. |
| Blobs.FromVector | asdf_ndarray.hpp:80-82 | The vector constructor always creates a borrowed view, with no null check, so an empty vector is accepted too. The view holds exactly the vector's bytes. |
| Blobs.BorrowedKeepsSize | asdf_ndarray.hpp:72-90 | A view made by either constructor refuses both `resize` and `reserve`. |
| Blobs.Resize | asdf_ndarray.hpp:32-90 | Borrowed memory refuses to resize. A typed blob resizes exactly when the count is a whole number of elements; a boolean blob always resizes. The blob kind is kept, the new size is `n`, the surviving prefix is kept and the new bytes are zero. |
| Blobs.ReserveAsWritten | asdf_ndarray.hpp:44-89 | `reserve` as written. A boolean blob always succeeds and is resized to `n` exactly as `Blobs.Resize` does: prefix kept, new bytes zero. A typed blob succeeds exactly when `n` is a whole number of elements, and it is then unchanged. Borrowed memory refuses. On every blob except a boolean one, it agrees with the intended `Blobs.Reserve`. |
| Blobs.ReserveAsWrittenResizesBools | asdf_ndarray.hpp:68 | Reserving 16 bytes on a 4-byte boolean blob gives a 16-byte blob padded with zeros. Reserving 0 empties it. |
| Blobs.Reserve | asdf_ndarray.hpp:44-89 | `reserve` as intended: the same refusal and alignment cases as `resize`, and the blob's contents and size never change. |
| Blobs.ResizeIdempotent | asdf_ndarray.hpp:48-69 | Resizing a second time to the same size changes nothing. |
| Blobs.ShrinkThenRegrow | asdf_ndarray.hpp:48-69 | Shrinking then growing back keeps the surviving prefix and zeroes the rest. |
| NDArrays.ProductNonNegative | asdf_ndarray.hpp:124-131 | The element count of a shape with no negative extent is non-negative. It is positive exactly when no extent is zero. |
| NDArrays.RowMajorStridesAsWritten | asdf_ndarray.hpp:138-145 | The constructor's default strides: the last stride is the element size, and each other stride is the next stride times the next extent. |
| NDArrays.ZeroExtentGivesZeroStride | asdf_ndarray.hpp:123-148 | For shape `[3, 0]` of 8-byte elements and no data, the shape and size checks pass, but the default strides are `[0, 8]` and fail the nonzero-stride check. |
| NDArrays.RowMajorStrides | asdf_ndarray.hpp:138-145 | The corrected default strides: as above, except that an empty dimension contributes a factor of 1. |
| NDArrays.RowMajorStridesAgree | asdf_ndarray.hpp:138-145 | When no extent inside the outermost one is zero, the corrected strides equal the constructor's. The outermost extent enters neither computation. |
| NDArrays.RowMajorStridesPositive | asdf_ndarray.hpp:138-148 | For a non-negative shape, every corrected default stride is at least the element size, so it passes the stride check. |
| NDArrays.LeadingStride | asdf_ndarray.hpp:138-145 | When no extent is zero, the outermost default stride is the element size times the element count of the inner dimensions. |
| NDArrays.ConstructWith | asdf_ndarray.hpp:123-148 | The constructor's checks, with the default-stride rule as a parameter. It succeeds exactly when there is no negative extent, the data size equals element count times width, the mask is empty or has one entry per element, the offset is non-negative, and the strides (given, or else the defaults) are one per dimension and nonzero. The result keeps every argument and satisfies the array invariant. A negative extent is the error reported first. |
| NDArrays.ConstructAsWritten | asdf_ndarray.hpp:115-150 | The constructor as written. It succeeds exactly when the checks above pass and, when no strides are given, the constructor's own default strides are all nonzero. Missing strides become those defaults. |
| NDArrays.ConstructAsWrittenRejectsEmptyArray | asdf_ndarray.hpp:123-148 | The empty 3 x 0 array of 8-byte elements with no strides given fails as written with `ZeroStride`; the corrected constructor accepts it. |
| NDArrays.Construct | asdf_ndarray.hpp:115-150 | The constructor with the corrected default strides. It succeeds exactly when the shape, size, mask and offset checks pass and the strides are either absent or one per dimension and nonzero: default strides always pass. The result keeps every argument and satisfies the array invariant. Absent strides become `NDArrays.RowMajorStrides`. A negative extent is the error reported first. |
| NDArrays.ConstructAsWrittenAgrees | asdf_ndarray.hpp:115-150 | When no extent inside the outermost one is zero, the constructor as written and the corrected one give the same array or the same error. |
| InlineArrays.EmitInline | asdf.cpp:252-287 | The emitted node nests like the shape. Rank 0 is a one-element sequence; rank 1 is a sequence of `shape[0]` scalars; higher ranks are `shape[0]` nodes of the inner shape. |
| InlineArrays.LeafCount | asdf.cpp:252-287 | A node nested like a shape holds exactly as many scalars as the shape has elements. |
| InlineArrays.EmitInlineElementAt | asdf.cpp:252-287 | For any strides, the scalar found at an index of the shape is the one stored at the address plus the sum of `idx[d] * strides[d]`; an index outside the shape finds nothing. |
| InlineArrays.EmitInlineLeafCount | asdf.cpp:252-287 | Inline emission writes one scalar per element, for any strides. |
| InlineArrays.RowMajorReadingOrder | asdf.cpp:252-287 | With the default strides, reading the emitted tree in order visits the elements in storage order: scalar `k` is read at `address + k * size`. |
| InlineArrays.FlattenRuns | asdf.cpp:283-285 | The runs emitted for consecutive sub-arrays, each one stride apart, join into one contiguous run. |
| BlockCodec.TagOf | asdf.cpp:317-432 | Every compression tag the writer emits is four bytes long. |
| BlockCodec.ParseTagOf | asdf.cpp:317-432 | A reader maps each tag the writer emits back to the compression it names. |
| BlockCodec.StorePayload | asdf.cpp:316-430 | The compressed bytes are kept, with the compression's tag, exactly when the compressor is available and makes the data strictly shorter. Otherwise the tag is zero and the original bytes are stored. The stored bytes are never longer than the original. |
| BlockCodec.HeaderBytes | asdf.cpp:298-459 | The header as the writer builds it, placeholder then patch, is 54 bytes long and starts with the magic token. |
| BlockCodec.PatchedHeader | asdf.cpp:306-459 | Patching the placeholder writes 48 into `header_size` and leaves every other header byte where it was. The result is the header that the ASDF block layout describes. |
| BlockCodec.WriteBlock | asdf.cpp:298-467 | A written block is exactly 54 header bytes longer than the stored payload: no padding follows it. |
| BlockCodec.WriteBlockIsHeaderThenPayload | asdf.cpp:430-467 | A written block consists of: magic, `header_size` 48, zero flags, the tag, allocated and used space both equal to the stored length, the data space of the original, the checksum, then exactly the stored bytes with no padding. |
| BlockCodec.HeaderLayout | asdf.cpp:298-459 | Each header field lies at its fixed byte range: magic 0-4, header size 4-6, flags 6-10, compression 10-14, three sizes 14-38, checksum 38-54, payload from 54. |
| BlockCodec.ParseWrittenBlock | asdf.cpp:298-467 | Whatever follows a written block, a reader parses these values back: header size 48, flags 0, the compression that was applied, the stored length twice, the original length, the checksum and the stored bytes. |
| BlockCodec.WriteThenDecode | asdf.cpp:298-467 | Write then read: whenever the chosen compression can be undone, a written block decodes to the original bytes, whatever follows it. |
| Sessions.AddTask | asdf_io.hpp:60-63 | `add_task` appends the task and returns its position, which is the number of tasks registered before it. |
| Sessions.AddTasksIndices | asdf_io.hpp:60-63 | Successive registrations return consecutive indices, starting at the number of tasks already present. Each index addresses its own task. |
| Sessions.Flush | asdf.cpp:35-52 | With no task pending, nothing is written. Otherwise the stream gets every task's output in registration order, then the block index with the `#ASDF BLOCK INDEX` marker lines. The recorded offsets are the positions where the outputs start. The task list is emptied. |
| Sessions.BlockAtOffset | asdf.cpp:35-52 | In a flushed stream, the bytes at the `i`-th recorded offset are exactly what the `i`-th task wrote. Later offsets lie at least a block header further on. |
| Sessions.GetBlock | asdf_io.hpp:34-37 | `get_block` returns the block at an index in range. A negative index fails the assertion, and an index past the end is out of range. |
| Sessions.LoadConcatenated | asdf.cpp:35-52 | Blocks placed one after another, with anything before them and after them, load back at their offsets as the data each one decodes to. |
| Sessions.WrittenBlocksDecode | asdf.cpp:298-467 | The block each task writes decodes to that task's bytes, whatever follows it in the stream. |
| Sessions.LoadWrittenBlocks | asdf.cpp:35-52 | After a flush, reading the blocks at the offsets of the index gives every task's bytes at its own index, and the index after the last is out of range. |
| Sessions.LoadRegisteredBlock | asdf_io.hpp:60-63 | The index `add_task` returned for a task keeps naming that task's bytes after later registrations and the flush. |
| ArrayNodes.ByteOrderName | asdf.cpp:229-237 | `big` is written exactly for big-endian and `little` exactly for little-endian. |
| ArrayNodes.ToYaml | asdf.cpp:469-502 | Conversion succeeds exactly when the mask is empty. Every node carries the ndarray tag, the element type's name and the shape. A block-format node registers one task with the array's bytes and compression; its `source` is that task's index, and it also records the host byte order, the offset and the strides, but no inline data. An inline node leaves the writer unchanged and holds data nested like the shape, without `source`, `byteorder`, `offset` or `strides`. |
| ArrayNodes.InlineDataInStorageOrder | asdf.cpp:469-482 | An inline array with default strides lists its elements in storage order, starting at its offset. |
| ArrayNodes.InlineDataElementAt | asdf.cpp:469-482 | For any strides, the inline data of an array holds at each index the element stored `Dot(idx, strides)` bytes past the array's offset, and nothing outside the shape. |
| ArrayNodes.InlineDataElementCount | asdf.cpp:469-482 | An inline array's data holds exactly one scalar per element. |
| ArrayNodes.SourceNamesArrayBlock | asdf.cpp:469-476 | The `source` of a block-format node names the block that holds the array's bytes. This holds after any further registrations and the flush, when the blocks are read back at the offsets of the index. |

## Left out

Where a description of the library and its code differ:

- The default strides are byte strides. The innermost one is the element
  size (asdf_ndarray.hpp:140). As written, each outer stride multiplies in
  the next extent (`NDArrays.ConstructAsWritten`). The corrected strides
  used by `NDArrays.Construct` multiply in 1 for an empty dimension; see
  the second finding below.
- Header integers are written by `output<T>`, which is big-endian only on a
  little-endian host. The model's header is the intended big-endian one;
  see the first finding below and the `BlockCodec.WriteBlock` line.
- A block-format node records the host's byte order (asdf.cpp:489), not the
  array's own `byteorder`. The model follows the code here.

Contracts stated for the corrected behaviour, or weaker than the code:

- NDArrays.Construct: fills in missing strides with the corrected `NDArrays.RowMajorStrides`. So it accepts an array with an empty dimension inside the outermost one, where the code's own default strides contain 0 and its stride assertion fails. `NDArrays.ConstructAsWritten` is the code's behaviour, and `NDArrays.ConstructAsWrittenAgrees` shows the two agree everywhere else.
- BlockCodec.WriteBlock: encodes every header integer with `BigEndian.Encode`. That is what `output<T>` produces on a little-endian host and what its comment intends; on a big-endian host the code writes the bytes reversed (`BigEndian.OutputAsWrittenBigHost`). This also holds for `BlockCodec.HeaderBytes`, `BlockCodec.PatchedHeader`, `BlockCodec.WriteBlockIsHeaderThenPayload`, `BlockCodec.ParseWrittenBlock` and `BlockCodec.WriteThenDecode`.
- InlineArrays.EmitInline: a dimension of extent 0 gives an empty sequence here. In the code, the `YAML::Node` at asdf.cpp:268 or asdf.cpp:275 is then never indexed. A yaml-cpp node that is never indexed stays a null node, so the code emits null, not an empty sequence. YAML node construction is not modelled (see below).
- ArrayNodes.ToYaml: its own contract states only how inline data is nested. The element at each index, for any strides, is stated separately by `ArrayNodes.InlineDataElementAt`, and storage order for the default strides by `ArrayNodes.InlineDataInStorageOrder`.

Not modelled:

- Compression and MD5 internals. bzip2, zlib and MD5 are function-valued parameters (`BlockCodec.Libraries`). `None` stands for a library the build was configured without. The fixed bzip2 output buffer of 600 bytes plus 1% is not modelled, and neither are the assertions on the library return codes: the compressor is assumed to return its output.
- Streams and YAML. An output stream is the byte sequence written so far, and `tellp()` is its length. The YAML emitter enters only through the `emitIndex` parameter, which renders the offset list of the block index. Node styles (flow or block) are not modelled.
- `emit_scalar` and the formatting of floating-point numbers. They are the `read` parameter of `ArrayNodes.ToYaml`, which reads the scalar of a kind stored at a byte address.
- `host_byteorder()`, which probes the machine. It is the `host` parameter.
- `read_block` and the `reader_state(istream &)` constructor, which are declared but not defined in the code modelled. `Sessions.LoadBlocks` stands in for them: it decodes the block at each offset of the index.
- `datatype_t` and its `type_size()`, since `asdf_datatype.hpp` is not part of this model. The element width comes from `ScalarTypes.SizeOf`, so an array of one of the two string kinds is refused by `NDArrays.Construct`. The class declares a `datatype` member, but `to_yaml` reads a `scalar_type_id` that the declaration in asdf_ndarray.hpp does not have. Both are the one `scalarType` field here.
- Fixed-width arithmetic. `int64_t` overflow of the element count and of the strides in the constructor is not modelled, since integers are unbounded. Byte counts written into the header are required to be below 2^64; `Sessions.Payload` carries that bound for the data of each task.
- The `ndarray` copy and move operations, the virtual destructors, and the `writer_state` constructor and destructor.
- The rest of the library: reference resolution, tables and columns, the `asdf` document type, `software`, copying, and the demo programs.
## Findings

| source | as written | input that shows it | evidently intended | confidence | as-written member | corrected member |
|---|---|---|---|---|---|---|
| asdf.cpp:289-294 | `output<T>` copies an integer's memory from the last byte to the first, which is big-endian only on a little-endian host | a big-endian host writing `header_size` 48 emits `30 00`, which a reader takes for 12288 | header fields are always big-endian, as the comment in `output<T>` and the ASDF block layout say | medium, not executed | BigEndian.OutputAsWrittenBigHost | BigEndian.Encode |
| asdf_ndarray.hpp:138-148 | the default stride outside a dimension of extent 0 is 0, and the constructor's next check rejects zero strides | shape `[3, 0]`, 8-byte elements, no data, no strides: the default strides are `[0, 8]` | an empty array with default strides is accepted, so an empty dimension contributes a factor of 1 to the strides outside it | high, not executed | NDArrays.ConstructAsWrittenRejectsEmptyArray | NDArrays.Construct |
| asdf_ndarray.hpp:68 | `blob_t<bool>::reserve` calls `resize`, so reserving changes the blob's size and contents | reserving 16 bytes on a 4-byte boolean blob makes it a 16-byte blob | `reserve` only reserves capacity and leaves the contents alone, as it does for `blob_t<T>` | high, not executed | Blobs.ReserveAsWrittenResizesBools | Blobs.Reserve |

The model's own header uses `BigEndian.Encode`, and its constructor uses
`NDArrays.RowMajorStrides`. `NDArrays.ZeroExtentGivesZeroStride` shows the
zero stride itself. `NDArrays.RowMajorStridesAgree` and
`NDArrays.ConstructAsWrittenAgrees` show that the corrected strides and
constructor agree with the code's wherever no dimension inside the
outermost one is empty.
