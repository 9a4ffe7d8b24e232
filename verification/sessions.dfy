/** The writer's deferred-block protocol and the reader's block lookup. */
module Sessions {
  import opened Wrappers
  import opened BigEndian
  import opened Blobs
  import opened BlockCodec
  import opened Seqs

  /** Bytes an array can hold: a `size_t` count. */
  type Payload = s: seq<byte> | |s| < TwoTo64

  /** A deferred block write: what the closure registered by `to_yaml`
      captures, the array's bytes and its compression choice. */
  datatype Task = BlockTask(data: Payload, compression: Compression)

  /** `writer_state`: the tasks registered so far, in registration order. */
  datatype WriterState = WriterState(tasks: seq<Task>)

  datatype Registered = Registered(writer: WriterState, index: nat)

  /** `add_task`: appends the task and returns the number of tasks that
      were registered before it, which is the new task's position. */
  function AddTask(ws: WriterState, task: Task): (r: Registered)
    ensures r.index == |ws.tasks|
    ensures |r.writer.tasks| == |ws.tasks| + 1
    ensures r.index < |r.writer.tasks| && r.writer.tasks[..r.index] == ws.tasks && r.writer.tasks[r.index] == task
  {
    Registered(WriterState(ws.tasks + [task]), |ws.tasks|)
  }

  /** Registers `ts` one after another and collects the indices handed out. */
  function AddTasks(ws: WriterState, ts: seq<Task>): (r: (WriterState, seq<nat>))
    decreases |ts|
  {
    if |ts| == 0 then (ws, [])
    else
      var first := AddTask(ws, ts[0]);
      var more := AddTasks(first.writer, ts[1..]);
      (more.0, [first.index] + more.1)
  }

  /** Indices run consecutively from the number of tasks already present
      (from 0 in a fresh session), and each index addresses its own task. */
  lemma {:induction false} AddTasksIndices(ws: WriterState, ts: seq<Task>)
    ensures var (ws', indices) := AddTasks(ws, ts);
            && |indices| == |ts|
            && ws'.tasks == ws.tasks + ts
            && (forall k :: 0 <= k < |ts| ==> indices[k] == |ws.tasks| + k)
            && (forall k :: 0 <= k < |ts| ==> ws'.tasks[indices[k]] == ts[k])
    decreases |ts|
  {
    if |ts| > 0 {
      var first := AddTask(ws, ts[0]);
      AddTasksIndices(first.writer, ts[1..]);
      var more := AddTasks(first.writer, ts[1..]);
      var (ws', indices) := AddTasks(ws, ts);
      assert ws'.tasks == ws.tasks + ts by {
        assert first.writer.tasks + ts[1..] == ws.tasks + ts;
      }
      forall k | 0 <= k < |ts|
        ensures indices[k] == |ws.tasks| + k
      {
        if k > 0 {
          assert indices[k] == more.1[k - 1];
        }
      }
      forall k | 0 <= k < |ts|
        ensures ws'.tasks[indices[k]] == ts[k]
      {
        assert (ws.tasks + ts)[|ws.tasks| + k] == ts[k];
      }
    }
  }

  /** The bytes the task appends when it runs: one block. */
  function BlockOf(lib: Libraries, t: Task): (r: seq<byte>)
    ensures |r| >= HeaderLength
  {
    WriteBlock(lib, t.compression, t.data)
  }

  /** What each task appends, in registration order. */
  function Outputs(run: Task -> seq<byte>, tasks: seq<Task>): (r: seq<seq<byte>>)
    ensures |r| == |tasks|
  {
    seq(|tasks|, i requires 0 <= i < |tasks| => run(tasks[i]))
  }

  function Ascii(s: string): seq<byte>
    requires forall i :: 0 <= i < |s| ==> s[i] as int < 256
  {
    seq(|s|, i requires 0 <= i < |s| => s[i] as int)
  }

  /** The block index appended after the blocks: marker lines, the offsets
      as the YAML emitter writes a flow sequence, and the document end. */
  function Trailer(emitIndex: seq<nat> -> seq<byte>, offsets: seq<nat>): seq<byte> {
    Ascii("#ASDF BLOCK INDEX\n%YAML 1.1\n---\n") + emitIndex(offsets) + Ascii("\n...\n")
  }

  /** Index integrity: in the stream `flush` produces, the bytes at the
      `i`-th recorded offset are exactly what the `i`-th task appended, and
      when every task appends at least a block header the recorded offsets
      are at least that far apart. */
  lemma BlockAtOffset(run: Task -> seq<byte>, tasks: seq<Task>, stream: seq<byte>, trailer: seq<byte>, i: nat)
    requires i < |tasks|
    requires forall k :: 0 <= k < |tasks| ==> |run(tasks[k])| >= HeaderLength
    ensures var blocks := Outputs(run, tasks);
            var out := stream + Flatten(blocks) + trailer;
            var offset := Offsets(blocks, |stream|)[i];
            && offset + |run(tasks[i])| <= |out|
            && out[offset..offset + |run(tasks[i])|] == run(tasks[i])
            && forall j :: i < j < |tasks| ==> offset + HeaderLength <= Offsets(blocks, |stream|)[j]
  {
    var blocks := Outputs(run, tasks);
    PartAtOffset(blocks, stream, trailer, i);
    assert forall k :: 0 <= k < |blocks| ==> |blocks[k]| >= HeaderLength by {
      assert forall k :: 0 <= k < |blocks| ==> blocks[k] == run(tasks[k]);
    }
    forall j | i < j < |tasks|
      ensures Offsets(blocks, |stream|)[i] + HeaderLength <= Offsets(blocks, |stream|)[j]
    {
      OffsetsIncrease(blocks, |stream|, HeaderLength, i, j);
    }
  }

  /** `flush`: nothing happens when no task is pending. Otherwise each task
      in registration order has the current stream position recorded and
      then runs, appending its bytes; the task list is cleared and the
      block index is appended. The position of the stream is its length;
      `run` is what a task appends (for every task `to_yaml` registers, one
      block: `BlockOf`). */
  method Flush(run: Task -> seq<byte>, emitIndex: seq<nat> -> seq<byte>, ws: WriterState, stream: seq<byte>)
    returns (ws': WriterState, stream': seq<byte>, offsets: seq<nat>)
    ensures ws'.tasks == []
    ensures |ws.tasks| == 0 ==> stream' == stream && offsets == []
    ensures |ws.tasks| > 0 ==>
              stream' == stream + Flatten(Outputs(run, ws.tasks)) + Trailer(emitIndex, offsets)
    ensures offsets == Offsets(Outputs(run, ws.tasks), |stream|)
  {
    if |ws.tasks| == 0 {
      return ws, stream, [];
    }
    var tasks := ws.tasks;
    ghost var outputs := Outputs(run, tasks);
    offsets := [];
    stream' := stream;
    var i := 0;
    while i < |tasks|
      invariant 0 <= i <= |tasks|
      invariant stream' == stream + Flatten(outputs[..i])
      invariant offsets == Offsets(outputs[..i], |stream|)
    {
      OffsetsSnoc(outputs, |stream|, i);
      FlattenSnoc(outputs, i);
      offsets := offsets + [|stream'|];
      stream' := stream' + run(tasks[i]);
      i := i + 1;
    }
    assert outputs[..i] == outputs;
    ws' := WriterState([]);
    stream' := stream' + Trailer(emitIndex, offsets);
  }

  /** `reader_state`: the blocks of a file, in file order. */
  datatype ReaderState = ReaderState(blocks: seq<Blob>)

  datatype ReadError = NegativeIndex | IndexOutOfRange

  /** `get_block`: the block at `index`; a negative index fails the
      assertion and one past the end makes `at()` throw. */
  function GetBlock(rs: ReaderState, index: int): (r: Result<Blob, ReadError>)
    ensures r.Success? <==> 0 <= index < |rs.blocks|
    ensures r.Success? ==> r.value == rs.blocks[index]
    ensures index < 0 ==> r == Failure(NegativeIndex)
    ensures index >= |rs.blocks| ==> r == Failure(IndexOutOfRange)
  {
    if index < 0 then Failure(NegativeIndex)
    else if index >= |rs.blocks| then Failure(IndexOutOfRange)
    else Success(rs.blocks[index])
  }

  /** Decodes the block at each index offset into a byte blob. */
  function LoadBlocks(lib: Libraries, stream: seq<byte>, offsets: seq<nat>): (r: Result<ReaderState, CodecError>)
    ensures r.Success? ==> |r.value.blocks| == |offsets|
  {
    if |offsets| == 0 then Success(ReaderState([]))
    else
      var last := offsets[|offsets| - 1];
      if last > |stream| then Failure(Truncated)
      else
        var rs :- LoadBlocks(lib, stream, offsets[..|offsets| - 1]);
        var data :- DecodeBlock(lib, stream[last..]);
        Success(ReaderState(rs.blocks + [Owned(1, data)]))
  }

  /** The first `k` entries of `data` as the byte blobs a reader holds. */
  function ByteBlobs(data: seq<seq<byte>>, k: nat): (r: seq<Blob>)
    requires k <= |data|
    ensures |r| == k
    ensures forall i :: 0 <= i < k ==> r[i] == Owned(1, data[i])
  {
    if k == 0 then [] else ByteBlobs(data, k - 1) + [Owned(1, data[k - 1])]
  }

  /** Loading at the first `k` offsets, when each of them holds a block
      that decodes to the matching entry of `data`, gives those entries as
      byte blobs in order. */
  lemma {:induction false} LoadPrefix(lib: Libraries, stream: seq<byte>, offsets: seq<nat>,
                                      data: seq<seq<byte>>, k: nat)
    requires k <= |offsets| == |data|
    requires forall i :: 0 <= i < |offsets| ==>
               offsets[i] <= |stream| && DecodeBlock(lib, stream[offsets[i]..]) == Success(data[i])
    ensures LoadBlocks(lib, stream, offsets[..k]) == Success(ReaderState(ByteBlobs(data, k)))
  {
    if k == 0 {
      assert offsets[..0] == [];
    } else {
      LoadPrefix(lib, stream, offsets, data, k - 1);
      assert DecodeBlock(lib, stream[offsets[k - 1]..]) == Success(data[k - 1]);
      LoadBlocksStep(lib, stream, offsets, k);
    }
  }

  /** Loading one more offset appends the block decoded there. */
  lemma LoadBlocksStep(lib: Libraries, stream: seq<byte>, offsets: seq<nat>, k: nat)
    requires 0 < k <= |offsets| && offsets[k - 1] <= |stream|
    requires LoadBlocks(lib, stream, offsets[..k - 1]).Success?
    requires DecodeBlock(lib, stream[offsets[k - 1]..]).Success?
    ensures LoadBlocks(lib, stream, offsets[..k]) ==
              Success(ReaderState(LoadBlocks(lib, stream, offsets[..k - 1]).value.blocks
                                  + [Owned(1, DecodeBlock(lib, stream[offsets[k - 1]..]).value)]))
  {
    assert offsets[..k][..k - 1] == offsets[..k - 1];
  }

  /** Each of `blocks` decodes to the matching entry of `data`, whatever
      bytes follow it. */
  ghost predicate DecodesTo(lib: Libraries, blocks: seq<seq<byte>>, data: seq<seq<byte>>) {
    && |blocks| == |data|
    && forall i, rest: seq<byte> :: 0 <= i < |blocks| ==> DecodeBlock(lib, blocks[i] + rest) == Success(data[i])
  }

  /** Blocks written one after another are read back in order at their
      offsets, whatever precedes and follows them. */
  lemma LoadConcatenated(lib: Libraries, blocks: seq<seq<byte>>, data: seq<seq<byte>>,
                         stream: seq<byte>, trailer: seq<byte>)
    requires DecodesTo(lib, blocks, data)
    ensures LoadBlocks(lib, stream + Flatten(blocks) + trailer, Offsets(blocks, |stream|))
              == Success(ReaderState(ByteBlobs(data, |data|)))
  {
    var out := stream + Flatten(blocks) + trailer;
    var offsets := Offsets(blocks, |stream|);
    forall i | 0 <= i < |offsets|
      ensures offsets[i] <= |out| && DecodeBlock(lib, out[offsets[i]..]) == Success(data[i])
    {
      PartAtOffset(blocks, stream, trailer, i);
      var end := offsets[i] + |blocks[i]|;
      SplitSuffix(out, offsets[i], end);
      assert out[offsets[i]..] == blocks[i] + out[end..];
    }
    LoadPrefix(lib, out, offsets, data, |data|);
    assert offsets[..|data|] == offsets;
  }

  /** The data each task carries. */
  function TaskData(tasks: seq<Task>): (r: seq<seq<byte>>)
    ensures |r| == |tasks|
  {
    seq(|tasks|, i requires 0 <= i < |tasks| => tasks[i].data)
  }

  /** The blocks `write_block` produces for the tasks decode to their data. */
  lemma WrittenBlocksDecode(lib: Libraries, tasks: seq<Task>)
    requires forall i :: 0 <= i < |tasks| ==> Reversible(lib, tasks[i].compression, tasks[i].data)
    ensures DecodesTo(lib, Outputs(t => BlockOf(lib, t), tasks), TaskData(tasks))
  {
    var blocks := Outputs(t => BlockOf(lib, t), tasks);
    forall i, rest: seq<byte> | 0 <= i < |blocks|
      ensures DecodeBlock(lib, blocks[i] + rest) == Success(TaskData(tasks)[i])
    {
      WriteThenDecode(lib, tasks[i].compression, tasks[i].data, rest);
    }
  }

  /** Write then read: loading the blocks at the offsets of the block index
      and looking up block `i` gives back the data of the `i`-th registered
      task, and an index past the last block is refused. */
  lemma LoadWrittenBlocks(lib: Libraries, tasks: seq<Task>, stream: seq<byte>, trailer: seq<byte>)
    requires forall i :: 0 <= i < |tasks| ==> Reversible(lib, tasks[i].compression, tasks[i].data)
    ensures var blocks := Outputs(t => BlockOf(lib, t), tasks);
            var out := stream + Flatten(blocks) + trailer;
            var loaded := LoadBlocks(lib, out, Offsets(blocks, |stream|));
            && loaded.Success?
            && (forall i :: 0 <= i < |tasks| ==> GetBlock(loaded.value, i) == Success(Owned(1, tasks[i].data)))
            && GetBlock(loaded.value, |tasks|) == Failure(IndexOutOfRange)
  {
    WrittenBlocksDecode(lib, tasks);
    LoadConcatenated(lib, Outputs(t => BlockOf(lib, t), tasks), TaskData(tasks), stream, trailer);
  }

  /** A block registered after `before` and ahead of `after` is found by a
      reader at index `|before|` of the flushed stream's block index. */
  lemma LoadRegisteredBlock(lib: Libraries, before: seq<Task>, t: Task, after: seq<Task>,
                            emitIndex: seq<nat> -> seq<byte>, stream: seq<byte>)
    requires forall i :: 0 <= i < |before| ==> Reversible(lib, before[i].compression, before[i].data)
    requires Reversible(lib, t.compression, t.data)
    requires forall i :: 0 <= i < |after| ==> Reversible(lib, after[i].compression, after[i].data)
    ensures var blocks := Outputs(tk => BlockOf(lib, tk), before + [t] + after);
            var offsets := Offsets(blocks, |stream|);
            var loaded := LoadBlocks(lib, stream + Flatten(blocks) + Trailer(emitIndex, offsets), offsets);
            loaded.Success? && GetBlock(loaded.value, |before|) == Success(Owned(1, t.data))
  {
    var tasks := before + [t] + after;
    var k := |before|;
    forall i | 0 <= i < |tasks|
      ensures Reversible(lib, tasks[i].compression, tasks[i].data)
    {
      if i < k {
        assert tasks[i] == before[i];
      } else if i > k {
        assert tasks[i] == after[i - k - 1];
      } else {
        assert tasks[i] == t;
      }
    }
    var blocks := Outputs(tk => BlockOf(lib, tk), tasks);
    LoadWrittenBlocks(lib, tasks, stream, Trailer(emitIndex, Offsets(blocks, |stream|)));
  }
}
