/** The chunk loops of `flashtool.py`: the 512-byte plan shared by `do_cmd_read` and
    `do_cmd_write`, the two loops as methods that return the ops they issued, and the
    proof that a successful write hands the device the file's bytes in order.

    The loops are stated over an abstract `Send`, the exchange as a function of the ops
    already issued and the command; `Sender` instantiates it with `send_command`. */
module Transfer {
  import opened Results
  import opened Bytes
  import opened Commands
  import opened Channel

  const ChunkSize: int := 512

  function Min(a: int, b: int): int {
    if a <= b then a else b
  }

  // ---------------------------------------------------------------------------
  // Chunk plan
  // ---------------------------------------------------------------------------

  /** One loop iteration's slice of the transfer: where it starts and how long it is. */
  datatype Chunk = Chunk(start: int, size: int)

  /** The chunks the do-while loops of `do_cmd_read` / `do_cmd_write` issue for `remain`
      bytes from `start`: one chunk of `min(remain, 512)` per iteration, and another
      iteration only while something remains. A non-positive total still yields one. */
  function ChunkPlan(start: int, remain: int): (p: seq<Chunk>)
    ensures |p| >= 1 && p[0] == Chunk(start, Min(remain, ChunkSize))
    decreases if remain > 0 then remain else 0
  {
    if remain <= ChunkSize then [Chunk(start, remain)]
    else [Chunk(start, ChunkSize)] + ChunkPlan(start + ChunkSize, remain - ChunkSize)
  }

  function PlanTotal(p: seq<Chunk>): int {
    if p == [] then 0 else p[0].size + PlanTotal(p[1..])
  }

  /** The loops' single iteration for an empty or negative total. */
  lemma ChunkPlanNonPositive(start: int, remain: int)
    requires remain <= 0
    ensures ChunkPlan(start, remain) == [Chunk(start, remain)]
  {
  }

  /** For a positive total there are ceil(total / 512) chunks, each of 1 to 512 bytes,
      and all but the last are full. */
  lemma {:induction false} ChunkPlanSizes(start: int, remain: int)
    requires remain > 0
    ensures var p := ChunkPlan(start, remain);
      && |p| == (remain + ChunkSize - 1) / ChunkSize
      && (forall i :: 0 <= i < |p| ==> 0 < p[i].size <= ChunkSize)
      && (forall i :: 0 <= i < |p| - 1 ==> p[i].size == ChunkSize)
    decreases remain
  {
    var p := ChunkPlan(start, remain);
    if remain > ChunkSize {
      var q := ChunkPlan(start + ChunkSize, remain - ChunkSize);
      ChunkPlanSizes(start + ChunkSize, remain - ChunkSize);
      assert p == [Chunk(start, ChunkSize)] + q;
      assert forall i :: 0 < i < |p| ==> p[i] == q[i - 1];
    } else {
      assert p == [Chunk(start, remain)];
    }
  }

  /** Chunk i starts where chunk i - 1 ended. */
  predicate Follows(p: seq<Chunk>, i: int)
    requires 0 < i < |p|
  {
    p[i].start == p[i - 1].start + p[i - 1].size
  }

  /** Each chunk starts where the previous one ended. */
  predicate Contiguous(p: seq<Chunk>) {
    forall i :: 0 < i < |p| ==> Follows(p, i)
  }

  /** For a positive total the chunks are contiguous: each starts where the previous one
      ended, the first at `start` and the last ending at `start + total`. */
  lemma ChunkPlanContiguous(start: int, remain: int)
    requires remain > 0
    ensures var p := ChunkPlan(start, remain);
      && p[0].start == start
      && Contiguous(p)
      && p[|p| - 1].start + p[|p| - 1].size == start + remain
  {
    ChunkPlanLinked(start, remain);
    ChunkPlanEnds(start, remain);
  }

  lemma {:induction false} ChunkPlanLinked(start: int, remain: int)
    requires remain > 0
    ensures Contiguous(ChunkPlan(start, remain))
    decreases remain
  {
    ChunkPlanTail(start, remain);
    if remain > ChunkSize {
      ChunkPlanLinked(start + ChunkSize, remain - ChunkSize);
      ContiguousFromTail(ChunkPlan(start, remain));
    } else {
      assert |ChunkPlan(start, remain)| == 1;
    }
  }

  lemma {:induction false} ChunkPlanEnds(start: int, remain: int)
    requires remain > 0
    ensures var p := ChunkPlan(start, remain);
      p[|p| - 1].start + p[|p| - 1].size == start + remain
    decreases remain
  {
    var p := ChunkPlan(start, remain);
    ChunkPlanTail(start, remain);
    if remain > ChunkSize {
      var q := ChunkPlan(start + ChunkSize, remain - ChunkSize);
      ChunkPlanEnds(start + ChunkSize, remain - ChunkSize);
      assert p[|p| - 1] == q[|q| - 1] by { assert p[1..][|q| - 1] == q[|q| - 1]; }
    } else {
      assert |p| == 1 && p[0] == Chunk(start, remain);
    }
  }

  /** A plan is contiguous when its tail is and its second chunk starts where the first
      one ends. */
  lemma ContiguousFromTail(p: seq<Chunk>)
    requires p != [] && Contiguous(p[1..])
    requires |p| > 1 ==> p[1].start == p[0].start + p[0].size
    ensures Contiguous(p)
  {
    var q := p[1..];
    forall i | 0 < i < |p|
      ensures Follows(p, i)
    {
      if i > 1 {
        assert Follows(q, i - 1);
        assert p[i] == q[i - 1] && p[i - 1] == q[i - 2];
      }
    }
  }

  /** The chunk sizes of any plan add up to its total (for a positive total). */
  lemma {:induction false} ChunkPlanTotal(start: int, remain: int)
    requires remain > 0
    ensures PlanTotal(ChunkPlan(start, remain)) == remain
    decreases remain
  {
    var p := ChunkPlan(start, remain);
    if remain > ChunkSize {
      ChunkPlanTotal(start + ChunkSize, remain - ChunkSize);
      assert p[1..] == ChunkPlan(start + ChunkSize, remain - ChunkSize);
    } else {
      assert p[1..] == [];
    }
  }

  // ---------------------------------------------------------------------------
  // Chunked read
  // ---------------------------------------------------------------------------

  /** `controller.send_command` as the flows see it: given the ops already issued,
      one command's exchange. `Sender` instantiates it with the authenticated exchange. */
  type Send = (seq<Op>, Command) -> Exchange

  function Sender(ctl: Controller, prim: Primitives, dev: Device): Send {
    (past: seq<Op>, cmd: Command) => SendCommand(ctl, prim, dev, past, cmd)
  }

  /** Ops issued by a run of commands, and what it produced or why it stopped. */
  datatype Run<T> = Run(ops: seq<Op>, result: Result<T, SendError>)

  /** Stack the run of earlier chunks in front of the run of later ones. */
  function Prepend(ops: seq<Op>, data: bytes, r: Run<bytes>): Run<bytes> {
    Run(ops + r.ops, if r.result.Ok? then Ok(data + r.result.value) else r.result)
  }

  lemma PrependIdentities(d: bytes, r: Run<bytes>)
    ensures Prepend([], [], r) == r
    ensures Prepend(r.ops, d, Run([], Ok([]))) == Run(r.ops, Ok(d))
  {
    assert [] + r.ops == r.ops;
    assert r.ops + [] == r.ops && d + [] == d;
    if r.result.Ok? {
      assert [] + r.result.value == r.result.value;
    }
  }

  lemma PrependAssoc(a: seq<Op>, d: bytes, b: seq<Op>, e: bytes, r: Run<bytes>)
    ensures Prepend(a, d, Prepend(b, e, r)) == Prepend(a + b, d + e, r)
  {
    assert a + (b + r.ops) == (a + b) + r.ops;
    if r.result.Ok? {
      assert d + (e + r.result.value) == (d + e) + r.result.value;
    }
  }

  /** The bytes a successful Read stored as its result. */
  function ReadBytes(c: Command): bytes {
    if c.Read? && c.readResult.Some? then c.readResult.value else []
  }

  /** Reference behaviour of the read loop over a given plan: send each chunk's Read in
      order, append each result, stop at the first failure. */
  function ReadChunks(send: Send, past: seq<Op>, plan: seq<Chunk>): (r: Run<bytes>)
    decreases |plan|
  {
    if plan == [] then Run([], Ok([]))
    else
      var x := send(past, NewRead(plan[0].start, plan[0].size));
      if x.result.Err? then Run(x.ops, Err(x.result.error))
      else Prepend(x.ops, ReadBytes(x.result.value), ReadChunks(send, past + x.ops, plan[1..]))
  }

  /** `do_cmd_read`, after its output-file checks: the chunk loop, then the disconnect. */
  method ChunkedRead(send: Send, past: seq<Op>,
                     address: int, length: int)
    returns (ops: seq<Op>, result: Result<bytes, SendError>)
    ensures var spec := ReadChunks(send, past, ChunkPlan(address, length));
      && result == spec.result
      && ops == spec.ops + (if result.Ok? then [DisconnectOp] else [])
  {
    var addr := address;
    var remain := length;
    var acc: seq<Op> := [];
    var data: bytes := [];
    var done := false;
    ghost var spec := ReadChunks(send, past, ChunkPlan(address, length));
    ReadTracksStart(send, past, address, length);
    while !done
      invariant !done ==> ReadTracks(spec, send, past, acc, data, addr, remain)
      invariant done ==> spec == Run(acc, Ok(data))
      decreases (if done then 0 else 1) + (if remain > 0 then remain else 0)
    {
      var size := Min(remain, ChunkSize);
      var x := send(past + acc, NewRead(addr, size));
      ReadStepEnd(send, past, acc, data, addr, remain, spec);
      if x.result.Err? {
        return acc + x.ops, Err(x.result.error);
      }
      if remain > ChunkSize {
        ReadStepMore(send, past, acc, data, addr, remain, spec);
      }
      acc := acc + x.ops;
      data := data + ReadBytes(x.result.value);
      addr := addr + size;
      remain := remain - size;
      if remain <= 0 {
        done := true;
      }
    }
    ops := acc + [DisconnectOp];
    result := Ok(data);
  }

  /** The read loop's invariant: the reference run is the ops and bytes so far, followed
      by the run over the plan of what remains. */
  ghost predicate ReadTracks(spec: Run<bytes>, send: Send, past: seq<Op>, acc: seq<Op>, data: bytes,
                             addr: int, remain: int)
  {
    spec == Prepend(acc, data, ReadChunks(send, past + acc, ChunkPlan(addr, remain)))
  }

  lemma ReadTracksStart(send: Send, past: seq<Op>, address: int, length: int)
    ensures ReadTracks(ReadChunks(send, past, ChunkPlan(address, length)), send, past, [], [], address, length)
  {
    PrependIdentities([], ReadChunks(send, past, ChunkPlan(address, length)));
    assert past + [] == past;
  }

  /** The read run over a plan is its first chunk's exchange, then, if that succeeded and
      more remains, the run over the rest of the plan. */
  lemma ReadChunksHead(send: Send, past: seq<Op>, addr: int, remain: int)
    ensures var x := send(past, NewRead(addr, Min(remain, ChunkSize)));
      var r := ReadChunks(send, past, ChunkPlan(addr, remain));
      && (x.result.Err? ==> r == Run(x.ops, Err(x.result.error)))
      && (x.result.Ok? && remain > ChunkSize ==>
            r == Prepend(x.ops, ReadBytes(x.result.value),
                         ReadChunks(send, past + x.ops, ChunkPlan(addr + ChunkSize, remain - ChunkSize))))
      && (x.result.Ok? && remain <= ChunkSize ==> r == Run(x.ops, Ok(ReadBytes(x.result.value))))
  {
    var x := send(past, NewRead(addr, Min(remain, ChunkSize)));
    ChunkPlanTail(addr, remain);
    if x.result.Ok? && remain <= ChunkSize {
      PrependIdentities(ReadBytes(x.result.value), Run(x.ops, Ok([])));
    }
  }

  /** A full chunk with more to come: the reference run continues with the run over the
      remaining plan, after this chunk's exchange. */
  lemma ReadStepMore(send: Send, past: seq<Op>, acc: seq<Op>, data: bytes, addr: int, remain: int,
                     spec: Run<bytes>)
    requires ReadTracks(spec, send, past, acc, data, addr, remain)
    requires remain > ChunkSize
    requires send(past + acc, NewRead(addr, ChunkSize)).result.Ok?
    ensures var x := send(past + acc, NewRead(addr, ChunkSize));
      ReadTracks(spec, send, past, acc + x.ops, data + ReadBytes(x.result.value), addr + ChunkSize, remain - ChunkSize)
  {
    var x := send(past + acc, NewRead(addr, ChunkSize));
    ReadChunksHead(send, past + acc, addr, remain);
    assert past + acc + x.ops == past + (acc + x.ops);
    PrependAssoc(acc, data, x.ops, ReadBytes(x.result.value),
                 ReadChunks(send, past + (acc + x.ops), ChunkPlan(addr + ChunkSize, remain - ChunkSize)));
  }

  /** A failed exchange ends the run with its error; the last chunk ends it with all the
      bytes read. */
  lemma ReadStepEnd(send: Send, past: seq<Op>, acc: seq<Op>, data: bytes, addr: int, remain: int,
                    spec: Run<bytes>)
    requires ReadTracks(spec, send, past, acc, data, addr, remain)
    ensures var x := send(past + acc, NewRead(addr, Min(remain, ChunkSize)));
      && (x.result.Err? ==> spec == Run(acc + x.ops, Err(x.result.error)))
      && (x.result.Ok? && remain <= ChunkSize ==> spec == Run(acc + x.ops, Ok(data + ReadBytes(x.result.value))))
  {
    var x := send(past + acc, NewRead(addr, Min(remain, ChunkSize)));
    ReadChunksHead(send, past + acc, addr, remain);
    if x.result.Ok? && remain <= ChunkSize {
      assert Prepend(acc, data, Run(x.ops, Ok(ReadBytes(x.result.value)))) == Run(acc + x.ops, Ok(data + ReadBytes(x.result.value)));
    }
  }

  /** A read of zero or negative length issues one Read that fails validation: nothing
      is read or written. */
  lemma ReadNonPositiveFails(ctl: Controller, prim: Primitives, dev: Device, past: seq<Op>,
                             address: int, length: int)
    requires ctl.key.Some? && length <= 0
    ensures ReadChunks(Sender(ctl, prim, dev), past, ChunkPlan(address, length))
              == Run([], Err(Invalid(LengthNotPositive)))
  {
    ChunkPlanNonPositive(address, length);
  }

  // ---------------------------------------------------------------------------
  // Chunked write
  // ---------------------------------------------------------------------------

  /** `min(len(data), args.length) if args.length else len(data)`: the byte count of
      write and of the local side of verify. None and 0 both mean "the whole file". */
  function EffectiveLength(fileLen: nat, lengthArg: Option<int>): (n: int)
    ensures lengthArg.None? || lengthArg.value == 0 ==> n == fileLen
    ensures lengthArg.Some? && lengthArg.value != 0 ==> n == Min(fileLen, lengthArg.value)
    ensures n <= fileLen
  {
    if lengthArg.Some? && lengthArg.value != 0 then Min(fileLen, lengthArg.value) else fileLen
  }

  /** The Program command of one chunk: `data[offset : offset + chunk]` to `base + offset`. */
  function WriteCmd(base: int, data: bytes, c: Chunk): Command {
    Program(IntArg(base + c.start), BytesArg(PySlice(data, c.start, c.start + c.size)))
  }

  /** Reference behaviour of the write loop over a plan of file offsets; on success it
      yields the number of bytes the loop accounted for. */
  function WriteChunks(send: Send, past: seq<Op>, base: int, data: bytes, plan: seq<Chunk>): (r: Run<int>)
    decreases |plan|
  {
    if plan == [] then Run([], Ok(0))
    else
      var x := send(past, WriteCmd(base, data, plan[0]));
      if x.result.Err? then Run(x.ops, Err(x.result.error))
      else
        var rest := WriteChunks(send, past + x.ops, base, data, plan[1..]);
        Run(x.ops + rest.ops, if rest.result.Ok? then Ok(plan[0].size + rest.result.value) else rest.result)
  }

  /** `do_cmd_write`, after reading the file: the chunk loop, then the optional disconnect.
      On success the result is the loop's `process_length`. */
  method ChunkedWrite(send: Send, past: seq<Op>,
                      base: int, lengthArg: Option<int>, data: bytes, disconnect: bool)
    returns (ops: seq<Op>, result: Result<int, SendError>)
    ensures var spec := WriteChunks(send, past, base, data, ChunkPlan(0, EffectiveLength(|data|, lengthArg)));
      && result == spec.result
      && ops == spec.ops + (if result.Ok? && disconnect then [DisconnectOp] else [])
    ensures result.Ok? ==> result.value == EffectiveLength(|data|, lengthArg)
  {
    ops, result := WriteLoop(send, past, base, data, EffectiveLength(|data|, lengthArg));
    if result.Ok? && disconnect {
      ops := ops + [DisconnectOp];
    }
  }

  /** The write loop proper, for a total already computed. */
  method WriteLoop(send: Send, past: seq<Op>, base: int, data: bytes, total: int)
    returns (ops: seq<Op>, result: Result<int, SendError>)
    ensures Run(ops, result) == WriteChunks(send, past, base, data, ChunkPlan(0, total))
    ensures result.Ok? ==> result.value == total
  {
    var processed := 0;
    var remain := total;
    var acc: seq<Op> := [];
    var done := false;
    ghost var spec := WriteChunks(send, past, base, data, ChunkPlan(0, total));
    WriteTracksStart(send, past, base, data, total);
    while !done
      invariant processed + remain == total
      invariant !done ==> WriteTracks(spec, send, past, base, data, acc, processed, remain)
      invariant done ==> spec == Run(acc, Ok(processed)) && remain == 0
      decreases (if done then 0 else 1) + (if remain > 0 then remain else 0)
    {
      var size := Min(remain, ChunkSize);
      var x := send(past + acc, WriteCmd(base, data, Chunk(processed, size)));
      WriteStepEnd(send, past, acc, base, data, processed, remain, spec);
      if x.result.Err? {
        return acc + x.ops, Err(x.result.error);
      }
      if remain > ChunkSize {
        WriteStepMore(send, past, acc, base, data, processed, remain, spec);
      }
      acc := acc + x.ops;
      remain := remain - size;
      processed := processed + size;
      if remain <= 0 {
        done := true;
      }
    }
    ops := acc;
    result := Ok(processed);
  }

  /** The loop's invariant: the reference run is the ops and byte count so far, followed by
      the run over the plan of what remains. */
  ghost predicate WriteTracks(spec: Run<int>, send: Send, past: seq<Op>, base: int, data: bytes,
                              acc: seq<Op>, processed: int, remain: int)
  {
    spec == PrependCount(acc, processed, WriteChunks(send, past + acc, base, data, ChunkPlan(processed, remain)))
  }

  lemma WriteTracksStart(send: Send, past: seq<Op>, base: int, data: bytes, total: int)
    ensures WriteTracks(WriteChunks(send, past, base, data, ChunkPlan(0, total)), send, past, base, data, [], 0, total)
  {
    var spec := WriteChunks(send, past, base, data, ChunkPlan(0, total));
    PrependCountIdentities(0, spec);
    assert past + [] == past;
  }

  /** A full chunk with more to come: the reference run continues with the run over the
      remaining plan, after this chunk's exchange. */
  lemma WriteStepMore(send: Send, past: seq<Op>, acc: seq<Op>, base: int, data: bytes,
                      processed: int, remain: int, spec: Run<int>)
    requires WriteTracks(spec, send, past, base, data, acc, processed, remain)
    requires remain > ChunkSize
    requires send(past + acc, WriteCmd(base, data, Chunk(processed, ChunkSize))).result.Ok?
    ensures var x := send(past + acc, WriteCmd(base, data, Chunk(processed, ChunkSize)));
      WriteTracks(spec, send, past, base, data, acc + x.ops, processed + ChunkSize, remain - ChunkSize)
  {
    var x := send(past + acc, WriteCmd(base, data, Chunk(processed, ChunkSize)));
    WriteChunksHead(send, past + acc, base, data, processed, remain);
    assert past + acc + x.ops == past + (acc + x.ops);
    PrependCountAssoc(acc, processed, x.ops, ChunkSize,
                      WriteChunks(send, past + (acc + x.ops), base, data, ChunkPlan(processed + ChunkSize, remain - ChunkSize)));
  }

  /** A failed exchange ends the run with its error; the last chunk ends it with the
      count of bytes processed. */
  lemma WriteStepEnd(send: Send, past: seq<Op>, acc: seq<Op>, base: int, data: bytes,
                     processed: int, remain: int, spec: Run<int>)
    requires WriteTracks(spec, send, past, base, data, acc, processed, remain)
    ensures var size := Min(remain, ChunkSize);
      var x := send(past + acc, WriteCmd(base, data, Chunk(processed, size)));
      && (x.result.Err? ==> spec == Run(acc + x.ops, Err(x.result.error)))
      && (x.result.Ok? && remain <= ChunkSize ==> spec == Run(acc + x.ops, Ok(processed + size)))
  {
    WriteChunksHead(send, past + acc, base, data, processed, remain);
  }

  /** The write run over a plan is its first chunk's exchange, then, if that succeeded
      and more remains, the run over the rest of the plan. */
  lemma WriteChunksHead(send: Send, past: seq<Op>, base: int, data: bytes, start: int, remain: int)
    ensures var size := Min(remain, ChunkSize);
      var x := send(past, WriteCmd(base, data, Chunk(start, size)));
      var r := WriteChunks(send, past, base, data, ChunkPlan(start, remain));
      && (x.result.Err? ==> r == Run(x.ops, Err(x.result.error)))
      && (x.result.Ok? && remain > ChunkSize ==>
            r == PrependCount(x.ops, ChunkSize,
                              WriteChunks(send, past + x.ops, base, data, ChunkPlan(start + ChunkSize, remain - ChunkSize))))
      && (x.result.Ok? && remain <= ChunkSize ==> r == Run(x.ops, Ok(size)))
  {
    var x := send(past, WriteCmd(base, data, Chunk(start, Min(remain, ChunkSize))));
    ChunkPlanTail(start, remain);
    if x.result.Ok? && remain <= ChunkSize {
      assert x.ops + [] == x.ops;
    }
  }

  /** An empty file still makes the write loop send one Program, with empty data, to the
      base address; the loop then stops. */
  lemma WriteEmptyFile(send: Send, past: seq<Op>, base: int, lengthArg: Option<int>)
    ensures var n := EffectiveLength(0, lengthArg);
      var x := send(past, Program(IntArg(base), BytesArg([])));
      var r := WriteChunks(send, past, base, [], ChunkPlan(0, n));
      && n <= 0
      && r.ops == x.ops
      && (r.result.Ok? <==> x.result.Ok?)
  {
    var n := EffectiveLength(0, lengthArg);
    ChunkPlanNonPositive(0, n);
    assert WriteCmd(base, [], Chunk(0, n)) == Program(IntArg(base), BytesArg([]));
    var x := send(past, Program(IntArg(base), BytesArg([])));
    assert ChunkPlan(0, n)[1..] == [];
    assert x.ops + [] == x.ops;
  }

  function PrependCount(ops: seq<Op>, n: int, r: Run<int>): Run<int> {
    Run(ops + r.ops, if r.result.Ok? then Ok(n + r.result.value) else r.result)
  }

  lemma PrependCountIdentities(n: int, r: Run<int>)
    ensures PrependCount([], 0, r) == r
    ensures PrependCount(r.ops, n, Run([], Ok(0))) == Run(r.ops, Ok(n))
  {
    assert [] + r.ops == r.ops;
    assert r.ops + [] == r.ops;
  }

  lemma PrependCountAssoc(a: seq<Op>, n: int, b: seq<Op>, m: int, r: Run<int>)
    ensures PrependCount(a, n, PrependCount(b, m, r)) == PrependCount(a + b, n + m, r)
  {
    assert a + (b + r.ops) == (a + b) + r.ops;
  }

  /** The payloads of a plan's chunks, concatenated in order. */
  function Slices<T>(data: seq<T>, plan: seq<Chunk>): seq<T> {
    if plan == [] then [] else PySlice(data, plan[0].start, plan[0].start + plan[0].size) + Slices(data, plan[1..])
  }

  /** The write chunks cover `data[start .. start + n]` exactly: no gap, no overlap,
      original order. */
  lemma {:induction false} SlicesCoverData(data: bytes, start: int, n: int)
    requires 0 <= start && 0 < n && start + n <= |data|
    ensures Slices(data, ChunkPlan(start, n)) == data[start..start + n]
    decreases n, 1
  {
    var p := ChunkPlan(start, n);
    SlicesHead(data, p);
    if n > ChunkSize {
      SlicesCoverRest(data, start, n);
      SliceSplit(data, start, start + ChunkSize, start + n);
    } else {
      ChunkPlanTail(start, n);
      assert Slices(data, p) == data[start..start + n] + [];
    }
  }

  /** The chunks after a full first one cover the rest of the range. */
  lemma {:induction false} SlicesCoverRest(data: bytes, start: int, n: int)
    requires 0 <= start && ChunkSize < n && start + n <= |data|
    ensures Slices(data, ChunkPlan(start, n)[1..]) == data[start + ChunkSize..start + n]
    decreases n, 0
  {
    ChunkPlanTail(start, n);
    SlicesCoverData(data, start + ChunkSize, n - ChunkSize);
  }

  /** What follows the first chunk of a plan: the plan of the rest, or nothing. */
  lemma ChunkPlanTail(start: int, remain: int)
    ensures ChunkPlan(start, remain)[1..] ==
              if remain > ChunkSize then ChunkPlan(start + ChunkSize, remain - ChunkSize) else []
  {
  }

  /** A first chunk inside the data contributes exactly its bytes. */
  lemma SlicesHead<T>(data: seq<T>, p: seq<Chunk>)
    requires p != [] && 0 <= p[0].start && 0 < p[0].size && p[0].start + p[0].size <= |data|
    ensures Slices(data, p) == data[p[0].start..p[0].start + p[0].size] + Slices(data, p[1..])
  {
  }

  lemma SliceSplit<T>(s: seq<T>, a: int, b: int, c: int)
    requires 0 <= a <= b <= c <= |s|
    ensures s[a..b] + s[b..c] == s[a..c]
  {
    assert forall i :: 0 <= i < c - a ==> (s[a..b] + s[b..c])[i] == s[a + i];
  }

  /** All payload bytes written to the buffer attribute, in trace order. */
  function BufferPayloads(ops: seq<Op>): bytes {
    if ops == [] then []
    else (if IsWriteTo(ops[0], OtaBuffer) then ops[0].data else []) + BufferPayloads(ops[1..])
  }

  lemma {:induction false} BufferPayloadsAppend(a: seq<Op>, b: seq<Op>)
    ensures BufferPayloads(a + b) == BufferPayloads(a) + BufferPayloads(b)
    decreases |a|
  {
    if a != [] {
      assert (a + b)[0] == a[0];
      assert (a + b)[1..] == a[1..] + b;
      BufferPayloadsAppend(a[1..], b);
      var h := if IsWriteTo(a[0], OtaBuffer) then a[0].data else [];
      assert h + (BufferPayloads(a[1..]) + BufferPayloads(b)) == (h + BufferPayloads(a[1..])) + BufferPayloads(b);
    } else {
      assert a + b == b;
    }
  }

  /** Only the first op may be a buffer write: the buffer received just that op's data. */
  lemma {:induction false} BufferPayloadsHead(ops: seq<Op>)
    requires forall i :: 1 <= i < |ops| ==> !IsWriteTo(ops[i], OtaBuffer)
    ensures BufferPayloads(ops) == if ops != [] && IsWriteTo(ops[0], OtaBuffer) then ops[0].data else []
  {
    if ops != [] {
      NoBufferWrites(ops[1..]);
    }
  }

  lemma {:induction false} NoBufferWrites(ops: seq<Op>)
    requires forall i :: 0 <= i < |ops| ==> !IsWriteTo(ops[i], OtaBuffer)
    ensures BufferPayloads(ops) == []
    decreases |ops|
  {
    if ops != [] {
      NoBufferWrites(ops[1..]);
    }
  }

  /** One exchange of a Program command that succeeded handed the device exactly the
      command's payload through the buffer attribute. */
  ghost predicate Delivered(send: Send, past: seq<Op>, cmd: Command) {
    cmd.Program? && send(past, cmd).result.Ok? ==> BufferPayloads(send(past, cmd).ops) == Payload(cmd)
  }

  /** A sender whose every successful Program exchange delivers its payload. */
  ghost predicate DeliversPayload(send: Send) {
    forall past: seq<Op>, cmd: Command :: Delivered(send, past, cmd)
  }

  /** The authenticated exchange is such a sender: its only buffer write is the
      payload write that opens the exchange. */
  lemma SenderDeliversPayload(ctl: Controller, prim: Primitives, dev: Device)
    ensures DeliversPayload(Sender(ctl, prim, dev))
  {
    forall past: seq<Op>, cmd: Command
      ensures Delivered(Sender(ctl, prim, dev), past, cmd)
    {
      var x := SendCommand(ctl, prim, dev, past, cmd);
      assert Sender(ctl, prim, dev)(past, cmd) == x;
      if cmd.Program? && x.result.Ok? {
        BufferPayloadsHead(x.ops);
      }
    }
  }

  /** End to end: a successful write of a positive total sends, through the buffer
      attribute, exactly the bytes `data[start .. start + n]`, in order. */
  lemma WriteSendsFileBytes(send: Send, past: seq<Op>, base: int, data: bytes, start: int, n: int)
    requires DeliversPayload(send)
    requires 0 <= start && 0 < n && start + n <= |data|
    requires WriteChunks(send, past, base, data, ChunkPlan(start, n)).result.Ok?
    ensures BufferPayloads(WriteChunks(send, past, base, data, ChunkPlan(start, n)).ops)
              == data[start..start + n]
  {
    WriteDelivers(send, past, base, data, start, n);
  }

  /** If the write of `data[start .. start + n]` succeeds, the buffer received exactly
      those bytes. */
  ghost predicate SendsRange(send: Send, past: seq<Op>, base: int, data: bytes, start: int, n: int)
    requires 0 <= start && 0 < n && start + n <= |data|
  {
    var r := WriteChunks(send, past, base, data, ChunkPlan(start, n));
    r.result.Ok? ==> BufferPayloads(r.ops) == data[start..start + n]
  }

  lemma {:induction false} WriteDelivers(send: Send, past: seq<Op>, base: int, data: bytes,
                                         start: int, n: int)
    requires DeliversPayload(send)
    requires 0 <= start && 0 < n && start + n <= |data|
    ensures SendsRange(send, past, base, data, start, n)
    decreases n, 1
  {
    if n > ChunkSize {
      WriteDeliversChunks(send, past, base, data, start, n);
    } else if WriteChunks(send, past, base, data, ChunkPlan(start, n)).result.Ok? {
      WriteChunksLast(send, past, base, data, start, n);
    }
  }

  /** The case of more than one chunk: the first chunk's slice, then the rest's. */
  lemma {:induction false} WriteDeliversChunks(send: Send, past: seq<Op>, base: int, data: bytes,
                                               start: int, n: int)
    requires DeliversPayload(send)
    requires 0 <= start && ChunkSize < n && start + n <= |data|
    ensures SendsRange(send, past, base, data, start, n)
    decreases n, 0
  {
    var x := send(past, WriteCmd(base, data, Chunk(start, ChunkSize)));
    WriteDelivers(send, past + x.ops, base, data, start + ChunkSize, n - ChunkSize);
    WriteChunksCombine(send, past, base, data, start, n);
  }

  /** A first full chunk followed by a rest that delivers its range delivers the whole. */
  lemma WriteChunksCombine(send: Send, past: seq<Op>, base: int, data: bytes, start: int, n: int)
    requires DeliversPayload(send)
    requires 0 <= start && ChunkSize < n && start + n <= |data|
    requires SendsRange(send, past + send(past, WriteCmd(base, data, Chunk(start, ChunkSize))).ops,
                        base, data, start + ChunkSize, n - ChunkSize)
    ensures SendsRange(send, past, base, data, start, n)
  {
    if WriteChunks(send, past, base, data, ChunkPlan(start, n)).result.Ok? {
      var x := send(past, WriteCmd(base, data, Chunk(start, ChunkSize)));
      WriteChunksSplit(send, past, base, data, start, n);
      var rest := WriteChunks(send, past + x.ops, base, data, ChunkPlan(start + ChunkSize, n - ChunkSize));
      CombineHalves(x.ops, rest.ops, data, start, start + ChunkSize, start + n);
    }
  }

  /** Two traces delivering adjacent ranges of the file deliver their union. */
  lemma CombineHalves(a: seq<Op>, b: seq<Op>, data: bytes, lo: int, mid: int, hi: int)
    requires 0 <= lo <= mid <= hi <= |data|
    requires BufferPayloads(a) == data[lo..mid] && BufferPayloads(b) == data[mid..hi]
    ensures BufferPayloads(a + b) == data[lo..hi]
  {
    BufferPayloadsAppend(a, b);
    assert data[lo..mid] + data[mid..hi] == data[lo..hi];
  }

  /** The first chunk of a successful write delivers its slice of the file. */
  lemma FirstChunkPayload(send: Send, past: seq<Op>, base: int, data: bytes, start: int, n: int)
    requires DeliversPayload(send)
    requires 0 <= start && 0 < n && start + n <= |data|
    requires send(past, WriteCmd(base, data, Chunk(start, Min(n, ChunkSize)))).result.Ok?
    ensures BufferPayloads(send(past, WriteCmd(base, data, Chunk(start, Min(n, ChunkSize)))).ops)
              == data[start..start + Min(n, ChunkSize)]
  {
    var cmd := WriteCmd(base, data, Chunk(start, Min(n, ChunkSize)));
    assert Delivered(send, past, cmd);
    assert Payload(cmd) == data[start..start + Min(n, ChunkSize)];
  }

  /** A successful write of more than one chunk is its first chunk's exchange followed by
      a successful write of the rest. */
  lemma WriteChunksSplit(send: Send, past: seq<Op>, base: int, data: bytes, start: int, n: int)
    requires DeliversPayload(send)
    requires 0 <= start && ChunkSize < n && start + n <= |data|
    requires WriteChunks(send, past, base, data, ChunkPlan(start, n)).result.Ok?
    ensures var x := send(past, WriteCmd(base, data, Chunk(start, ChunkSize)));
      var rest := WriteChunks(send, past + x.ops, base, data, ChunkPlan(start + ChunkSize, n - ChunkSize));
      && x.result.Ok? && rest.result.Ok?
      && WriteChunks(send, past, base, data, ChunkPlan(start, n)).ops == x.ops + rest.ops
      && BufferPayloads(x.ops) == data[start..start + ChunkSize]
  {
    WriteChunksHead(send, past, base, data, start, n);
    FirstChunkPayload(send, past, base, data, start, n);
  }

  /** A successful write of at most one chunk is that chunk's exchange alone. */
  lemma WriteChunksLast(send: Send, past: seq<Op>, base: int, data: bytes, start: int, n: int)
    requires DeliversPayload(send)
    requires 0 <= start && 0 < n <= ChunkSize && start + n <= |data|
    requires WriteChunks(send, past, base, data, ChunkPlan(start, n)).result.Ok?
    ensures BufferPayloads(WriteChunks(send, past, base, data, ChunkPlan(start, n)).ops)
              == data[start..start + n]
  {
    WriteChunksHead(send, past, base, data, start, n);
    FirstChunkPayload(send, past, base, data, start, n);
  }

  /** `do_cmd_write` through the authenticated exchange: when it succeeds for a positive
      length, the device's buffer received the first `length` bytes of the file in order. */
  lemma WriteSendsFilePrefix(ctl: Controller, prim: Primitives, dev: Device, past: seq<Op>,
                             base: int, lengthArg: Option<int>, data: bytes)
    ensures var n := EffectiveLength(|data|, lengthArg);
      var r := WriteChunks(Sender(ctl, prim, dev), past, base, data, ChunkPlan(0, n));
      n > 0 && r.result.Ok? ==> BufferPayloads(r.ops) == data[..n]
  {
    var n := EffectiveLength(|data|, lengthArg);
    if n > 0 && WriteChunks(Sender(ctl, prim, dev), past, base, data, ChunkPlan(0, n)).result.Ok? {
      SenderDeliversPayload(ctl, prim, dev);
      WriteSendsFileBytes(Sender(ctl, prim, dev), past, base, data, 0, n);
    }
  }
}
