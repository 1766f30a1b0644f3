/**
  The ring buffer of the audio worklet and the processor that drives it
  (web/portal/public/game/index.audio.worklet.js). The counter `avail` is the plain
  number of the single-threaded form.
 */
module AudioRing {
  import opened Prelude
  import opened AudioChannels

  /** TypedArray.set */
  method Set(dest: array<Sample>, source: seq<Sample>, at: nat)
    requires at + |source| <= dest.Length
    modifies dest
    ensures forall i | 0 <= i < dest.Length ::
      dest[i] == if at <= i < at + |source| then source[i - at] else old(dest[i])
  {
    for i := 0 to |source|
      invariant forall k | 0 <= k < dest.Length :: dest[k] == if at <= k < at + i then source[k - at] else old(dest[k])
    {
      dest[at + i] := source[i];
    }
  }

  /** The cell k places after a position, wrapping round. */
  function Cell(pos: nat, k: nat, size: nat): nat {
    if pos + k < size then pos + k else pos + k - size
  }

  /** The read position after n samples: it may rest at the very end. */
  function Advanced(pos: nat, n: nat, size: nat): nat {
    if pos + n > size then pos + n - size else pos + n
  }

  /** The queued samples: avail cells from rpos on, wrapping round. */
  function Queued(cells: seq<Sample>, rpos: nat, avail: nat): (queue: seq<Sample>)
    requires rpos <= |cells| && avail <= |cells|
    ensures |queue| == avail
    ensures forall k | 0 <= k < avail :: queue[k] == cells[Cell(rpos, k, |cells|)]
  {
    seq(avail, k requires 0 <= k < avail => cells[Cell(rpos, k, |cells|)])
  }

  /** n modulo size, for the positions a ring can reach. */
  function Wrapped(n: nat, size: nat): nat
    requires n <= 2 * size
  {
    if size == 0 then 0 else if n == 2 * size then 0 else if n >= size then n - size else n
  }

  lemma WrappedIsModulo(n: nat, size: nat)
    requires n <= 2 * size && size > 0
    ensures Wrapped(n, size) == n % size
  {
  }

  /** Taking cells from the read position on takes the queue's first samples. */
  lemma ReadTakes(cells: seq<Sample>, rpos: nat, avail: nat, n: nat)
    requires rpos <= |cells| && n <= avail <= |cells|
    ensures var next := Advanced(rpos, n, |cells|);
      && next <= |cells|
      && Queued(cells, rpos, avail)[..n] == Queued(cells, rpos, n)
      && Queued(cells, rpos, avail)[n..] == Queued(cells, next, avail - n)
      && Wrapped(next + (avail - n), |cells|) == Wrapped(rpos + avail, |cells|)
  {
  }

  /** The cells after p was written from w on, wrapping round. */
  ghost predicate Written(before: seq<Sample>, after: seq<Sample>, w: nat, p: seq<Sample>)
    requires w <= |before|
  {
    && |after| == |before|
    && forall i | 0 <= i < |before| :: after[i] ==
         (if w <= i < w + |p| then p[i - w] else if i + |before| < w + |p| then p[i + |before| - w] else before[i])
  }

  /** Writing from the write position on, wrapping round, appends to the queue. */
  lemma WriteAppends(before: seq<Sample>, after: seq<Sample>, rpos: nat, avail: nat, p: seq<Sample>)
    requires rpos <= |before| && avail + |p| <= |before|
    requires Written(before, after, Wrapped(rpos + avail, |before|), p)
    ensures Queued(after, rpos, avail + |p|) == Queued(before, rpos, avail) + p
  {
  }

  lemma WrapsAgain(rpos: nat, avail: nat, n: nat, size: nat)
    requires rpos <= size && avail + n <= size
    ensures Wrapped(Wrapped(rpos + avail, size) + n, size) == Wrapped(rpos + avail + n, size)
  {
  }

  /** History: what was read, followed by what is queued, is what was poured in. */
  lemma DrainingKeepsHistory(poured: seq<Sample>, drained: seq<Sample>, queue: seq<Sample>, n: nat)
    requires poured == drained + queue && n <= |queue|
    ensures poured == (drained + queue[..n]) + queue[n..]
  {
  }

  lemma PouringKeepsHistory(poured: seq<Sample>, drained: seq<Sample>, queue: seq<Sample>, p: seq<Sample>)
    requires poured == drained + queue
    ensures poured + p == drained + (queue + p)
  {
  }

  class RingBuffer {
    const buffer: array<Sample>
    var avail: int
    var rpos: int
    var wpos: int

    /** Every sample the ring ever held to read, and those read so far. */
    ghost var poured: seq<Sample>
    ghost var drained: seq<Sample>

    ghost predicate Valid()
      reads this, buffer
    {
      && 0 <= rpos <= buffer.Length
      && 0 <= avail <= buffer.Length
      && wpos == Wrapped(rpos + avail, buffer.Length)
      && poured == drained + Contents()
    }

    ghost function Contents(): seq<Sample>
      requires 0 <= rpos <= buffer.Length && 0 <= avail <= buffer.Length
      reads this, buffer
    {
      Queued(buffer[..], rpos, avail)
    }

    /** A ring starts empty, or full of what its buffer holds. */
    constructor (p_buffer: array<Sample>, p_state: int)
      requires p_state == 0 || p_state == p_buffer.Length
      ensures Valid() && buffer == p_buffer && avail == p_state
      ensures Contents() == p_buffer[..p_state] && drained == []
    {
      buffer := p_buffer;
      avail := p_state;
      rpos := 0;
      wpos := 0;
      poured := p_buffer[..p_state];
      drained := [];
    }

    function DataLeft(): int
      reads this
    {
      avail
    }

    function SpaceLeft(): int
      reads this
    {
      buffer.Length - avail
    }

    /** The two copies of read, around the end of the buffer. */
    method CopyOut(output: array<Sample>)
      requires output != buffer && 0 <= rpos <= buffer.Length && output.Length <= buffer.Length
      modifies this`rpos, output
      ensures buffer[..] == old(buffer[..])
      ensures output[..] == Queued(buffer[..], old(rpos), output.Length)
      ensures rpos == Advanced(old(rpos), output.Length, buffer.Length)
    {
      var size := buffer.Length;
      var from := 0;
      var to_write := output.Length;
      if rpos + to_write > size {
        var high := size - rpos;
        Set(output, buffer[rpos..size], 0);
        from := high;
        to_write := to_write - high;
        rpos := 0;
      }
      if to_write != 0 {
        Set(output, buffer[rpos..rpos + to_write], from);
      }
      rpos := rpos + to_write;
    }

    /** Takes the oldest samples, in order. */
    method Read(output: array<Sample>)
      requires Valid() && output != buffer && output.Length <= DataLeft()
      modifies this, output
      ensures Valid() && buffer[..] == old(buffer[..])
      ensures output[..] == old(Contents())[..output.Length]
      ensures Contents() == old(Contents())[output.Length..]
      ensures poured == old(poured) && drained == old(drained) + output[..]
      ensures avail == old(avail) - output.Length && wpos == old(wpos)
    {
      ghost var queue := Contents();
      ReadTakes(buffer[..], rpos, avail, output.Length);
      DrainingKeepsHistory(poured, drained, queue, output.Length);
      ghost var taken := queue[..output.Length];
      CopyOut(output);
      avail := avail - output.Length;
      drained := drained + taken;
    }

    /** The copies of write, around the end of the buffer. */
    method CopyIn(p: array<Sample>)
      requires p != buffer && p.Length <= buffer.Length && 0 <= wpos
      requires wpos < buffer.Length || wpos == buffer.Length == 0
      modifies this`wpos, buffer
      ensures Written(old(buffer[..]), buffer[..], old(wpos), p[..])
      ensures wpos == Wrapped(old(wpos) + p.Length, buffer.Length)
    {
      var to_write := p.Length;
      var mw := buffer.Length - wpos;
      if mw >= to_write {
        Set(buffer, p[..], wpos);
        wpos := wpos + to_write;
        if mw == to_write {
          wpos := 0;
        }
      } else {
        var high := p[..mw];
        var low := p[mw..];
        Set(buffer, high, wpos);
        Set(buffer, low, 0);
        wpos := |low|;
      }
    }

    /** Appends samples; the caller has checked that they fit. */
    method Write(p: array<Sample>)
      requires Valid() && p != buffer && p.Length <= SpaceLeft()
      modifies this, buffer
      ensures Valid()
      ensures Contents() == old(Contents()) + p[..]
      ensures poured == old(poured) + p[..] && drained == old(drained)
      ensures avail == old(avail) + p.Length && rpos == old(rpos)
    {
      ghost var cells, samples := buffer[..], p[..];
      PouringKeepsHistory(poured, drained, Contents(), samples);
      WrapsAgain(rpos, avail, p.Length, buffer.Length);
      CopyIn(p);
      WriteAppends(cells, buffer[..], rpos, avail, samples);
      avail := avail + p.Length;
      poured := poured + samples;
    }
  }

  /** A message the processor posts to the main thread. */
  datatype Message = Input(data: seq<Sample>) | ReadDone(count: nat)

  /** array_has_data */
  predicate HasInput(inputs: seq<seq<seq<Sample>>>) {
    |inputs| > 0 && |inputs[0]| > 0 && |inputs[0][0]| > 0
  }

  predicate HasOutput(outputs: seq<seq<array<Sample>>>) {
    |outputs| > 0 && |outputs[0]| > 0 && outputs[0][0].Length > 0
  }

  /** The processor: its output ring exists once it was started, its input ring in threaded mode. */
  class GodotProcessor {
    var running: bool
    var threads: bool
    var input: RingBuffer?
    var output: RingBuffer?
    var inputBuffer: array<Sample>
    var outputBuffer: array<Sample>
    var posted: seq<Message>
    /** The counter other threads wait on, once the processor was given one. */
    var notifier: Option<int>

    ghost predicate Valid()
      reads this, input, output
      reads if input == null then {} else {input.buffer}, if output == null then {} else {output.buffer}
    {
      && (input != null ==> input.Valid() && inputBuffer != input.buffer && outputBuffer != input.buffer)
      && (output != null ==> output.Valid() && inputBuffer != output.buffer && outputBuffer != output.buffer)
      && (input != null && output != null ==> input != output && input.buffer != output.buffer)
      && (threads && output != null ==> input != null)
      && inputBuffer != outputBuffer
    }

    /** The flat input buffer, replaced when its size is not the frame's. */
    method FitInputBuffer(chunk: nat)
      requires Valid()
      modifies this`inputBuffer
      ensures Valid() && (inputBuffer == old(inputBuffer) || fresh(inputBuffer)) && inputBuffer.Length == chunk
    {
      if inputBuffer.Length != chunk {
        inputBuffer := new Sample[chunk];
      }
    }

    /** Interleaves a frame into the input ring, which has room for it. */
    method QueueFrame(frame: seq<seq<Sample>>, ghost n: nat)
      requires Valid() && input != null && Even(frame, n)
      requires inputBuffer.Length == n * |frame| <= input.SpaceLeft()
      modifies inputBuffer, input, input.buffer
      ensures Valid()
      ensures exists flat :: IsInterleaved(flat, frame, n) && input.Contents() == old(input.Contents()) + flat
    {
      WriteInput(inputBuffer, frame, n);
      input.Write(inputBuffer);
      assert IsInterleaved(inputBuffer[..], frame, n);
    }

    /** The input half of process: a frame that fits is queued (or posted), else it is skipped. */
    method ProcessInput(frame: seq<seq<Sample>>, ghost n: nat)
      requires Valid() && output != null && |frame| > 0 && Even(frame, n)
      modifies this`inputBuffer, this`posted, inputBuffer, input, if input == null then {} else {input.buffer}
      ensures Valid() && (inputBuffer == old(inputBuffer) || fresh(inputBuffer))
      ensures !threads ==> exists flat :: IsInterleaved(flat, frame, n) && posted == old(posted) + [Input(flat)]
      ensures !threads && input != null ==> input.Contents() == old(input.Contents())
      ensures threads ==> posted == old(posted) && input != null
      ensures threads && n * |frame| <= old(input.SpaceLeft()) ==>
        exists flat :: IsInterleaved(flat, frame, n) && input.Contents() == old(input.Contents()) + flat
      ensures threads && n * |frame| > old(input.SpaceLeft()) ==> input.Contents() == old(input.Contents())
    {
      var chunk := |frame[0]| * |frame|;
      FitInputBuffer(chunk);
      if !threads {
        WriteInput(inputBuffer, frame, n);
        posted := posted + [Input(inputBuffer[..])];
      } else if input.SpaceLeft() >= chunk {
        QueueFrame(frame, n);
      }
    }

    /** Reads a whole frame from the output ring, if it holds one. */
    method FetchFrame(chunk: nat) returns (fetched: bool)
      requires Valid() && output != null
      modifies this`outputBuffer, outputBuffer, output
      ensures Valid() && (outputBuffer == old(outputBuffer) || fresh(outputBuffer)) && outputBuffer.Length == chunk
      ensures output.buffer[..] == old(output.buffer[..])
      ensures fetched == (chunk <= old(output.DataLeft()))
      ensures fetched ==>
          outputBuffer[..] == old(output.Contents())[..chunk] && output.Contents() == old(output.Contents())[chunk..]
      ensures !fetched ==> output.Contents() == old(output.Contents())
    {
      if outputBuffer.Length != chunk {
        outputBuffer := new Sample[chunk];
      }
      fetched := output.DataLeft() >= chunk;
      if fetched {
        output.Read(outputBuffer);
      }
    }

    /** The output half of process: a frame is dealt out if the ring holds one, else it is skipped. */
    method ProcessOutput(frame: seq<array<Sample>>, ghost n: nat)
      requires Valid() && output != null && |frame| > 0 && EvenArrays(frame, n) && Separate(frame)
      requires forall ch | 0 <= ch < |frame| ::
        frame[ch] != inputBuffer && frame[ch] != outputBuffer && frame[ch] != output.buffer
            && (input != null ==> frame[ch] != input.buffer)
      modifies this`outputBuffer, this`posted, outputBuffer, output, frame
      ensures Valid() && (outputBuffer == old(outputBuffer) || fresh(outputBuffer))
      ensures n * |frame| <= old(output.DataLeft()) ==>
        && IsInterleaved(old(output.Contents())[..n * |frame|], Values(frame), n)
        && output.Contents() == old(output.Contents())[n * |frame|..]
        && posted == old(posted) + (if threads then [] else [ReadDone(n * |frame|)])
      ensures n * |frame| > old(output.DataLeft()) ==>
        Values(frame) == old(Values(frame)) && output.Contents() == old(output.Contents()) && posted == old(posted)
    {
      var chunk := frame[0].Length * |frame|;
      var fetched := FetchFrame(chunk);
      if fetched {
        ghost var rest := output.Contents();
        WriteOutput(frame, outputBuffer[..], n);
        assert output.Contents() == rest;
        if !threads {
          posted := posted + [ReadDone(chunk)];
        }
      }
    }

    method ProcessNotify()
      modifies this`notifier
      ensures notifier == if old(notifier).Some? then Some(old(notifier).value + 1) else None
    {
      if notifier.Some? {
        notifier := Some(notifier.value + 1);
      }
    }

    /** The frames of one call: none of the arrays to fill is one of the processor's own. */
    ghost predicate Fillable(outputs: seq<seq<array<Sample>>>, m: nat)
      reads this, input, output
    {
      HasOutput(outputs) ==>
        && EvenArrays(outputs[0], m) && Separate(outputs[0])
        && forall ch | 0 <= ch < |outputs[0]| ::
             && outputs[0][ch] != inputBuffer && outputs[0][ch] != outputBuffer
             && (output != null ==> outputs[0][ch] != output.buffer)
             && (input != null ==> outputs[0][ch] != input.buffer)
    }

    /** Both halves of process, each where its frame has data. */
    method ProcessFrames(inputs: seq<seq<seq<Sample>>>, outputs: seq<seq<array<Sample>>>, ghost n: nat, ghost m: nat)
      requires Valid() && output != null && Fillable(outputs, m)
      requires HasInput(inputs) ==> Even(inputs[0], n)
      modifies this`inputBuffer, this`outputBuffer, this`posted, inputBuffer, outputBuffer, input, output
      modifies if input == null then {} else {input.buffer}, if HasOutput(outputs) then outputs[0] else []
      ensures Valid()
      ensures threads ==> posted == old(posted)
      ensures !threads ==>
        var first, dealt := |old(posted)|, HasOutput(outputs) && m * |outputs[0]| <= old(output.DataLeft());
        && |posted| == first + (if HasInput(inputs) then 1 else 0) + (if dealt then 1 else 0)
        && posted[..first] == old(posted)
        && (HasInput(inputs) ==> posted[first].Input? && IsInterleaved(posted[first].data, inputs[0], n))
        && (dealt ==> posted[|posted| - 1] == ReadDone(m * |outputs[0]|))
      ensures threads && HasInput(inputs) && n * |inputs[0]| <= old(input.SpaceLeft()) ==>
        exists flat :: IsInterleaved(flat, inputs[0], n) && input.Contents() == old(input.Contents()) + flat
      ensures input != null && !(threads && HasInput(inputs) && n * |inputs[0]| <= old(input.SpaceLeft())) ==>
        input.Contents() == old(input.Contents())
      ensures HasOutput(outputs) && m * |outputs[0]| <= old(output.DataLeft()) ==>
        && IsInterleaved(old(output.Contents())[..m * |outputs[0]|], Values(outputs[0]), m)
        && output.Contents() == old(output.Contents())[m * |outputs[0]|..]
      ensures HasOutput(outputs) && m * |outputs[0]| > old(output.DataLeft()) ==>
        Values(outputs[0]) == old(Values(outputs[0])) && output.Contents() == old(output.Contents())
      ensures !HasOutput(outputs) ==> output.Contents() == old(output.Contents())
    {
      if HasInput(inputs) {
        ghost var queue := output.Contents();
        ProcessInput(inputs[0], n);
        assert output.Contents() == queue;
      }
      if HasOutput(outputs) {
        ghost var queue := if input == null then [] else input.Contents();
        ProcessOutput(outputs[0], m);
        assert input != null ==> input.Contents() == queue;
      }
    }

    /** process: nothing before the start or after the stop; then both halves, and whoever waits is told. */
    method Process(inputs: seq<seq<seq<Sample>>>, outputs: seq<seq<array<Sample>>>, ghost n: nat, ghost m: nat)
      returns (alive: bool)
      requires Valid() && Fillable(outputs, m)
      requires HasInput(inputs) ==> Even(inputs[0], n)
      modifies this`inputBuffer, this`outputBuffer, this`posted, this`notifier, inputBuffer, outputBuffer, input, output
      modifies if input == null then {} else {input.buffer}, if HasOutput(outputs) then outputs[0] else []
      ensures Valid() && alive == running
      ensures notifier == if running && output != null && old(notifier).Some? then Some(old(notifier).value + 1)
                          else old(notifier)
      ensures !running || output == null ==>
        && posted == old(posted)
        && (input != null ==> input.Contents() == old(input.Contents()))
        && (output != null ==> output.Contents() == old(output.Contents()))
        && (HasOutput(outputs) ==> Values(outputs[0]) == old(Values(outputs[0])))
      ensures threads ==> posted == old(posted)
      ensures running && output != null && !threads ==>
        var first, dealt := |old(posted)|, HasOutput(outputs) && m * |outputs[0]| <= old(output.DataLeft());
        && |posted| == first + (if HasInput(inputs) then 1 else 0) + (if dealt then 1 else 0)
        && posted[..first] == old(posted)
        && (HasInput(inputs) ==> posted[first].Input? && IsInterleaved(posted[first].data, inputs[0], n))
        && (dealt ==> posted[|posted| - 1] == ReadDone(m * |outputs[0]|))
      ensures running && output != null && threads && HasInput(inputs) && n * |inputs[0]| <= old(input.SpaceLeft()) ==>
        exists flat :: IsInterleaved(flat, inputs[0], n) && input.Contents() == old(input.Contents()) + flat
      ensures running && output != null && input != null
              && !(threads && HasInput(inputs) && n * |inputs[0]| <= old(input.SpaceLeft())) ==>
        input.Contents() == old(input.Contents())
      ensures running && output != null && HasOutput(outputs) && m * |outputs[0]| <= old(output.DataLeft()) ==>
        && IsInterleaved(old(output.Contents())[..m * |outputs[0]|], Values(outputs[0]), m)
        && output.Contents() == old(output.Contents())[m * |outputs[0]|..]
      ensures running && output != null && HasOutput(outputs) && m * |outputs[0]| > old(output.DataLeft()) ==>
        Values(outputs[0]) == old(Values(outputs[0])) && output.Contents() == old(output.Contents())
      ensures running && output != null && !HasOutput(outputs) ==> output.Contents() == old(output.Contents())
    {
      if !running {
        return false;
      }
      if output == null {
        return true;
      }
      ProcessFrames(inputs, outputs, n, m);
      ProcessNotify();
      return true;
    }
  }
}
