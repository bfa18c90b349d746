/** Draining a child's two pipes into bounded files, by nonblocking reads of any size. */
module BoundedCapture {
  import opened Base

  type Byte = n: int | 0 <= n < 256

  const OUTPUT_LIMIT: nat := 64 * 1024 * 1024
  const BUFFER: nat := 8192
  const READS_PER_DRAIN: nat := 32

  /** What one read of the pipe gave. */
  datatype ReadResult = Data(bytes: seq<Byte>) | EndOfFile | Interrupted | WouldBlock | Failure

  datatype ReadStep = Ended | More | Crossed | Blocked | Broken

  datatype Drained = Under | Over | Error

  function Min(a: nat, b: nat): nat {
    if a < b then a else b
  }

  /**
   * One captured stream. `input` is everything the child ever writes to the pipe and `consumed` how
   * much of it has been read; `damaged` records a failed write to the file.
   */
  class Stream {
    const input: seq<Byte>
    var consumed: nat
    var open: bool
    var output: seq<Byte>
    var bytes: nat
    var damaged: bool

    /** The file is the prefix of the consumed input up to the limit, and a closed pipe was read to its end. */
    ghost predicate Valid()
      reads this
    {
      && consumed <= |input|
      && bytes <= OUTPUT_LIMIT
      && (!damaged ==> bytes == Min(consumed, OUTPUT_LIMIT) && output == input[..bytes])
      && (!open ==> consumed == |input|)
    }

    ghost predicate Exceeded()
      reads this
    {
      consumed > OUTPUT_LIMIT
    }

    constructor (input: seq<Byte>)
      ensures Valid() && this.input == input && consumed == 0 && open && !damaged && output == []
    {
      this.input, consumed, open, output, bytes, damaged := input, 0, true, [], 0, false;
    }

    /** The pipe: any amount up to `take` of what is left, the end once nothing is, or no data for now. */
    method Read(take: nat) returns (r: ReadResult)
      requires take > 0 && consumed <= |input|
      modifies this`consumed
      ensures old(consumed) <= consumed <= |input|
      ensures r.Data? ==> 0 < |r.bytes| <= take && consumed == old(consumed) + |r.bytes|
      ensures r.Data? ==> r.bytes == input[old(consumed)..consumed]
      ensures !r.Data? ==> consumed == old(consumed)
      ensures r.EndOfFile? ==> consumed == |input|
    {
      if * {
        return Interrupted;
      } else if * {
        return WouldBlock;
      } else if * {
        return Failure;
      } else if consumed == |input| {
        return EndOfFile;
      }
      var count: nat :| 0 < count <= take && consumed + count <= |input|;
      r := Data(input[consumed..consumed + count]);
      consumed := consumed + count;
    }

    /** Appends to the file; a failed write may leave any part of the bytes there. */
    method Write(data: seq<Byte>) returns (ok: bool)
      modifies this`output, this`damaged
      ensures ok ==> output == old(output) + data && damaged == old(damaged)
      ensures !ok ==> damaged
    {
      if * {
        output := output + data;
        return true;
      }
      var part: nat :| part <= |data|;
      output, damaged := output + data[..part], true;
      return false;
    }

    /** One pass of the drain loop: a read, and what of it still fits the file. */
    method ReadOnce() returns (r: ReadStep)
      requires Valid() && open
      modifies this
      ensures Valid() && (open <==> r != Ended)
      ensures old(consumed) <= consumed <= old(consumed) + BUFFER
      ensures !damaged ==> (Exceeded() <==> old(Exceeded()) || r == Crossed)
      ensures old(damaged) ==> damaged
      ensures damaged ==> old(damaged) || r == Broken
    {
      var remaining := OUTPUT_LIMIT - bytes;
      var take := Min(BUFFER, remaining + 1);
      var got := Read(take);
      match got
      case EndOfFile =>
        open := false;
        return Ended;
      case Data(data) =>
        var kept := Min(|data|, remaining);
        var written := Write(data[..kept]);
        if !written {
          return Broken;
        }
        assert !damaged && kept > 0 ==> input[..bytes + kept] == input[..bytes] + input[bytes..bytes + kept];
        bytes := bytes + kept;
        return if |data| > remaining then Crossed else More;
      case Interrupted => return More;
      case WouldBlock => return Blocked;
      case Failure => return Broken;
    }

    /**
     * `drain`. The stream stays valid, it is past the limit exactly when some call has answered
     * `Over`, only a failing call can damage the file, and one call reads at most 256 KiB.
     */
    method Drain() returns (r: Drained)
      requires Valid()
      modifies this
      ensures Valid()
      ensures old(consumed) <= consumed <= old(consumed) + READS_PER_DRAIN * BUFFER
      ensures !damaged ==> (Exceeded() <==> old(Exceeded()) || r == Over)
      ensures damaged ==> old(damaged) || r == Error
      ensures !old(open) ==> !open && r == Under && consumed == old(consumed)
      ensures !old(open) ==> output == old(output) && damaged == old(damaged)
    {
      if !open {
        return Under;
      }
      for i := 0 to READS_PER_DRAIN
        invariant Valid() && open && old(consumed) <= consumed <= old(consumed) + i * BUFFER
        invariant !damaged ==> (Exceeded() <==> old(Exceeded()))
        invariant damaged ==> old(damaged)
      {
        var step := ReadOnce();
        match step
        case Ended => return Under;
        case More =>
        case Crossed => return Over;
        case Blocked => return Under;
        case Broken => return Error;
      }
      return Under;
    }
  }

  /** Asks for the child's status unless it is known; whether it was a success, if it answers. */
  method TryWait(status: Option<bool>) returns (r: Option<bool>, failed: bool)
    ensures status.Some? ==> r == status && !failed
  {
    if status.Some? {
      return status, false;
    }
    if * {
      return None, true;
    } else if * {
      return None, false;
    }
    var success: bool := *;
    return Some(success), false;
  }

  datatype Reason = OutputLimit | CaptureError | StatusError | Timeout | GroupStatusError | RemainingOwnedGroup

  /** What the receipt retains: the first envelope failure, whether any capture error occurred, and the end state. */
  datatype Receipt = Receipt(reason: Option<Reason>, errors: bool, captured: nat, remaining: bool, status: Option<bool>)

  /** `get_or_insert`: the first reason stays. */
  function First(reason: Option<Reason>, next: Reason): Option<Reason> {
    if reason.Some? then reason else Some(next)
  }

  function AfterDrain(reason: Option<Reason>, drained: Drained): Option<Reason> {
    match drained
    case Under => reason
    case Over => First(reason, OutputLimit)
    case Error => First(reason, CaptureError)
  }

  /** The whole stream is in the file, and fits the limit. */
  ghost predicate Captured(stream: Stream)
    reads stream
  {
    !stream.open && stream.output == stream.input && |stream.input| <= OUTPUT_LIMIT
  }

  /** A new stream, with nothing read. */
  ghost predicate Fresh(stream: Stream)
    reads stream
  {
    stream.Valid() && stream.open && !stream.damaged && stream.consumed == 0
  }

  /** The polling loop: until the child has ended and both pipes are closed, or something is wrong. */
  method Poll(out: Stream, err: Stream, deadline: nat)
    returns (reason: Option<Reason>, errors: bool, status: Option<bool>)
    requires out != err && Fresh(out) && Fresh(err)
    modifies out, err
    ensures out.Valid() && err.Valid()
    ensures reason.None? ==> !errors && !out.open && !err.open && status.Some? && !out.damaged && !err.damaged
    ensures reason.None? ==> !out.Exceeded() && !err.Exceeded()
    ensures reason == Some(OutputLimit) ==> out.Exceeded() || err.Exceeded()
  {
    reason, errors, status := None, false, None;
    var polls := 0;
    while true
      invariant out.Valid() && err.Valid() && polls <= deadline && reason.None? && !errors
      invariant !out.damaged && !err.damaged && !out.Exceeded() && !err.Exceeded()
      decreases deadline - polls
    {
      var outDrained := out.Drain();
      var errDrained := err.Drain();
      errors := outDrained == Error || errDrained == Error;
      reason := AfterDrain(AfterDrain(reason, outDrained), errDrained);
      var failed;
      status, failed := TryWait(status);
      if failed {
        errors, reason := true, First(reason, StatusError);
      }
      if status.Some? && !out.open && !err.open {
        break;
      }
      if polls >= deadline {
        reason := First(reason, Timeout);
      }
      if reason.Some? {
        break;
      }
      polls := polls + 1;
    }
  }

  /** One more drain of each stream; whether either failed. A stream that has ended is left as it is. */
  method DrainBoth(out: Stream, err: Stream) returns (broken: bool)
    requires out != err && out.Valid() && err.Valid()
    modifies out, err
    ensures out.Valid() && err.Valid() && Kept(out) && Kept(err)
  {
    var outDrained := out.Drain();
    var errDrained := err.Drain();
    broken := outDrained == Error || errDrained == Error;
  }

  /** The bounded cleanup after a failure: the child's status, and whether anything in it failed. */
  method CleanUp(out: Stream, err: Stream, cleanups: nat, known: Option<bool>)
    returns (status: Option<bool>, errors: bool)
    requires out != err && out.Valid() && err.Valid()
    modifies out, err
    ensures out.Valid() && err.Valid() && Kept(out) && Kept(err)
    ensures known.Some? ==> status == known
  {
    status, errors := known, false;
    for i := 0 to cleanups
      invariant out.Valid() && err.Valid() && Kept(out) && Kept(err)
      invariant known.Some? ==> status == known
    {
      var failed;
      status, failed := TryWait(status);
      var broken := DrainBoth(out, err);
      errors := errors || failed || broken;
    }
  }

  /** Reading only goes on, and a stream read to its end is not touched again. */
  twostate predicate Kept(stream: Stream)
    reads stream
  {
    && old(stream.consumed) <= stream.consumed
    && (!old(stream.open) ==> !stream.open && stream.consumed == old(stream.consumed)
                              && stream.output == old(stream.output) && stream.damaged == old(stream.damaged))
  }

  /**
   * `capture`, from the spawned child to its success condition. The clock is the number of polls
   * before the deadline, and the child, its group and the file system answer as they like. Success
   * means both files hold the child's complete streams, within the limit; a stream read past the
   * limit is never a success, and the limit is blamed only for such a stream.
   */
  method Capture(out: Stream, err: Stream, deadline: nat, cleanups: nat) returns (ok: bool, receipt: Receipt)
    requires out != err && Fresh(out) && Fresh(err)
    modifies out, err
    ensures ok <==>
            && receipt.reason.None? && !receipt.errors && !receipt.remaining
            && receipt.captured == 2 && receipt.status == Some(true)
    ensures receipt.captured == (if out.open then 0 else 1) + (if err.open then 0 else 1)
    ensures receipt.reason.None? ==> Captured(out) && Captured(err) && receipt.status.Some?
    ensures out.Exceeded() || err.Exceeded() ==> receipt.reason.Some?
    ensures receipt.reason == Some(OutputLimit) ==> out.Exceeded() || err.Exceeded()
  {
    var reason, errors, status := Poll(out, err, deadline);
    var present, unknown := *, *;
    if unknown {
      errors, reason, present := true, First(reason, GroupStatusError), true;
    }
    if reason.Some? || present {
      reason := First(reason, RemainingOwnedGroup);
      var failed;
      status, failed := CleanUp(out, err, cleanups, status);
      errors := errors || failed;
    }
    var broken := DrainBoth(out, err);
    var synced, remaining := *, *;
    errors := errors || broken || !synced;
    var captured := (if out.open then 0 else 1) + (if err.open then 0 else 1);
    receipt := Receipt(reason, errors, captured, remaining, status);
    ok := reason.None? && !errors && !remaining && captured == 2 && status == Some(true);
  }
}
