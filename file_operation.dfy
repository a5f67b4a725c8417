/** `FileOperation`: one non-blocking read, write or delete of a file,
    driven by poll events. The system calls (`open`, `fcntl`, `read`,
    `write`, `unlink`, `close`) are not modelled; their outcomes are passed
    in. */
module FileOperation {

  /** Event bits of `struct pollfd` (Linux values). */
  const POLLIN: bv16 := 0x001
  const POLLOUT: bv16 := 0x004
  const POLLERR: bv16 := 0x008
  const POLLHUP: bv16 := 0x010
  const POLLNVAL: bv16 := 0x020

  /** Size of the buffer of one `read` and the largest chunk of one `write`. */
  const CHUNK: nat := 4096

  datatype OpType = Read | Write | Delete
  datatype OpState = Pending | InProgress | Completed | Failed

  /** What opening the file came to: the descriptor `open` returned (-1 on
      failure) and whether making it non-blocking with `fcntl` worked. */
  datatype OpenOutcome = OpenOutcome(fd: int, fcntlOk: bool)

  /** What one `read` into the 4096-byte buffer came to. */
  datatype ReadOutcome = ReadBytes(data: string) | ReadWouldBlock | ReadError

  /** What one `write` came to. */
  datatype WriteOutcome = Wrote(count: nat) | WriteWouldBlock | WriteError

  /** The system-call outcomes one poll event may consume. */
  datatype IoOutcome = IoOutcome(read: ReadOutcome, write: WriteOutcome, unlinkOk: bool)

  /** The fields of a `FileOperation`. */
  datatype Op = Op(kind: OpType, state: OpState, path: string, content: string,
                   result: string, fd: int, bytesProcessed: nat, totalBytes: nat)

  /** A well-formed operation: the write counters stay within the content,
      a DELETE never owns a descriptor, and only an operation in progress
      holds one. */
  predicate Inv(op: Op) {
    op.bytesProcessed <= op.totalBytes <= |op.content| &&
    (op.kind != Write ==> op.totalBytes == 0) &&
    (op.kind == Delete || op.state == Pending ==> op.fd == -1) &&
    (op.state == InProgress && op.kind != Delete ==> op.fd >= 0)
  }

  /** The operation a constructor makes. */
  function New(kind: OpType, path: string, content: string): (op: Op)
    ensures Inv(op) && op.state == Pending && op.fd == -1
    ensures op.bytesProcessed == 0 && op.totalBytes == 0 && op.result == []
  {
    Op(kind, Pending, path, content, [], -1, 0, 0)
  }

  /** `openFile`: a DELETE opens nothing; otherwise the descriptor is kept
      only when both `open` and `fcntl` succeed, and a write learns its
      total size. */
  function OpenFile(op: Op, outcome: OpenOutcome): (r: (Op, bool))
    ensures r.1 <==> op.kind == Delete || (outcome.fd != -1 && outcome.fcntlOk)
    ensures !r.1 ==> r.0.fd == -1
    ensures r.1 && op.kind != Delete ==> r.0.fd == outcome.fd
    ensures r.0.state == op.state && r.0.bytesProcessed == op.bytesProcessed && r.0.result == op.result
  {
    if op.kind == Delete then (op, true)
    else if outcome.fd == -1 then (op.(fd := -1), false)
    else if !outcome.fcntlOk then (op.(fd := -1), false)
    else if op.kind == Write then (op.(fd := outcome.fd, totalBytes := |op.content|), true)
    else (op.(fd := outcome.fd), true)
  }

  /** `FileOperation::start`. */
  function StartStep(op: Op, outcome: OpenOutcome): (r: (Op, bool))
    requires outcome.fd >= -1
    ensures r.1 <==> op.state == Pending && r.0.state == InProgress
    ensures op.state != Pending ==> r == (op, false)
    ensures op.state == Pending && !r.1 ==> r.0.state == Failed && r.0.fd == -1
    ensures op.kind == Delete ==> r.0.fd == op.fd
    ensures Inv(op) ==> Inv(r.0)
  {
    if op.state != Pending then (op, false)
    else
      var (op1, ok) := OpenFile(op, outcome);
      if !ok then (op1.(state := Failed), false)
      else (op1.(state := InProgress), true)
  }

  /** `handleRead`: no POLLIN waits; a would-block read waits; an error
      fails; an empty read completes; a read of some bytes appends them. */
  function ReadStep(op: Op, revents: bv16, outcome: ReadOutcome): (r: (Op, bool))
    ensures op.result <= r.0.result && r.0.fd == op.fd && r.0.bytesProcessed == op.bytesProcessed
    ensures r.1 ==> r.0.state == op.state
    ensures !r.1 ==> r.0.state == Completed || r.0.state == Failed
    ensures op.state != Completed ==> (r.0.state == Completed <==> revents & POLLIN != 0 && outcome == ReadBytes([]))
  {
    if revents & POLLIN == 0 then (op, true)
    else match outcome
      case ReadWouldBlock => (op, true)
      case ReadError => (op.(state := Failed), false)
      case ReadBytes(data) =>
        if data == [] then (op.(state := Completed), false)
        else (op.(result := op.result + data), true)
  }

  /** The number of bytes the next `write` asks for. */
  function WriteRequest(op: Op): nat
    requires op.bytesProcessed <= op.totalBytes
  {
    if CHUNK < op.totalBytes - op.bytesProcessed then CHUNK else op.totalBytes - op.bytesProcessed
  }

  /** `handleWrite`: no POLLOUT waits; with everything written the write
      completes; otherwise at most 4096 bytes are written, and the write
      completes once the counter reaches the total. */
  function WriteStep(op: Op, revents: bv16, outcome: WriteOutcome): (r: (Op, bool))
    requires op.bytesProcessed <= op.totalBytes
    requires outcome.Wrote? ==> outcome.count <= WriteRequest(op)
    ensures op.bytesProcessed <= r.0.bytesProcessed <= r.0.totalBytes == op.totalBytes
    ensures r.0.result == op.result && r.0.fd == op.fd
    ensures r.1 ==> r.0.state == op.state
    ensures !r.1 ==> r.0.state == Completed || r.0.state == Failed
  {
    if revents & POLLOUT == 0 then (op, true)
    else if op.bytesProcessed >= op.totalBytes then (op.(state := Completed), false)
    else match outcome
      case WriteWouldBlock => (op, true)
      case WriteError => (op.(state := Failed), false)
      case Wrote(n) =>
        var written := op.bytesProcessed + n;
        if written >= op.totalBytes then (op.(bytesProcessed := written, state := Completed), false)
        else (op.(bytesProcessed := written), true)
  }

  /** `handleDelete`: the `unlink` outcome decides, and the operation ends
      either way. */
  function DeleteStep(op: Op, unlinkOk: bool): (r: (Op, bool))
    ensures !r.1
    ensures r.0.state == Completed <==> unlinkOk
    ensures r.0.state == Failed <==> !unlinkOk
    ensures r.0 == op.(state := r.0.state)
  {
    (op.(state := if unlinkOk then Completed else Failed), false)
  }

  /** Whether `revents` reports an error, a hang-up or an invalid fd. */
  predicate ErrorEvent(revents: bv16) {
    revents & (POLLERR | POLLHUP | POLLNVAL) != 0
  }

  /** The precondition a poll step puts on the write outcome: `write` never
      writes more than it was asked to. */
  predicate WriteFits(op: Op, io: IoOutcome) {
    op.bytesProcessed <= op.totalBytes &&
    (op.kind == Write && io.write.Wrote? ==> io.write.count <= WriteRequest(op))
  }

  /** `handlePollEvent`: the new operation and whether it stays active. */
  function PollStep(op: Op, revents: bv16, io: IoOutcome): (r: (Op, bool))
    requires WriteFits(op, io)
    ensures r.1 ==> op.state == InProgress && r.0.state == InProgress
    ensures r.0.fd == op.fd && r.0.kind == op.kind && r.0.path == op.path
  {
    if op.state != InProgress then (op, false)
    else if ErrorEvent(revents) then (op.(state := Failed), false)
    else match op.kind
      case Read => ReadStep(op, revents, io.read)
      case Write => WriteStep(op, revents, io.write)
      case Delete => DeleteStep(op, io.unlinkOk)
  }

  /** `cleanup`: the descriptor is released once. */
  function CleanupStep(op: Op): (r: Op)
    ensures r.fd == -1
    ensures r.(fd := op.fd) == op
  {
    if op.fd != -1 then op.(fd := -1) else op
  }

  /** COMPLETED and FAILED are terminal: no poll event changes them. */
  lemma PollTerminal(op: Op, revents: bv16, io: IoOutcome)
    requires WriteFits(op, io)
    requires op.state == Completed || op.state == Failed || op.state == Pending
    ensures PollStep(op, revents, io) == (op, false)
  {
  }

  /** An operation stays active exactly while it is in progress, and a poll
      step ends it exactly by completing or failing it. */
  lemma PollStaysActive(op: Op, revents: bv16, io: IoOutcome)
    requires WriteFits(op, io) && op.state == InProgress
    ensures EndsByOutcome(PollStep(op, revents, io))
  {
    if ErrorEvent(revents) {
      assert PollStep(op, revents, io) == (op.(state := Failed), false);
    } else if op.kind == Read {
      assert PollStep(op, revents, io) == ReadStep(op, revents, io.read);
      ReadStepEnds(op, revents, io.read);
    } else if op.kind == Write {
      assert PollStep(op, revents, io) == WriteStep(op, revents, io.write);
      WriteStepEnds(op, revents, io.write);
    } else {
      assert PollStep(op, revents, io) == DeleteStep(op, io.unlinkOk);
    }
  }

  /** Whether a step result keeps the operation active exactly while it is
      in progress, and ends it only by completing or failing it. */
  predicate EndsByOutcome(r: (Op, bool)) {
    (r.1 <==> r.0.state == InProgress) && (!r.1 ==> r.0.state == Completed || r.0.state == Failed)
  }

  lemma ReadStepEnds(op: Op, revents: bv16, outcome: ReadOutcome)
    requires op.state == InProgress
    ensures EndsByOutcome(ReadStep(op, revents, outcome))
  {
  }

  lemma WriteStepEnds(op: Op, revents: bv16, outcome: WriteOutcome)
    requires op.state == InProgress
    requires op.bytesProcessed <= op.totalBytes
    requires outcome.Wrote? ==> outcome.count <= WriteRequest(op)
    ensures EndsByOutcome(WriteStep(op, revents, outcome))
  {
  }

  /** Any error bit fails an operation in progress. */
  lemma PollErrorFails(op: Op, revents: bv16, io: IoOutcome)
    requires WriteFits(op, io) && op.state == InProgress && ErrorEvent(revents)
    ensures PollStep(op, revents, io) == (op.(state := Failed), false)
  {
  }

  /** A read of zero bytes completes; a read of some bytes appends exactly
      those bytes and changes nothing else. */
  lemma ReadAppends(op: Op, revents: bv16, io: IoOutcome)
    requires WriteFits(op, io) && op.state == InProgress && op.kind == Read
    requires !ErrorEvent(revents) && revents & POLLIN != 0 && io.read.ReadBytes?
    ensures io.read.data == [] ==> PollStep(op, revents, io) == (op.(state := Completed), false)
    ensures io.read.data != [] ==> PollStep(op, revents, io) == (op.(result := op.result + io.read.data), true)
  {
  }

  /** Every poll step keeps the operation well formed; a write only moves
      its counter forward, by at most 4096, never past the total, and a
      completed write has written everything. */
  lemma PollStepInv(op: Op, revents: bv16, io: IoOutcome)
    requires Inv(op) && WriteFits(op, io)
    ensures var op' := PollStep(op, revents, io).0;
      Inv(op') &&
      op.bytesProcessed <= op'.bytesProcessed <= op.bytesProcessed + CHUNK &&
      op'.totalBytes == op.totalBytes &&
      (op.kind == Write && op.state == InProgress && op'.state == Completed ==> op'.bytesProcessed == op'.totalBytes)
  {
    if op.state == InProgress && !ErrorEvent(revents) && op.kind == Write {
      WriteStepInv(op, revents, io.write);
    }
  }

  lemma WriteStepInv(op: Op, revents: bv16, outcome: WriteOutcome)
    requires Inv(op) && op.kind == Write
    requires outcome.Wrote? ==> outcome.count <= WriteRequest(op)
    ensures var op' := WriteStep(op, revents, outcome).0;
      Inv(op') &&
      op.bytesProcessed <= op'.bytesProcessed <= op.bytesProcessed + CHUNK &&
      op'.totalBytes == op.totalBytes &&
      (op'.state == Completed ==> op.state == Completed || op'.bytesProcessed == op'.totalBytes)
  {
  }

  /** A started write's total is the size of its content. */
  lemma StartWriteTotal(op: Op, outcome: OpenOutcome)
    requires outcome.fd >= -1 && op.kind == Write
    ensures StartStep(op, outcome).1 ==> StartStep(op, outcome).0.totalBytes == |op.content|
  {
  }

  /** Cleanup releases the descriptor at most once: a second cleanup
      changes nothing. */
  lemma CleanupOnce(op: Op)
    ensures CleanupStep(CleanupStep(op)) == CleanupStep(op)
  {
  }

  /** The object the server allocates for one operation. */
  class FileOperation {
    var kind: OpType
    var state: OpState
    var path: string
    var content: string
    var result: string
    var fd: int
    var bytesProcessed: nat
    var totalBytes: nat

    function Value(): Op
      reads this
    {
      Op(kind, state, path, content, result, fd, bytesProcessed, totalBytes)
    }

    constructor (kind: OpType, path: string, content: string)
      ensures Value() == New(kind, path, content)
    {
      this.kind := kind;
      this.state := Pending;
      this.path := path;
      this.content := content;
      this.result := [];
      this.fd := -1;
      this.bytesProcessed := 0;
      this.totalBytes := 0;
    }

    predicate IsCompleted()
      reads this
    {
      state == Completed
    }

    predicate HasFailed()
      reads this
    {
      state == Failed
    }

    /** `FileOperation::start`, with the outcome of opening the file. */
    method Start(outcome: OpenOutcome) returns (ok: bool)
      requires outcome.fd >= -1
      modifies this
      ensures (Value(), ok) == StartStep(old(Value()), outcome)
    {
      if state != Pending {
        return false;
      }
      if kind != Delete {
        fd := outcome.fd;
        if fd == -1 {
          state := Failed;
          return false;
        }
        if !outcome.fcntlOk {
          fd := -1;
          state := Failed;
          return false;
        }
        if kind == Write {
          totalBytes := |content|;
        }
      }
      state := InProgress;
      return true;
    }

    /** `FileOperation::handlePollEvent`, with the outcomes of the system
        calls the event leads to. */
    method HandlePollEvent(revents: bv16, io: IoOutcome) returns (more: bool)
      requires WriteFits(Value(), io)
      modifies this`state, this`result, this`bytesProcessed
      ensures (Value(), more) == PollStep(old(Value()), revents, io)
    {
      if state != InProgress {
        return false;
      }
      if ErrorEvent(revents) {
        state := Failed;
        return false;
      }
      match kind
      case Read => more := HandleRead(revents, io.read);
      case Write => more := HandleWrite(revents, io.write);
      case Delete => more := HandleDelete(io.unlinkOk);
    }

    method HandleRead(revents: bv16, outcome: ReadOutcome) returns (more: bool)
      modifies this`state, this`result
      ensures (Value(), more) == ReadStep(old(Value()), revents, outcome)
    {
      if revents & POLLIN == 0 {
        return true;
      }
      match outcome
      case ReadWouldBlock => more := true;
      case ReadError =>
        state := Failed;
        more := false;
      case ReadBytes(data) =>
        if data == [] {
          state := Completed;
          more := false;
        } else {
          result := result + data;
          more := true;
        }
    }

    method HandleWrite(revents: bv16, outcome: WriteOutcome) returns (more: bool)
      requires bytesProcessed <= totalBytes
      requires outcome.Wrote? ==> outcome.count <= WriteRequest(Value())
      modifies this`state, this`bytesProcessed
      ensures (Value(), more) == WriteStep(old(Value()), revents, outcome)
    {
      if revents & POLLOUT == 0 {
        return true;
      }
      if bytesProcessed >= totalBytes {
        state := Completed;
        return false;
      }
      match outcome
      case WriteWouldBlock => more := true;
      case WriteError =>
        state := Failed;
        more := false;
      case Wrote(n) =>
        bytesProcessed := bytesProcessed + n;
        if bytesProcessed >= totalBytes {
          state := Completed;
          more := false;
        } else {
          more := true;
        }
    }

    /** `handleDelete`; `unlinkOk` is whether `unlink` succeeded. */
    method HandleDelete(unlinkOk: bool) returns (more: bool)
      modifies this`state
      ensures (Value(), more) == DeleteStep(old(Value()), unlinkOk)
    {
      if !unlinkOk {
        state := Failed;
        return false;
      }
      state := Completed;
      return false;
    }

    /** `FileOperation::cleanup`; `closed` is the descriptor passed to
        `close`, if any. */
    method Cleanup() returns (closed: int)
      modifies this
      ensures Value() == CleanupStep(old(Value()))
      ensures closed == old(fd)
    {
      closed := fd;
      if fd != -1 {
        fd := -1;
      }
    }
  }
}
