/** `FileHandler`: path sanitising and the path predicates built on it,
    the content extraction of `writeFile`, and the bookkeeping of the
    class-wide queues of file operations. `getcwd`, `realpath` and
    `StringUtils::urlDecode` are passed in. */
module FileHandler {
  import opened Wrappers
  import opened Text
  import opened FileOperation
  import IntMap

  /** Characters `sanitizePath` drops: everything whose value as a signed
      `char` is at most 32 (controls, space and every byte from 128 up)
      and the shell metacharacters `;`, `|` and `&`. */
  predicate Dropped(c: char) {
    c as int <= 32 || c as int >= 128 || c == ';' || c == '|' || c == '&'
  }

  /** A path that `sanitizePath` has nothing to do to. */
  predicate Clean(p: string) {
    (forall i :: 0 <= i < |p| ==> !Dropped(p[i]) && p[i] != '\\') &&
    (forall i :: 0 <= i < |p| - 1 ==> !(p[i] == '/' && p[i + 1] == '/'))
  }

  /** The path `sanitizePath` builds from the characters of `p`, one at a
      time from the left: dropped characters are skipped, `\` becomes `/`,
      and a `/` right after a `/` is skipped. */
  function Sanitized(p: string): (r: string)
    ensures |r| <= |p|
    ensures Clean(r)
  {
    if p == [] then []
    else
      var prev := Sanitized(p[..|p| - 1]);
      var c := p[|p| - 1];
      if Dropped(c) then prev
      else
        var c' := if c == '\\' then '/' else c;
        if c' == '/' && prev != [] && prev[|prev| - 1] == '/' then prev
        else prev + [c']
  }

  /** One more character: skipped, or appended as `sanitizePath` does. */
  lemma SanitizedStep(p: string, c: char)
    ensures Sanitized(p + [c]) ==
      var prev := Sanitized(p);
      var c' := if c == '\\' then '/' else c;
      if Dropped(c) || (c' == '/' && prev != [] && prev[|prev| - 1] == '/') then prev else prev + [c']
  {
    assert (p + [c])[..|p|] == p;
  }

  /** `FileHandler::sanitizePath`. */
  method SanitizePath(path: string) returns (cleanPath: string)
    ensures cleanPath == Sanitized(path)
  {
    cleanPath := [];
    var lastWasSlash := false;
    var i := 0;
    while i < |path|
      invariant 0 <= i <= |path|
      invariant cleanPath == Sanitized(path[..i])
      invariant lastWasSlash <==> cleanPath != [] && cleanPath[|cleanPath| - 1] == '/'
    {
      SanitizedStep(path[..i], path[i]);
      assert path[..i + 1] == path[..i] + [path[i]];
      var c := path[i];
      if Dropped(c) {
        i := i + 1;
        continue;
      }
      if c == '\\' {
        c := '/';
      }
      if c == '/' && lastWasSlash {
        i := i + 1;
        continue;
      }
      lastWasSlash := c == '/';
      cleanPath := cleanPath + [c];
      i := i + 1;
    }
    assert path[..i] == path;
  }

  /** A clean path is left as it is. */
  lemma {:induction false} CleanFixpoint(p: string)
    requires Clean(p)
    ensures Sanitized(p) == p
  {
    if p != [] {
      var q := p[..|p| - 1];
      assert Clean(q);
      CleanFixpoint(q);
    }
  }

  /** Sanitising twice is sanitising once. */
  lemma SanitizeIdempotent(p: string)
    ensures Sanitized(Sanitized(p)) == Sanitized(p)
  {
    CleanFixpoint(Sanitized(p));
  }

  /** Sanitising works from the left: what it makes of a prefix is a
      prefix of what it makes of the whole path. */
  lemma {:induction false} SanitizedExtends(a: string, b: string)
    decreases |b|
    ensures Sanitized(a) <= Sanitized(a + b)
  {
    if b == [] {
      assert a + b == a;
    } else {
      var b' := b[..|b| - 1];
      assert (a + b)[..|a + b| - 1] == a + b';
      SanitizedExtends(a, b');
    }
  }

  /** A path ending in `/` still ends in `/` once sanitised. */
  lemma SanitizedKeepsFinalSlash(p: string)
    requires p != [] && p[|p| - 1] == '/'
    ensures var r := Sanitized(p); r != [] && r[|r| - 1] == '/'
  {
  }

  /** `.` and `..` segments survive: sanitising does not normalise them. */
  lemma SanitizeKeepsDotSegments()
    ensures Sanitized("/a/../b/./c") == "/a/../b/./c"
  {
    CleanFixpoint("/a/../b/./c");
  }

  /** `FileHandler::getAbsolutePath`. `cwd` is what `getcwd` gives (None
      when it fails) and `realpath` what `realpath` resolves a path to. */
  function AbsolutePath(relativePath: string, cwd: Option<string>, realpath: string -> Option<string>): (r: string)
    ensures cwd.None? ==> r == Sanitized(relativePath)
  {
    var normalized := Sanitized(relativePath);
    if normalized != [] && normalized[0] == '/' then normalized
    else match cwd
      case None => normalized
      case Some(dir) =>
        var absolute := dir + "/" + normalized;
        realpath(absolute).GetOr(absolute)
  }

  /** A path that is absolute once sanitised is returned as sanitised,
      whatever the working directory and the file system. */
  lemma AbsolutePathOfAbsolute(p: string, cwd: Option<string>, realpath: string -> Option<string>)
    requires Sanitized(p) != [] && Sanitized(p)[0] == '/'
    ensures AbsolutePath(p, cwd, realpath) == Sanitized(p)
    ensures Clean(AbsolutePath(p, cwd, realpath))
  {
  }

  /** `FileHandler::isPathWithinRoot`: `find` of the root in the path
      returns 0. */
  function PathWithinRoot(path: string, root: string, cwd: Option<string>, realpath: string -> Option<string>): (r: bool)
    ensures r <==> AbsolutePath(root, cwd, realpath) <= AbsolutePath(path, cwd, realpath)
  {
    var absPath := AbsolutePath(path, cwd, realpath);
    var absRoot := AbsolutePath(root, cwd, realpath);
    assert absRoot <= absPath ==> OccursAt(absPath, absRoot, 0);
    Find(absPath, absRoot) == Some(0)
  }

  /** The test is on characters, not on path segments: `/rootX` lies
      within `/root`. */
  lemma SiblingCountsAsWithin(cwd: Option<string>, realpath: string -> Option<string>)
    ensures PathWithinRoot("/rootX", "/root", cwd, realpath)
  {
    CleanFixpoint("/rootX");
    CleanFixpoint("/root");
  }

  const CONTENT_KEY: string := "textcontent="

  /** The text `writeFile` decodes: what follows the first `textcontent=`,
      or the whole content when the marker is missing. */
  function WriteFileText(content: string): (r: string)
    ensures Find(content, CONTENT_KEY).None? ==> r == content
    ensures Find(content, CONTENT_KEY).Some? ==>
      var p := Find(content, CONTENT_KEY).value;
      content == content[..p] + CONTENT_KEY + r
  {
    match Find(content, CONTENT_KEY)
    case None => content
    case Some(p) =>
      assert content == content[..p] + content[p..p + 12] + content[p + 12..];
      content[p + 12..]
  }

  /** The content `writeFile` hands to a WRITE operation. */
  function WriteFileContent(content: string, urlDecode: string -> string): string {
    urlDecode(WriteFileText(content))
  }

  /** What `poll` reports for a polled descriptor: a negative descriptor is
      ignored and always reports no event. */
  function Revents(ready: map<int, bv16>, fd: int): bv16 {
    if fd < 0 || fd !in ready then 0 else ready[fd]
  }

  /** The outcomes of the system calls an operation's poll step makes. */
  function IoOf(io: map<int, IoOutcome>, fd: int): IoOutcome {
    if fd in io then io[fd] else IoOutcome(ReadWouldBlock, WriteWouldBlock, false)
  }

  /** Every active operation and its outcomes fit the write precondition. */
  predicate IoFits(active: IntMap.Map<Op>, io: map<int, IoOutcome>) {
    forall i :: 0 <= i < |active| ==> WriteFits(active[i].1, IoOf(io, active[i].0))
  }

  /** What `poll` returns is consistent with the events it reports: a
      positive count means some descriptor has events, zero means none
      has, and a negative result is an error. */
  predicate PollConsistent(active: IntMap.Map<Op>, ready: map<int, bv16>, pollResult: int) {
    (pollResult > 0 ==> exists i :: 0 <= i < |active| && Revents(ready, active[i].0) != 0) &&
    (pollResult == 0 ==> forall i :: 0 <= i < |active| ==> Revents(ready, active[i].0) == 0)
  }

  /** What the poll pass keeps of one entry: the operation after its poll
      step while it stays active, nothing once it ends. */
  function PassEntry(e: (int, Op), ready: map<int, bv16>, io: map<int, IoOutcome>): (r: IntMap.Map<Op>)
    requires WriteFits(e.1, IoOf(io, e.0))
    ensures |r| <= 1 && (r != [] ==> r[0].0 == e.0)
  {
    var (op', more) := PollStep(e.1, Revents(ready, e.0), IoOf(io, e.0));
    if more then [(e.0, op')] else []
  }

  /** The active table after the poll pass, in descriptor order: each
      operation takes its poll step; those that end are cleaned up and
      erased. */
  function PollPass(active: IntMap.Map<Op>, ready: map<int, bv16>, io: map<int, IoOutcome>): (r: IntMap.Map<Op>)
    requires IoFits(active, io)
    ensures |r| <= |active|
    ensures forall i :: 0 <= i < |r| ==> r[i].0 in IntMap.Keys(active)
    ensures IntMap.Sorted(active) ==> IntMap.Sorted(r)
  {
    if active == [] then []
    else
      IoFitsTail(active, io);
      var head := PassEntry(active[0], ready, io);
      var tail := PollPass(active[1..], ready, io);
      var r := head + tail;
      assert IntMap.Sorted(active) ==> IntMap.Sorted(r) by {
        if IntMap.Sorted(active) {
          IntMap.SortedTail(active);
          if head != [] {
            IntMap.SortedCons(head[0], tail);
            assert r == [head[0]] + tail;
          }
        }
      }
      r
  }

  /** The active table after the pending queue is drained: each queued
      operation is started again, and filed under its descriptor if that
      worked. */
  function Drain(active: IntMap.Map<Op>, pending: seq<Op>, opens: seq<OpenOutcome>): (r: IntMap.Map<Op>)
    requires IntMap.Sorted(active)
    requires |opens| == |pending|
    requires forall i :: 0 <= i < |opens| ==> opens[i].fd >= -1
    ensures IntMap.Sorted(r)
    decreases |pending|
  {
    if pending == [] then active
    else
      var (op, ok) := StartStep(pending[0], opens[0]);
      Drain(if ok then IntMap.Put(active, op.fd, op) else active, pending[1..], opens[1..])
  }

  /** The state `handleFileOperations` leaves the active table in. */
  function Handled(active: IntMap.Map<Op>, pending: seq<Op>, ready: map<int, bv16>, pollResult: int,
                   io: map<int, IoOutcome>, opens: seq<OpenOutcome>): (r: IntMap.Map<Op>)
    requires IntMap.Sorted(active) && IoFits(active, io)
    requires |opens| == |pending| && forall i :: 0 <= i < |opens| ==> opens[i].fd >= -1
    ensures IntMap.Sorted(r)
    ensures pending == [] && pollResult <= 0 ==> r == active
  {
    if active == [] && pending == [] then active
    else Drain(if active != [] && pollResult > 0 then PollPass(active, ready, io) else active, pending, opens)
  }

  /** An operation in progress, filed under its own descriptor. */
  predicate ActiveEntry(fd: int, op: Op) {
    Inv(op) && op.state == InProgress && op.fd == fd
  }

  /** Every entry of the table is an active entry. */
  predicate AllActive(m: IntMap.Map<Op>) {
    forall i :: 0 <= i < |m| ==> ActiveEntry(m[i].0, m[i].1)
  }

  lemma AllActiveCons(x: (int, Op), m: IntMap.Map<Op>)
    requires ActiveEntry(x.0, x.1) && AllActive(m)
    ensures AllActive([x] + m)
  {
    forall i | 0 <= i < |[x] + m|
      ensures ActiveEntry(([x] + m)[i].0, ([x] + m)[i].1)
    {
      if i > 0 {
        assert ([x] + m)[i] == m[i - 1];
      }
    }
  }

  lemma AllActiveTail(m: IntMap.Map<Op>)
    requires AllActive(m) && m != []
    ensures ActiveEntry(m[0].0, m[0].1) && AllActive(m[1..])
  {
    forall i | 0 <= i < |m[1..]|
      ensures ActiveEntry(m[1..][i].0, m[1..][i].1)
    {
      assert m[1..][i] == m[i + 1];
    }
  }

  /** Filing an operation in progress under its descriptor keeps every
      entry of the table an active entry. */
  lemma {:induction false} PutActiveEntry(m: IntMap.Map<Op>, op: Op)
    requires IntMap.Sorted(m) && AllActive(m)
    requires ActiveEntry(op.fd, op)
    ensures AllActive(IntMap.Put(m, op.fd, op))
  {
    var r := IntMap.Put(m, op.fd, op);
    if m == [] {
      assert r == [(op.fd, op)];
      AllActiveCons((op.fd, op), []);
    } else {
      AllActiveTail(m);
      if m[0].0 == op.fd {
        assert r == [(op.fd, op)] + m[1..];
        AllActiveCons((op.fd, op), m[1..]);
      } else if op.fd < m[0].0 {
        assert r == [(op.fd, op)] + m;
        AllActiveCons((op.fd, op), m);
      } else {
        IntMap.SortedTail(m);
        PutActiveEntry(m[1..], op);
        var t := IntMap.Put(m[1..], op.fd, op);
        assert r == [m[0]] + t;
        AllActiveCons(m[0], t);
      }
    }
  }

  /** The queue invariant: the active table is in descriptor order, an
      active operation is in progress and filed under its own descriptor,
      and a queued operation has failed to start. */
  predicate QueueInv(active: IntMap.Map<Op>, pending: seq<Op>) {
    IntMap.Sorted(active) && AllActive(active) &&
    (forall i :: 0 <= i < |pending| ==> Inv(pending[i]) && pending[i].state == Failed)
  }

  /** Operations that have failed are never started again: draining them
      leaves the active table as it was. */
  lemma {:induction false} DrainDiscardsFailed(active: IntMap.Map<Op>, pending: seq<Op>, opens: seq<OpenOutcome>)
    requires IntMap.Sorted(active)
    requires |opens| == |pending|
    requires forall i :: 0 <= i < |opens| ==> opens[i].fd >= -1
    requires forall i :: 0 <= i < |pending| ==> pending[i].state == Failed
    decreases |pending|
    ensures Drain(active, pending, opens) == active
  {
    if pending != [] {
      DrainDiscardsFailed(active, pending[1..], opens[1..]);
    }
  }

  /** The poll pass keeps every remaining operation in progress, well
      formed, and under its own descriptor. */
  lemma {:induction false} PollPassInv(active: IntMap.Map<Op>, ready: map<int, bv16>, io: map<int, IoOutcome>)
    requires QueueInv(active, []) && IoFits(active, io)
    ensures QueueInv(PollPass(active, ready, io), [])
  {
    if active != [] {
      var (fd, op) := active[0];
      AllActiveTail(active);
      IntMap.SortedTail(active);
      IoFitsTail(active, io);
      PollPassInv(active[1..], ready, io);
      var tail := PollPass(active[1..], ready, io);
      var head := PassEntry(active[0], ready, io);
      if head != [] {
        PollStepInv(op, Revents(ready, fd), IoOf(io, fd));
        PollStaysActive(op, Revents(ready, fd), IoOf(io, fd));
        AllActiveCons(head[0], tail);
        assert head + tail == [head[0]] + tail;
      } else {
        assert head + tail == tail;
      }
    }
  }

  lemma IoFitsTail(active: IntMap.Map<Op>, io: map<int, IoOutcome>)
    requires IoFits(active, io) && active != []
    ensures WriteFits(active[0].1, IoOf(io, active[0].0)) && IoFits(active[1..], io)
  {
    forall i | 0 <= i < |active[1..]|
      ensures WriteFits(active[1..][i].1, IoOf(io, active[1..][i].0))
    {
      assert active[1..][i] == active[i + 1];
    }
  }

  /** After `handleFileOperations` the queue is empty and the invariant
      holds: every queued operation was discarded. */
  lemma HandledInv(active: IntMap.Map<Op>, pending: seq<Op>, ready: map<int, bv16>, pollResult: int,
                   io: map<int, IoOutcome>, opens: seq<OpenOutcome>)
    requires QueueInv(active, pending) && IoFits(active, io)
    requires |opens| == |pending| && forall i :: 0 <= i < |opens| ==> opens[i].fd >= -1
    ensures QueueInv(Handled(active, pending, ready, pollResult, io, opens), [])
    ensures Handled(active, pending, ready, pollResult, io, opens) ==
      if active != [] && pollResult > 0 then PollPass(active, ready, io) else active
  {
    var polled := if active != [] && pollResult > 0 then PollPass(active, ready, io) else active;
    if active != [] && pollResult > 0 {
      PollPassInv(active, ready, io);
    }
    DrainDiscardsFailed(polled, pending, opens);
  }

  lemma ConcatAssoc<T>(a: seq<T>, b: seq<T>, c: seq<T>)
    ensures a + (b + c) == (a + b) + c
  {
  }

  /** The poll pass over the entries from `i` on handles entry `i`, then
      the rest. */
  lemma PollPassAt(active: IntMap.Map<Op>, i: nat, ready: map<int, bv16>, io: map<int, IoOutcome>)
    requires i < |active| && IoFits(active[i..], io)
    ensures WriteFits(active[i].1, IoOf(io, active[i].0)) && IoFits(active[i + 1..], io)
    ensures PollPass(active[i..], ready, io) == PassEntry(active[i], ready, io) + PollPass(active[i + 1..], ready, io)
  {
    var rest := active[i..];
    assert rest[0] == active[i] && rest[1..] == active[i + 1..];
    IoFitsTail(rest, io);
  }

  /** The loop of the poll pass, over the poll array in descriptor order. */
  method RunPollPass(active: IntMap.Map<Op>, ready: map<int, bv16>, io: map<int, IoOutcome>) returns (next: IntMap.Map<Op>)
    requires IoFits(active, io)
    ensures next == PollPass(active, ready, io)
  {
    next := [];
    var i := 0;
    assert active[0..] == active;
    while i < |active|
      invariant 0 <= i <= |active| && IoFits(active[i..], io)
      invariant next + PollPass(active[i..], ready, io) == PollPass(active, ready, io)
    {
      PollPassAt(active, i, ready, io);
      var head := PassEntry(active[i], ready, io);
      ConcatAssoc(next, head, PollPass(active[i + 1..], ready, io));
      next := next + head;
      i := i + 1;
    }
  }

  /** The loop that drains the pending queue, in FIFO order. */
  method RunDrain(active: IntMap.Map<Op>, queue: seq<Op>, opens: seq<OpenOutcome>) returns (table: IntMap.Map<Op>)
    requires IntMap.Sorted(active)
    requires |opens| == |queue| && forall i :: 0 <= i < |opens| ==> opens[i].fd >= -1
    ensures table == Drain(active, queue, opens)
  {
    table := active;
    var i := 0;
    while i < |queue|
      invariant 0 <= i <= |queue| && IntMap.Sorted(table)
      invariant Drain(table, queue[i..], opens[i..]) == Drain(active, queue, opens)
    {
      var (op, ok) := StartStep(queue[i], opens[i]);
      assert queue[i..][1..] == queue[i + 1..] && opens[i..][1..] == opens[i + 1..];
      if ok {
        table := IntMap.Put(table, op.fd, op);
      }
      i := i + 1;
    }
  }

  /** The class-wide queues: `activeOperations` keyed by descriptor and
      the FIFO `pendingOperations`. */
  class FileHandler {
    var active: IntMap.Map<Op>
    var pending: seq<Op>

    ghost predicate Valid()
      reads this
    {
      QueueInv(active, pending)
    }

    constructor ()
      ensures Valid() && active == [] && pending == []
    {
      active := [];
      pending := [];
    }

    /** `FileHandler::addFileOperation`: a started operation becomes active
        under its descriptor, any other one is queued. */
    method AddFileOperation(op: Op, outcome: OpenOutcome) returns (started: Op)
      requires Valid() && Inv(op) && op.state == Pending && outcome.fd >= -1
      modifies this
      ensures Valid()
      ensures started == StartStep(op, outcome).0
      ensures StartStep(op, outcome).1 ==> active == IntMap.Put(old(active), started.fd, started) && pending == old(pending)
      ensures !StartStep(op, outcome).1 ==> active == old(active) && pending == old(pending) + [started]
    {
      var ok;
      started, ok := StartStep(op, outcome).0, StartStep(op, outcome).1;
      if ok {
        PutActiveEntry(active, started);
        active := IntMap.Put(active, started.fd, started);
      } else {
        pending := pending + [started];
      }
    }

    /** `FileHandler::handleFileOperations`. `ready` holds the events `poll`
        reports for non-negative descriptors, `pollResult` what `poll`
        returns, `io` the outcomes of the system calls each operation's
        step makes, and `opens` the outcomes of restarting each queued
        operation. */
    method HandleFileOperations(ready: map<int, bv16>, pollResult: int, io: map<int, IoOutcome>, opens: seq<OpenOutcome>)
      requires Valid() && IoFits(active, io) && PollConsistent(active, ready, pollResult)
      requires |opens| == |pending| && forall i :: 0 <= i < |opens| ==> opens[i].fd >= -1
      modifies this
      ensures Valid() && pending == []
      ensures active == Handled(old(active), old(pending), ready, pollResult, io, opens)
    {
      HandledInv(active, pending, ready, pollResult, io, opens);
      if active == [] && pending == [] {
        return;
      }
      if active != [] && pollResult > 0 {
        active := RunPollPass(active, ready, io);
      }
      active := RunDrain(active, pending, opens);
      pending := [];
    }
  }

  /** As written, a DELETE operation is filed under descriptor -1, which
      `poll` ignores. When it is the only active operation, `poll` can
      report nothing, no poll step runs, and the operation stays in
      progress: every call leaves the queues as they were, so the wait loop
      of `deleteFile` never ends. */
  lemma DeleteNeverPolled(op: Op, ready: map<int, bv16>, pollResult: int, io: map<int, IoOutcome>)
    requires op.kind == Delete && op.state == InProgress && op.fd == -1 && Inv(op) && IoFits([(-1, op)], io)
    requires PollConsistent([(-1, op)], ready, pollResult)
    ensures Handled([(-1, op)], [], ready, pollResult, io, []) == [(-1, op)]
  {
    assert Revents(ready, -1) == 0;
  }

  /** The poll pass as the DELETE design needs it: an operation filed under
      a negative descriptor takes its step whatever `poll` reported. */
  function PollPassFixed(active: IntMap.Map<Op>, ready: map<int, bv16>, pollResult: int, io: map<int, IoOutcome>): (r: IntMap.Map<Op>)
    requires IoFits(active, io)
    ensures |r| <= |active|
  {
    if active == [] then []
    else
      var (fd, op) := active[0];
      var (op', more) := if fd < 0 || pollResult > 0 then PollStep(op, Revents(ready, fd), IoOf(io, fd)) else (op, true);
      (if more then [(fd, op')] else []) + PollPassFixed(active[1..], ready, pollResult, io)
  }

  /** With the correction, one pass ends a DELETE operation that is the
      only active one, by its `unlink` outcome. */
  lemma FixedPassEndsDelete(op: Op, ready: map<int, bv16>, pollResult: int, io: map<int, IoOutcome>)
    requires op.kind == Delete && op.state == InProgress && op.fd == -1 && Inv(op) && IoFits([(-1, op)], io)
    ensures PollPassFixed([(-1, op)], ready, pollResult, io) == []
    ensures PollStep(op, Revents(ready, -1), IoOf(io, -1)).0.state == (if IoOf(io, -1).unlinkOk then Completed else Failed)
  {
    assert [(-1, op)][1..] == [];
  }
}
