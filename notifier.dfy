/**
 * `Inotify::Notifier`: the C methods over the inotify descriptor (`add_watch`,
 * `rm_watch`, `read_events`) and the Ruby methods that keep the watcher table
 * and dispatch events to the blocks registered for them.
 *
 * The system calls are parameters. `addWatch` and `rmWatch` stand for the
 * kernel's answers to `inotify_add_watch` and `inotify_rm_watch`, -1 meaning
 * failure; a read is what `read` returned together with the bytes it left in
 * the buffer. A block is an opaque handle; `stopsOn` says, for each call of a
 * block with an event, whether that call calls `stop` on the notifier, and no
 * block does anything else to it.
 */
module Inotify {
  import opened Wrappers
  import opened Flags
  import opened Events
  import opened Watchers

  /** A call of a watcher's block with the event it is given. */
  datatype Call = Call(callback: nat, event: Event)

  /** The event's descriptor has a watcher, registered without a block: calling it raises `NoMethodError`. */
  predicate Blockless(t: Table, e: Event)
  {
    Get(t, e.wd).Some? && Get(t, e.wd).value.callback.None?
  }

  /** No event of `events` has a watcher without a block. */
  predicate HaveBlocks(t: Table, events: seq<Event>)
  {
    forall i :: 0 <= i < |events| ==> !Blockless(t, events[i])
  }

  /**
   * The events `process` gets through: all of them, or those before the first
   * one whose watcher has no block, where `process` raises.
   */
  function Handled(t: Table, events: seq<Event>): (hs: seq<Event>)
    ensures hs <= events && HaveBlocks(t, hs)
    ensures |hs| < |events| ==> Blockless(t, events[|hs|])
  {
    if events == [] || Blockless(t, events[0]) then []
    else
      var rest := Handled(t, events[1..]);
      assert events == [events[0]] + events[1..];
      assert forall i :: 0 < i < |rest| + 1 ==> ([events[0]] + rest)[i] == rest[i - 1];
      [events[0]] + rest
  }

  /** Events up to `i` have blocks and `process` stops at `i`: so `i` is where `Handled` ends. */
  lemma HandledAt(t: Table, events: seq<Event>, i: nat)
    requires i <= |events| && HaveBlocks(t, events[..i])
    requires i < |events| ==> Blockless(t, events[i])
    ensures Handled(t, events) == events[..i]
  {
  }

  /**
   * The calls `process` makes for events whose watchers all have blocks: each
   * event whose descriptor has a watcher goes to that watcher's block with
   * `watched_path` set to the watcher's path, in the order the events come;
   * the others are skipped.
   */
  function Dispatch(t: Table, events: seq<Event>): (calls: seq<Call>)
    requires HaveBlocks(t, events)
    ensures |calls| <= |events|
  {
    if events == [] then []
    else
      var init := events[..|events| - 1];
      assert forall i :: 0 <= i < |init| ==> init[i] == events[i];
      Dispatch(t, init) + Deliver(t, events[|events| - 1])
  }

  /** The call, if any, that `process` makes for one event. */
  function Deliver(t: Table, e: Event): (calls: seq<Call>)
    requires !Blockless(t, e)
    ensures |calls| <= 1
    ensures calls == [] <==> e.wd !in Keys(t)
  {
    match Get(t, e.wd)
    case None => []
    case Some(w) => [Call(w.callback.value, e.(watchedPath := Some(w.path)))]
  }

  /** The calls one round of `process` makes for a batch: those of the events it gets through. */
  function RoundCalls(t: Table, events: seq<Event>): (calls: seq<Call>)
    ensures |calls| <= |events|
  {
    Dispatch(t, Handled(t, events))
  }

  /** `process` gets through the whole batch without raising. */
  predicate Completes(t: Table, events: seq<Event>)
  {
    |Handled(t, events)| == |events|
  }

  /** A batch whose watchers all have blocks is handled completely. */
  lemma CompletesIffHaveBlocks(t: Table, events: seq<Event>)
    ensures Completes(t, events) <==> HaveBlocks(t, events)
    ensures Completes(t, events) ==> RoundCalls(t, events) == Dispatch(t, events)
  {
    if HaveBlocks(t, events) {
      HandledAt(t, events, |events|);
      assert events[..|events|] == events;
    }
  }

  lemma DispatchSnoc(t: Table, events: seq<Event>, e: Event)
    requires HaveBlocks(t, events) && !Blockless(t, e)
    ensures HaveBlocks(t, events + [e])
    ensures Dispatch(t, events + [e]) == Dispatch(t, events) + Deliver(t, e)
  {
    assert (events + [e])[..|events|] == events;
  }

  lemma DispatchStep(t: Table, events: seq<Event>, i: nat)
    requires i < |events| && HaveBlocks(t, events[..i]) && !Blockless(t, events[i])
    ensures HaveBlocks(t, events[..i + 1])
    ensures Dispatch(t, events[..i + 1]) == Dispatch(t, events[..i]) + Deliver(t, events[i])
  {
    assert events[..i + 1] == events[..i] + [events[i]];
    DispatchSnoc(t, events[..i], events[i]);
  }

  /** Dispatching two batches one after the other makes the calls of each, in that order. */
  lemma {:induction false} DispatchAppend(t: Table, a: seq<Event>, b: seq<Event>)
    requires HaveBlocks(t, a) && HaveBlocks(t, b)
    ensures HaveBlocks(t, a + b)
    ensures Dispatch(t, a + b) == Dispatch(t, a) + Dispatch(t, b)
    decreases |b|
  {
    if b != [] {
      var n := |b| - 1;
      assert a + b == (a + b[..n]) + [b[n]];
      assert b == b[..n] + [b[n]];
      assert HaveBlocks(t, b[..n]) by {
        assert forall i :: 0 <= i < n ==> b[..n][i] == b[i];
      }
      DispatchAppend(t, a, b[..n]);
      DispatchSnoc(t, a + b[..n], b[n]);
      DispatchSnoc(t, b[..n], b[n]);
      Concat(Dispatch(t, a), Dispatch(t, b[..n]), Deliver(t, b[n]));
    } else {
      assert a + b == a;
    }
  }

  /** `c` is the call `process` makes for event `i`: to its watcher's block, with the watcher's path set. */
  predicate DeliveredFrom(t: Table, events: seq<Event>, i: int, c: Call)
  {
    0 <= i < |events| && Get(t, events[i].wd).Some? && Get(t, events[i].wd).value.callback.Some? &&
    c == Call(Get(t, events[i].wd).value.callback.value,
      events[i].(watchedPath := Some(Get(t, events[i].wd).value.path)))
  }

  /** Every call goes to the watcher of one of the events, with that watcher's path filled in. */
  lemma {:induction false} DispatchSound(t: Table, events: seq<Event>, k: nat)
    requires HaveBlocks(t, events) && k < |Dispatch(t, events)|
    ensures exists i :: DeliveredFrom(t, events, i, Dispatch(t, events)[k])
  {
    var n := |events| - 1;
    var init := events[..n];
    assert events == init + [events[n]];
    assert HaveBlocks(t, init) by {
      assert forall i :: 0 <= i < n ==> init[i] == events[i];
    }
    DispatchSnoc(t, init, events[n]);
    if k < |Dispatch(t, init)| {
      DispatchSound(t, init, k);
      var i :| DeliveredFrom(t, init, i, Dispatch(t, init)[k]);
      assert init[i] == events[i];
      assert DeliveredFrom(t, events, i, Dispatch(t, events)[k]);
    } else {
      assert Dispatch(t, events)[k] == Deliver(t, events[n])[0];
      assert DeliveredFrom(t, events, n, Dispatch(t, events)[k]);
    }
  }

  /** Every event whose descriptor has a watcher is delivered to that watcher's block. */
  lemma {:induction false} DispatchComplete(t: Table, events: seq<Event>, i: nat)
    requires HaveBlocks(t, events) && i < |events| && Get(t, events[i].wd).Some?
    ensures Get(t, events[i].wd).value.callback.Some?
    ensures Call(Get(t, events[i].wd).value.callback.value,
      events[i].(watchedPath := Some(Get(t, events[i].wd).value.path))) in Dispatch(t, events)
  {
    var n := |events| - 1;
    assert HaveBlocks(t, events[..n]) by {
      assert forall j :: 0 <= j < n ==> events[..n][j] == events[j];
    }
    if i < n {
      DispatchComplete(t, events[..n], i);
      assert events[..n][i] == events[i];
    }
  }

  /** Events for descriptors without a watcher cause no call at all. */
  lemma {:induction false} DispatchUnwatched(t: Table, events: seq<Event>)
    requires forall i :: 0 <= i < |events| ==> events[i].wd !in Keys(t)
    ensures HaveBlocks(t, events) && Dispatch(t, events) == []
  {
    if events != [] {
      var n := |events| - 1;
      assert forall i :: 0 <= i < n ==> events[..n][i] == events[i];
      DispatchUnwatched(t, events[..n]);
    }
  }

  /**
   * `process` raises `NoMethodError` on the first event whose watcher has no
   * block, after the calls for the events before it; the events after it
   * cause no call.
   */
  lemma RoundRaisesAtBlockless(t: Table, events: seq<Event>, i: nat)
    requires i < |events| && HaveBlocks(t, events[..i]) && Blockless(t, events[i])
    ensures !Completes(t, events)
    ensures RoundCalls(t, events) == Dispatch(t, events[..i])
  {
    HandledAt(t, events, i);
  }

  /** Some call in `calls` is one that calls `stop`. */
  predicate Stops(calls: seq<Call>, stopsOn: Call -> bool)
  {
    exists k :: 0 <= k < |calls| && stopsOn(calls[k])
  }

  /** Some call of either batch stops the loop exactly when some call of both together does. */
  lemma StopsAppend(a: seq<Call>, b: seq<Call>, stopsOn: Call -> bool)
    ensures Stops(a + b, stopsOn) <==> Stops(a, stopsOn) || Stops(b, stopsOn)
  {
    if Stops(b, stopsOn) {
      var k :| 0 <= k < |b| && stopsOn(b[k]);
      assert (a + b)[|a| + k] == b[k];
    }
    if Stops(a, stopsOn) {
      var k :| 0 <= k < |a| && stopsOn(a[k]);
      assert (a + b)[k] == a[k];
    }
  }

  /** What one `read` returned and the bytes it left in the buffer. */
  datatype Read = Read(nread: int, buf: seq<byte>)

  /**
   * The kernel's side of `read`: -1 on failure, otherwise a count no larger
   * than the buffer, of bytes that hold whole records.
   */
  predicate ReadOk(rd: Read)
    ensures ReadOk(rd) && rd.nread > 0 ==> rd.nread >= HeaderSize
  {
    rd.nread >= -1 &&
    (rd.nread != -1 ==> rd.nread <= EventBufLen && rd.nread <= |rd.buf| && Framed(rd.buf, 0, rd.nread))
  }

  /**
   * How `run` ends: stopped after `rounds` calls of `process`, or by the
   * exception a failed read or a missing block raises. `OutOfReads` is the
   * model's end of input, where the real loop would block in `read`.
   */
  datatype RunOutcome =
    | Stopped(calls: seq<Call>, rounds: nat)
    | Raised(error: Error, calls: seq<Call>)
    | OutOfReads(calls: seq<Call>)

  /** The outcome `o` of later rounds, preceded by `n` rounds that made the calls `cs`. */
  function After(cs: seq<Call>, n: nat, o: RunOutcome): RunOutcome
  {
    match o
    case Stopped(c, r) => Stopped(cs + c, n + r)
    case Raised(e, c) => Raised(e, cs + c)
    case OutOfReads(c) => OutOfReads(cs + c)
  }

  lemma AfterAfter(a: seq<Call>, b: seq<Call>, o: RunOutcome, n: nat)
    ensures After(a, n, After(b, 1, o)) == After(a + b, n + 1, o)
  {
    match o
    case Stopped(c, r) => Concat(a, b, c);
    case Raised(e, c) => Concat(a, b, c);
    case OutOfReads(c) => Concat(a, b, c);
  }

  /** The events `read_events` yields for a reply to `read`, or `None` when it raises. */
  function Batch(rd: Read): (b: Option<seq<Event>>)
    requires ReadOk(rd)
    ensures b.None? <==> rd.nread == -1
  {
    if rd.nread == -1 then None else Some(DecodedEvents(rd.buf, rd.nread))
  }

  /** What one round of `process` did: the calls it made and the exception it raised, if any. */
  datatype Round = Round(calls: seq<Call>, raised: Option<Error>)

  /**
   * One round of `process` on what `read_events` yielded: a failed read raises
   * `SystemCallError` before any call; otherwise the calls for the events it
   * gets through, raising `NoMethodError` when it stops short.
   */
  function ProcessBatch(t: Table, b: Option<seq<Event>>): (r: Round)
    ensures b.None? ==> r == Round([], Some(SystemCallError))
    ensures b.Some? ==> r.calls == RoundCalls(t, b.value)
    ensures b.Some? ==> (r.raised.None? <==> Completes(t, b.value)) && (r.raised.Some? ==> r.raised.value == NoMethodError)
  {
    if b.None? then Round([], Some(SystemCallError))
    else Round(RoundCalls(t, b.value), if Completes(t, b.value) then None else Some(NoMethodError))
  }

  function Batches(replies: seq<Read>): (bs: seq<Option<seq<Event>>>)
    requires forall k :: 0 <= k < |replies| ==> ReadOk(replies[k])
    ensures |bs| == |replies|
  {
    seq(|replies|, k requires 0 <= k < |replies| => Batch(replies[k]))
  }

  /**
   * `run` over the batches `read_events` yields in turn: each round processes
   * one batch, a failed read or a watcher without a block raises out of the
   * loop, and the loop ends after the first round whose calls include one
   * that calls `stop`.
   */
  function RunSpec(t: Table, batches: seq<Option<seq<Event>>>, stopsOn: Call -> bool): (o: RunOutcome)
    ensures o.Stopped? ==> 1 <= o.rounds <= |batches|
  {
    if batches == [] then OutOfReads([])
    else
      var r := ProcessBatch(t, batches[0]);
      if r.raised.Some? then Raised(r.raised.value, r.calls)
      else if Stops(r.calls, stopsOn) then Stopped(r.calls, 1)
      else After(r.calls, 1, RunSpec(t, batches[1..], stopsOn))
  }

  /**
   * One more round of `run`, after `i` rounds that made the calls `calls` and
   * none of which stopped: how the run ends, or how it goes on, follows from
   * what `process` did in round `i`.
   */
  lemma RunRound(t: Table, replies: seq<Read>, batches: seq<Option<seq<Event>>>, stopsOn: Call -> bool,
    calls: seq<Call>, i: nat, r: Round)
    requires forall k :: 0 <= k < |replies| ==> ReadOk(replies[k])
    requires batches == Batches(replies) && i < |batches| && r == ProcessBatch(t, Batch(replies[i]))
    requires RunSpec(t, batches, stopsOn) == After(calls, i, RunSpec(t, batches[i..], stopsOn))
    requires !Stops(calls, stopsOn)
    ensures Stops(calls + r.calls, stopsOn) == Stops(r.calls, stopsOn)
    ensures r.raised.Some? ==> RunSpec(t, batches, stopsOn) == Raised(r.raised.value, calls + r.calls)
    ensures r.raised.None? && Stops(r.calls, stopsOn) ==>
      RunSpec(t, batches, stopsOn) == Stopped(calls + r.calls, i + 1)
    ensures r.raised.None? && !Stops(r.calls, stopsOn) ==>
      RunSpec(t, batches, stopsOn) == After(calls + r.calls, i + 1, RunSpec(t, batches[i + 1..], stopsOn))
  {
    StopsAppend(calls, r.calls, stopsOn);
    assert batches[i..][0] == batches[i] == Batch(replies[i]);
    assert batches[i..][1..] == batches[i + 1..];
    if r.raised.Some? || Stops(r.calls, stopsOn) {
      assert calls + r.calls + [] == calls + r.calls;
    } else {
      AfterAfter(calls, r.calls, RunSpec(t, batches[i + 1..], stopsOn), i);
    }
  }

  /** Round `k` read its batch, got through all of it, and made no call that stops the loop. */
  predicate Continues(t: Table, batches: seq<Option<seq<Event>>>, stopsOn: Call -> bool, k: int)
    requires 0 <= k < |batches|
  {
    batches[k].Some? && Completes(t, batches[k].value) && !Stops(RoundCalls(t, batches[k].value), stopsOn)
  }

  /**
   * When `run` stops after `n` rounds, round `n` got through its batch and
   * made a call that stops the loop, and every earlier round went on.
   */
  lemma {:induction false} RunStopsAtFirstStop(t: Table, batches: seq<Option<seq<Event>>>, stopsOn: Call -> bool)
    requires RunSpec(t, batches, stopsOn).Stopped?
    ensures var n := RunSpec(t, batches, stopsOn).rounds;
      1 <= n <= |batches| && batches[n - 1].Some? && Completes(t, batches[n - 1].value) &&
      Stops(RoundCalls(t, batches[n - 1].value), stopsOn) &&
      forall k :: 0 <= k < n - 1 ==> Continues(t, batches, stopsOn, k)
  {
    var cs := RoundCalls(t, batches[0].value);
    if !Stops(cs, stopsOn) {
      var rest := batches[1..];
      RunStopsAtFirstStop(t, rest, stopsOn);
      var n := RunSpec(t, batches, stopsOn).rounds;
      assert n == RunSpec(t, rest, stopsOn).rounds + 1;
      assert rest[n - 2] == batches[n - 1];
      forall k | 0 <= k < n - 1 ensures Continues(t, batches, stopsOn, k) {
        if k > 0 {
          assert Continues(t, rest, stopsOn, k - 1);
          assert rest[k - 1] == batches[k];
        }
      }
    }
  }

  /**
   * Round `n` raised `e`, and every round before it went on: `SystemCallError`
   * when its read failed, `NoMethodError` when its batch reached a watcher
   * without a block.
   */
  predicate RaisesAt(t: Table, batches: seq<Option<seq<Event>>>, stopsOn: Call -> bool, n: int, e: Error)
  {
    0 <= n < |batches| && (forall k :: 0 <= k < n ==> Continues(t, batches, stopsOn, k)) &&
    (if batches[n].None? then e == SystemCallError
     else !Completes(t, batches[n].value) && e == NoMethodError)
  }

  /** When `run` raises, some round raised it and every earlier round went on. */
  lemma {:induction false} RunRaises(t: Table, batches: seq<Option<seq<Event>>>, stopsOn: Call -> bool)
    requires RunSpec(t, batches, stopsOn).Raised?
    ensures exists n :: RaisesAt(t, batches, stopsOn, n, RunSpec(t, batches, stopsOn).error)
  {
    var e := RunSpec(t, batches, stopsOn).error;
    if batches[0].Some? && Completes(t, batches[0].value) {
      var rest := batches[1..];
      RunRaises(t, rest, stopsOn);
      var n :| RaisesAt(t, rest, stopsOn, n, e);
      assert rest[n] == batches[n + 1];
      forall k | 0 <= k < n + 1 ensures Continues(t, batches, stopsOn, k) {
        if k > 0 {
          assert Continues(t, rest, stopsOn, k - 1);
          assert rest[k - 1] == batches[k];
        }
      }
      assert RaisesAt(t, batches, stopsOn, n + 1, e);
    } else {
      assert RaisesAt(t, batches, stopsOn, 0, e);
    }
  }

  /** With no call that calls `stop`, `run` never stops: it raises or reads on. */
  lemma {:induction false} RunWithoutStoppers(t: Table, batches: seq<Option<seq<Event>>>, stopsOn: Call -> bool)
    requires forall c :: !stopsOn(c)
    ensures !RunSpec(t, batches, stopsOn).Stopped?
  {
    if batches != [] && batches[0].Some? && Completes(t, batches[0].value) {
      RunWithoutStoppers(t, batches[1..], stopsOn);
    }
  }

  /**
   * `@stop` at the end of `run`: set by a stopped run, clear when the reads
   * ran out or one failed; a run that raised on a missing block has it set
   * exactly when a call of its last round stopped.
   */
  lemma {:induction false} RunStopFlag(t: Table, batches: seq<Option<seq<Event>>>, stopsOn: Call -> bool)
    ensures var o := RunSpec(t, batches, stopsOn);
      (o.Stopped? ==> Stops(o.calls, stopsOn)) &&
      (o.OutOfReads? ==> !Stops(o.calls, stopsOn)) &&
      (o.Raised? && o.error == SystemCallError ==> !Stops(o.calls, stopsOn))
  {
    if batches != [] && batches[0].Some? && Completes(t, batches[0].value) {
      var cs := RoundCalls(t, batches[0].value);
      if !Stops(cs, stopsOn) {
        var o := RunSpec(t, batches[1..], stopsOn);
        RunStopFlag(t, batches[1..], stopsOn);
        StopsAppend(cs, o.calls, stopsOn);
      }
    }
  }

  /** What `add_watch` answers: the encoder's error, the system call's error, or the new descriptor. */
  ghost predicate AddWatchAnswers(fd: int, path: string, flags: seq<Symbol>,
    addWatch: (int, string, Mask) -> int, r: Result<int>)
  {
    if !AllEncodable(flags) then
      exists k :: FirstUnknownAt(flags, k) && r == Failure(ArgumentError(UnknownFlagMessage(flags[k])))
    else if addWatch(fd, path, MaskOf(flags)) == -1 then r == Failure(SystemCallError)
    else r == Success(addWatch(fd, path, MaskOf(flags)))
  }

  /** The message of the error `unwatch_by_path` raises. */
  function NoWatcherMessage(path: string): (m: string)
    ensures |m| == 20 + |path| && m[..20] == "no watcher for path " && m[20..] == path
  {
    "no watcher for path " + path
  }

  class Notifier {
    /** The inotify descriptor. */
    var fd: int
    /** `@watchers`. */
    var watchers: Table
    /** `@stop`; unset, and so false, until `run` sets it. */
    var stop: bool

    /** The watcher table is a dictionary. */
    ghost predicate Valid()
      reads this
    {
      UniqueKeys(watchers)
    }

    /** `initialize`, followed by storing the descriptor `inotify_init` returned. */
    constructor (fd: int)
      ensures this.fd == fd && watchers == [] && !stop
      ensures Valid()
    {
      this.fd := fd;
      watchers := [];
      stop := false;
    }

    /** `Notifier.new`: fails when `inotify_init` answers -1. */
    static method New(initResult: int) returns (r: Result<Notifier>)
      ensures r.Failure? <==> initResult == -1
      ensures r.Failure? ==> r.error == SystemCallError
      ensures r.Success? ==>
        fresh(r.value) && r.value.fd == initResult && r.value.watchers == [] && !r.value.stop && r.value.Valid()
    {
      if initResult == -1 {
        return Failure(SystemCallError);
      }
      var n := new Notifier(initResult);
      return Success(n);
    }

    /** `add_watch(path, flags)`: encode the flags, then ask the kernel for a descriptor. */
    method AddWatch(path: string, flags: seq<Symbol>, addWatch: (int, string, Mask) -> int)
      returns (r: Result<int>)
      ensures AddWatchAnswers(fd, path, flags, addWatch, r)
    {
      var mask := FlagsToMask(flags);
      if mask.Failure? {
        return Failure(mask.error);
      }
      var wd := addWatch(fd, path, mask.value);
      if wd == -1 {
        return Failure(SystemCallError);
      }
      return Success(wd);
    }

    /** `rm_watch(wd)`: fails when the kernel answers -1. */
    method RmWatch(wd: int, rmWatch: (int, int) -> int) returns (r: Result<()>)
      ensures r.Failure? <==> rmWatch(fd, wd) == -1
      ensures r.Failure? ==> r.error == SystemCallError
    {
      if rmWatch(fd, wd) == -1 {
        return Failure(SystemCallError);
      }
      return Success(());
    }

    /**
     * `read_events`: a failed read raises before any event; otherwise the
     * events of the records in the first `nread` bytes, in buffer order.
     */
    method ReadEvents(nread: int, buf: seq<byte>) returns (r: Result<seq<Event>>)
      requires ReadOk(Read(nread, buf))
      ensures nread == -1 ==> r == Failure(SystemCallError)
      ensures nread != -1 ==> r == Success(DecodedEvents(buf, nread))
    {
      if nread == -1 {
        return Failure(SystemCallError);
      }
      var events := ParseBuffer(buf, nread);
      return Success(events);
    }

    /**
     * `watch(path, *flags, &block)`: store the path and block under the
     * descriptor `add_watch` returns, replacing any watcher it had, and return
     * the descriptor; when `add_watch` raises, the table is as it was.
     */
    method Watch(path: string, flags: seq<Symbol>, callback: Option<nat>, addWatch: (int, string, Mask) -> int)
      returns (r: Result<int>)
      requires Valid()
      modifies this
      ensures Valid()
      ensures AddWatchAnswers(fd, path, flags, addWatch, r)
      ensures r.Success? ==> watchers == Put(old(watchers), r.value, Watcher(path, callback))
      ensures r.Failure? ==> watchers == old(watchers)
      ensures fd == old(fd) && stop == old(stop)
    {
      r := AddWatch(path, flags, addWatch);
      if r.Success? {
        watchers := Put(watchers, r.value, Watcher(path, callback));
      }
    }

    /**
     * `unwatch_by_wd(wd)`: remove the watch in the kernel, then the entry;
     * answers the removed watcher, or `nil` when there was none. When
     * `rm_watch` raises, the entry stays.
     */
    method UnwatchByWd(wd: int, rmWatch: (int, int) -> int) returns (r: Result<Option<Watcher>>)
      requires Valid()
      modifies this
      ensures Valid()
      ensures rmWatch(fd, wd) == -1 ==> r == Failure(SystemCallError) && watchers == old(watchers)
      ensures rmWatch(fd, wd) != -1 ==> r == Success(Get(old(watchers), wd)) && watchers == Watchers.Delete(old(watchers), wd)
      ensures fd == old(fd) && stop == old(stop)
    {
      var removed := RmWatch(wd, rmWatch);
      if removed.Failure? {
        return Failure(removed.error);
      }
      var w := Get(watchers, wd);
      watchers := Watchers.Delete(watchers, wd);
      return Success(w);
    }

    /**
     * `unwatch_by_path(path)`: unwatch the first watcher of `path` in table
     * order; with none, raise and leave the table as it was.
     */
    method UnwatchByPath(path: string, rmWatch: (int, int) -> int) returns (r: Result<Option<Watcher>>)
      requires Valid()
      modifies this
      ensures Valid()
      ensures FindByPath(old(watchers), path).None? ==>
        r == Failure(RuntimeError(NoWatcherMessage(path))) && watchers == old(watchers)
      ensures FindByPath(old(watchers), path).Some? ==>
        var wd := FindByPath(old(watchers), path).value;
        (rmWatch(fd, wd) == -1 ==> r == Failure(SystemCallError) && watchers == old(watchers)) &&
        (rmWatch(fd, wd) != -1 ==> r == Success(Get(old(watchers), wd)) && watchers == Watchers.Delete(old(watchers), wd))
      ensures fd == old(fd) && stop == old(stop)
    {
      var found := FindByPath(watchers, path);
      if found.None? {
        return Failure(RuntimeError(NoWatcherMessage(path)));
      }
      r := UnwatchByWd(found.value, rmWatch);
    }

    /** `stop`: the running loop ends after the current round. */
    method Stop()
      modifies this
      ensures stop
      ensures fd == old(fd) && watchers == old(watchers)
    {
      stop := true;
    }

    /**
     * `process`: read once and hand each event to the block of the watcher of
     * its descriptor, after setting `watched_path`; answers the calls made and
     * the exception raised, if any. A watcher without a block raises
     * `NoMethodError` when its event comes, after the calls before it.
     */
    method Process(rd: Read, stopsOn: Call -> bool) returns (calls: seq<Call>, raised: Option<Error>)
      requires ReadOk(rd)
      modifies this
      ensures Round(calls, raised) == ProcessBatch(watchers, Batch(rd))
      ensures stop == (old(stop) || Stops(calls, stopsOn))
      ensures fd == old(fd) && watchers == old(watchers)
    {
      var read := ReadEvents(rd.nread, rd.buf);
      if read.Failure? {
        return [], Some(read.error);
      }
      calls, raised := HandleEvents(read.value, stopsOn);
    }

    /**
     * The block `process` passes to `read_events`, run on each event in turn:
     * look up the watcher of the event's descriptor, skip the event when there
     * is none, otherwise set `watched_path` and call the watcher's block,
     * raising `NoMethodError` when it has none.
     */
    method HandleEvents(events: seq<Event>, stopsOn: Call -> bool) returns (calls: seq<Call>, raised: Option<Error>)
      modifies this
      ensures calls == RoundCalls(watchers, events)
      ensures raised == (if Completes(watchers, events) then None else Some(NoMethodError))
      ensures stop == (old(stop) || Stops(calls, stopsOn))
      ensures fd == old(fd) && watchers == old(watchers)
    {
      calls := [];
      var t := watchers;
      var i := 0;
      while i < |events|
        invariant 0 <= i <= |events|
        invariant fd == old(fd) && watchers == t
        invariant HaveBlocks(t, events[..i])
        invariant calls == Dispatch(t, events[..i])
        invariant stop == (old(stop) || Stops(calls, stopsOn))
      {
        var event := events[i];
        var watcher := Get(t, event.wd);
        if watcher.Some? && watcher.value.callback.None? {
          HandledAt(t, events, i);
          return calls, Some(NoMethodError);
        }
        DispatchStep(t, events, i);
        if watcher.Some? {
          var call := Call(watcher.value.callback.value, event.(watchedPath := Some(watcher.value.path)));
          StopsAppend(calls, [call], stopsOn);
          calls := calls + [call];
          if stopsOn(call) {
            Stop();
          }
        } else {
          assert calls + [] == calls;
        }
        i := i + 1;
      }
      HandledAt(t, events, i);
      raised := None;
    }

    /**
     * `run`: clear `@stop`, then `process` until it is set. Each round takes
     * the next of `replies`.
     */
    method Run(replies: seq<Read>, stopsOn: Call -> bool) returns (outcome: RunOutcome)
      requires forall k :: 0 <= k < |replies| ==> ReadOk(replies[k])
      modifies this
      ensures outcome == RunSpec(old(watchers), Batches(replies), stopsOn)
      ensures stop == Stops(outcome.calls, stopsOn)
      ensures fd == old(fd) && watchers == old(watchers)
    {
      ghost var batches := Batches(replies);
      stop := false;
      var calls: seq<Call> := [];
      var i := 0;
      while true
        invariant 0 <= i <= |replies| && fd == old(fd) && watchers == old(watchers)
        invariant RunSpec(watchers, batches, stopsOn) == After(calls, i, RunSpec(watchers, batches[i..], stopsOn))
        invariant !stop && !Stops(calls, stopsOn)
        decreases |replies| - i
      {
        if i == |replies| {
          assert batches[i..] == [];
          assert calls + [] == calls;
          return OutOfReads(calls);
        }
        var cs, raised := Process(replies[i], stopsOn);
        RunRound(watchers, replies, batches, stopsOn, calls, i, Round(cs, raised));
        if raised.Some? {
          return Raised(raised.value, calls + cs);
        }
        calls := calls + cs;
        i := i + 1;
        if stop {
          return Stopped(calls, i);
        }
      }
    }
  }
}
