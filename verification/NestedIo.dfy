/** The one redirection state of the kernel under nested exec calls. A program that executes
    another one loses its own redirection with the capture it had gathered. */
module NestedIo {
  import opened Bytes
  import opened StreamIo

  /** What a program asks of the kernel, in the order of its run. The body of an exec call is
      what the inner program asks in turn. */
  datatype IoCall =
    | ReadCall(len: nat)
    | WriteCall(data: seq<Byte>)
    | ExecCall(stdin: Option<seq<Byte>>, outLen: Option<nat>, body: seq<IoCall>)

  /** The redirection as a value; no input stands for unredirected input. */
  datatype Io = Io(input: Option<seq<Byte>>, out: Sink)

  function Unredirected(console: seq<Byte>): Io { Io(None, Sink(false, [], console)) }

  /** What exec_with_io makes of the state before the inner program runs. */
  function Entered(io: Io, stdin: Option<seq<Byte>>, capture: bool): Io {
    Io(if stdin.None? then None else Some(Take(stdin.value, MAX_IO)), Sink(capture, [], io.out.console))
  }

  function AfterCall(io: Io, call: IoCall): Io
    decreases call
  {
    match call
    case ReadCall(len) =>
      if io.input.None? then io
      else io.(input := Some(io.input.value[Min(len, |io.input.value|)..]))
    case WriteCall(data) => io.(out := Emit(io.out, data))
    case ExecCall(stdin, outLen, body) => Unredirected(After(Entered(io, stdin, outLen.Some?), body).out.console)
  }

  function After(io: Io, calls: seq<IoCall>): Io
    decreases calls
  {
    if calls == [] then io else After(AfterCall(io, calls[0]), calls[1..])
  }

  // When a caller keeps its redirection.

  /** An exec call leaves its caller's redirection as it was exactly when the caller had none
      at all. */
  lemma ExecKeepsRedirection(io: Io, stdin: Option<seq<Byte>>, outLen: Option<nat>, body: seq<IoCall>)
    ensures var r := AfterCall(io, ExecCall(stdin, outLen, body));
            (r.input.Some? == io.input.Some? && r.out.capturing == io.out.capturing)
              <==> (io.input.None? && !io.out.capturing)
  {
  }

  predicate NoExec(calls: seq<IoCall>) {
    forall k | 0 <= k < |calls| :: !calls[k].ExecCall?
  }

  function WritesOf(calls: seq<IoCall>): seq<seq<Byte>> {
    if calls == [] then []
    else if calls[0].WriteCall? then [calls[0].data] + WritesOf(calls[1..])
    else WritesOf(calls[1..])
  }

  lemma {:induction false} WithoutExec(io: Io, calls: seq<IoCall>)
    requires NoExec(calls)
    ensures After(io, calls).out == EmitAll(io.out, WritesOf(calls))
    decreases |calls|
  {
    if calls != [] {
      var next := AfterCall(io, calls[0]);
      WithoutExec(next, calls[1..]);
      if calls[0].WriteCall? {
        var writes := WritesOf(calls);
        assert writes[0] == calls[0].data && writes[1..] == WritesOf(calls[1..]);
      }
    }
  }

  /** Once lost, the redirection does not come back. */
  lemma {:induction false} StaysUnredirected(console: seq<Byte>, calls: seq<IoCall>)
    ensures After(Unredirected(console), calls) == Unredirected(After(Unredirected(console), calls).out.console)
    decreases |calls|
  {
    if calls != [] {
      var next := AfterCall(Unredirected(console), calls[0]);
      assert next == Unredirected(next.out.console);
      StaysUnredirected(next.out.console, calls[1..]);
    }
  }

  lemma {:induction false} ExecLosesCapture(io: Io, calls: seq<IoCall>)
    requires !NoExec(calls)
    ensures After(io, calls) == Unredirected(After(io, calls).out.console)
    decreases |calls|
  {
    var next := AfterCall(io, calls[0]);
    if calls[0].ExecCall? {
      StaysUnredirected(next.out.console, calls[1..]);
    } else {
      assert !NoExec(calls[1..]) by {
        var k :| 0 <= k < |calls| && calls[k].ExecCall?;
        assert calls[1..][k - 1].ExecCall?;
      }
      ExecLosesCapture(next, calls[1..]);
    }
  }

  /** What the exec call of a program hands back when its output is wanted. */
  function HandedBack(console: seq<Byte>, stdin: Option<seq<Byte>>, calls: seq<IoCall>): seq<Byte> {
    After(Entered(Unredirected(console), stdin, true), calls).out.captured
  }

  /** The caller gets the first 4096 bytes of the program's own writes, as a run without exec
      calls gives them, exactly when the program executes nothing or writes nothing. */
  lemma CaptureNeedsNoExec(console: seq<Byte>, stdin: Option<seq<Byte>>, calls: seq<IoCall>)
    ensures HandedBack(console, stdin, calls) == Take(Flatten(WritesOf(calls)), MAX_IO)
        <==> NoExec(calls) || Flatten(WritesOf(calls)) == []
    ensures !NoExec(calls) ==> HandedBack(console, stdin, calls) == []
  {
    var io := Entered(Unredirected(console), stdin, true);
    if NoExec(calls) {
      WithoutExec(io, calls);
      CaptureIsPrefix(io.out, WritesOf(calls));
      assert [] + Flatten(WritesOf(calls)) == Flatten(WritesOf(calls));
    } else {
      ExecLosesCapture(io, calls);
    }
  }

  /** A program that writes one byte, executes another one that does nothing, and writes a
      second byte: its caller gets neither, and the second one is on the console. */
  lemma RedirectedCallerLosesOutput(console: seq<Byte>, stdin: Option<seq<Byte>>, a: Byte, b: Byte)
    ensures var calls := [WriteCall([a]), ExecCall(None, None, []), WriteCall([b])];
            && HandedBack(console, stdin, calls) == [] && Flatten(WritesOf(calls)) == [a, b]
            && After(Entered(Unredirected(console), stdin, true), calls).out.console == console + [b]
  {
    var first, exec, last := WriteCall([a]), ExecCall(None, None, []), WriteCall([b]);
    var io := Entered(Unredirected(console), stdin, true);
    var captured := AfterCall(io, first);
    assert [first, exec, last] == [first] + [exec, last] && [exec, last] == [exec] + [last] && [last] == [last] + [];
    FirstCall(io, first, [exec, last]);
    FirstCall(captured, exec, [last]);
    FirstCall(Unredirected(console), last, []);
    assert captured.out == Sink(true, [] + [a], console);
    assert AfterCall(captured, exec) == Unredirected(console);
    assert Flatten([[a]] + ([[b]] + [])) == [a] + Flatten([[b]] + []) && Flatten([[b]] + []) == [b] + [];
  }

  lemma FirstCall(io: Io, call: IoCall, rest: seq<IoCall>)
    ensures After(io, [call] + rest) == After(AfterCall(io, call), rest)
    ensures WritesOf([call] + rest) == (if call.WriteCall? then [call.data] else []) + WritesOf(rest)
  {
    var calls := [call] + rest;
    assert calls[0] == call && calls[1..] == rest;
    assert [] + WritesOf(rest) == WritesOf(rest);
  }

  // The kernel's state under such calls.

  ghost function View(io: IoState): Io
    requires io.Valid()
    reads io, io.stdinBuf, io.stdoutBuf
  {
    Io(if io.Redirected() then Some(io.Pending()) else None, io.Out())
  }

  /** Any nesting of calls does to the fixed buffers what it does on values. */
  method Perform(io: IoState, calls: seq<IoCall>)
    requires io.Valid()
    modifies io, io.stdinBuf, io.stdoutBuf
    ensures io.Valid() && View(io) == After(old(View(io)), calls)
    decreases calls, 0
  {
    if calls == [] { return; }
    PerformOne(io, calls[0]);
    Perform(io, calls[1..]);
  }

  method PerformOne(io: IoState, call: IoCall)
    requires io.Valid()
    modifies io, io.stdinBuf, io.stdoutBuf
    ensures io.Valid() && View(io) == AfterCall(old(View(io)), call)
    decreases call, 0
  {
    match call
    case ReadCall(len) =>
      if io.active && io.stdinEnabled {
        var buf := new Byte[len](_ => NUL);
        var count := io.Read(buf);
      }
    case WriteCall(data) => io.Write(data);
    case ExecCall(stdin, outLen, body) =>
      var _ := ExecNested(io, stdin, outLen, body);
  }

  /** exec_with_io around any inner program, whoever calls it: the redirection of the caller
      is kept exactly when there was none. */
  method ExecNested(io: IoState, stdin: Option<seq<Byte>>, outLen: Option<nat>, body: seq<IoCall>)
    returns (out: seq<Byte>)
    requires io.Valid()
    modifies io, io.stdinBuf, io.stdoutBuf
    ensures io.Valid() && View(io) == AfterCall(old(View(io)), ExecCall(stdin, outLen, body))
    ensures (io.Redirected() == old(io.Redirected()) && io.Out().capturing == old(io.Out().capturing))
        <==> (!old(io.Redirected()) && !old(io.Out().capturing))
    ensures outLen.Some? ==> out == Take(After(Entered(old(View(io)), stdin, true), body).out.captured, outLen.value)
    decreases body, 1
  {
    io.Begin(stdin, outLen.Some?);
    Perform(io, body);
    if outLen.Some? {
      var buf := new Byte[outLen.value](_ => NUL);
      var captured := io.End(Some(buf));
      return buf[..captured];
    }
    var _ := io.End(None);
    return [];
  }
}
