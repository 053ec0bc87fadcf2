/** Redirected input and output of one program: the fixed buffers behind the read and write
    system calls, and the stream programs that run on them. */
module StreamIo {
  import opened Bytes

  const MAX_IO: nat := 4096
  const CHUNK: nat := 256

  // The value-level meaning of output.

  /** Where a program's output goes: the first 4096 captured bytes, and the console. */
  datatype Sink = Sink(capturing: bool, captured: seq<Byte>, console: seq<Byte>)

  /** One write call. While there is room the capture takes what fits and the rest of this
      write is dropped; a full capture lets later writes through to the console. */
  function Emit(sink: Sink, data: seq<Byte>): Sink {
    if data == [] then sink
    else if sink.capturing && |sink.captured| < MAX_IO
    then sink.(captured := Take(sink.captured + data, MAX_IO))
    else sink.(console := sink.console + data)
  }

  function EmitAll(sink: Sink, writes: seq<seq<Byte>>): Sink
    decreases |writes|
  {
    if writes == [] then sink else EmitAll(Emit(sink, writes[0]), writes[1..])
  }

  lemma {:induction false} EmitAllAppend(sink: Sink, a: seq<seq<Byte>>, b: seq<seq<Byte>>)
    ensures EmitAll(sink, a + b) == EmitAll(EmitAll(sink, a), b)
    decreases |a|
  {
    if a == [] {
      assert a + b == b;
    } else {
      assert (a + b)[1..] == a[1..] + b;
      EmitAllAppend(Emit(sink, a[0]), a[1..], b);
    }
  }

  /** However a program cuts its output into writes, the capture is the first 4096 bytes of
      what was captured before followed by the whole output. */
  lemma {:induction false} CaptureIsPrefix(sink: Sink, writes: seq<seq<Byte>>)
    requires sink.capturing && |sink.captured| <= MAX_IO
    ensures EmitAll(sink, writes).captured == Take(sink.captured + Flatten(writes), MAX_IO)
    ensures EmitAll(sink, writes).capturing
    decreases |writes|
  {
    if writes == [] {
      assert sink.captured + [] == sink.captured;
    } else {
      var next := Emit(sink, writes[0]);
      CaptureIsPrefix(next, writes[1..]);
      ConcatAssoc(sink.captured, writes[0], Flatten(writes[1..]));
      TakeTake(sink.captured + writes[0], Flatten(writes[1..]), MAX_IO);
    }
  }

  /** Nothing reaches the console unless the capture is full. */
  lemma {:induction false} ConsoleOnlyWhenFull(sink: Sink, writes: seq<seq<Byte>>)
    requires sink.capturing && |sink.captured| + |Flatten(writes)| <= MAX_IO
    ensures EmitAll(sink, writes).console == sink.console
    decreases |writes|
  {
    if writes != [] {
      ConsoleOnlyWhenFull(Emit(sink, writes[0]), writes[1..]);
    }
  }

  /** What is written once a capture with this much room left is full. */
  function Late(room: nat, writes: seq<seq<Byte>>): seq<Byte>
    decreases |writes|
  {
    if writes == [] then []
    else if room == 0 then writes[0] + Late(0, writes[1..])
    else Late(room - Min(|writes[0]|, room), writes[1..])
  }

  /** These bytes, and no others, reach the console. */
  lemma {:induction false} LateIsShown(sink: Sink, writes: seq<seq<Byte>>)
    requires sink.capturing && |sink.captured| <= MAX_IO
    ensures EmitAll(sink, writes).console == sink.console + Late(MAX_IO - |sink.captured|, writes)
    decreases |writes|
  {
    if writes == [] {
      assert sink.console + [] == sink.console;
    } else {
      var next := Emit(sink, writes[0]);
      LateIsShown(next, writes[1..]);
      if |sink.captured| == MAX_IO {
        ConcatAssoc(sink.console, writes[0], Late(0, writes[1..]));
        assert writes[0] == [] ==> [] + Late(0, writes[1..]) == Late(0, writes[1..]);
      }
    }
  }

  lemma {:induction false} AllLate(writes: seq<seq<Byte>>)
    ensures Late(0, writes) == Flatten(writes)
    decreases |writes|
  {
    if writes != [] { AllLate(writes[1..]); }
  }

  /** The late writes are those from k on: the ones before it fill the room, or all of them
      still fit. */
  lemma {:induction false} LateFrom(room: nat, writes: seq<seq<Byte>>) returns (k: nat)
    ensures k <= |writes| && Late(room, writes) == Flatten(writes[k..])
    ensures k < |writes| ==> |Flatten(writes[..k])| >= room
    ensures Flatten(writes[..k]) + Flatten(writes[k..]) == Flatten(writes)
    ensures forall j | 0 <= j < k :: |Flatten(writes[..j])| < room
    decreases |writes|
  {
    if writes == [] || room == 0 {
      AllLate(writes);
      assert writes[0..] == writes && writes[..0] == [];
      assert [] + Flatten(writes) == Flatten(writes);
      return 0;
    }
    var first, rest := writes[0], writes[1..];
    var m := LateFrom(room - Min(|first|, room), rest);
    k := m + 1;
    FlattenFirst(first, rest, m);
    assert writes == [first] + rest && writes[k..] == rest[m..];
    forall j | 0 <= j < k ensures |Flatten(writes[..j])| < room {
      if j > 0 {
        FlattenFirst(first, rest, j - 1);
        assert |Flatten(rest[..j - 1])| < room - Min(|first|, room);
      } else {
        assert writes[..0] == [];
      }
    }
    ConcatAssoc(first, Flatten(rest[..m]), Flatten(rest[m..]));
  }

  lemma FlattenFirst(first: seq<Byte>, rest: seq<seq<Byte>>, m: nat)
    requires m <= |rest|
    ensures Flatten(([first] + rest)[..m + 1]) == first + Flatten(rest[..m])
  {
    var part := ([first] + rest)[..m + 1];
    assert part[0] == first && part[1..] == rest[..m];
  }

  /** Nothing is cut off and what comes late could as well have come first: the output fits
      the capture, or some of the writes fill it exactly and the others may change places
      with them. */
  ghost predicate PassesWhole(writes: seq<seq<Byte>>) {
    || |Flatten(writes)| <= MAX_IO
    || exists k: nat :: k <= |writes| && |Flatten(writes[..k])| == MAX_IO
                        && Flatten(writes[k..]) + Flatten(writes[..k]) == Flatten(writes)
  }

  lemma {:induction false} FlattenParts(writes: seq<seq<Byte>>, k: nat)
    requires k <= |writes|
    ensures Flatten(writes[..k]) + Flatten(writes[k..]) == Flatten(writes)
    decreases |writes|
  {
    if k == 0 {
      assert writes[..0] == [] && writes[0..] == writes;
    } else {
      FlattenParts(writes[1..], k - 1);
      assert writes[..k][1..] == writes[1..][..k - 1] && writes[1..][k - 1..] == writes[k..];
      ConcatAssoc(writes[0], Flatten(writes[1..][..k - 1]), Flatten(writes[k..]));
    }
  }

  /** Shown late bytes first and then the capture, an output looks as it does without any
      capture exactly when it passes whole. */
  lemma LateThenCapture(writes: seq<seq<Byte>>)
    ensures Late(MAX_IO, writes) + Take(Flatten(writes), MAX_IO) == Flatten(writes) <==> PassesWhole(writes)
  {
    var all := Flatten(writes);
    var k := LateFrom(MAX_IO, writes);
    var head, tail := Flatten(writes[..k]), Flatten(writes[k..]);
    if |all| <= MAX_IO {
      assert k == |writes| ==> writes[k..] == [];
      assert tail == [] && tail + all == all;
    } else {
      if tail + Take(all, MAX_IO) == all {
        assert |tail| + MAX_IO == |all|;
        assert Take(all, MAX_IO) == head;
        assert |Flatten(writes[..k])| == MAX_IO && Flatten(writes[k..]) + Flatten(writes[..k]) == Flatten(writes);
      }
      if PassesWhole(writes) {
        var m: nat :| m <= |writes| && |Flatten(writes[..m])| == MAX_IO
                      && Flatten(writes[m..]) + Flatten(writes[..m]) == all;
        SameCut(writes, k, m);
      }
    }
  }

  /** The capture fills up before or with the write at which the first m writes fill it. */
  lemma SameCut(writes: seq<seq<Byte>>, k: nat, m: nat)
    requires k <= |writes| && m <= |writes| && |Flatten(writes[..m])| == MAX_IO < |Flatten(writes)|
    requires k < |writes| ==> |Flatten(writes[..k])| >= MAX_IO
    requires forall j | 0 <= j < k :: |Flatten(writes[..j])| < MAX_IO
    ensures Flatten(writes[..k]) == Flatten(writes[..m]) == Take(Flatten(writes), MAX_IO)
    ensures Flatten(writes[k..]) == Flatten(writes[m..])
  {
    FlattenParts(writes, m);
    FlattenParts(writes, k);
    assert k <= m;
    FlattenParts(writes[..m], k);
    assert writes[..m][..k] == writes[..k];
  }

  /** One full capture and a line end behind it: with a capture in between the line end comes
      first. */
  lemma LineEndComesFirst(data: seq<Byte>)
    requires |data| == MAX_IO && data[0] != NEWLINE
    ensures !PassesWhole([data, [NEWLINE]])
    ensures Late(MAX_IO, [data, [NEWLINE]]) == [NEWLINE] && Flatten([data, [NEWLINE]]) == data + [NEWLINE]
  {
    var writes, last := [data, [NEWLINE]], [[NEWLINE]];
    assert writes[1..] == last && last[1..] == [];
    assert Flatten(last) == [NEWLINE] + [] == [NEWLINE];
    assert Late(0, last) == [NEWLINE] + Late(0, []) == [NEWLINE];
    LateThenCapture(writes);
    assert Take(data + [NEWLINE], MAX_IO) == data;
    assert (data + [NEWLINE])[0] == data[0] && ([NEWLINE] + data)[0] == NEWLINE;
  }

  /** Without a capture the console shows the whole output in order. */
  lemma {:induction false} UncapturedIsShown(sink: Sink, writes: seq<seq<Byte>>)
    requires !sink.capturing
    ensures EmitAll(sink, writes) == sink.(console := sink.console + Flatten(writes))
    decreases |writes|
  {
    if writes == [] {
      assert sink.console + [] == sink.console;
    } else {
      UncapturedIsShown(Emit(sink, writes[0]), writes[1..]);
      ConcatAssoc(sink.console, writes[0], Flatten(writes[1..]));
    }
  }

  /** The reads of size n that drain s. */
  function Chunks(s: seq<Byte>, n: nat): seq<seq<Byte>>
    requires n > 0
    decreases |s|
  {
    if s == [] then [] else [Take(s, n)] + Chunks(s[|Take(s, n)|..], n)
  }

  /** Chunked reading neither loses, repeats nor reorders bytes. */
  lemma {:induction false} ChunksConserve(s: seq<Byte>, n: nat)
    requires n > 0
    ensures Flatten(Chunks(s, n)) == s
    ensures forall k | 0 <= k < |Chunks(s, n)| :: 1 <= |Chunks(s, n)[k]| <= n
    decreases |s|
  {
    if s != [] {
      var first := Take(s, n);
      ChunksConserve(s[|first|..], n);
      assert s == first + s[|first|..];
    }
  }

  // The state itself.

  datatype StdinByte = Next(b: Byte) | Eof | Unavailable

  class IoState {
    var active: bool
    var stdinEnabled: bool
    var stdinLen: nat
    var stdinPos: nat
    var stdoutCapture: bool
    var stdoutLen: nat
    const stdinBuf: array<Byte>
    const stdoutBuf: array<Byte>
    var console: seq<Byte>

    ghost predicate Valid()
      reads this
    {
      && stdinBuf.Length == MAX_IO && stdoutBuf.Length == MAX_IO && stdinBuf != stdoutBuf
      && stdinPos <= stdinLen <= MAX_IO && stdoutLen <= MAX_IO
    }

    ghost predicate Redirected()
      reads this
    {
      active && stdinEnabled
    }

    /** Neither input nor output is redirected, as it is for the shell. The state may still
        be marked active: the kernel starts the shell itself by an exec call. */
    ghost predicate Quiet()
      reads this
    {
      !Redirected() && !(active && stdoutCapture)
    }

    /** The input that is still to be read. */
    ghost function Pending(): seq<Byte>
      requires Valid()
      reads this, stdinBuf
    {
      stdinBuf[stdinPos..stdinLen]
    }

    ghost function Out(): Sink
      requires Valid()
      reads this, stdoutBuf
    {
      Sink(active && stdoutCapture, stdoutBuf[..stdoutLen], console)
    }

    constructor ()
      ensures Valid() && !active && console == []
      ensures fresh(stdinBuf) && fresh(stdoutBuf)
    {
      active, stdinEnabled, stdinLen, stdinPos := false, false, 0, 0;
      stdoutCapture, stdoutLen, console := false, 0, [];
      stdinBuf := new Byte[MAX_IO](_ => NUL);
      stdoutBuf := new Byte[MAX_IO](_ => NUL);
    }

    /** The first half of exec_with_io: at most 4096 bytes of input are staged. */
    method Begin(stdin: Option<seq<Byte>>, capture: bool)
      requires Valid()
      modifies this, stdinBuf
      ensures Valid() && active && stdinEnabled == stdin.Some?
      ensures Pending() == if stdin.Some? then Take(stdin.value, MAX_IO) else []
      ensures Out() == Sink(capture, [], old(console))
    {
      active := true;
      stdinEnabled := stdin.Some?;
      stdinLen, stdinPos := 0, 0;
      stdoutCapture := capture;
      stdoutLen := 0;
      if stdin.Some? {
        var copyLen := Min(|stdin.value|, MAX_IO);
        CopyInto(stdinBuf, 0, stdin.value[..copyLen]);
        stdinLen := copyLen;
        assert stdinBuf[..copyLen] == stdinBuf[..0] + stdin.value[..copyLen];
      }
    }

    /** The second half: the capture is handed out and the redirection is over. */
    method End(out: Option<array<Byte>>) returns (captured: nat)
      requires Valid()
      requires out.Some? ==> out.value != stdinBuf && out.value != stdoutBuf
      modifies this, if out.Some? then {out.value} else {}
      ensures Valid() && !active && Out() == Sink(false, [], old(console))
      ensures out.None? ==> captured == 0
      ensures out.Some? ==> captured <= out.value.Length
                            && out.value[..captured] == Take(old(stdoutBuf[..stdoutLen]), out.value.Length)
    {
      captured := 0;
      if out.Some? {
        var copyLen := Min(stdoutLen, out.value.Length);
        CopyInto(out.value, 0, stdoutBuf[..copyLen]);
        captured := copyLen;
        assert out.value[..copyLen] == out.value[..0] + stdoutBuf[..copyLen];
      }
      active, stdinEnabled, stdinLen, stdinPos := false, false, 0, 0;
      stdoutCapture, stdoutLen := false, 0;
    }

    method TakeStdinByte() returns (r: StdinByte)
      requires Valid()
      modifies this`stdinPos
      ensures Valid()
      ensures !Redirected() ==> r == Unavailable && stdinPos == old(stdinPos)
      ensures Redirected() && old(Pending()) == [] ==> r == Eof && stdinPos == old(stdinPos)
      ensures Redirected() && old(Pending()) != [] ==> r == Next(old(Pending())[0]) && Pending() == old(Pending())[1..]
    {
      if !active || !stdinEnabled { return Unavailable; }
      if stdinPos >= stdinLen { return Eof; }
      var b := stdinBuf[stdinPos];
      stdinPos := stdinPos + 1;
      return Next(b);
    }

    /** The read call with redirected input: fills the buffer from the front of the pending
        input, short only at its end. */
    method Read(buf: array<Byte>) returns (count: nat)
      requires Valid() && Redirected() && buf != stdinBuf && buf != stdoutBuf
      modifies this`stdinPos, buf
      ensures Valid() && Out() == old(Out())
      ensures count <= buf.Length && buf[..count] == Take(old(Pending()), buf.Length)
      ensures Pending() == old(Pending())[count..]
    {
      count := 0;
      ghost var all := Pending();
      while count < buf.Length
        invariant Valid() && Redirected() && Out() == old(Out())
        invariant count <= buf.Length && count <= |all|
        invariant buf[..count] == all[..count] && Pending() == all[count..]
      {
        var r := TakeStdinByte();
        match r {
          case Next(b) =>
            assert b == all[count];
            buf[count] := b;
            count := count + 1;
          case Eof => break;
          case Unavailable => assert false;
        }
      }
    }

    method CaptureStdout(buf: seq<Byte>) returns (taken: bool)
      requires Valid() && buf != []
      modifies this`stdoutLen, stdoutBuf
      ensures Valid() && taken == (old(Out().capturing) && |old(Out()).captured| < MAX_IO)
      ensures Out() == if taken then Emit(old(Out()), buf) else old(Out())
    {
      if !active || !stdoutCapture || stdoutLen >= MAX_IO { return false; }
      var remaining := MAX_IO - stdoutLen;
      var copyLen := Min(remaining, |buf|);
      CopyInto(stdoutBuf, stdoutLen, buf[..copyLen]);
      stdoutLen := stdoutLen + copyLen;
      return true;
    }

    /** The write call. */
    method Write(buf: seq<Byte>)
      requires Valid()
      modifies this`stdoutLen, this`console, stdoutBuf
      ensures Valid() && Out() == Emit(old(Out()), buf)
    {
      if buf == [] { return; }
      var taken := CaptureStdout(buf);
      if taken { return; }
      console := console + buf;
    }
  }
}
