/** `read_range` (ROM-el2364.py:196-251): one read request per address of
    [start, end); every byte that comes back is hashed and, as the caller asks,
    dropped, written to a file, or collected into 16-byte chunks that are
    printed as hex-dump lines. */
module Reading {
  import opened Bytes
  import opened Packets
  import opened Frames
  import opened HexDump
  import opened Serial

  /** Where the bytes go besides the hash: `dump=False` (verify), `dump=True`
      with a file (read into a file), `dump=True` without one (read to the
      console). */
  datatype Sink = Discard | ToFile | ToConsole

  /** A dump line printed: the chunk it shows and the address it gives for it.
      Its text is DumpLine(chunk, address). */
  datatype Printed = Printed(chunk: seq<byte>, address: int)

  /** The text of the dump lines printed. */
  function Render(ps: seq<Printed>): (lines: seq<string>)
    ensures |lines| == |ps|
    decreases |ps|
  {
    if ps == [] then [] else Render(ps[..|ps| - 1]) + [DumpLine(ps[|ps| - 1].chunk, ps[|ps| - 1].address)]
  }

  lemma {:induction false} RenderSnoc(ps: seq<Printed>, p: Printed)
    ensures Render(ps + [p]) == Render(ps) + [DumpLine(p.chunk, p.address)]
  {
    assert (ps + [p])[..|ps|] == ps;
  }

  /** Everything a read transfer has done so far: the input still unread, the
      bytes sent, the bytes hashed, the diagnostic frames printed, the bytes
      written to the file, the chunk being collected and its target size
      `buffersize`, and the dump lines printed. */
  datatype ReadState = ReadState(
    input: seq<byte>,
    sent: seq<byte>,
    hashed: seq<byte>,
    diagnostics: seq<Frame>,
    fileOut: seq<byte>,
    buffer: seq<byte>,
    bufferSize: int,
    printed: seq<Printed>)

  function ReadInit(input: seq<byte>): ReadState {
    ReadState(input, [], [], [], [], [], 16, [])
  }

  /** What happens to byte i's data (empty when its read timed out). A full
      chunk is printed at address `(i + start) - buffersize + 1`, and then,
      when fewer than 16 addresses of the range are left, `buffersize`
      becomes `end - i` (ROM-el2364.py:215-247). */
  function Collect(s: ReadState, data: seq<byte>, sink: Sink, start: int, end: int, i: int): ReadState {
    match sink
    case Discard => s
    case ToFile => s.(fileOut := s.fileOut + data)
    case ToConsole =>
      var b := s.buffer + data;
      if |b| == s.bufferSize then
        s.(buffer := [],
           printed := s.printed + [Printed(b, i + start - s.bufferSize + 1)],
           bufferSize := if (end - start) - i < 16 then end - i else s.bufferSize)
      else s.(buffer := b)
  }

  /** Exchange i of the transfer (ROM-el2364.py:201-248). */
  function ReadStep(start: int, end: int, sink: Sink, s: ReadState, i: nat): Step<ReadState> {
    if i == 0 && !(0 <= start < 0x10000) then Halt(s, AddressOverflow)
    else
      var sent := s.sent + Encode(ReadRequest(start, i));
      var a := Await(s.input, Counted);
      var diagnostics := s.diagnostics + a.diagnostics;
      if !a.found then Halt(s.(input := [], sent := sent, diagnostics := diagnostics), Timeout)
      else
        var data := a.rest[..Min(1, |a.rest|)];
        var next := s.(input := a.rest[|data|..], sent := sent, diagnostics := diagnostics,
                       hashed := s.hashed + data);
        var t := Collect(next, data, sink, start, end, i);
        if end - start == 1 then Halt(t, ProgressDivByZero) else Next(t)
  }

  /** The transfer from exchange i on. */
  function ReadFrom(start: int, end: int, sink: Sink, s: ReadState, i: nat): Run<ReadState>
    decreases end - start - i
  {
    if i >= end - start then Run(s, None)
    else match ReadStep(start, end, sink, s, i)
      case Halt(t, why) => Run(t, Some(why))
      case Next(t) => ReadFrom(start, end, sink, t, i + 1)
  }

  /** `read_range(start, end, ser, dump, file)` on a link whose bridge sends input. */
  function ReadRange(input: seq<byte>, start: int, end: int, sink: Sink): Run<ReadState> {
    ReadFrom(start, end, sink, ReadInit(input), 0)
  }

  /** The first m full 16-byte chunks of v, each at its own address. */
  function Chunks(v: seq<byte>, start: int, m: nat): (ps: seq<Printed>)
    requires 16 * m <= |v|
    ensures |ps| == m
    ensures forall j :: 0 <= j < m ==> ps[j] == Printed(v[16 * j..16 * j + 16], start + 16 * j)
    decreases m
  {
    if m == 0 then [] else Chunks(v, start, m - 1) + [Printed(v[16 * (m - 1)..16 * m], start + 16 * (m - 1))]
  }

  // ---------------------------------------------------------------------------
  // What is sent, whatever the bridge answers.

  /** The bytes of the first k requests of a read transfer. */
  function ReadSent(start: int, k: nat): (sent: seq<byte>)
    requires k == 0 || 0 <= start < 0x10000
    decreases k
  {
    if k == 0 then [] else ReadSent(start, k - 1) + Encode(ReadRequest(start, k - 1))
  }

  lemma {:induction false} ReadSentRequests(start: int, k: nat)
    requires k == 0 || 0 <= start < 0x10000
    ensures ReadSent(start, k) == EncodeAll(ReadRequests(start, k))
    decreases k
  {
    if k > 0 {
      ReadSentRequests(start, k - 1);
      EncodeAllSnoc(ReadRequests(start, k - 1), ReadRequest(start, k - 1));
    }
  }

  /** After exchange i the host has sent exactly the first i requests. */
  ghost predicate SentUpTo(start: int, s: ReadState, k: nat) {
    (k == 0 || 0 <= start < 0x10000) && s.sent == ReadSent(start, k)
  }

  /** Exchange i of a transfer that has sent its first i requests: the
      transfer goes on from the state it leaves, or stops there; either way it
      has sent one request more, except when the first one cannot be encoded,
      and it has hashed at most one byte more. */
  lemma {:induction false} ReadStepSent(start: int, end: int, sink: Sink, s: ReadState, i: nat) returns (step: Step<ReadState>)
    requires SentUpTo(start, s, i) && i < end - start
    ensures ReadFrom(start, end, sink, s, i)
      == if step.Halt? then Run(step.state, Some(step.why)) else ReadFrom(start, end, sink, step.state, i + 1)
    ensures |step.state.hashed| <= |s.hashed| + 1
    ensures if step.Halt? && step.why == AddressOverflow then i == 0 && step.state == s
            else SentUpTo(start, step.state, i + 1)
  {
    step := ReadStep(start, end, sink, s, i);
    if i == 0 && !(0 <= start < 0x10000) {
      assert step == Halt(s, AddressOverflow);
    }
  }

  /** What the run r of a transfer over [start, end), entered at exchange i,
      has sent: k requests, all of them exactly when r ran to its end. */
  ghost predicate SentOutcome(start: int, end: int, r: Run<ReadState>, i: nat, k: nat) {
    && i <= k <= Max(end - start, 0) && SentUpTo(start, r.state, k)
    && (r.stop.None? ==> k == Max(end - start, 0)) && |r.state.hashed| <= k
  }

  /** The requests sent are always the first k requests of the transfer, for
      some k no larger than the range; the transfer ran to its end exactly when
      it sent all of them, and every exchange hashes at most one byte. */
  lemma {:induction false} ReadFromSent(start: int, end: int, sink: Sink, s: ReadState, i: nat, r: Run<ReadState>) returns (k: nat)
    requires SentUpTo(start, s, i) && i <= Max(end - start, 0) && |s.hashed| <= i
    requires r == ReadFrom(start, end, sink, s, i)
    ensures SentOutcome(start, end, r, i, k)
    decreases end - start - i
  {
    if i >= end - start {
      k := i;
    } else {
      var step := ReadStepSent(start, end, sink, s, i);
      if step.Halt? {
        k := if step.why == AddressOverflow then 0 else i + 1;
      } else {
        k := ReadFromSent(start, end, sink, step.state, i + 1, r);
      }
    }
  }

  lemma {:induction false} ReadRangeSent(input: seq<byte>, start: int, end: int, sink: Sink) returns (k: nat)
    ensures var r := ReadRange(input, start, end, sink);
      && k <= Max(end - start, 0) && (k == 0 || 0 <= start < 0x10000)
      && r.state.sent == EncodeAll(ReadRequests(start, k))
      && (r.stop.None? ==> k == Max(end - start, 0)) && |r.state.hashed| <= k
  {
    k := ReadFromSent(start, end, sink, ReadInit(input), 0, ReadRange(input, start, end, sink));
    ReadSentRequests(start, k);
  }

  /** An empty or reversed range does nothing at all. */
  lemma {:induction false} ReadRangeEmpty(input: seq<byte>, start: int, end: int, sink: Sink)
    requires end <= start
    ensures ReadRange(input, start, end, sink) == Run(ReadInit(input), None)
  {
  }

  /** A range outside the chip fails on the first packet, before anything is sent. */
  lemma {:induction false} ReadRangeOverflow(input: seq<byte>, start: int, end: int, sink: Sink)
    requires start < end && !(0 <= start < 0x10000)
    ensures ReadRange(input, start, end, sink) == Run(ReadInit(input), Some(AddressOverflow))
  {
  }

  // ---------------------------------------------------------------------------
  // What a well-behaved bridge leads to.

  /** The number of full 16-byte chunks in i bytes, `i // 16`. */
  function Full(i: nat): (m: nat)
    ensures 16 * m <= i < 16 * m + 16
    decreases i
  {
    if i < 16 then 0 else 1 + Full(i - 16)
  }

  /** `buffersize` after exchange i of a transfer of n bytes from start: 16,
      until the chunk that ends at exchange 16m - 1 is printed with fewer than
      16 addresses left, which sets it to `end - (16m - 1)`. */
  function DumpBufferSize(start: int, n: int, i: nat): int {
    var m := Full(i);
    if m >= 1 && n - (16 * m - 1) < 16 then start + n - (16 * m - 1) else 16
  }

  /** The state after exchange i when the bridge answers with rs followed by
      extra: all that was sent and received so far, in order. */
  ghost function Expected(rs: seq<Reply>, extra: seq<byte>, start: int, sink: Sink, i: nat): ReadState
    requires 0 <= start < 0x10000 && i <= |rs|
  {
    var v := Values(rs);
    ReadState(
      ReplyWire(rs[i..]) + extra,
      ReadSent(start, i),
      Values(rs[..i]),
      AllDiagnostics(rs[..i]),
      if sink == ToFile then Values(rs[..i]) else [],
      if sink == ToConsole then v[16 * Full(i)..i] else [],
      if sink == ToConsole then DumpBufferSize(start, |rs|, i) else 16,
      if sink == ToConsole then Chunks(v, start, Full(i)) else [])
  }

  /** One byte more for the console dump: it joins the chunk, and a chunk that
      is complete is printed and cleared. Once `buffersize` has been changed
      the chunk can no longer reach it. */
  lemma {:induction false} DumpStep(v: seq<byte>, start: int, n: int, i: nat,
                 input: seq<byte>, sent: seq<byte>, hashed: seq<byte>, diagnostics: seq<Frame>, fileOut: seq<byte>)
    requires 0 <= start && i < |v| == n
    ensures Collect(ReadState(input, sent, hashed, diagnostics, fileOut, v[16 * Full(i)..i],
                              DumpBufferSize(start, n, i), Chunks(v, start, Full(i))),
                    [v[i]], ToConsole, start, start + n, i)
      == ReadState(input, sent, hashed, diagnostics, fileOut, v[16 * Full(i + 1)..i + 1],
                   DumpBufferSize(start, n, i + 1), Chunks(v, start, Full(i + 1)))
  {
    var m := Full(i);
    var b := v[16 * m..i] + [v[i]];
    assert b == v[16 * m..i + 1];
    if m >= 1 && n - (16 * m - 1) < 16 {
      assert |b| <= n - 16 * m < DumpBufferSize(start, n, i);
      assert Full(i + 1) == m;
    } else if |b| == 16 {
      assert i + 1 == 16 * (m + 1) && Full(i + 1) == m + 1;
      assert Chunks(v, start, m + 1) == Chunks(v, start, m) + [Printed(b, i + start - 16 + 1)];
    } else {
      assert Full(i + 1) == m;
    }
  }

  /** The state after the bridge has given answer i. */
  ghost function AfterReply(rs: seq<Reply>, extra: seq<byte>, start: int, sink: Sink, s: ReadState, i: nat): ReadState
    requires 0 <= start < 0x10000 && i < |rs|
  {
    var next := s.(input := ReplyWire(rs[i + 1..]) + extra,
                   sent := s.sent + Encode(ReadRequest(start, i)),
                   diagnostics := s.diagnostics + rs[i].diagnostics,
                   hashed := s.hashed + [rs[i].value]);
    Collect(next, [rs[i].value], sink, start, start + |rs|, i)
  }

  lemma {:induction false} ReadStepIsReply(rs: seq<Reply>, extra: seq<byte>, start: int, sink: Sink, s: ReadState, i: nat)
    requires 0 <= start < 0x10000 && i < |rs| && RepliesWellFormed(rs, Counted)
    requires s.input == ReplyWire(rs[i..]) + extra
    ensures ReadStep(start, start + |rs|, sink, s, i)
      == if |rs| == 1 then Halt(AfterReply(rs, extra, start, sink, s, i), ProgressDivByZero)
         else Next(AfterReply(rs, extra, start, sink, s, i))
  {
    AwaitReply(rs, i, extra, Counted);
  }

  lemma {:induction false} ExpectedStep(rs: seq<Reply>, extra: seq<byte>, start: int, sink: Sink, i: nat)
    requires 0 <= start < 0x10000 && i < |rs|
    ensures AfterReply(rs, extra, start, sink, Expected(rs, extra, start, sink, i), i)
      == Expected(rs, extra, start, sink, i + 1)
  {
    RepliesSnoc(rs, i);
    if sink == ToConsole {
      var v := Values(rs);
      assert v[i] == rs[i].value;
      var e := Expected(rs, extra, start, sink, i);
      DumpStep(v, start, |rs|, i, ReplyWire(rs[i + 1..]) + extra,
               e.sent + Encode(ReadRequest(start, i)),
               e.hashed + [rs[i].value], e.diagnostics + rs[i].diagnostics, e.fileOut);
    }
  }

  lemma {:induction false} ReadFromReplies(rs: seq<Reply>, extra: seq<byte>, start: int, sink: Sink, i: nat)
    requires 0 <= start < 0x10000 && i <= |rs| && RepliesWellFormed(rs, Counted)
    requires i == 0 || |rs| != 1
    ensures ReadFrom(start, start + |rs|, sink, Expected(rs, extra, start, sink, i), i)
      == Run(Expected(rs, extra, start, sink, |rs|), if |rs| == 1 then Some(ProgressDivByZero) else None)
    decreases |rs| - i
  {
    if i == |rs| {
    } else if |rs| == 1 {
      ReadFromReply(rs, extra, start, sink, i);
      assert i + 1 == |rs|;
    } else {
      ReadFromReply(rs, extra, start, sink, i);
      ReadFromReplies(rs, extra, start, sink, i + 1);
    }
  }

  lemma {:induction false} ReadFromReply(rs: seq<Reply>, extra: seq<byte>, start: int, sink: Sink, i: nat)
    requires 0 <= start < 0x10000 && i < |rs| && RepliesWellFormed(rs, Counted)
    ensures ReadFrom(start, start + |rs|, sink, Expected(rs, extra, start, sink, i), i)
      == if |rs| == 1 then Run(Expected(rs, extra, start, sink, i + 1), Some(ProgressDivByZero))
         else ReadFrom(start, start + |rs|, sink, Expected(rs, extra, start, sink, i + 1), i + 1)
  {
    var s := Expected(rs, extra, start, sink, i);
    ReadStepIsReply(rs, extra, start, sink, s, i);
    ExpectedStep(rs, extra, start, sink, i);
  }

  /** Before the first exchange and after the last. */
  lemma {:induction false} ExpectedEnds(rs: seq<Reply>, extra: seq<byte>, start: int, sink: Sink)
    requires 0 <= start < 0x10000
    ensures Expected(rs, extra, start, sink, 0) == ReadInit(ReplyWire(rs) + extra)
    ensures var e := Expected(rs, extra, start, sink, |rs|);
      && e.sent == ReadSent(start, |rs|)
      && e.input == extra
      && e.hashed == Values(rs)
      && e.diagnostics == AllDiagnostics(rs)
      && e.fileOut == (if sink == ToFile then Values(rs) else [])
      && e.printed == (if sink == ToConsole then Chunks(Values(rs), start, Full(|rs|)) else [])
  {
    assert rs[..0] == [] && rs[0..] == rs;
    assert rs[..|rs|] == rs && rs[|rs|..] == [];
  }

  /** `i // 16` is what Full counts. */
  lemma {:induction false} FullDiv(i: nat)
    ensures Full(i) == i / 16
  {
  }

  /** A bridge that answers every request takes the transfer through the
      expected states to the last one. */
  lemma {:induction false} ReadRangeExpected(rs: seq<Reply>, extra: seq<byte>, start: int, end: int, sink: Sink)
    requires 0 <= start < 0x10000 && end - start == |rs| > 0 && RepliesWellFormed(rs, Counted)
    ensures ReadRange(ReplyWire(rs) + extra, start, end, sink)
      == Run(Expected(rs, extra, start, sink, |rs|), if |rs| == 1 then Some(ProgressDivByZero) else None)
  {
    assert end == start + |rs|;
    ExpectedEnds(rs, extra, start, sink);
    ReadFromReplies(rs, extra, start, sink, 0);
  }

  /** A bridge that answers every request: the transfer sends one request per
      address, hashes exactly the bytes the answers carry, writes the same
      bytes to the file, prints the diagnostics in order, and prints one dump
      line per full 16-byte chunk at its address and none for a shorter tail.
      A one-byte range still stops on the progress bar's division by zero. */
  lemma {:induction false} ReadRangeReplies(rs: seq<Reply>, extra: seq<byte>, start: int, end: int, sink: Sink)
    requires 0 <= start < 0x10000 && end - start == |rs| > 0 && RepliesWellFormed(rs, Counted)
    ensures var r := ReadRange(ReplyWire(rs) + extra, start, end, sink);
      && r.stop == (if |rs| == 1 then Some(ProgressDivByZero) else None)
      && r.state.sent == EncodeAll(ReadRequests(start, |rs|))
      && r.state.input == extra
      && r.state.hashed == Values(rs)
      && r.state.diagnostics == AllDiagnostics(rs)
      && r.state.fileOut == (if sink == ToFile then Values(rs) else [])
      && r.state.printed == (if sink == ToConsole then Chunks(Values(rs), start, |rs| / 16) else [])
  {
    ReadRangeExpected(rs, extra, start, end, sink);
    ExpectedEnds(rs, extra, start, sink);
    ReadSentRequests(start, |rs|);
    FullDiv(|rs|);
  }

  // ---------------------------------------------------------------------------
  // The loop itself.

  /** What `read_range` leaves behind: the hash input (its return value is the
      digest of it), the file contents written, the diagnostics and dump lines
      printed, and the exception it raised, if any. */
  datatype ReadOutcome = ReadOutcome(
    hashed: seq<byte>,
    diagnostics: seq<Frame>,
    fileOut: seq<byte>,
    lines: seq<string>,
    stop: Option<Stop>)

  function OutcomeOf(r: Run<ReadState>): ReadOutcome {
    ReadOutcome(r.state.hashed, r.state.diagnostics, r.state.fileOut, Render(r.state.printed), r.stop)
  }

  /** The `if dump == True:` block of the loop body; the dump lines printed
      so far are `lines`, the chunks they show `printed`. */
  method CollectOn(data: seq<byte>, sink: Sink, start: int, end: int, i: int,
                   fileOut: seq<byte>, outputBuffer: seq<byte>, bufferSize: int,
                   lines: seq<string>, ghost printed: seq<Printed>)
    returns (fileOut': seq<byte>, outputBuffer': seq<byte>, bufferSize': int,
             lines': seq<string>, ghost printed': seq<Printed>)
    requires lines == Render(printed)
    ensures lines' == Render(printed')
    ensures forall input, sent, hashed, diagnostics ::
      Collect(ReadState(input, sent, hashed, diagnostics, fileOut, outputBuffer, bufferSize, printed), data, sink, start, end, i)
      == ReadState(input, sent, hashed, diagnostics, fileOut', outputBuffer', bufferSize', printed')
  {
    fileOut', outputBuffer', bufferSize', lines', printed' := fileOut, outputBuffer, bufferSize, lines, printed;
    match sink {
      case Discard =>
      case ToFile =>
        fileOut' := fileOut' + data;
      case ToConsole =>
        outputBuffer' := outputBuffer' + data;
        if |outputBuffer'| == bufferSize' {
          var address := (i + start) - bufferSize' + 1;
          var output := FormatDumpLine(outputBuffer', address);
          RenderSnoc(printed', Printed(outputBuffer', address));
          lines' := lines' + [output];
          printed' := printed' + [Printed(outputBuffer', address)];
          outputBuffer' := [];
          if (end - start) - i < 16 {
            bufferSize' := end - i;
          }
        }
    }
  }

  /** One pass of the loop body of `read_range`: send the request for byte i,
      wait for the result frame, read the byte and pass it on. A stop is the
      exception the pass raises. The host's variables are passed in and out;
      `sent` and `printed` are there for the proof only. */
  method ReadExchange(link: Link, start: int, end: int, sink: Sink, i: nat,
                      ghost sent: seq<byte>, hashed: seq<byte>, diagnostics: seq<Frame>, fileOut: seq<byte>,
                      outputBuffer: seq<byte>, bufferSize: int, lines: seq<string>, ghost printed: seq<Printed>)
    returns (ghost sent': seq<byte>, hashed': seq<byte>, diagnostics': seq<Frame>, fileOut': seq<byte>,
             outputBuffer': seq<byte>, bufferSize': int, lines': seq<string>, ghost printed': seq<Printed>,
             stop: Option<Stop>)
    requires i < end - start && lines == Render(printed)
    modifies link
    ensures lines' == Render(printed')
    ensures sent <= sent' && link.output == old(link.output) + sent'[|sent|..]
    ensures var t := ReadState(link.input, sent', hashed', diagnostics', fileOut', outputBuffer', bufferSize', printed');
      ReadFrom(start, end, sink, ReadState(old(link.input), sent, hashed, diagnostics, fileOut, outputBuffer, bufferSize, printed), i)
        == if stop.None? then ReadFrom(start, end, sink, t, i + 1) else Run(t, stop)
  {
    sent', hashed', diagnostics', fileOut', outputBuffer', bufferSize', lines', printed' :=
      sent, hashed, diagnostics, fileOut, outputBuffer, bufferSize, lines, printed;
    var packet := Encode(ReadNext);
    if i == 0 {
      if !(0 <= start < 0x10000) {
        assert sent'[|sent|..] == [];
        return sent', hashed', diagnostics', fileOut', outputBuffer', bufferSize', lines', printed', Some(AddressOverflow);
      }
      packet := Encode(ReadAt(start));
    }
    link.Write(packet);
    sent' := sent + packet;
    assert sent'[|sent|..] == packet;
    var a := AwaitResult(link, Counted);
    diagnostics' := diagnostics + a.diagnostics;
    if !a.found {
      return sent', hashed', diagnostics', fileOut', outputBuffer', bufferSize', lines', printed', Some(Timeout);
    }
    var data := link.Read(1);
    hashed' := hashed + data;
    ghost var next := ReadState(link.input, sent', hashed', diagnostics', fileOut', outputBuffer', bufferSize', printed');
    fileOut', outputBuffer', bufferSize', lines', printed' :=
      CollectOn(data, sink, start, end, i, fileOut', outputBuffer', bufferSize', lines', printed');
    assert ReadState(link.input, sent', hashed', diagnostics', fileOut', outputBuffer', bufferSize', printed')
      == Collect(next, data, sink, start, end, i);
    if end - start == 1 {
      stop := Some(ProgressDivByZero);
    } else {
      stop := None;
    }
  }

  /** The loop of `read_range`, with the exceptions it can raise as stops. */
  method ReadRangeOn(link: Link, start: int, end: int, sink: Sink) returns (o: ReadOutcome)
    modifies link
    ensures var r := ReadRange(old(link.input), start, end, sink);
      && o == OutcomeOf(r)
      && link.input == r.state.input
      && link.output == old(link.output) + r.state.sent
  {
    ghost var r := ReadRange(link.input, start, end, sink);
    var hashed: seq<byte> := [];
    var outputBuffer: seq<byte> := [];
    var bufferSize := 16;
    var fileOut: seq<byte> := [];
    var diagnostics: seq<Frame> := [];
    var lines: seq<string> := [];
    ghost var printed: seq<Printed> := [];
    ghost var sent: seq<byte> := [];
    var i := 0;
    while i < end - start
      invariant link.output == old(link.output) + sent && lines == Render(printed)
      invariant ReadFrom(start, end, sink, ReadState(link.input, sent, hashed, diagnostics, fileOut, outputBuffer, bufferSize, printed), i) == r
      decreases end - start - i
    {
      ghost var sentBefore := sent;
      var stop;
      sent, hashed, diagnostics, fileOut, outputBuffer, bufferSize, lines, printed, stop :=
        ReadExchange(link, start, end, sink, i, sent, hashed, diagnostics, fileOut, outputBuffer, bufferSize, lines, printed);
      assert link.output == old(link.output) + sent by {
        assert sent == sentBefore + sent[|sentBefore|..];
      }
      if stop.Some? {
        assert r == Run(ReadState(link.input, sent, hashed, diagnostics, fileOut, outputBuffer, bufferSize, printed), stop);
        return ReadOutcome(hashed, diagnostics, fileOut, lines, stop);
      }
      i := i + 1;
    }
    assert r == Run(ReadState(link.input, sent, hashed, diagnostics, fileOut, outputBuffer, bufferSize, printed), None);
    o := ReadOutcome(hashed, diagnostics, fileOut, lines, None);
  }
}
