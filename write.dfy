/** The write loop of the write action (ROM-el2364.py:294-318): one write
    request per byte of the file buffer, each answered by a result frame whose
    status byte says whether the bridge wrote the byte. */
module Writing {
  import opened Bytes
  import opened Packets
  import opened Frames
  import opened Serial

  /** The status byte of a byte written. */
  const WRITTEN: byte := 0
  /** The status byte of a byte the bridge failed to write. */
  const REJECTED: byte := 1

  /** Everything the write loop has done so far: the input still unread, the
      bytes sent, the diagnostic frames printed, and the lines printed for an
      unknown status. */
  datatype WriteState = WriteState(
    input: seq<byte>,
    sent: seq<byte>,
    diagnostics: seq<Frame>,
    notices: seq<seq<byte>>)

  function WriteInit(input: seq<byte>): WriteState {
    WriteState(input, [], [], [])
  }

  /** Exchange i of the write loop: write byte i, wait for the result frame
      (diagnostic text read line by line), read the status. Status 0 goes on
      (after the progress bar, which divides by zero on a one-byte range),
      status 1 ends the script, any other status prints one more line and goes
      on. An empty read where the script indexes its result is a timeout. */
  function WriteStep(start: Address, buf: seq<byte>, s: WriteState, i: nat): Step<WriteState>
    requires i < |buf|
  {
    var sent := s.sent + Encode(WriteRequest(start, buf, i));
    var a := Await(s.input, Line);
    var diagnostics := s.diagnostics + a.diagnostics;
    if !a.found || a.rest == [] then Halt(s.(input := [], sent := sent, diagnostics := diagnostics), Timeout)
    else
      var status := a.rest[0];
      var t := s.(input := a.rest[1..], sent := sent, diagnostics := diagnostics);
      if status == WRITTEN then
        if |buf| == 1 then Halt(t, ProgressDivByZero) else Next(t)
      else if status == REJECTED then Halt(t, WriteRejected(i + start))
      else
        var notice := LineOf(t.input);
        Next(t.(input := t.input[|notice|..], notices := t.notices + [notice]))
  }

  /** The write loop from exchange i on. */
  function WriteFrom(start: Address, buf: seq<byte>, s: WriteState, i: nat): Run<WriteState>
    decreases |buf| - i
  {
    if i >= |buf| then Run(s, None)
    else match WriteStep(start, buf, s, i)
      case Halt(t, why) => Run(t, Some(why))
      case Next(t) => WriteFrom(start, buf, t, i + 1)
  }

  /** The write loop over buf at start, on a link whose bridge sends input. */
  function WriteRange(input: seq<byte>, start: Address, buf: seq<byte>): Run<WriteState> {
    WriteFrom(start, buf, WriteInit(input), 0)
  }

  // ---------------------------------------------------------------------------
  // What is sent, whatever the bridge answers.

  /** The bytes of the first k requests of the write loop. */
  function WriteSent(start: Address, buf: seq<byte>, k: nat): seq<byte>
    requires k <= |buf|
    decreases k
  {
    if k == 0 then [] else WriteSent(start, buf, k - 1) + Encode(WriteRequest(start, buf, k - 1))
  }

  lemma {:induction false} WriteSentRequests(start: Address, buf: seq<byte>, k: nat)
    requires k <= |buf|
    ensures WriteSent(start, buf, k) == EncodeAll(WriteRequests(start, buf, k))
    decreases k
  {
    if k > 0 {
      WriteSentRequests(start, buf, k - 1);
      EncodeAllSnoc(WriteRequests(start, buf, k - 1), WriteRequest(start, buf, k - 1));
    }
  }

  /** Exchange i, after the first i requests: the loop goes on from the state
      it leaves or stops there, having sent request i, printed at most one
      notice, and, when the bridge rejects the byte, reporting address
      start + i. */
  lemma {:induction false} WriteStepSent(start: Address, buf: seq<byte>, s: WriteState, i: nat) returns (step: Step<WriteState>)
    requires i < |buf| && s.sent == WriteSent(start, buf, i)
    ensures WriteFrom(start, buf, s, i)
      == if step.Halt? then Run(step.state, Some(step.why)) else WriteFrom(start, buf, step.state, i + 1)
    ensures step.state.sent == WriteSent(start, buf, i + 1)
    ensures |step.state.notices| <= |s.notices| + 1
    ensures step.Halt? && step.why.WriteRejected? ==> step.why.address == start + i
  {
    step := WriteStep(start, buf, s, i);
  }

  /** What the run r of the write loop, entered at exchange i, has sent: the
      first k requests, all of them exactly when it ran to its end; a rejected
      byte is reported at the address of request k - 1. */
  ghost predicate WriteSentOutcome(start: Address, buf: seq<byte>, r: Run<WriteState>, i: nat, k: nat) {
    && i <= k <= |buf| && r.state.sent == WriteSent(start, buf, k)
    && (r.stop.None? ==> k == |buf|)
    && (r.stop.Some? ==> k > i)
    && (r.stop.Some? && r.stop.value.WriteRejected? ==> r.stop.value.address == start + k - 1)
  }

  lemma {:induction false} WriteFromSent(start: Address, buf: seq<byte>, s: WriteState, i: nat, r: Run<WriteState>) returns (k: nat)
    requires i <= |buf| && s.sent == WriteSent(start, buf, i)
    requires r == WriteFrom(start, buf, s, i)
    ensures WriteSentOutcome(start, buf, r, i, k)
    decreases |buf| - i
  {
    if i >= |buf| {
      k := i;
    } else {
      var step := WriteStepSent(start, buf, s, i);
      if step.Halt? {
        k := i + 1;
      } else {
        k := WriteFromSent(start, buf, step.state, i + 1, r);
      }
    }
  }

  /** Whatever the bridge answers, the loop has sent exactly the first k write
      requests, one per byte; it ran to its end exactly when it sent all of
      them; and when the bridge rejected a byte the address reported is the
      one the bridge's cursor held for that byte, whose value it carried. */
  lemma {:induction false} WriteRangeSent(input: seq<byte>, start: Address, buf: seq<byte>) returns (k: nat)
    ensures var r := WriteRange(input, start, buf);
      && k <= |buf| && r.state.sent == EncodeAll(WriteRequests(start, buf, k))
      && (r.stop.None? ==> k == |buf|)
      && (r.stop.Some? && r.stop.value.WriteRejected? ==>
            k > 0 && var qs := WriteRequests(start, buf, k);
            qs[0].WriteAt? && Cursor(qs) == r.stop.value.address && qs[k - 1].value == buf[k - 1])
  {
    var r := WriteRange(input, start, buf);
    k := WriteFromSent(start, buf, WriteInit(input), 0, r);
    WriteSentRequests(start, buf, k);
    if r.stop.Some? && r.stop.value.WriteRejected? {
      WriteAddressProgression(start, buf, k - 1);
    }
  }

  /** An empty buffer sends nothing. */
  lemma {:induction false} WriteRangeEmpty(input: seq<byte>, start: Address)
    ensures WriteRange(input, start, []) == Run(WriteInit(input), None)
  {
  }

  // ---------------------------------------------------------------------------
  // What a bridge that answers every byte leads to.

  /** The first n answers carry the status "written". */
  predicate WrittenBefore(rs: seq<Reply>, n: nat) {
    forall k :: 0 <= k < n && k < |rs| ==> rs[k].value == WRITTEN
  }

  /** The state after i answers, when the bridge answers with rs followed by extra. */
  ghost function WriteExpected(rs: seq<Reply>, extra: seq<byte>, start: Address, buf: seq<byte>, i: nat): WriteState
    requires i <= |rs| <= |buf|
  {
    WriteState(ReplyWire(rs[i..]) + extra, WriteSent(start, buf, i), AllDiagnostics(rs[..i]), [])
  }

  /** Answer i says "written" or "rejected". */
  lemma {:induction false} WriteFromReply(rs: seq<Reply>, extra: seq<byte>, start: Address, buf: seq<byte>, i: nat)
    requires i < |rs| <= |buf| && RepliesWellFormed(rs, Line)
    requires rs[i].value == WRITTEN || rs[i].value == REJECTED
    ensures WriteFrom(start, buf, WriteExpected(rs, extra, start, buf, i), i)
      == if rs[i].value == REJECTED then Run(WriteExpected(rs, extra, start, buf, i + 1), Some(WriteRejected(start + i)))
         else if |buf| == 1 then Run(WriteExpected(rs, extra, start, buf, i + 1), Some(ProgressDivByZero))
         else WriteFrom(start, buf, WriteExpected(rs, extra, start, buf, i + 1), i + 1)
  {
    AwaitReply(rs, i, extra, Line);
    RepliesSnoc(rs, i);
  }

  /** A status other than "written" or "rejected" is not fatal: the line that
      follows it is read and printed as a notice, and the loop goes on after it. */
  lemma {:induction false} WriteStepUnknown(start: Address, buf: seq<byte>, s: WriteState, i: nat,
                                            r: Reply, line: seq<byte>, rest: seq<byte>)
    requires i < |buf| && RepliesWellFormed([r], Line) && r.value != WRITTEN && r.value != REJECTED
    requires IsLine(line) && s.input == ReplyWire([r]) + (line + rest)
    ensures WriteStep(start, buf, s, i)
      == Next(WriteState(rest, s.sent + Encode(WriteRequest(start, buf, i)),
                         s.diagnostics + r.diagnostics, s.notices + [line]))
  {
    var after := line + rest;
    assert [r][0..] == [r] && [r][1..] == [];
    AwaitReply([r], 0, after, Line);
    assert ReplyWire([]) + after == after;
    var a := Await(s.input, Line);
    assert a == Awaited(r.diagnostics, [r.value] + after, true);
    assert a.rest[0] == r.value && a.rest[1..] == after;
    LineOfLine(line, rest);
    assert after[|line|..] == rest;
  }

  lemma {:induction false} WriteFromRejected(rs: seq<Reply>, extra: seq<byte>, start: Address, buf: seq<byte>, i: nat)
    requires i < |rs| <= |buf| && RepliesWellFormed(rs, Line) && rs[i].value == REJECTED
    ensures WriteFrom(start, buf, WriteExpected(rs, extra, start, buf, i), i)
      == Run(WriteExpected(rs, extra, start, buf, i + 1), Some(WriteRejected(start + i)))
  {
    WriteFromReply(rs, extra, start, buf, i);
  }

  lemma {:induction false} WriteFromReplies(rs: seq<Reply>, extra: seq<byte>, start: Address, buf: seq<byte>, i: nat, n: nat)
    requires i <= n <= |rs| <= |buf| && RepliesWellFormed(rs, Line) && WrittenBefore(rs, n)
    requires |buf| != 1 || i == n
    ensures WriteFrom(start, buf, WriteExpected(rs, extra, start, buf, i), i)
      == WriteFrom(start, buf, WriteExpected(rs, extra, start, buf, n), n)
    decreases n - i
  {
    if i < n {
      WriteFromReply(rs, extra, start, buf, i);
      WriteFromReplies(rs, extra, start, buf, i + 1, n);
      assert WriteFrom(start, buf, WriteExpected(rs, extra, start, buf, i), i)
        == WriteFrom(start, buf, WriteExpected(rs, extra, start, buf, i + 1), i + 1);
    }
  }

  lemma {:induction false} WriteExpectedStart(rs: seq<Reply>, extra: seq<byte>, start: Address, buf: seq<byte>)
    requires |rs| <= |buf|
    ensures WriteRange(ReplyWire(rs) + extra, start, buf)
      == WriteFrom(start, buf, WriteExpected(rs, extra, start, buf, 0), 0)
  {
    assert rs[..0] == [] && rs[0..] == rs;
  }

  lemma {:induction false} WriteExpectedEnd(rs: seq<Reply>, extra: seq<byte>, start: Address, buf: seq<byte>)
    requires |rs| <= |buf|
    ensures WriteExpected(rs, extra, start, buf, |rs|)
      == WriteState(extra, WriteSent(start, buf, |rs|), AllDiagnostics(rs), [])
  {
    assert rs[..|rs|] == rs && rs[|rs|..] == [];
  }

  /** A bridge that writes every byte: the loop sends one request per byte,
      prints the diagnostics in order and consumes exactly the answers. A
      one-byte file still stops on the progress bar's division by zero. */
  lemma {:induction false} WriteRangeWritten(rs: seq<Reply>, extra: seq<byte>, start: Address, buf: seq<byte>)
    requires |rs| == |buf| > 0 && RepliesWellFormed(rs, Line) && WrittenBefore(rs, |rs|)
    ensures WriteRange(ReplyWire(rs) + extra, start, buf)
      == Run(WriteState(extra, WriteSent(start, buf, |buf|), AllDiagnostics(rs), []),
             if |buf| == 1 then Some(ProgressDivByZero) else None)
  {
    WriteExpectedStart(rs, extra, start, buf);
    WriteExpectedEnd(rs, extra, start, buf);
    if |buf| == 1 {
      WriteFromReply(rs, extra, start, buf, 0);
    } else {
      WriteFromReplies(rs, extra, start, buf, 0, |rs|);
    }
  }

  /** A bridge that writes every byte before the last answer and rejects the
      byte of the last one: the loop stops at that byte's address, after
      sending one request per answer. */
  lemma {:induction false} WriteRangeRejected(rs: seq<Reply>, extra: seq<byte>, start: Address, buf: seq<byte>)
    requires 0 < |rs| <= |buf| && RepliesWellFormed(rs, Line)
    requires WrittenBefore(rs, |rs| - 1) && rs[|rs| - 1].value == REJECTED
    ensures WriteRange(ReplyWire(rs) + extra, start, buf)
      == Run(WriteState(extra, WriteSent(start, buf, |rs|), AllDiagnostics(rs), []),
             Some(WriteRejected(start + (|rs| - 1))))
  {
    var j := |rs| - 1;
    var e := WriteExpected(rs, extra, start, buf, |rs|);
    assert WriteRange(ReplyWire(rs) + extra, start, buf) == Run(e, Some(WriteRejected(start + j))) by {
      WriteExpectedStart(rs, extra, start, buf);
      WriteFromReplies(rs, extra, start, buf, 0, j);
      WriteFromRejected(rs, extra, start, buf, j);
      assert j + 1 == |rs|;
    }
    WriteExpectedEnd(rs, extra, start, buf);
  }

  // ---------------------------------------------------------------------------
  // The loop itself.

  /** What the write loop leaves behind: the diagnostics and notices printed
      and the exception it raised or the exit it took, if any. */
  datatype WriteReport = WriteReport(diagnostics: seq<Frame>, notices: seq<seq<byte>>, stop: Option<Stop>)

  /** One pass of the write loop's body. `sent` is there for the proof only. */
  method WriteExchange(link: Link, start: Address, buf: seq<byte>, i: nat,
                       ghost sent: seq<byte>, diagnostics: seq<Frame>, notices: seq<seq<byte>>)
    returns (ghost sent': seq<byte>, diagnostics': seq<Frame>, notices': seq<seq<byte>>, stop: Option<Stop>)
    requires i < |buf|
    modifies link
    ensures sent <= sent' && link.output == old(link.output) + sent'[|sent|..]
    ensures var t := WriteState(link.input, sent', diagnostics', notices');
      WriteFrom(start, buf, WriteState(old(link.input), sent, diagnostics, notices), i)
        == if stop.None? then WriteFrom(start, buf, t, i + 1) else Run(t, stop)
  {
    notices' := notices;
    var packet := Encode(WriteNext(buf[i]));
    if i == 0 {
      packet := Encode(WriteAt(start, buf[i]));
    }
    link.Write(packet);
    sent' := sent + packet;
    assert sent'[|sent|..] == packet;
    var a := AwaitResult(link, Line);
    diagnostics' := diagnostics + a.diagnostics;
    if !a.found {
      return sent', diagnostics', notices', Some(Timeout);
    }
    var status := link.Read(1);
    if status == [] {
      return sent', diagnostics', notices', Some(Timeout);
    }
    if status[0] == WRITTEN {
      stop := if |buf| == 1 then Some(ProgressDivByZero) else None;
    } else if status[0] == REJECTED {
      stop := Some(WriteRejected(i + start));
    } else {
      var notice := link.ReadLine();
      notices' := notices' + [notice];
      stop := None;
    }
  }

  /** The write loop, with the exceptions it can raise and its exit as stops. */
  method WriteRangeOn(link: Link, start: Address, buf: seq<byte>) returns (o: WriteReport)
    modifies link
    ensures var r := WriteRange(old(link.input), start, buf);
      && o == WriteReport(r.state.diagnostics, r.state.notices, r.stop)
      && link.input == r.state.input
      && link.output == old(link.output) + r.state.sent
  {
    ghost var r := WriteRange(link.input, start, buf);
    var diagnostics: seq<Frame> := [];
    var notices: seq<seq<byte>> := [];
    ghost var sent: seq<byte> := [];
    var i := 0;
    while i < |buf|
      invariant link.output == old(link.output) + sent
      invariant WriteFrom(start, buf, WriteState(link.input, sent, diagnostics, notices), i) == r
      decreases |buf| - i
    {
      ghost var sentBefore := sent;
      ghost var before := WriteState(link.input, sent, diagnostics, notices);
      var stop;
      sent, diagnostics, notices, stop := WriteExchange(link, start, buf, i, sent, diagnostics, notices);
      ghost var after := WriteState(link.input, sent, diagnostics, notices);
      assert link.output == old(link.output) + sent by {
        assert sent == sentBefore + sent[|sentBefore|..];
      }
      assert WriteFrom(start, buf, before, i) == r;
      if stop.Some? {
        assert r == Run(after, stop);
        return WriteReport(diagnostics, notices, stop);
      }
      assert WriteFrom(start, buf, after, i + 1) == r;
      i := i + 1;
    }
    assert r == Run(WriteState(link.input, sent, diagnostics, notices), None);
    o := WriteReport(diagnostics, notices, None);
  }
}
