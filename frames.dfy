/** Inbound frames. Every answer from the bridge is a run of length-prefixed
    frames: a length byte other than 1 introduces diagnostic text that is
    printed, and the first length-1 frame carries the one-byte result
    (ROM-el2364.py:208-213, 299-305, 341-345). */
module Frames {
  import opened Bytes

  const NEWLINE: byte := 0x0A

  /** How the host consumes the text of a diagnostic frame. */
  datatype Style =
    | Counted  // read_range: `ser.read(L)`, exactly as many bytes as the length byte says
    | Line     // write loop and erase: `ser.readline()`, whatever the length byte says

  /** A diagnostic frame: its length byte (never 1) and the text the host read for it. */
  datatype Frame = Frame(length: byte, text: seq<byte>)

  /** What one wait for a result frame consumed: the diagnostic frames printed
      on the way, the input left after the result frame's length byte, and whether
      that length byte arrived at all before the input ran dry. */
  datatype Awaited = Awaited(diagnostics: seq<Frame>, rest: seq<byte>, found: bool)

  /** A complete line: it ends with a newline and holds no earlier one. */
  predicate IsLine(text: seq<byte>) {
    && |text| > 0
    && text[|text| - 1] == NEWLINE
    && forall k :: 0 <= k < |text| - 1 ==> text[k] != NEWLINE
  }

  /** `readline()` on a link with a read timeout: the bytes up to and including
      the first newline, or everything left when no newline comes. */
  function LineOf(s: seq<byte>): (line: seq<byte>)
    ensures |line| <= |s|
    decreases |s|
  {
    if s == [] then []
    else if s[0] == NEWLINE then [s[0]]
    else [s[0]] + LineOf(s[1..])
  }

  /** What readline() returns is a prefix of the input holding no newline
      before its last byte, and it is either all the input or a whole line. */
  lemma {:induction false} LineOfShape(s: seq<byte>)
    ensures var line := LineOf(s);
      && line <= s
      && (forall k :: 0 <= k < |line| - 1 ==> line[k] != NEWLINE)
      && (line == s || IsLine(line))
    decreases |s|
  {
    if s != [] && s[0] != NEWLINE {
      LineOfShape(s[1..]);
      var line, tail := LineOf(s), LineOf(s[1..]);
      assert line == [s[0]] + tail;
      assert forall k :: 0 <= k < |line| - 1 ==> line[k] != NEWLINE by {
        forall k | 0 <= k < |line| - 1 ensures line[k] != NEWLINE {
          if k > 0 { assert line[k] == tail[k - 1]; }
        }
      }
      assert s == [s[0]] + s[1..];
    }
  }

  /** readline() returns a whole line that is followed by more input. */
  lemma {:induction false} LineOfLine(line: seq<byte>, rest: seq<byte>)
    requires IsLine(line)
    ensures LineOf(line + rest) == line
    decreases |line|
  {
    if |line| > 1 {
      assert (line + rest)[1..] == line[1..] + rest;
      LineOfLine(line[1..], rest);
    } else {
      assert line == [NEWLINE];
    }
  }

  /** The text read for a diagnostic frame whose length byte is length. */
  function TextOf(s: seq<byte>, length: byte, style: Style): (text: seq<byte>)
    ensures |text| <= |s|
  {
    match style
    case Counted => s[..Min(length, |s|)]
    case Line => LineOf(s)
  }

  /** The host's loop `while packet_len[0] != 1: <consume text>; packet_len =
      ser.read(1)`, entered with the first length byte still unread. */
  function Await(input: seq<byte>, style: Style): (a: Awaited)
    ensures |a.rest| < |input| || (a.rest == [] && !a.found)
    ensures !a.found ==> a.rest == []
    decreases |input|
  {
    if input == [] then Awaited([], [], false)
    else if input[0] == 1 then Awaited([], input[1..], true)
    else
      var text := TextOf(input[1..], input[0], style);
      var more := Await(input[1 + |text|..], style);
      Awaited([Frame(input[0], text)] + more.diagnostics, more.rest, more.found)
  }

  /** A diagnostic frame as the bridge should send it for the given style. */
  predicate WellFormed(f: Frame, style: Style) {
    && f.length != 1
    && match style
       case Counted => |f.text| == f.length
       case Line => IsLine(f.text)
  }

  predicate AllWellFormed(fs: seq<Frame>, style: Style) {
    forall k :: 0 <= k < |fs| ==> WellFormed(fs[k], style)
  }

  /** The bytes of a run of diagnostic frames. */
  function Wire(fs: seq<Frame>): seq<byte>
    decreases |fs|
  {
    if fs == [] then [] else [fs[0].length] + fs[0].text + Wire(fs[1..])
  }

  /** The text read for a frame that is followed by more input is as the
      style prescribes: text cut short only happens when the input runs dry. */
  lemma {:induction false} TextOfWellFormed(input: seq<byte>, style: Style)
    requires input != [] && input[0] != 1
    requires 1 + |TextOf(input[1..], input[0], style)| < |input|
    ensures WellFormed(Frame(input[0], TextOf(input[1..], input[0], style)), style)
  {
    if style == Line {
      LineOfShape(input[1..]);
    }
  }

  /** The text read for a frame is the front of the input. */
  lemma {:induction false} TextOfPrefix(s: seq<byte>, length: byte, style: Style)
    ensures TextOf(s, length, style) == s[..|TextOf(s, length, style)|]
  {
    if style == Line {
      LineOfShape(s);
    }
  }

  lemma {:induction false} WireCons(f: Frame, fs: seq<Frame>)
    ensures Wire([f] + fs) == [f.length] + f.text + Wire(fs)
  {
    assert ([f] + fs)[1..] == fs;
  }

  /** Soundness: when a result frame is found, the input was a run of
      well-formed diagnostic frames, then the length byte 1, then the rest.
      So a frame whose length byte is not 1 never ends the wait, and the
      result is the byte after the first length-1 frame. */
  lemma {:induction false} AwaitSound(input: seq<byte>, style: Style)
    ensures var a := Await(input, style);
      a.found ==> input == Wire(a.diagnostics) + [1] + a.rest && AllWellFormed(a.diagnostics, style)
    decreases |input|
  {
    if input != [] && input[0] != 1 {
      var f := Frame(input[0], TextOf(input[1..], input[0], style));
      var after := input[1 + |f.text|..];
      AwaitSound(after, style);
      AwaitFrame(input, style);
      var more := Await(after, style);
      if more.found {
        TextOfWellFormed(input, style);
        TextOfPrefix(input[1..], input[0], style);
        SplitFront(input, f.text);
        AwaitSoundStep(input, f, after, more, Await(input, style), style);
      }
    }
  }

  /** The step of AwaitSound: one well-formed frame before a sound wait. */
  lemma {:induction false} AwaitSoundStep(input: seq<byte>, f: Frame, after: seq<byte>,
                                          more: Awaited, a: Awaited, style: Style)
    requires WellFormed(f, style) && input == [f.length] + f.text + after
    requires after == Wire(more.diagnostics) + [1] + more.rest && AllWellFormed(more.diagnostics, style)
    requires a == Awaited([f] + more.diagnostics, more.rest, true)
    ensures input == Wire(a.diagnostics) + [1] + a.rest && AllWellFormed(a.diagnostics, style)
  {
    WireFront(f, more.diagnostics, more.rest, after);
    AllWellFormedCons(f, more.diagnostics, style);
  }

  /** An input is its first byte, the text read after it, and what is left. */
  lemma {:induction false} SplitFront(input: seq<byte>, text: seq<byte>)
    requires input != [] && |text| < |input| && text == input[1..][..|text|]
    ensures input == [input[0]] + text + input[1 + |text|..]
  {
  }

  /** The wait prints the frame at the front of the input and goes on after it. */
  lemma {:induction false} AwaitFrame(input: seq<byte>, style: Style)
    requires input != [] && input[0] != 1
    ensures var f := Frame(input[0], TextOf(input[1..], input[0], style));
      var more := Await(input[1 + |f.text|..], style);
      Await(input, style) == Awaited([f] + more.diagnostics, more.rest, more.found)
  {
  }

  lemma {:induction false} WireFront(f: Frame, fs: seq<Frame>, rest: seq<byte>, after: seq<byte>)
    requires after == Wire(fs) + [1] + rest
    ensures [f.length] + f.text + after == Wire([f] + fs) + [1] + rest
  {
    WireCons(f, fs);
    Regroup([f.length] + f.text, Wire(fs), [1], rest);
  }

  lemma {:induction false} AllWellFormedCons(f: Frame, fs: seq<Frame>, style: Style)
    requires WellFormed(f, style) && AllWellFormed(fs, style)
    ensures AllWellFormed([f] + fs, style)
  {
    forall k | 0 <= k < |fs| + 1 ensures WellFormed(([f] + fs)[k], style) {
      if k > 0 {
        assert ([f] + fs)[k] == fs[k - 1];
      }
    }
  }

  /** Completeness: a run of well-formed diagnostic frames followed by a
      length-1 frame is read as exactly those frames, leaving the rest. */
  lemma {:induction false} AwaitComplete(fs: seq<Frame>, rest: seq<byte>, style: Style)
    requires AllWellFormed(fs, style)
    ensures Await(Wire(fs) + [1] + rest, style) == Awaited(fs, rest, true)
    decreases |fs|
  {
    if fs == [] {
      AwaitResultFirst(rest, style);
    } else {
      AllWellFormedTail(fs, style);
      AwaitComplete(fs[1..], rest, style);
      WireSplit(fs, rest);
      AwaitCompleteStep(fs, rest, Wire(fs[1..]) + [1] + rest, Wire(fs) + [1] + rest, style);
    }
  }

  lemma {:induction false} WireSplit(fs: seq<Frame>, rest: seq<byte>)
    requires fs != []
    ensures Wire(fs) + [1] + rest == [fs[0].length] + (fs[0].text + (Wire(fs[1..]) + [1] + rest))
  {
  }

  lemma {:induction false} AllWellFormedTail(fs: seq<Frame>, style: Style)
    requires fs != [] && AllWellFormed(fs, style)
    ensures WellFormed(fs[0], style) && AllWellFormed(fs[1..], style)
  {
    forall k | 0 <= k < |fs| - 1 ensures WellFormed(fs[1..][k], style) {
      assert fs[1..][k] == fs[k + 1];
    }
  }

  lemma {:induction false} AwaitResultFirst(rest: seq<byte>, style: Style)
    ensures Await(Wire([]) + [1] + rest, style) == Awaited([], rest, true)
  {
    assert Wire([]) + [1] + rest == [1] + rest;
    assert ([1] + rest)[1..] == rest;
  }

  /** The step of AwaitComplete: one well-formed frame before a complete wait. */
  lemma {:induction false} AwaitCompleteStep(fs: seq<Frame>, rest: seq<byte>,
                                             after: seq<byte>, input: seq<byte>, style: Style)
    requires fs != [] && WellFormed(fs[0], style)
    requires Await(after, style) == Awaited(fs[1..], rest, true)
    requires input == [fs[0].length] + (fs[0].text + after)
    ensures Await(input, style) == Awaited(fs, rest, true)
  {
    AwaitWellFormed(fs[0], after, style);
    assert [fs[0]] + fs[1..] == fs;
  }

  /** A well-formed diagnostic frame at the front of the input is read whole. */
  lemma {:induction false} AwaitWellFormed(f: Frame, after: seq<byte>, style: Style)
    requires WellFormed(f, style)
    ensures var more := Await(after, style);
      Await([f.length] + (f.text + after), style) == Awaited([f] + more.diagnostics, more.rest, more.found)
  {
    var input := [f.length] + (f.text + after);
    assert input[1..] == f.text + after;
    match style {
      case Counted =>
        assert input[1..][..f.length] == f.text;
      case Line =>
        LineOfLine(f.text, after);
    }
    assert TextOf(input[1..], input[0], style) == f.text;
    assert input[1 + |f.text|..] == after;
  }

  /** One answer of a well-behaved bridge: some diagnostic frames, then the
      length-1 frame and the byte it carries. */
  datatype Reply = Reply(diagnostics: seq<Frame>, value: byte)

  /** The bytes of a run of answers. */
  function ReplyWire(rs: seq<Reply>): seq<byte>
    decreases |rs|
  {
    if rs == [] then [] else Wire(rs[0].diagnostics) + [1, rs[0].value] + ReplyWire(rs[1..])
  }

  predicate RepliesWellFormed(rs: seq<Reply>, style: Style) {
    forall k :: 0 <= k < |rs| ==> AllWellFormed(rs[k].diagnostics, style)
  }

  /** The bytes the answers carry. */
  function Values(rs: seq<Reply>): (v: seq<byte>)
    ensures |v| == |rs| && forall k :: 0 <= k < |rs| ==> v[k] == rs[k].value
    decreases |rs|
  {
    if rs == [] then [] else Values(rs[..|rs| - 1]) + [rs[|rs| - 1].value]
  }

  /** All diagnostic frames of the answers, in order. */
  function AllDiagnostics(rs: seq<Reply>): seq<Frame>
    decreases |rs|
  {
    if rs == [] then [] else AllDiagnostics(rs[..|rs| - 1]) + rs[|rs| - 1].diagnostics
  }

  /** Waiting on a run of well-formed answers consumes answer i exactly, up
      to the byte it carries. */
  lemma {:induction false} AwaitReply(rs: seq<Reply>, i: nat, extra: seq<byte>, style: Style)
    requires i < |rs| && RepliesWellFormed(rs, style)
    ensures Await(ReplyWire(rs[i..]) + extra, style)
      == Awaited(rs[i].diagnostics, [rs[i].value] + (ReplyWire(rs[i + 1..]) + extra), true)
  {
    var r := rs[i];
    assert rs[i..][1..] == rs[i + 1..];
    var after := ReplyWire(rs[i + 1..]) + extra;
    assert ReplyWire(rs[i..]) + extra == Wire(r.diagnostics) + [1] + ([r.value] + after);
    AwaitComplete(r.diagnostics, [r.value] + after, style);
  }

  /** The answers consumed so far grow by one answer at a time. */
  lemma {:induction false} RepliesSnoc(rs: seq<Reply>, i: nat)
    requires i < |rs|
    ensures Values(rs[..i + 1]) == Values(rs[..i]) + [rs[i].value]
    ensures AllDiagnostics(rs[..i + 1]) == AllDiagnostics(rs[..i]) + rs[i].diagnostics
  {
    assert rs[..i + 1][..i] == rs[..i];
  }

  /** Why a transfer stopped before its last exchange. */
  datatype Stop =
    | Timeout                  // an empty read where the script indexes the result
    | AddressOverflow          // `to_bytes(2, 'big')` of an address outside 0..0xFFFF
    | ProgressDivByZero        // print_progress_bar on a one-byte range divides by zero
    | WriteRejected(address: int)  // status 1: "Failed to write byte at address", exit

  /** The state of a transfer when it ended, and why it ended early if it did. */
  datatype Run<S> = Run(state: S, stop: Option<Stop>)

  /** One exchange of a transfer: go on with the new state, or stop there. */
  datatype Step<S> = Next(state: S) | Halt(state: S, why: Stop)
}
