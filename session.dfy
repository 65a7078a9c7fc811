/** The script from the command line to the last byte on the link: the
    handshake with the bridge (ROM-el2364.py:160-172), the erase exchange
    (ROM-el2364.py:338-346), and the four actions run on the resolved
    arguments (ROM-el2364.py:253-346). SHA-256 is a parameter `sha`: what the
    model fixes is which bytes are hashed and which digests are compared. */
module Session {
  import opened Bytes
  import opened Arguments
  import opened Packets
  import opened Frames
  import opened Serial
  import opened Reading
  import opened Writing
  import opened HexDump

  /** The ready marker the bridge sends once it is up: ASCII "INIT". */
  const INIT: seq<byte> := [0x49, 0x4E, 0x49, 0x54]

  /** How `init_arduino` ends: the marker came and the rest of the input
      follows it, fewer than four bytes ever arrive (the busy wait on
      `in_waiting` never ends), or four other bytes came (error and exit). */
  datatype Greeting = Ready(rest: seq<byte>) | Silent | Unexpected(data: seq<byte>)

  /** The handshake on a link whose bridge sends input (ROM-el2364.py:164-170). */
  function Greet(input: seq<byte>): (g: Greeting)
    ensures g.Ready? ==> input == INIT + g.rest
    ensures g.Unexpected? ==> |g.data| == 4 && g.data <= input && g.data != INIT
    ensures g.Silent? <==> |input| < 4
  {
    if |input| < 4 then Silent
    else if input[..4] == INIT then Ready(input[4..])
    else Unexpected(input[..4])
  }

  /** A bridge that starts with the marker is accepted, and nothing after the
      marker is consumed. */
  lemma {:induction false} GreetReady(rest: seq<byte>)
    ensures Greet(INIT + rest) == Ready(rest)
  {
    assert (INIT + rest)[..4] == INIT;
    assert (INIT + rest)[4..] == rest;
  }

  /** `init_arduino` on the link, after the port is open. */
  method InitBridge(link: Link) returns (g: Greeting)
    modifies link
    ensures g == Greet(old(link.input)) && link.output == old(link.output)
    ensures g.Ready? ==> link.input == g.rest
  {
    if |link.input| < 4 {
      // `while ser.in_waiting < 4: continue` spins for ever
      return Silent;
    }
    var data := link.Read(4);
    if data != INIT {
      return Unexpected(data);
    }
    g := Ready(link.input);
  }

  /** What the erase exchange consumed: the diagnostic lines printed, the
      status byte printed (none when the input ran dry where the script
      indexes it), and the input left. */
  datatype Erasure = Erasure(diagnostics: seq<Frame>, status: Option<byte>, rest: seq<byte>)

  /** The erase exchange after the request `0x01 'E'` is sent: wait for the
      length-1 frame, diagnostic text read line by line, then print the one
      status byte, whatever it is (ROM-el2364.py:341-346). A status byte is
      reported only when the input really was a run of diagnostic frames and
      a length-1 frame carrying it. */
  function EraseExchange(input: seq<byte>): (e: Erasure)
    ensures e.status.Some? ==>
      input == Wire(e.diagnostics) + [1, e.status.value] + e.rest && AllWellFormed(e.diagnostics, Line)
    ensures e.status.None? ==> e.rest == []
  {
    AwaitSound(input, Line);
    var a := Await(input, Line);
    if !a.found || a.rest == [] then Erasure(a.diagnostics, None, [])
    else
      StatusSplit(Wire(a.diagnostics), a.rest);
      Erasure(a.diagnostics, Some(a.rest[0]), a.rest[1..])
  }

  lemma {:induction false} StatusSplit(w: seq<byte>, rest: seq<byte>)
    requires rest != []
    ensures w + [1] + rest == w + [1, rest[0]] + rest[1..]
  {
    assert rest == [rest[0]] + rest[1..];
  }

  /** A bridge that sends some diagnostic lines and then a length-1 frame has
      that frame's byte printed as the status, whatever its value: unlike the
      write loop, a status of 1 does not stop the script. */
  lemma {:induction false} EraseReply(r: Reply, extra: seq<byte>)
    requires AllWellFormed(r.diagnostics, Line)
    ensures EraseExchange(ReplyWire([r]) + extra) == Erasure(r.diagnostics, Some(r.value), extra)
  {
    assert [r][1..] == [];
    assert ReplyWire([r]) + extra == Wire(r.diagnostics) + [1] + ([r.value] + extra);
    AwaitComplete(r.diagnostics, [r.value] + extra, Line);
  }

  /** The erase action on the link after the handshake. */
  method EraseOn(link: Link) returns (e: Erasure)
    modifies link
    ensures e == EraseExchange(old(link.input))
    ensures link.input == e.rest && link.output == old(link.output) + Encode(EraseChip)
  {
    link.Write(Encode(EraseChip));
    var a := AwaitResult(link, Line);
    if !a.found {
      return Erasure(a.diagnostics, None, []);
    }
    var response := link.Read(1);
    if response == [] {
      return Erasure(a.diagnostics, None, []);
    }
    e := Erasure(a.diagnostics, Some(response[0]), link.input);
  }

  /** A SHA-256 digest; `hexdigest()` strings compare equal exactly when the
      digests do. */
  type Digest = seq<byte>

  /** How the script ends. */
  datatype Ending =
    | ActionRejected(bad: ActionError)      // no action, or one naming no mode
    | Misconfigured(error: ConfigError)      // usage error before the port is opened
    | NeverReady                             // the handshake waits for ever
    | BadMarker(marker: seq<byte>)           // the handshake got other bytes
    | ReadDone(read: ReadOutcome)            // read action
    | VerifyDone(read: ReadOutcome, digest: Option<Digest>)  // verify action: the digest printed
    | WriteDone(fileDigest: Digest, write: WriteReport, check: Option<ReadOutcome>, verified: Option<bool>)
    | EraseDone(erase: Erasure)              // erase action

  /** The resolved arguments (once the mode is known), the warnings printed,
      every byte written to the link, and how the script ended. */
  datatype Report = Report(args: Option<Args>, warnings: seq<Warning>, sent: seq<byte>, ending: Ending)

  /** The write action from the file read on (ROM-el2364.py:268-326): read
      end - start bytes of the file and hash them, shake hands, write them,
      and with `-v` read the range back and compare the two digests. */
  function WriteSession(a: Args, warnings: seq<Warning>, contents: seq<byte>, bridge: seq<byte>,
                        sha: seq<byte> -> Digest): Report
    requires a.start.Some? && a.end.Some?
    requires 0 <= a.start.value <= a.end.value <= CHIP_END && a.start.value <= LAST_ADDRESS
    requires a.end.value - a.start.value <= |contents|
  {
    var start, end := a.start.value, a.end.value;
    var warned := warnings + if |contents| > end - start then [FileLargerThanRange] else [];
    var buf := contents[..end - start];
    match Greet(bridge)
    case Silent => Report(Some(a), warned, [], NeverReady)
    case Unexpected(d) => Report(Some(a), warned, [], BadMarker(d))
    case Ready(rest) =>
      var w := WriteRange(rest, start, buf);
      var report := WriteReport(w.state.diagnostics, w.state.notices, w.stop);
      if w.stop.Some? || !a.doVerify then Report(Some(a), warned, w.state.sent, WriteDone(sha(buf), report, None, None))
      else
        var v := ReadRange(w.state.input, start, end, Discard);
        var verdict := if v.stop.None? then Some(sha(v.state.hashed) == sha(buf)) else None;
        Report(Some(a), warned, w.state.sent + v.state.sent, WriteDone(sha(buf), report, Some(OutcomeOf(v)), verdict))
  }

  /** The read, verify and erase actions after the arguments are resolved
      (ROM-el2364.py:253-266, 329-346). The read action writes to the named
      file, or dumps to the console when none is named; the verify action
      discards the bytes and prints the digest of what it read. */
  function LinkSession(a: Args, warnings: seq<Warning>, bridge: seq<byte>, sha: seq<byte> -> Digest): Report
    requires a.mode != Write
  {
    match Greet(bridge)
    case Silent => Report(Some(a), warnings, [], NeverReady)
    case Unexpected(d) => Report(Some(a), warnings, [], BadMarker(d))
    case Ready(rest) =>
      match a.mode
      case Read =>
        var r := ReadRange(rest, Sentinel(a.start), Sentinel(a.end), if a.filename == "" then ToConsole else ToFile);
        Report(Some(a), warnings, r.state.sent, ReadDone(OutcomeOf(r)))
      case Verify =>
        var r := ReadRange(rest, Sentinel(a.start), Sentinel(a.end), Discard);
        Report(Some(a), warnings, r.state.sent,
               VerifyDone(OutcomeOf(r), if r.stop.None? then Some(sha(r.state.hashed)) else None))
      case Erase =>
        Report(Some(a), warnings, Encode(EraseChip), EraseDone(EraseExchange(rest)))
  }

  /** The whole script: `action` is the first argument (None when there is
      none), `tokens` the classified arguments after it, `path` what the file
      system says about the file they name, `bridge` every byte the bridge
      sends. */
  function Script(action: Option<string>, tokens: seq<Token>, path: PathInfo, bridge: seq<byte>,
                  sha: seq<byte> -> Digest): Report
  {
    if action.None? then Report(None, [], [], ActionRejected(MissingAction))
    else match ModeOf(action.value)
      case Err(e) => Report(None, [], [], ActionRejected(e))
      case Ok(mode) =>
        var scan := ScanAll(mode, tokens);
        match Resolution(scan.args, path)
        case Err(e) => Report(Some(scan.args), scan.warnings, [], Misconfigured(e))
        case Ok(res) =>
          ResolvedRange(mode, tokens, path);
          if mode == Write then WriteSession(res.args, scan.warnings + res.warnings, path.contents, bridge, sha)
          else LinkSession(res.args, scan.warnings + res.warnings, bridge, sha)
  }

  /** The write action on a freshly opened link. */
  method WriteAction(link: Link, a: Args, warnings: seq<Warning>, contents: seq<byte>,
                     sha: seq<byte> -> Digest) returns (rep: Report)
    requires a.start.Some? && a.end.Some?
    requires 0 <= a.start.value <= a.end.value <= CHIP_END && a.start.value <= LAST_ADDRESS
    requires a.end.value - a.start.value <= |contents|
    requires link.output == []
    modifies link
    ensures rep == WriteSession(a, warnings, contents, old(link.input), sha)
  {
    var start, end := a.start.value, a.end.value;
    var warned := warnings;
    if |contents| > end - start {
      warned := warned + [FileLargerThanRange];
    }
    var filebuffer := contents[..end - start];
    var fileDigest := sha(filebuffer);
    var g := InitBridge(link);
    if !g.Ready? {
      return Report(Some(a), warned, [], if g.Silent? then NeverReady else BadMarker(g.data));
    }
    ghost var wr := WriteRange(g.rest, start, filebuffer);
    var w := WriteRangeOn(link, start, filebuffer);
    assert link.output == wr.state.sent && link.input == wr.state.input;
    if w.stop.Some? || !a.doVerify {
      return Report(Some(a), warned, link.output, WriteDone(fileDigest, w, None, None));
    }
    ghost var vr := ReadRange(wr.state.input, start, end, Discard);
    var check := ReadRangeOn(link, start, end, Discard);
    assert link.output == wr.state.sent + vr.state.sent && check == OutcomeOf(vr);
    var verdict := if check.stop.None? then Some(sha(check.hashed) == fileDigest) else None;
    rep := Report(Some(a), warned, link.output, WriteDone(fileDigest, w, Some(check), verdict));
  }

  /** The read, verify or erase action on a freshly opened link. */
  method LinkAction(link: Link, a: Args, warnings: seq<Warning>, sha: seq<byte> -> Digest) returns (rep: Report)
    requires a.mode != Write && link.output == []
    modifies link
    ensures rep == LinkSession(a, warnings, old(link.input), sha)
  {
    var g := InitBridge(link);
    if !g.Ready? {
      return Report(Some(a), warnings, [], if g.Silent? then NeverReady else BadMarker(g.data));
    }
    match a.mode {
      case Read =>
        var o := ReadRangeOn(link, Sentinel(a.start), Sentinel(a.end), if a.filename == "" then ToConsole else ToFile);
        rep := Report(Some(a), warnings, link.output, ReadDone(o));
      case Verify =>
        var o := ReadRangeOn(link, Sentinel(a.start), Sentinel(a.end), Discard);
        var digest := if o.stop.None? then Some(sha(o.hashed)) else None;
        rep := Report(Some(a), warnings, link.output, VerifyDone(o, digest));
      case Erase =>
        var e := EraseOn(link);
        rep := Report(Some(a), warnings, link.output, EraseDone(e));
    }
  }

  /** The script as it runs: scan and resolve the arguments, then open the
      link and run the action on it. */
  method RunScript(action: Option<string>, tokens: seq<Token>, path: PathInfo, bridge: seq<byte>,
                   sha: seq<byte> -> Digest) returns (rep: Report)
    ensures rep == Script(action, tokens, path, bridge, sha)
  {
    if action.None? {
      return Report(None, [], [], ActionRejected(MissingAction));
    }
    var selected := ModeOf(action.value);
    if selected.Err? {
      return Report(None, [], [], ActionRejected(selected.error));
    }
    var mode := selected.value;
    var args, warnings := ScanArguments(mode, tokens);
    var resolved := ResolveMode(args, path);
    if resolved.Err? {
      return Report(Some(args), warnings, [], Misconfigured(resolved.error));
    }
    ResolvedRange(mode, tokens, path);
    args, warnings := resolved.value.args, warnings + resolved.value.warnings;
    var link := new Link(bridge);
    if mode == Write {
      rep := WriteAction(link, args, warnings, path.contents, sha);
    } else {
      rep := LinkAction(link, args, warnings, sha);
    }
  }

  // ---------------------------------------------------------------------------
  // What the script does, end to end.

  /** Erase is whole-chip only: an address anywhere among the arguments is a
      usage error, and nothing is sent because the port is never opened. */
  lemma {:induction false} EraseWithAddressRefused(action: string, tokens: seq<Token>, path: PathInfo, bridge: seq<byte>,
                                sha: seq<byte> -> Digest)
    requires ModeOf(action) == Ok(Erase) && AddressesIn(tokens) != []
    ensures var rep := Script(Some(action), tokens, path, bridge, sha);
      rep.ending == Misconfigured(EraseWithAddress) && rep.sent == []
  {
    ScanCharacterised(Erase, tokens);
  }

  /** The write action once the handshake succeeded and every byte was
      written, with `-v`: the range is read back from where the write loop
      left the input, and the verdict compares the two digests. */
  lemma {:induction false} WriteSessionChecked(a: Args, warnings: seq<Warning>, contents: seq<byte>, rest: seq<byte>,
                            sha: seq<byte> -> Digest)
    requires a.start.Some? && a.end.Some?
    requires 0 <= a.start.value <= a.end.value <= CHIP_END && a.start.value <= LAST_ADDRESS
    requires a.end.value - a.start.value <= |contents| && a.doVerify
    requires WriteRange(rest, a.start.value, contents[..a.end.value - a.start.value]).stop.None?
    ensures var buf := contents[..a.end.value - a.start.value];
      var w := WriteRange(rest, a.start.value, buf);
      var v := ReadRange(w.state.input, a.start.value, a.end.value, Discard);
      var rep := WriteSession(a, warnings, contents, INIT + rest, sha);
      && rep.sent == w.state.sent + v.state.sent
      && rep.ending.WriteDone?
      && rep.ending.fileDigest == sha(buf)
      && rep.ending.write == WriteReport(w.state.diagnostics, w.state.notices, None)
      && rep.ending.check == Some(OutcomeOf(v))
      && rep.ending.verified == if v.stop.None? then Some(sha(v.state.hashed) == sha(buf)) else None
  {
    GreetReady(rest);
  }

  /** Write with `-v` against a bridge that writes every byte and then answers
      every read: the script sends one write request per byte of the range and
      then one read request per byte, hashes the file's first end - start
      bytes and the bytes read back, and reports success exactly when the two
      digests are equal; so reading back the bytes written always succeeds. */
  lemma {:induction false} WriteThenVerify(a: Args, warnings: seq<Warning>, contents: seq<byte>,
                        ws: seq<Reply>, rs: seq<Reply>, extra: seq<byte>, sha: seq<byte> -> Digest)
    requires a.start.Some? && a.end.Some?
    requires 0 <= a.start.value <= a.end.value <= CHIP_END && a.start.value <= LAST_ADDRESS
    requires a.end.value - a.start.value <= |contents| && a.doVerify
    requires |ws| == |rs| == a.end.value - a.start.value >= 2
    requires RepliesWellFormed(ws, Line) && WrittenBefore(ws, |ws|) && RepliesWellFormed(rs, Counted)
    ensures var start, n := a.start.value, |rs|;
      var buf := contents[..n];
      var rep := WriteSession(a, warnings, contents, INIT + ReplyWire(ws) + ReplyWire(rs) + extra, sha);
      && rep.sent == EncodeAll(WriteRequests(start, buf, n)) + EncodeAll(ReadRequests(start, n))
      && rep.ending.WriteDone?
      && rep.ending.fileDigest == sha(buf)
      && rep.ending.write == WriteReport(AllDiagnostics(ws), [], None)
      && rep.ending.check.Some? && rep.ending.check.value.hashed == Values(rs)
      && rep.ending.verified == Some(sha(Values(rs)) == sha(buf))
      && (Values(rs) == buf ==> rep.ending.verified == Some(true))
  {
    var start, end, n := a.start.value, a.end.value, |rs|;
    assert end - start == n;
    var buf := contents[..n];
    var tail := ReplyWire(rs) + extra;
    var rest := ReplyWire(ws) + tail;
    assert INIT + ReplyWire(ws) + ReplyWire(rs) + extra == INIT + rest;
    WriteRangeWritten(ws, tail, start, buf);
    WriteSentRequests(start, buf, n);
    WriteSessionChecked(a, warnings, contents, rest, sha);
    ReadRangeReplies(rs, extra, start, end, Discard);
  }

  /** The arguments of the write scenario resolve to [0, 4) without a warning. */
  lemma {:induction false} WriteFourBytesResolved(file: seq<byte>, bridge: seq<byte>, sha: seq<byte> -> Digest)
    requires |file| == 4
    ensures Script(Some("write"), [VerifyFlag, Address(0), Word("rom.bin")], Regular(file), bridge, sha)
      == WriteSession(Args(Write, true, Some(0), Some(4), "rom.bin"), [], file, bridge, sha)
  {
    var tokens := [VerifyFlag, Address(0), Word("rom.bin")];
    var a := Args(Write, true, Some(0), Some(4), "rom.bin");
    assert ScanAll(Write, tokens) == Scan(Args(Write, true, Some(0), None, "rom.bin"), []) by {
      ScanSnoc(Write, [], VerifyFlag);
      ScanSnoc(Write, [VerifyFlag], Address(0));
      ScanSnoc(Write, [VerifyFlag, Address(0)], Word("rom.bin"));
    }
    assert Resolution(Args(Write, true, Some(0), None, "rom.bin"), Regular(file)) == Ok(Scan(a, []));
  }

  /** The write scenario: `write -v 0 rom.bin` with a four-byte file resolves
      to [0, 4) without a warning, writes the four bytes with the address in the
      first request only, reads them back and verifies. */
  lemma {:induction false} WriteFourBytes(ws: seq<Reply>, rs: seq<Reply>, extra: seq<byte>, sha: seq<byte> -> Digest)
    requires |ws| == |rs| == 4
    requires RepliesWellFormed(ws, Line) && WrittenBefore(ws, 4) && RepliesWellFormed(rs, Counted)
    requires Values(rs) == [0x11, 0x22, 0x33, 0x44]
    ensures var file := [0x11, 0x22, 0x33, 0x44];
      var rep := Script(Some("write"), [VerifyFlag, Address(0), Word("rom.bin")], Regular(file),
                        INIT + ReplyWire(ws) + ReplyWire(rs) + extra, sha);
      && rep.args == Some(Args(Write, true, Some(0), Some(4), "rom.bin"))
      && rep.warnings == []
      && rep.sent == EncodeAll([WriteAt(0, 0x11), WriteNext(0x22), WriteNext(0x33), WriteNext(0x44)])
                     + EncodeAll([ReadAt(0), ReadNext, ReadNext, ReadNext])
      && rep.ending.WriteDone? && rep.ending.fileDigest == sha(file)
      && rep.ending.verified == Some(true)
  {
    var file: seq<byte> := [0x11, 0x22, 0x33, 0x44];
    var bridge := INIT + ReplyWire(ws) + ReplyWire(rs) + extra;
    var a := Args(Write, true, Some(0), Some(4), "rom.bin");
    var rep := WriteSession(a, [], file, bridge, sha);
    assert Script(Some("write"), [VerifyFlag, Address(0), Word("rom.bin")], Regular(file), bridge, sha) == rep by {
      WriteFourBytesResolved(file, bridge, sha);
    }
    assert rep.args == Some(a) && rep.warnings == [] by {
      assert file[..4] == file;
    }
    assert rep.sent == EncodeAll(WriteRequests(0, file, 4)) + EncodeAll(ReadRequests(0, 4))
        && rep.ending.WriteDone? && rep.ending.fileDigest == sha(file) && rep.ending.verified == Some(true) by {
      assert file[..4] == file;
      WriteThenVerify(a, [], file, ws, rs, extra, sha);
    }
    FourBytesRequests(file);
  }

  /** The requests of the write scenario: the address goes with the first
      write and the first read only. */
  lemma {:induction false} FourBytesRequests(file: seq<byte>)
    requires file == [0x11, 0x22, 0x33, 0x44]
    ensures WriteRequests(0, file, 4) == [WriteAt(0, 0x11), WriteNext(0x22), WriteNext(0x33), WriteNext(0x44)]
    ensures ReadRequests(0, 4) == [ReadAt(0), ReadNext, ReadNext, ReadNext]
  {
    WriteRequestsShape(0, file, 4);
    ReadRequestsShape(0, 4);
  }

  /** The read action against a bridge that answers every read: one request
      per address of [start, end), the bytes go to the file when one is named
      and otherwise into one dump line per full 16-byte chunk. */
  lemma {:induction false} ReadSessionReplies(a: Args, warnings: seq<Warning>, rs: seq<Reply>, extra: seq<byte>, sha: seq<byte> -> Digest)
    requires a.mode == Read && a.start.Some? && a.end.Some? && 0 <= a.start.value <= LAST_ADDRESS
    requires |rs| == a.end.value - a.start.value >= 2 && RepliesWellFormed(rs, Counted)
    ensures var rep := LinkSession(a, warnings, INIT + ReplyWire(rs) + extra, sha);
      var start := a.start.value;
      && rep.sent == EncodeAll(ReadRequests(start, |rs|))
      && rep.ending == ReadDone(ReadOutcome(Values(rs), AllDiagnostics(rs),
                                            if a.filename == "" then [] else Values(rs),
                                            if a.filename == "" then Render(Chunks(Values(rs), start, |rs| / 16)) else [],
                                            None))
  {
    var x := ReplyWire(rs) + extra;
    assert INIT + ReplyWire(rs) + extra == INIT + x;
    GreetReady(x);
    var sink := if a.filename == "" then ToConsole else ToFile;
    var r := ReadRange(x, a.start.value, a.end.value, sink);
    assert LinkSession(a, warnings, INIT + x, sha) == Report(Some(a), warnings, r.state.sent, ReadDone(OutcomeOf(r)));
    ReadRangeReplies(rs, extra, a.start.value, a.end.value, sink);
  }

  /** The read scenario: `read fff0 10005` clamps the end to the end of the
      chip, so sixteen bytes are read from 0xFFF0 on; without a file they are
      shown as one dump line at address 0xFFF0. */
  lemma {:induction false} ReadPastChip(rs: seq<Reply>, extra: seq<byte>, path: PathInfo, sha: seq<byte> -> Digest)
    requires |rs| == 16 && RepliesWellFormed(rs, Counted)
    ensures var rep := Script(Some("read"), [Address(0xFFF0), Address(0x10005)], path,
                              INIT + ReplyWire(rs) + extra, sha);
      && rep.args == Some(Args(Read, false, Some(0xFFF0), Some(0x10000), ""))
      && rep.warnings == [EndPastChip]
      && rep.sent == EncodeAll(ReadRequests(0xFFF0, 16))
      && rep.ending == ReadDone(ReadOutcome(Values(rs), AllDiagnostics(rs), [], [DumpLine(Values(rs), 0xFFF0)], None))
  {
    var a := Args(Read, false, Some(0xFFF0), Some(0x10000), "");
    PastChipResolved(path, INIT + ReplyWire(rs) + extra, sha);
    ReadSessionReplies(a, [EndPastChip], rs, extra, sha);
    OneDumpLine(Values(rs));
  }

  /** `read fff0 10005` resolves to the last sixteen addresses of the chip. */
  lemma {:induction false} PastChipResolved(path: PathInfo, bridge: seq<byte>, sha: seq<byte> -> Digest)
    ensures Script(Some("read"), [Address(0xFFF0), Address(0x10005)], path, bridge, sha)
      == LinkSession(Args(Read, false, Some(0xFFF0), Some(0x10000), ""), [EndPastChip], bridge, sha)
  {
    var tokens := [Address(0xFFF0), Address(0x10005)];
    var a := Args(Read, false, Some(0xFFF0), Some(0x10000), "");
    assert ScanAll(Read, tokens) == Scan(a, [EndPastChip]) by {
      ScanSnoc(Read, [], Address(0xFFF0));
      ScanSnoc(Read, [Address(0xFFF0)], Address(0x10005));
    }
    assert Resolution(a, path) == Ok(Scan(a, []));
    assert ModeOf("read") == Ok(Read);
    ScriptOnLink("read", tokens, path, bridge, sha, Read, Scan(a, [EndPastChip]), Scan(a, []));
    assert [EndPastChip] + [] == [EndPastChip];
  }

  /** Once the action and the arguments are resolved, the script is the
      read, verify or erase action on the link. */
  lemma {:induction false} ScriptOnLink(action: string, tokens: seq<Token>, path: PathInfo, bridge: seq<byte>,
                                        sha: seq<byte> -> Digest, mode: Mode, scan: Scan, res: Scan)
    requires ModeOf(action) == Ok(mode) && mode != Write
    requires ScanAll(mode, tokens) == scan && Resolution(scan.args, path) == Ok(res) && res.args.mode == mode
    ensures Script(Some(action), tokens, path, bridge, sha)
      == LinkSession(res.args, scan.warnings + res.warnings, bridge, sha)
  {
    ResolvedRange(mode, tokens, path);
  }

  /** Sixteen bytes make exactly one dump line. */
  lemma {:induction false} OneDumpLine(v: seq<byte>)
    requires |v| == 16
    ensures Render(Chunks(v, 0xFFF0, |v| / 16)) == [DumpLine(v, 0xFFF0)]
  {
    assert Chunks(v, 0xFFF0, 1) == [Printed(v, 0xFFF0)] by {
      assert v[0..16] == v;
    }
    assert Render([Printed(v, 0xFFF0)]) == [DumpLine(v, 0xFFF0)];
  }

  /** Verify never defaults the start address: with no address and no file it
      reads from -1 to 0x10000, and the first request fails to encode -1, so
      nothing is sent and no digest is printed. */
  lemma {:induction false} VerifyWithoutStart(action: string, tokens: seq<Token>, path: PathInfo, bridge: seq<byte>,
                           sha: seq<byte> -> Digest)
    requires ModeOf(action) == Ok(Verify) && AddressesIn(tokens) == [] && LastWord(tokens) == ""
    requires Greet(bridge).Ready?
    ensures var rep := Script(Some(action), tokens, path, bridge, sha);
      && rep.args.Some? && rep.args.value.start == None && rep.args.value.end == Some(CHIP_END)
      && rep.sent == []
      && rep.ending == VerifyDone(OutcomeOf(Run(ReadInit(Greet(bridge).rest), Some(AddressOverflow))), None)
  {
    ScanCharacterised(Verify, tokens);
    ReadRangeOverflow(Greet(bridge).rest, -1, CHIP_END, Discard);
  }

  /** Verify never reads the file it is given: only the file's size matters
      (for the warning), and the digest printed is that of the bytes read. */
  lemma {:induction false} VerifyIgnoresFileContents(action: string, tokens: seq<Token>, c1: seq<byte>, c2: seq<byte>,
                                  bridge: seq<byte>, sha: seq<byte> -> Digest)
    requires ModeOf(action) == Ok(Verify) && |c1| == |c2|
    ensures Script(Some(action), tokens, Regular(c1), bridge, sha) == Script(Some(action), tokens, Regular(c2), bridge, sha)
  {
    ScanCharacterised(Verify, tokens);
  }
}
