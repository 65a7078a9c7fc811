/** The command line: the action letter, the scan over the remaining arguments
    and the per-mode defaults and checks (ROM-el2364.py:59-150). */
module Arguments {
  import opened Bytes

  /** The highest start address; a larger one is clamped to it. */
  const LAST_ADDRESS := 0xFFFF
  /** One past the chip's last address; a larger end address is clamped to it. */
  const CHIP_END := 0x10000

  datatype Mode = Read | Write | Verify | Erase

  /** Why no mode could be taken from the first argument: it is missing (usage
      and exit), empty (the script's `[0]` raises IndexError) or starts with a
      letter that names no action (usage error and exit). */
  datatype ActionError = MissingAction | EmptyAction | UnknownAction

  /** `str.lower` restricted to the letters that can select an action. */
  function LowerAscii(c: char): char {
    if 'A' <= c <= 'Z' then (c as int + 32) as char else c
  }

  /** The action keyword the help text gives for each mode. */
  function ActionName(m: Mode): (name: string)
    ensures |name| > 0
  {
    match m
    case Read => "read"
    case Write => "write"
    case Verify => "verify"
    case Erase => "erase"
  }

  /** The mode selected by the first letter of the first argument, case-blind. */
  function ModeOf(action: string): Result<Mode, ActionError> {
    if |action| == 0 then Err(EmptyAction)
    else
      match LowerAscii(action[0])
      case 'r' => Ok(Read)
      case 'w' => Ok(Write)
      case 'v' => Ok(Verify)
      case 'e' => Ok(Erase)
      case _ => Err(UnknownAction)
  }

  /** Only the first letter counts: an argument selects mode m exactly when it
      starts with the first letter of m's keyword, in either case. */
  lemma {:induction false} ModeOfFirstLetter(action: string, m: Mode)
    ensures ModeOf(action) == Ok(m) <==> |action| > 0 && LowerAscii(action[0]) == ActionName(m)[0]
  {
  }

  /** An argument after the action, already classified: the `-v` flag, a token
      that `int(_, base=16)` accepts, or any other word (taken as the file name). */
  datatype Token = VerifyFlag | Address(value: nat) | Word(text: string)

  /** The script's `args` dictionary; `None` stands for the -1 sentinel. */
  datatype Args = Args(mode: Mode, doVerify: bool, start: Option<nat>, end: Option<nat>, filename: string)

  /** A "WARNING" line, or a usage-error message that does not stop the script. */
  datatype Warning =
    | StartPastChip        // start address clamped to 0xFFFF
    | EndPastChip          // end address clamped to 0x10000
    | FileLargerThanChip   // write mode: start + file size clamped to 0x10000
    | FileLargerThanRange  // write mode: the file holds more bytes than the range
    | SizeMismatch         // verify mode: file size differs from end - start

  /** The dictionary together with the warnings printed so far. */
  datatype Scan = Scan(args: Args, warnings: seq<Warning>)

  /** The dictionary before any argument is looked at (ROM-el2364.py:46). */
  function Initial(mode: Mode): Args {
    Args(mode, false, None, None, "")
  }

  /** Exchange the two addresses when both are set and start exceeds end. */
  function SwapIfReversed(a: Args): Args {
    if a.start.Some? && a.end.Some? && a.start.value > a.end.value
    then a.(start := a.end, end := a.start)
    else a
  }

  /** One turn of the argument loop (ROM-el2364.py:72-96). */
  function ScanToken(s: Scan, t: Token): Scan {
    match t
    case VerifyFlag => s.(args := s.args.(doVerify := true))
    case Word(w) => s.(args := s.args.(filename := w))
    case Address(v) =>
      var placed :=
        if s.args.start.None? then
          if v > LAST_ADDRESS
          then Scan(s.args.(start := Some(LAST_ADDRESS)), s.warnings + [StartPastChip])
          else Scan(s.args.(start := Some(v)), s.warnings)
        else if s.args.end.None? then
          if v > CHIP_END
          then Scan(s.args.(end := Some(CHIP_END)), s.warnings + [EndPastChip])
          else Scan(s.args.(end := Some(v)), s.warnings)
        else s;
      placed.(args := SwapIfReversed(placed.args))
  }

  /** The whole argument loop, one token after the other. */
  function ScanAll(mode: Mode, ts: seq<Token>): Scan
    decreases |ts|
  {
    if ts == [] then Scan(Initial(mode), [])
    else ScanToken(ScanAll(mode, ts[..|ts| - 1]), ts[|ts| - 1])
  }

  /** The scan takes one token more at a time. */
  lemma {:induction false} ScanSnoc(mode: Mode, ts: seq<Token>, t: Token)
    ensures ScanAll(mode, ts + [t]) == ScanToken(ScanAll(mode, ts), t)
  {
    assert (ts + [t])[..|ts|] == ts;
  }

  /** The values of the address tokens, in order. */
  function AddressesIn(ts: seq<Token>): seq<nat>
    decreases |ts|
  {
    if ts == [] then []
    else AddressesIn(ts[..|ts| - 1]) + (if ts[|ts| - 1].Address? then [ts[|ts| - 1].value] else [])
  }

  /** The text of the last word token, or "" when there is none. */
  function LastWord(ts: seq<Token>): string
    decreases |ts|
  {
    if ts == [] then ""
    else if ts[|ts| - 1].Word? then ts[|ts| - 1].text
    else LastWord(ts[..|ts| - 1])
  }

  /** The address fields that the scan should leave, stated from the address
      tokens alone: the first is clamped to 0xFFFF, the second to 0x10000, the
      pair is put in order and every later address is ignored. */
  function ExpectedRange(hs: seq<nat>): (Option<nat>, Option<nat>) {
    if |hs| == 0 then (None, None)
    else if |hs| == 1 then (Some(Min(hs[0], LAST_ADDRESS)), None)
    else
      var a := Min(hs[0], LAST_ADDRESS);
      var b := Min(hs[1], CHIP_END);
      (Some(Min(a, b)), Some(Max(a, b)))
  }

  /** The bounds the scan guarantees: a set start is at most 0xFFFF, a set end
      at most 0x10000, an end is only set after a start, and start <= end. */
  predicate Ordered(a: Args) {
    && (a.start.Some? ==> a.start.value <= LAST_ADDRESS)
    && (a.end.Some? ==> a.start.Some? && a.end.value <= CHIP_END)
    && (a.start.Some? && a.end.Some? ==> a.start.value <= a.end.value)
  }

  /** The scan agrees with the reference description: mode kept, addresses as
      ExpectedRange says, `-v` anywhere sets the flag, the last word is the file. */
  lemma {:induction false} ScanCharacterised(mode: Mode, ts: seq<Token>)
    ensures var a := ScanAll(mode, ts).args;
      && a.mode == mode
      && (a.start, a.end) == ExpectedRange(AddressesIn(ts))
      && (a.doVerify <==> VerifyFlag in ts)
      && a.filename == LastWord(ts)
  {
    if ts != [] {
      var p, t := ts[..|ts| - 1], ts[|ts| - 1];
      assert ts == p + [t];
      ScanCharacterised(mode, p);
      var hs := AddressesIn(p);
      if t.Address? {
        assert AddressesIn(ts) == hs + [t.value];
        if |hs| >= 2 {
          assert (hs + [t.value])[..2] == hs[..2];
        }
      } else {
        assert AddressesIn(ts) == hs;
      }
    }
  }

  /** Whatever the arguments, the scanned addresses are clamped and ordered. */
  lemma {:induction false} ExpectedRangeOrdered(mode: Mode, ts: seq<Token>)
    ensures Ordered(ScanAll(mode, ts).args)
  {
    ScanCharacterised(mode, ts);
  }

  /** The argument loop as the script runs it, updating the dictionary in place. */
  method ScanArguments(mode: Mode, tokens: seq<Token>) returns (args: Args, warnings: seq<Warning>)
    ensures Scan(args, warnings) == ScanAll(mode, tokens)
    ensures Ordered(args)
    ensures (args.start, args.end) == ExpectedRange(AddressesIn(tokens))
    ensures args.filename == LastWord(tokens) && (args.doVerify <==> VerifyFlag in tokens)
  {
    args, warnings := Initial(mode), [];
    for i := 0 to |tokens|
      invariant Scan(args, warnings) == ScanAll(mode, tokens[..i])
    {
      assert tokens[..i + 1][..i] == tokens[..i];
      match tokens[i]
      case VerifyFlag =>
        args := args.(doVerify := true);
      case Address(address) =>
        if args.start.None? {
          args := args.(start := Some(address));
          if address > LAST_ADDRESS {
            args := args.(start := Some(LAST_ADDRESS));
            warnings := warnings + [StartPastChip];
          }
        } else if args.end.None? {
          args := args.(end := Some(address));
          if address > CHIP_END {
            args := args.(end := Some(CHIP_END));
            warnings := warnings + [EndPastChip];
          }
        }
        if args.start.Some? && args.end.Some? && args.start.value > args.end.value {
          args := args.(start := args.end, end := args.start);
        }
      case Word(w) =>
        args := args.(filename := w);
    }
    assert tokens[..|tokens|] == tokens;
    ScanCharacterised(mode, tokens);
  }

  /** What the file system says about the named file: no such path, a path that
      is not a regular file, a file whose size cannot be read, or a regular file
      with the given contents (its size is their length). */
  datatype PathInfo = Missing | NotRegular | Unstattable | Regular(contents: seq<byte>)

  /** Why the script ends before the serial port is opened: a usage error, or
      (verify mode) the OSError of `os.path.getsize`, which nothing catches. */
  datatype ConfigError = NoFilename | FileMissing | NotAFile | FileInaccessible | EraseWithAddress | SizeRaised

  /** The error the script reports for a path that is not a usable regular file. */
  function PathError(path: PathInfo): ConfigError
    requires !path.Regular?
  {
    match path
    case Missing => FileMissing
    case NotRegular => NotAFile
    case Unstattable => FileInaccessible
  }

  /** The same in verify mode, which asks for the size without a `try`. */
  function VerifyPathError(path: PathInfo): ConfigError
    requires !path.Regular?
  {
    if path.Unstattable? then SizeRaised else PathError(path)
  }

  /** The per-mode defaults and checks applied after the scan
      (ROM-el2364.py:98-150): the final dictionary and the warnings printed by
      this stage, or the usage error that ends the script. */
  function Resolution(scanned: Args, path: PathInfo): (r: Result<Scan, ConfigError>)
    ensures r.Ok? ==> var a := r.value.args;
      a.mode == scanned.mode && a.doVerify == scanned.doVerify && a.filename == scanned.filename
    // write: a usable file is required; start defaults to 0; a missing end
    // becomes start + size within the chip, a given one is cut to start + size
    ensures scanned.mode == Write && scanned.filename == "" ==> r == Err(NoFilename)
    ensures scanned.mode == Write && scanned.filename != "" ==> (r.Ok? <==> path.Regular?)
    ensures scanned.mode == Write && scanned.filename != "" && !path.Regular? ==> r == Err(PathError(path))
    ensures scanned.mode == Write && r.Ok? ==>
      var a, size := r.value.args, |path.contents|;
      && a.start == Some(scanned.start.GetOr(0)) && a.end.Some?
      && a.end.value == (if scanned.end.None? then Min(a.start.value + size, CHIP_END)
                         else Min(scanned.end.value, a.start.value + size))
      && r.value.warnings == (if scanned.end.None? && a.start.value + size > CHIP_END then [FileLargerThanChip] else [])
    // ... so after an ordered scan the range is inside the chip and no longer than the file
    ensures scanned.mode == Write && r.Ok? && Ordered(scanned) ==>
      var a := r.value.args;
      a.start.value <= a.end.value <= a.start.value + |path.contents| && a.end.value <= CHIP_END && a.start.value <= LAST_ADDRESS
    // read: the whole chip by default, and an ordered scan stays inside it
    ensures scanned.mode == Read ==>
      r == Ok(Scan(scanned.(start := Some(scanned.start.GetOr(0)), end := Some(scanned.end.GetOr(CHIP_END))), []))
    ensures scanned.mode == Read && Ordered(scanned) ==>
      r.value.args.start.value <= r.value.args.end.value <= CHIP_END
    // verify: start is never defaulted; with a file nothing is defaulted and a
    // size mismatch is only a warning
    ensures scanned.mode == Verify && r.Ok? ==> r.value.args.start == scanned.start
    ensures scanned.mode == Verify && scanned.filename != "" ==>
      r == if !path.Regular? then Err(VerifyPathError(path))
           else Ok(Scan(scanned, if |path.contents| != Sentinel(scanned.end) - Sentinel(scanned.start) then [SizeMismatch] else []))
    ensures scanned.mode == Verify && scanned.filename == "" ==>
      r == Ok(Scan(scanned.(end := Some(scanned.end.GetOr(CHIP_END))), []))
    // erase: whole chip only
    ensures scanned.mode == Erase ==>
      r == if scanned.start.Some? || scanned.end.Some? then Err(EraseWithAddress) else Ok(Scan(scanned, []))
  {
    match scanned.mode
    case Write =>
      if scanned.filename == "" then Err(NoFilename)
      else if !path.Regular? then Err(PathError(path))
      else
        var size := |path.contents|;
        var start := if scanned.start.None? then 0 else scanned.start.value;
        var defaulted := scanned.end.None? && start + size > CHIP_END;
        var end := if scanned.end.Some? then scanned.end.value else if defaulted then CHIP_END else start + size;
        var cut := if end > start + size then start + size else end;
        Ok(Scan(scanned.(start := Some(start), end := Some(cut)), if defaulted then [FileLargerThanChip] else []))
    case Read =>
      Ok(Scan(scanned.(start := Some(if scanned.start.None? then 0 else scanned.start.value),
                       end := Some(if scanned.end.None? then CHIP_END else scanned.end.value)), []))
    case Verify =>
      if scanned.filename != "" then
        if !path.Regular? then Err(VerifyPathError(path))
        else if |path.contents| != Sentinel(scanned.end) - Sentinel(scanned.start) then Ok(Scan(scanned, [SizeMismatch]))
        else Ok(Scan(scanned, []))
      else if scanned.end.None? then Ok(Scan(scanned.(end := Some(CHIP_END)), []))
      else Ok(Scan(scanned, []))
    case Erase =>
      if scanned.start.Some? || scanned.end.Some? then Err(EraseWithAddress) else Ok(Scan(scanned, []))
  }

  /** The per-mode stage as the script runs it, updating the dictionary in place. */
  method ResolveMode(scanned: Args, path: PathInfo) returns (r: Result<Scan, ConfigError>)
    ensures r == Resolution(scanned, path)
  {
    var a := scanned;
    var warnings: seq<Warning> := [];
    match a.mode {
      case Write =>
        if a.filename == "" {
          return Err(NoFilename);
        }
        if !path.Regular? {
          return Err(PathError(path));
        }
        var size := |path.contents|;
        if a.start.None? {
          a := a.(start := Some(0));
        }
        if a.end.None? {
          a := a.(end := Some(a.start.value + size));
          if a.end.value > CHIP_END {
            warnings := warnings + [FileLargerThanChip];
            a := a.(end := Some(CHIP_END));
          }
        }
        if a.end.value > a.start.value + size {
          a := a.(end := Some(a.start.value + size));
        }
        assert warnings == if scanned.end.None? && a.start.value + size > CHIP_END then [FileLargerThanChip] else [];
        assert Ok(Scan(a, warnings)) == Resolution(scanned, path);
      case Read =>
        if a.start.None? {
          a := a.(start := Some(0));
        }
        if a.end.None? {
          a := a.(end := Some(CHIP_END));
        }
      case Verify =>
        if a.filename != "" {
          if !path.Regular? {
            return Err(VerifyPathError(path));
          }
          if |path.contents| != Sentinel(a.end) - Sentinel(a.start) {
            warnings := [SizeMismatch];
          }
        } else if a.end.None? {
          a := a.(end := Some(CHIP_END));
        }
      case Erase =>
        if a.start.Some? || a.end.Some? {
          return Err(EraseWithAddress);
        }
    }
    r := Ok(Scan(a, warnings));
  }

  /** Both stages together: whatever the arguments, a write that gets past
      them covers a range inside the chip that the file fills exactly, a read
      covers a range inside the chip, and an erase that names an address fails. */
  lemma {:induction false} ResolvedRange(mode: Mode, tokens: seq<Token>, path: PathInfo)
    ensures var r := Resolution(ScanAll(mode, tokens).args, path);
      && (r.Ok? ==> r.value.args.mode == mode)
      && (mode == Write && r.Ok? ==>
            var a := r.value.args;
            && path.Regular? && a.start.Some? && a.end.Some?
            && 0 <= a.start.value <= a.end.value <= CHIP_END && a.start.value <= LAST_ADDRESS
            && a.end.value - a.start.value <= |path.contents|)
      && (mode == Read ==>
            && r.Ok? && r.value.args.start.Some? && r.value.args.end.Some?
            && 0 <= r.value.args.start.value <= r.value.args.end.value <= CHIP_END)
      && (mode == Erase ==>
            (r.Ok? <==> AddressesIn(tokens) == []))
  {
    ScanCharacterised(mode, tokens);
  }
}
