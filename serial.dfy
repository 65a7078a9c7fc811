/** The serial link as the script uses it: bytes written are appended to the
    output; reads consume the bytes the bridge has sent, and a read that finds
    fewer bytes than asked returns what there is, as pyserial does when its
    read timeout expires. */
module Serial {
  import opened Bytes
  import opened Frames

  class Link {
    /** Everything the bridge sends from now on that the host has not read. */
    var input: seq<byte>
    /** Everything the host has written. */
    var output: seq<byte>

    constructor (incoming: seq<byte>)
      ensures input == incoming && output == []
    {
      input := incoming;
      output := [];
    }

    /** `ser.write(packet)`. */
    method Write(packet: seq<byte>)
      modifies this
      ensures input == old(input) && output == old(output) + packet
    {
      output := output + packet;
    }

    /** `ser.read(n)`: at most n bytes, fewer when the input runs dry. */
    method Read(n: nat) returns (data: seq<byte>)
      modifies this
      ensures data == old(input)[..Min(n, |old(input)|)]
      ensures input == old(input)[|data|..] && output == old(output)
      ensures data + input == old(input)
    {
      data := input[..Min(n, |input|)];
      input := input[|data|..];
    }

    /** `ser.readline()`. */
    method ReadLine() returns (line: seq<byte>)
      modifies this
      ensures line == LineOf(old(input))
      ensures input == old(input)[|line|..] && output == old(output)
    {
      line := LineOf(input);
      input := input[|line|..];
    }
  }

  /** The host's wait for a result frame: read a length byte, and while it is
      not 1 consume and print a diagnostic text and read the next length byte
      (ROM-el2364.py:208-211, 299-302, 341-344). The result tells what
      Frames.Await says; `found` is false when a length byte never came, where
      the script's `packet_len[0]` raises IndexError. */
  method AwaitResult(link: Link, style: Style) returns (a: Awaited)
    modifies link
    ensures a == Await(old(link.input), style)
    ensures link.input == a.rest && link.output == old(link.output)
  {
    ghost var start := link.input;
    var diagnostics: seq<Frame> := [];
    var packetLen := link.Read(1);
    if packetLen == [] {
      return Awaited([], [], false);
    }
    PrependNothing(Await(start, style));
    while packetLen[0] != 1
      invariant |packetLen| == 1 && link.output == old(link.output)
      invariant Await(start, style) == Prepend(diagnostics, Await(packetLen + link.input, style))
      decreases |link.input|
    {
      ghost var input := link.input;
      var text := ReadText(link, packetLen[0], style);
      AwaitAdvance(start, diagnostics, packetLen, input, text, link.input, style);
      diagnostics := diagnostics + [Frame(packetLen[0], text)];
      ghost var after := link.input;
      packetLen := link.Read(1);
      if packetLen == [] {
        assert after == [];
        return Awaited(diagnostics, [], false);
      }
    }
    AwaitFound(start, diagnostics, packetLen, link.input, style);
    a := Awaited(diagnostics, link.input, true);
  }

  /** The text of one diagnostic frame, read as the style says. */
  method ReadText(link: Link, length: byte, style: Style) returns (text: seq<byte>)
    modifies link
    ensures text == TextOf(old(link.input), length, style)
    ensures link.input == old(link.input)[|text|..] && link.output == old(link.output)
  {
    match style {
      case Counted => text := link.Read(length);
      case Line => text := link.ReadLine();
    }
  }

  /** The frames already printed, put before what a wait still consumes. */
  function Prepend(fs: seq<Frame>, a: Awaited): Awaited {
    a.(diagnostics := fs + a.diagnostics)
  }

  lemma {:induction false} PrependNothing(a: Awaited)
    ensures Prepend([], a) == a
  {
    assert [] + a.diagnostics == a.diagnostics;
  }

  lemma {:induction false} PrependTwice(fs: seq<Frame>, gs: seq<Frame>, a: Awaited)
    ensures Prepend(fs, Prepend(gs, a)) == Prepend(fs + gs, a)
  {
    assert fs + (gs + a.diagnostics) == (fs + gs) + a.diagnostics;
  }

  /** The loop of AwaitResult consumes one diagnostic frame. */
  lemma {:induction false} AwaitAdvance(start: seq<byte>, diagnostics: seq<Frame>, packetLen: seq<byte>,
                                        input: seq<byte>, text: seq<byte>, after: seq<byte>, style: Style)
    requires |packetLen| == 1 && packetLen[0] != 1
    requires Await(start, style) == Prepend(diagnostics, Await(packetLen + input, style))
    requires text == TextOf(input, packetLen[0], style) && after == input[|text|..]
    ensures Await(start, style) == Prepend(diagnostics + [Frame(packetLen[0], text)], Await(after, style))
  {
    var before := packetLen + input;
    assert before[1..] == input;
    AwaitFront(before, style, text, after);
    PrependTwice(diagnostics, [Frame(packetLen[0], text)], Await(after, style));
  }

  /** The loop of AwaitResult ends on the length-1 frame. */
  lemma {:induction false} AwaitFound(start: seq<byte>, diagnostics: seq<Frame>, packetLen: seq<byte>,
                                      input: seq<byte>, style: Style)
    requires |packetLen| == 1 && packetLen[0] == 1
    requires Await(start, style) == Prepend(diagnostics, Await(packetLen + input, style))
    ensures Await(start, style) == Awaited(diagnostics, input, true)
  {
    assert (packetLen + input)[1..] == input;
    assert diagnostics + [] == diagnostics;
  }

  /** One diagnostic frame at the front of the input is printed and the wait goes on. */
  lemma {:induction false} AwaitFront(input: seq<byte>, style: Style, text: seq<byte>, after: seq<byte>)
    requires input != [] && input[0] != 1
    requires text == TextOf(input[1..], input[0], style) && after == input[1 + |text|..]
    ensures Await(input, style) == Prepend([Frame(input[0], text)], Await(after, style))
  {
  }
}
