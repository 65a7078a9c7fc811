/** One line of the interactive hex dump that read mode prints when no output
    file is given (ROM-el2364.py:221-243): the address of the chunk's first
    byte in four lower-case hex digits, each byte as two hex digits with a gap
    after the eighth, then the bytes as text with '.' for unprintable ones. */
module HexDump {
  import opened Bytes

  const DIGITS := "0123456789abcdef"

  /** Carriage return and the "erase line" escape that start every dump line. */
  const CLEAR_LINE := "\r\U{1B}[K"

  function Digit(d: nat): char
    requires d < 16
  {
    DIGITS[d]
  }

  /** The value of one lower-case hex digit. */
  function DigitValue(c: char): nat {
    if '0' <= c <= '9' then c as int - '0' as int
    else if 'a' <= c <= 'f' then c as int - 'a' as int + 10
    else 0
  }

  /** The value of a run of hex digits, most significant first. */
  function HexValue(s: string): nat
    decreases |s|
  {
    if s == [] then 0 else HexValue(s[..|s| - 1]) * 16 + DigitValue(s[|s| - 1])
  }

  predicate IsHexDigits(s: string) {
    forall k :: 0 <= k < |s| ==> s[k] in DIGITS
  }

  /** `format(a, 'x')` for a >= 0: lower-case hex without leading zeros. */
  function HexDigits(a: nat): (s: string)
    ensures |s| >= 1
    decreases a
  {
    if a < 16 then [Digit(a)] else HexDigits(a / 16) + [Digit(a % 16)]
  }

  /** `format(a, 'x')`, which writes a minus sign before a negative number. */
  function FormatHex(a: int): string {
    if a < 0 then "-" + HexDigits(-a) else HexDigits(a)
  }

  /** `c * k` in Python: k copies, none when k <= 0. */
  function Repeat(c: char, k: int): (s: string)
    ensures |s| == Max(k, 0)
    decreases k
  {
    if k <= 0 then "" else [c] + Repeat(c, k - 1)
  }

  /** `'0' * (width - len(s)) + s`. */
  function ZeroPad(s: string, width: int): string {
    Repeat('0', width - |s|) + s
  }

  /** `"%02x" % b`. */
  function Hex2(b: byte): string {
    ZeroPad(HexDigits(b), 2)
  }

  /** The character shown for a byte in the text column. */
  function Shown(b: byte): char {
    if b < 32 || b > 126 then '.' else b as char
  }

  /** The hex cell of byte j: two digits and a space, and after the eighth byte
      the three-space gap. */
  function Cell(b: byte, j: nat): string {
    Hex2(b) + " " + (if j == 7 then "   " else "")
  }

  /** The hex column, built cell by cell. */
  function HexColumn(buf: seq<byte>): string
    decreases |buf|
  {
    if buf == [] then "" else HexColumn(buf[..|buf| - 1]) + Cell(buf[|buf| - 1], |buf| - 1)
  }

  lemma {:induction false} HexColumnSnoc(buf: seq<byte>, j: nat)
    requires j < |buf|
    ensures HexColumn(buf[..j + 1]) == HexColumn(buf[..j]) + Cell(buf[j], j)
  {
    assert buf[..j + 1][..j] == buf[..j];
  }

  lemma {:induction false} HexColumnExtend(head: string, buf: seq<byte>, j: nat, line: string)
    requires j < |buf| && line == head + HexColumn(buf[..j])
    ensures line + Cell(buf[j], j) == head + HexColumn(buf[..j + 1])
  {
    HexColumnSnoc(buf, j);
  }

  /** The text column, built character by character. */
  function TextColumn(buf: seq<byte>): string
    decreases |buf|
  {
    if buf == [] then "" else TextColumn(buf[..|buf| - 1]) + [Shown(buf[|buf| - 1])]
  }

  lemma {:induction false} TextColumnSnoc(buf: seq<byte>, j: nat)
    requires j < |buf|
    ensures TextColumn(buf[..j + 1]) == TextColumn(buf[..j]) + [Shown(buf[j])]
  {
    assert buf[..j + 1][..j] == buf[..j];
  }

  /** The dump line for the bytes in buf, whose first byte sits at address.
      The padding for a short buffer is kept as written: it adds three spaces
      per missing byte to the hex column, and in the text column the repeat
      count `buffersize - 16` is negative and so adds nothing. */
  function DumpLine(buf: seq<byte>, address: int): string {
    AddressPart(address) + HexPart(buf) + TextPart(buf)
  }

  /** The escape that clears the console line, the address and four spaces. */
  function AddressPart(address: int): string {
    CLEAR_LINE + ZeroPad(FormatHex(address), 4) + "    "
  }

  /** The hex column, its padding for a short buffer, and "   |". */
  function HexPart(buf: seq<byte>): string {
    HexColumn(buf) + HexPadding(|buf|) + "   |"
  }

  function HexPadding(n: int): string {
    if n < 16 then Repeat(' ', 3 * (16 - n)) + (if n < 8 then "    " else "") else ""
  }

  /** The text column, its padding for a short buffer, and the closing '|'. */
  function TextPart(buf: seq<byte>): string {
    TextColumn(buf) + TextPadding(|buf|) + "|"
  }

  function TextPadding(n: int): string {
    if n < 16 then Repeat(' ', n - 16) + (if n < 8 then " " else "") else ""
  }

  /** The line built with `+=` as the script does. */
  method FormatDumpLine(buf: seq<byte>, address: int) returns (line: string)
    ensures line == DumpLine(buf, address)
  {
    line := CLEAR_LINE + ZeroPad(FormatHex(address), 4) + "    ";
    ghost var pre := line;
    line := AppendHexColumn(line, buf);
    ghost var padded := line;
    if |buf| < 16 {
      line := line + Repeat(' ', 3 * (16 - |buf|));
      if |buf| < 8 {
        line := line + "    ";
      }
    }
    assert line == padded + HexPadding(|buf|);
    line := line + "   |";
    Regroup(pre, HexColumn(buf), HexPadding(|buf|), "   |");
    ghost var head := line;
    line := AppendTextColumn(line, buf);
    padded := line;
    if |buf| < 16 {
      line := line + Repeat(' ', |buf| - 16);
      if |buf| < 8 {
        line := line + " ";
      }
    }
    assert line == padded + TextPadding(|buf|);
    line := line + "|";
    Regroup(head, TextColumn(buf), TextPadding(|buf|), "|");
  }

  /** The first `for j in range(0, buffersize)` loop: one hex cell per byte. */
  method AppendHexColumn(head: string, buf: seq<byte>) returns (line: string)
    ensures line == head + HexColumn(buf)
  {
    line := head;
    for j := 0 to |buf|
      invariant line == head + HexColumn(buf[..j])
    {
      var cell := Hex2(buf[j]) + " ";
      if j == 7 {
        cell := cell + "   ";
      }
      assert cell == Cell(buf[j], j);
      HexColumnExtend(head, buf, j, line);
      line := line + cell;
    }
    assert buf[..|buf|] == buf;
  }

  /** The second loop: one character per byte, '.' for an unprintable one. */
  method AppendTextColumn(head: string, buf: seq<byte>) returns (line: string)
    ensures line == head + TextColumn(buf)
  {
    line := head;
    for j := 0 to |buf|
      invariant line == head + TextColumn(buf[..j])
    {
      ghost var before := line;
      if buf[j] < 32 || buf[j] > 126 {
        line := line + ".";
      } else {
        line := line + [buf[j] as char];
      }
      assert line == before + [Shown(buf[j])];
      TextColumnSnoc(buf, j);
    }
    assert buf[..|buf|] == buf;
  }

  lemma {:induction false} DigitRoundTrip(d: nat)
    requires d < 16
    ensures DigitValue(Digit(d)) == d && Digit(d) in DIGITS
  {
  }

  /** Reading the digits back gives the number. */
  lemma {:induction false} HexDigitsRoundTrip(a: nat)
    ensures HexValue(HexDigits(a)) == a && IsHexDigits(HexDigits(a))
    decreases a
  {
    HexDigitsValue(a);
    HexDigitsAreDigits(a);
  }

  lemma {:induction false} HexDigitsValue(a: nat)
    ensures HexValue(HexDigits(a)) == a
    decreases a
  {
    if a < 16 {
      DigitRoundTrip(a);
      assert HexDigits(a)[..0] == [];
    } else {
      DigitRoundTrip(a % 16);
      HexDigitsValue(a / 16);
      var s, q, r := HexDigits(a), a / 16, a % 16;
      assert s[..|s| - 1] == HexDigits(q) && s[|s| - 1] == Digit(r);
      assert HexValue(s) == HexValue(HexDigits(q)) * 16 + DigitValue(Digit(r));
      Recombine(a, q, r);
    }
  }

  lemma {:induction false} Recombine(a: nat, q: nat, r: nat)
    requires q == a / 16 && r == a % 16
    ensures q * 16 + r == a
  {
  }

  lemma {:induction false} HexDigitsAreDigits(a: nat)
    ensures IsHexDigits(HexDigits(a))
    decreases a
  {
    DigitRoundTrip(a % 16);
    if a >= 16 {
      HexDigitsAreDigits(a / 16);
      var s, q := HexDigits(a), HexDigits(a / 16);
      assert s == q + [Digit(a % 16)];
      forall k | 0 <= k < |s| ensures s[k] in DIGITS {
        if k < |q| { assert s[k] == q[k]; }
      }
    }
  }

  /** A number below 16^k needs at most k digits. */
  lemma {:induction false} HexDigitsShort(a: nat, k: nat)
    requires 1 <= k && a < Pow16(k)
    ensures |HexDigits(a)| <= k
    decreases k
  {
    if a >= 16 {
      HexDigitsShort(a / 16, k - 1);
    }
  }

  function Pow16(k: nat): nat
    decreases k
  {
    if k == 0 then 1 else 16 * Pow16(k - 1)
  }

  lemma {:induction false} RepeatSnoc(c: char, k: int)
    requires k > 0
    ensures Repeat(c, k) == Repeat(c, k - 1) + [c]
    decreases k
  {
    if k > 1 {
      RepeatSnoc(c, k - 1);
      assert Repeat(c, k) == [c] + (Repeat(c, k - 2) + [c]);
    }
  }

  /** Leading zeros do not change the value. */
  lemma {:induction false} HexValueZeros(k: int, s: string)
    ensures HexValue(Repeat('0', k) + s) == HexValue(s)
    decreases |s|, Max(k, 0)
  {
    var z := Repeat('0', k);
    if s == [] {
      assert z + s == z;
      if k > 0 {
        RepeatSnoc('0', k);
        assert z[..|z| - 1] == Repeat('0', k - 1) + [];
        HexValueZeros(k - 1, []);
      }
    } else {
      assert (z + s)[..|z + s| - 1] == z + s[..|s| - 1];
      HexValueZeros(k, s[..|s| - 1]);
    }
  }

  /** The address field shows a chip address as exactly four hex digits that
      read back as that address. */
  lemma {:induction false} AddressField(a: int)
    requires 0 <= a < 0x10000
    ensures var f := ZeroPad(FormatHex(a), 4);
      |f| == 4 && IsHexDigits(f) && HexValue(f) == a
  {
    HexDigitsShort(a, 4);
    HexDigitsRoundTrip(a);
    HexValueZeros(4 - |HexDigits(a)|, HexDigits(a));
  }

  /** A byte is shown as exactly two hex digits that read back as the byte. */
  lemma {:induction false} Hex2RoundTrip(b: byte)
    ensures |Hex2(b)| == 2 && IsHexDigits(Hex2(b)) && HexValue(Hex2(b)) == b
  {
    HexDigitsShort(b, 2);
    HexDigitsRoundTrip(b);
    HexValueZeros(2 - |HexDigits(b)|, HexDigits(b));
  }

  /** Where the cell of byte k starts in the hex column. */
  function HexOffset(k: nat): nat {
    3 * k + (if k >= 8 then 3 else 0)
  }

  /** The hex column holds, for every byte k, its two digits at HexOffset(k)
      followed by a space. */
  lemma {:induction false} HexColumnLayout(buf: seq<byte>)
    ensures |HexColumn(buf)| == HexOffset(|buf|)
    ensures forall k :: 0 <= k < |buf| ==>
      HexOffset(k) + 3 <= |HexColumn(buf)| &&
      HexColumn(buf)[HexOffset(k)..HexOffset(k) + 2] == Hex2(buf[k]) &&
      HexColumn(buf)[HexOffset(k) + 2] == ' '
    decreases |buf|
  {
    if buf != [] {
      var n := |buf|;
      var init, b := buf[..n - 1], buf[n - 1];
      HexColumnLayout(init);
      CellLayout(b, n - 1);
      assert buf == init + [b];
      CellsLayout(init, b, HexColumn(init), Cell(b, n - 1), buf);
    }
  }

  /** The step of HexColumnLayout: one more cell after a laid-out column. */
  lemma {:induction false} CellsLayout(init: seq<byte>, b: byte, head: string, cell: string, buf: seq<byte>)
    requires buf == init + [b]
    requires |head| == HexOffset(|init|)
    requires forall k :: 0 <= k < |init| ==>
      HexOffset(k) + 3 <= |head| && head[HexOffset(k)..HexOffset(k) + 2] == Hex2(init[k]) && head[HexOffset(k) + 2] == ' '
    requires |cell| == HexOffset(|init| + 1) - HexOffset(|init|) && cell[..2] == Hex2(b) && cell[2] == ' '
    ensures |head + cell| == HexOffset(|buf|)
    ensures forall k :: 0 <= k < |buf| ==>
      HexOffset(k) + 3 <= |head + cell| &&
      (head + cell)[HexOffset(k)..HexOffset(k) + 2] == Hex2(buf[k]) && (head + cell)[HexOffset(k) + 2] == ' '
  {
    var col := head + cell;
    forall k | 0 <= k < |buf|
      ensures HexOffset(k) + 3 <= |col|
      ensures col[HexOffset(k)..HexOffset(k) + 2] == Hex2(buf[k]) && col[HexOffset(k) + 2] == ' '
    {
      var o := HexOffset(k);
      if k < |init| {
        assert init[k] == buf[k];
        assert col[o..o + 2] == head[o..o + 2];
        assert col[o + 2] == head[o + 2];
      } else {
        assert o == |head|;
        assert col[o..o + 2] == cell[..2];
        assert col[o + 2] == cell[2];
      }
    }
  }

  lemma {:induction false} CellLayout(b: byte, j: nat)
    ensures |Cell(b, j)| == HexOffset(j + 1) - HexOffset(j)
    ensures Cell(b, j)[..2] == Hex2(b) && Cell(b, j)[2] == ' '
  {
    Hex2RoundTrip(b);
  }

  /** The text column holds one character per byte. */
  lemma {:induction false} TextColumnLayout(buf: seq<byte>)
    ensures |TextColumn(buf)| == |buf|
    ensures forall k :: 0 <= k < |buf| ==> TextColumn(buf)[k] == Shown(buf[k])
    decreases |buf|
  {
    if buf != [] {
      TextColumnLayout(buf[..|buf| - 1]);
    }
  }

  /** A byte is shown as itself exactly when it is printable ASCII. */
  lemma {:induction false} ShownIsPrintable(b: byte)
    ensures Shown(b) == '.' <==> b < 32 || b > 126 || b == '.' as int
    ensures 32 <= b <= 126 ==> Shown(b) as int == b
  {
  }

  /** Offset of the hex column and of the text column in a full dump line. */
  const HEX_AT := 12
  const TEXT_AT := 67

  /** A dump line of a full 16-byte chunk at a chip address is 84 characters:
      the escape, the address as four hex digits, then byte k as two hex digits
      at HEX_AT + HexOffset(k), then "   |", byte k as text at TEXT_AT + k,
      and a closing '|'. */
  lemma {:induction false} DumpLineLayout(buf: seq<byte>, address: int)
    requires |buf| == 16 && 0 <= address < 0x10000
    ensures var line := DumpLine(buf, address);
      && |line| == 84
      && line[..4] == CLEAR_LINE
      && HexValue(line[4..8]) == address && IsHexDigits(line[4..8])
      && line[8..12] == "    "
      && (forall k :: 0 <= k < 16 ==>
            HexValue(line[HEX_AT + HexOffset(k)..HEX_AT + HexOffset(k) + 2]) == buf[k])
      && line[TEXT_AT - 4..TEXT_AT] == "   |"
      && (forall k :: 0 <= k < 16 ==> line[TEXT_AT + k] == Shown(buf[k]))
      && line[83] == '|'
  {
    var pre := AddressPart(address);
    var hex := HexPart(buf);
    var text := TextPart(buf);
    var field := ZeroPad(FormatHex(address), 4);
    FullParts(buf, address);
    AddressField(address);
    AddressInLine(field, hex + text);
    HexInLine(pre, hex, text, buf);
    var line := pre + (hex + text);
    forall k | 0 <= k < 16
      ensures HexValue(line[HEX_AT + HexOffset(k)..HEX_AT + HexOffset(k) + 2]) == buf[k]
    {
      Hex2RoundTrip(buf[k]);
    }
    TextInLine(pre + hex, text, buf);
    assert line == pre + hex + text;
  }

  /** For a full chunk, the three parts have no padding. */
  lemma {:induction false} FullParts(buf: seq<byte>, address: int)
    requires |buf| == 16 && 0 <= address < 0x10000
    ensures |AddressPart(address)| == HEX_AT
    ensures HexPart(buf) == HexColumn(buf) + "   |" && |HexPart(buf)| == 55
    ensures TextPart(buf) == TextColumn(buf) + "|" && |TextPart(buf)| == 17
    ensures DumpLine(buf, address) == AddressPart(address) + (HexPart(buf) + TextPart(buf))
  {
    AddressField(address);
    HexColumnLength(buf);
    TextColumnLength(buf);
  }

  lemma {:induction false} HexColumnLength(buf: seq<byte>)
    ensures |HexColumn(buf)| == HexOffset(|buf|)
    decreases |buf|
  {
    if buf != [] {
      HexColumnLength(buf[..|buf| - 1]);
      CellLayout(buf[|buf| - 1], |buf| - 1);
    }
  }

  lemma {:induction false} TextColumnLength(buf: seq<byte>)
    ensures |TextColumn(buf)| == |buf|
    decreases |buf|
  {
    if buf != [] {
      TextColumnLength(buf[..|buf| - 1]);
    }
  }

  lemma {:induction false} AddressInLine(field: string, rest: string)
    requires |field| == 4
    ensures var line := CLEAR_LINE + field + "    " + rest;
      && line[..4] == CLEAR_LINE
      && line[4..8] == field
      && line[8..12] == "    "
  {
  }

  lemma {:induction false} HexInLine(pre: string, hex: string, text: string, buf: seq<byte>)
    requires |pre| == HEX_AT && |buf| == 16 && |hex| == 55 && hex == HexColumn(buf) + "   |"
    ensures var line := pre + (hex + text);
      && (forall k :: 0 <= k < 16 ==>
            line[HEX_AT + HexOffset(k)..HEX_AT + HexOffset(k) + 2] == Hex2(buf[k]))
      && line[TEXT_AT - 4..TEXT_AT] == "   |"
  {
    HexColumnLayout(buf);
    var line := pre + (hex + text);
    forall k | 0 <= k < 16
      ensures line[HEX_AT + HexOffset(k)..HEX_AT + HexOffset(k) + 2] == Hex2(buf[k])
    {
      Window(pre, HexColumn(buf), "   |", text, HexOffset(k), HexOffset(k) + 2);
    }
    Window(pre, hex, [], text, 51, 55);
  }

  /** A window into the second part of a concatenation. */
  lemma {:induction false} Window<T>(a: seq<T>, b: seq<T>, c: seq<T>, d: seq<T>, i: nat, j: nat)
    requires i <= j <= |b|
    ensures (a + ((b + c) + d))[|a| + i..|a| + j] == b[i..j]
  {
    assert (a + ((b + c) + d))[|a|..|a| + |b|] == b;
  }

  lemma {:induction false} TextInLine(head: string, text: string, buf: seq<byte>)
    requires |head| == TEXT_AT && |buf| == 16 && text == TextColumn(buf) + "|"
    ensures |head + text| == 84
    ensures var line := head + text;
      && (forall k :: 0 <= k < 16 ==> line[TEXT_AT + k] == Shown(buf[k]))
      && line[83] == '|'
  {
    TextColumnLayout(buf);
  }
}
