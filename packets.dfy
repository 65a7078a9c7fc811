/** Outbound packets: the fixed byte strings the host writes to the bridge
    (ROM-el2364.py:203-206, 295-297, 340). The first byte of each packet is the
    number of bytes that follow it. */
module Packets {
  import opened Bytes

  /** ASCII 'R', 'W' and 'E', the command letters. */
  const OP_READ: byte := 0x52
  const OP_WRITE: byte := 0x57
  const OP_ERASE: byte := 0x45

  /** An address that `to_bytes(2, 'big')` can encode. */
  type Address = a: int | 0 <= a < 0x10000

  /** One request of the protocol: the addressed (initial) or repeat form of a
      read or a write, or the whole-chip erase. */
  datatype Request =
    | ReadAt(address: Address)
    | ReadNext
    | WriteAt(address: Address, value: byte)
    | WriteNext(value: byte)
    | EraseChip

  /** `a.to_bytes(2, 'big')`. */
  function BigEndian(a: Address): seq<byte> {
    [a / 0x100, a % 0x100]
  }

  /** The bytes written to the link for one request. */
  function Encode(q: Request): (p: seq<byte>)
    ensures 2 <= |p| <= 5 && p[0] == |p| - 1
  {
    match q
    case ReadAt(a) => [3, OP_READ] + BigEndian(a)
    case ReadNext => [1, OP_READ]
    case WriteAt(a, b) => [4, OP_WRITE] + BigEndian(a) + [b]
    case WriteNext(b) => [2, OP_WRITE, b]
    case EraseChip => [1, OP_ERASE]
  }

  /** How the receiving end reads one packet: the length byte says how many
      bytes follow, the letter and that count select the request. */
  function Decode(p: seq<byte>): Option<Request> {
    if |p| < 2 || p[0] != |p| - 1 then None
    else if p[1] == OP_READ && |p| == 4 then Some(ReadAt(p[2] as int * 0x100 + p[3]))
    else if p[1] == OP_READ && |p| == 2 then Some(ReadNext)
    else if p[1] == OP_WRITE && |p| == 5 then Some(WriteAt(p[2] as int * 0x100 + p[3], p[4]))
    else if p[1] == OP_WRITE && |p| == 3 then Some(WriteNext(p[2]))
    else if p[1] == OP_ERASE && |p| == 2 then Some(EraseChip)
    else None
  }

  /** Decoding undoes encoding, so distinct requests never share a packet. */
  lemma {:induction false} DecodeEncode(q: Request)
    ensures Decode(Encode(q)) == Some(q)
  {
  }

  /** Every packet the receiver accepts is the encoding of what it decodes to. */
  lemma {:induction false} EncodeDecode(p: seq<byte>)
    ensures Decode(p).Some? ==> Encode(Decode(p).value) == p
  {
    if Decode(p).Some? {
      assert p == [p[0], p[1]] + p[2..];
    }
  }

  /** Byte strings written one after the other. */
  function Flatten(ps: seq<seq<byte>>): seq<byte>
    decreases |ps|
  {
    if ps == [] then [] else Flatten(ps[..|ps| - 1]) + ps[|ps| - 1]
  }

  /** The bytes of several requests, one packet after the other. */
  function EncodeAll(qs: seq<Request>): seq<byte> {
    Flatten(seq(|qs|, i requires 0 <= i < |qs| => Encode(qs[i])))
  }

  /** How the receiver splits a byte stream into packets, each by its length byte. */
  function ParseStream(s: seq<byte>): Option<seq<Request>>
    decreases |s|
  {
    if s == [] then Some([])
    else if |s| < s[0] as int + 1 then None
    else match Decode(s[..s[0] + 1])
      case None => None
      case Some(q) =>
        match ParseStream(s[s[0] + 1..])
        case None => None
        case Some(qs) => Some([q] + qs)
  }

  lemma {:induction false} FlattenCons(p: seq<byte>, ps: seq<seq<byte>>)
    ensures Flatten([p] + ps) == p + Flatten(ps)
    decreases |ps|
  {
    if ps == [] {
      assert ([p] + ps)[..0] == [];
    } else {
      var init, last := ps[..|ps| - 1], ps[|ps| - 1];
      assert ([p] + ps)[..|ps|] == [p] + init;
      FlattenCons(p, init);
    }
  }

  /** Sending one more request appends its packet. */
  lemma {:induction false} EncodeAllSnoc(qs: seq<Request>, q: Request)
    ensures EncodeAll(qs + [q]) == EncodeAll(qs) + Encode(q)
  {
    var ps := seq(|qs + [q]|, i requires 0 <= i < |qs + [q]| => Encode((qs + [q])[i]));
    assert ps[..|qs|] == seq(|qs|, i requires 0 <= i < |qs| => Encode(qs[i]));
  }

  lemma {:induction false} EncodeAllCons(q: Request, qs: seq<Request>)
    ensures EncodeAll([q] + qs) == Encode(q) + EncodeAll(qs)
  {
    var ps := seq(|qs|, i requires 0 <= i < |qs| => Encode(qs[i]));
    assert seq(|[q] + qs|, i requires 0 <= i < |[q] + qs| => Encode(([q] + qs)[i])) == [Encode(q)] + ps;
    FlattenCons(Encode(q), ps);
  }

  /** A stream of packets splits back into exactly the requests it was made of. */
  lemma {:induction false} ParseEncodeAll(qs: seq<Request>)
    ensures ParseStream(EncodeAll(qs)) == Some(qs)
    decreases |qs|
  {
    if qs != [] {
      var q, tail := qs[0], qs[1..];
      assert qs == [q] + tail;
      EncodeAllCons(q, tail);
      var s := EncodeAll(qs);
      var p := Encode(q);
      assert s[..s[0] + 1] == p;
      assert s[s[0] + 1..] == EncodeAll(tail);
      DecodeEncode(q);
      ParseEncodeAll(tail);
    }
  }

  /** Request i of a read transfer starting at start: the addressed form first,
      the repeat form afterwards (ROM-el2364.py:203-206). */
  function ReadRequest(start: int, i: nat): Request
    requires i > 0 || 0 <= start < 0x10000
  {
    if i == 0 then ReadAt(start) else ReadNext
  }

  /** The first k requests of a read transfer. */
  function ReadRequests(start: int, k: nat): (qs: seq<Request>)
    requires k == 0 || 0 <= start < 0x10000
    ensures |qs| == k
    decreases k
  {
    if k == 0 then [] else ReadRequests(start, k - 1) + [ReadRequest(start, k - 1)]
  }

  /** Request i of a write transfer of buf starting at start
      (ROM-el2364.py:295-297). */
  function WriteRequest(start: Address, buf: seq<byte>, i: nat): Request
    requires i < |buf|
  {
    if i == 0 then WriteAt(start, buf[0]) else WriteNext(buf[i])
  }

  /** The first k requests of a write transfer. */
  function WriteRequests(start: Address, buf: seq<byte>, k: nat): (qs: seq<Request>)
    requires k <= |buf|
    ensures |qs| == k
    decreases k
  {
    if k == 0 then [] else WriteRequests(start, buf, k - 1) + [WriteRequest(start, buf, k - 1)]
  }

  /** A read transfer of n bytes is one addressed packet followed by n - 1
      repeat packets. */
  lemma {:induction false} ReadRequestsShape(start: int, n: nat)
    requires n == 0 || 0 <= start < 0x10000
    ensures forall i :: 0 <= i < n ==> ReadRequests(start, n)[i] == ReadRequest(start, i)
  {
    if n > 0 {
      ReadRequestsShape(start, n - 1);
    }
  }

  /** A write transfer sends one packet per byte of buf, carrying buf[i] in the
      i-th packet, the start address only in the first. */
  lemma {:induction false} WriteRequestsShape(start: Address, buf: seq<byte>, k: nat)
    requires k <= |buf|
    ensures forall i :: 0 <= i < k ==> WriteRequests(start, buf, k)[i] == WriteRequest(start, buf, i)
  {
    if k > 0 {
      WriteRequestsShape(start, buf, k - 1);
    }
  }

  /** The address the bridge's cursor holds after it has served qs: set by an
      addressed request, advanced by one by each repeat request (the
      auto-increment the comment at ROM-el2364.py:202 relies on). */
  function Cursor(qs: seq<Request>): int
    requires |qs| > 0 && (qs[0].ReadAt? || qs[0].WriteAt?)
    decreases |qs|
  {
    var last := qs[|qs| - 1];
    if |qs| == 1 || last.ReadAt? || last.WriteAt? then
      (if last.ReadAt? || last.WriteAt? then last.address else qs[0].address)
    else Cursor(qs[..|qs| - 1]) + 1
  }

  /** Byte i of a write transfer lands at start + i. */
  lemma {:induction false} WriteAddressProgression(start: Address, buf: seq<byte>, i: nat)
    requires i < |buf|
    ensures var qs := WriteRequests(start, buf, i + 1);
      qs[0].WriteAt? && Cursor(qs) == start + i && qs[i].value == buf[i]
  {
    WriteRequestsShape(start, buf, i + 1);
    if i > 0 {
      WriteAddressProgression(start, buf, i - 1);
      WriteRequestsShape(start, buf, i);
      assert WriteRequests(start, buf, i + 1)[..i] == WriteRequests(start, buf, i);
    }
  }

  /** Byte i of a read transfer is read from start + i. */
  lemma {:induction false} ReadAddressProgression(start: Address, i: nat)
    ensures var qs := ReadRequests(start, i + 1);
      qs[0].ReadAt? && Cursor(qs) == start + i
  {
    ReadRequestsShape(start, i + 1);
    if i > 0 {
      ReadAddressProgression(start, i - 1);
      assert ReadRequests(start, i + 1)[..i] == ReadRequests(start, i);
    }
  }
}
