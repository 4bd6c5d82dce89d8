/** The length-prefixed message frames of pkg/protocol/codec.go. Payloads are opaque bytes. */
module FrameCodec {
  import opened Prelude
  import opened BigEndian

  const MAX_PAYLOAD: nat := 16 * 1024 * 1024
  const HEADER_SIZE: nat := 5

  datatype Message = Message(msgType: uint8, payload: seq<uint8>)

  datatype ReadError = Eof | UnexpectedEof | PayloadTooLarge

  /** The length field: the payload length truncated to 32 bits. */
  function LengthField(m: Message): uint32 {
    |m.payload| % TWO_TO_THE_32
  }

  /** The bytes of one frame; the payload is written only when the length field is not 0. */
  function Frame(m: Message): seq<uint8> {
    [m.msgType] + ToBytes(LengthField(m), 4) + if LengthField(m) > 0 then m.payload else []
  }

  datatype Parsed = Got(msg: Message, rest: seq<uint8>) | Failed(error: ReadError)

  /** What reading one message from these bytes yields. A stream that ends before the first byte of a part is
      a plain end of file, so a cut right after a header looks like a clean end. */
  function Parse(bytes: seq<uint8>): Parsed {
    if bytes == [] then Failed(Eof)
    else if |bytes| < HEADER_SIZE then Failed(UnexpectedEof)
    else
      var length := FromBytes(bytes[1..5]);
      if length > MAX_PAYLOAD then Failed(PayloadTooLarge)
      else if length == 0 then Got(Message(bytes[0], []), bytes[HEADER_SIZE..])
      else if |bytes| == HEADER_SIZE then Failed(Eof)
      else if |bytes| < HEADER_SIZE + length then Failed(UnexpectedEof)
      else Got(Message(bytes[0], bytes[HEADER_SIZE..HEADER_SIZE + length]), bytes[HEADER_SIZE + length..])
  }

  lemma HeaderOf(m: Message, rest: seq<uint8>)
    ensures var bytes := Frame(m) + rest;
      |bytes| >= HEADER_SIZE && bytes[0] == m.msgType && FromBytes(bytes[1..5]) == LengthField(m)
      && bytes[HEADER_SIZE..] == (if LengthField(m) > 0 then m.payload else []) + rest
  {
    Widths();
    ReadWritten(LengthField(m), 4);
    assert (Frame(m) + rest)[1..5] == ToBytes(LengthField(m), 4);
  }

  /** The bytes of a frame: the type, four bytes of length with the most significant first, the payload. */
  lemma FrameLayout(m: Message)
    requires |m.payload| <= MAX_PAYLOAD
    ensures |Frame(m)| == 5 + |m.payload| && Frame(m)[5..] == m.payload
    ensures Frame(m)[0] == m.msgType
    ensures var length: seq<int> := Frame(m)[1..5];
      |m.payload| == 0x100_0000 * length[0] + 0x1_0000 * length[1] + 0x100 * length[2] + length[3]
  {
    var length := Frame(m)[1..5];
    HeaderOf(m, []);
    assert Frame(m) + [] == Frame(m);
    ByteWeights(length[0], length[1], length[2], length[3]);
    assert length == [length[0], length[1], length[2], length[3]];
  }

  /** A message the writer accepts is read back, whatever follows it, if and only if its payload is within the
      limit: the writer's own check looks at the truncated length. */
  lemma RoundTripIff(m: Message, rest: seq<uint8>)
    requires LengthField(m) <= MAX_PAYLOAD
    ensures Parse(Frame(m) + rest) == Got(m, rest) <==> |m.payload| <= 0x100_0000
  {
    HeaderOf(m, rest);
    var bytes, length := Frame(m) + rest, LengthField(m);
    if |m.payload| <= MAX_PAYLOAD {
      assert length == |m.payload|;
      assert bytes[HEADER_SIZE + length..] == rest && bytes[HEADER_SIZE..HEADER_SIZE + length] == m.payload;
    }
  }

  /** A payload of 2^32 bytes is accepted, is not written, and reads back as an empty message. */
  lemma FourGigabytesVanish(msgType: uint8, rest: seq<uint8>)
    ensures var m := Message(msgType, seq(TWO_TO_THE_32, _ => 0));
      LengthField(m) <= MAX_PAYLOAD && Parse(Frame(m) + rest) == Got(Message(msgType, []), rest)
  {
    HeaderOf(Message(msgType, seq(TWO_TO_THE_32, _ => 0)), rest);
  }

  /** Whatever is read re-encodes to exactly the bytes it was read from. */
  lemma ReadReencodes(bytes: seq<uint8>)
    requires Parse(bytes).Got?
    ensures Frame(Parse(bytes).msg) + Parse(bytes).rest == bytes
    ensures |Parse(bytes).msg.payload| <= MAX_PAYLOAD
  {
    var m := Parse(bytes).msg;
    WriteRead(bytes[1..5]);
    assert |m.payload| == FromBytes(bytes[1..5]) == LengthField(m);
    assert Frame(m) == bytes[..1] + bytes[1..5] + bytes[5..5 + |m.payload|];
  }

  function Frames(ms: seq<Message>): seq<uint8> {
    if ms == [] then [] else Frame(ms[0]) + Frames(ms[1..])
  }

  ghost predicate WithinLimit(ms: seq<Message>) {
    forall i :: 0 <= i < |ms| ==> |ms[i].payload| <= MAX_PAYLOAD
  }

  /** Reading until the first error. */
  function ReadAll(bytes: seq<uint8>): (r: (seq<Message>, ReadError))
    decreases |bytes|
  {
    match Parse(bytes)
    case Failed(e) => ([], e)
    case Got(m, rest) =>
      var (ms, e) := ReadAll(rest);
      ([m] + ms, e)
  }

  lemma ReadAllAfterFrame(m: Message, rest: seq<uint8>)
    requires |m.payload| <= MAX_PAYLOAD
    ensures ReadAll(Frame(m) + rest) == ([m] + ReadAll(rest).0, ReadAll(rest).1)
  {
    RoundTripIff(m, rest);
  }

  /** The frames of a longer prefix of the messages begin with the first frame. */
  lemma FramesOfPrefix(ms: seq<Message>, k: nat)
    requires ms != [] && k <= |ms| - 1
    ensures ms[..k + 1] == [ms[0]] + ms[1..][..k]
    ensures Frames(ms[..k + 1]) == Frame(ms[0]) + Frames(ms[1..][..k])
  {
    assert ms[..k + 1][1..] == ms[1..][..k];
  }

  /** Concatenated frames read back as the same messages, then a clean end. */
  lemma {:induction false} StreamRoundTrip(ms: seq<Message>)
    requires WithinLimit(ms)
    ensures ReadAll(Frames(ms)) == (ms, Eof)
  {
    if ms == [] {
    } else {
      ReadAllAfterFrame(ms[0], Frames(ms[1..]));
      StreamRoundTrip(ms[1..]);
      assert ms == [ms[0]] + ms[1..];
    }
  }

  /** A proper prefix of a frame never yields a message, nor a length that is too large. */
  lemma CutFrameYieldsNothing(m: Message, cut: nat)
    requires |m.payload| <= MAX_PAYLOAD && cut < |Frame(m)|
    ensures Parse(Frame(m)[..cut]) == Failed(if cut == 0 || cut == HEADER_SIZE then Eof else UnexpectedEof)
  {
    HeaderOf(m, []);
    assert Frame(m) + [] == Frame(m);
    if cut >= HEADER_SIZE {
      assert Frame(m)[..cut][1..5] == Frame(m)[1..5];
    }
  }

  /** A truncated stream yields a prefix of the messages, never a corrupted one: exactly those whose frames are
      complete. */
  lemma {:induction false} TruncatedStreamYieldsPrefix(ms: seq<Message>, cut: nat) returns (n: nat)
    requires WithinLimit(ms) && cut <= |Frames(ms)|
    ensures n <= |ms| && ReadAll(Frames(ms)[..cut]).0 == ms[..n]
    ensures |Frames(ms[..n])| <= cut && (n < |ms| ==> cut < |Frames(ms[..n + 1])|)
    ensures ReadAll(Frames(ms)[..cut]).1 == if cut - |Frames(ms[..n])| in {0, HEADER_SIZE} then Eof else UnexpectedEof
  {
    if ms == [] {
      n := 0;
    } else {
      var head := Frame(ms[0]);
      if cut < |head| {
        n := 0;
        assert Frames(ms)[..cut] == head[..cut];
        CutFrameYieldsNothing(ms[0], cut);
        FramesOfPrefix(ms, 0);
      } else {
        var rest := Frames(ms[1..])[..cut - |head|];
        assert Frames(ms)[..cut] == head + rest;
        ReadAllAfterFrame(ms[0], rest);
        var k := TruncatedStreamYieldsPrefix(ms[1..], cut - |head|);
        n := k + 1;
        FramesOfPrefix(ms, k);
        if n < |ms| {
          FramesOfPrefix(ms, n);
        }
      }
    }
  }

  /** A byte source. */
  class Reader {
    var rest: seq<uint8>

    constructor (bytes: seq<uint8>)
      ensures rest == bytes
    {
      rest := bytes;
    }

    /** Fills a whole buffer or fails: end of file if nothing was left, unexpected end of file if too little. */
    method ReadFull(buf: array<uint8>) returns (error: Option<ReadError>)
      requires buf.Length > 0
      modifies this, buf
      ensures error ==
        if |old(rest)| >= buf.Length then None else if old(rest) == [] then Some(Eof) else Some(UnexpectedEof)
      ensures error == None ==> buf[..] == old(rest)[..buf.Length] && rest == old(rest)[buf.Length..]
      ensures error != None ==> rest == []
    {
      var n := if |rest| < buf.Length then |rest| else buf.Length;
      for i := 0 to n
        modifies buf
        invariant buf[..i] == rest[..i]
      {
        buf[i] := rest[i];
      }
      assert buf[..n] == rest[..n];
      if n == buf.Length {
        assert buf[..] == buf[..n];
        rest := rest[n..];
        return None;
      }
      rest := [];
      return Some(if n == 0 then Eof else UnexpectedEof);
    }

    method ReadMessage() returns (r: Option<Message>, error: Option<ReadError>)
      modifies this
      ensures match Parse(old(rest))
        case Got(m, left) => r == Some(m) && error == None && rest == left
        case Failed(e) =>
          && r == None && error == Some(e)
          && rest == if e == PayloadTooLarge then old(rest)[HEADER_SIZE..] else []
    {
      var header := new uint8[HEADER_SIZE];
      error := ReadFull(header);
      if error != None {
        return None, error;
      }
      var msgType, length := header[0], FromBytes(header[1..5]);
      assert header[1..5] == header[..][1..5] == old(rest)[1..5];
      if length > MAX_PAYLOAD {
        return None, Some(PayloadTooLarge);
      }
      var payload: seq<uint8> := [];
      if length > 0 {
        var buf := new uint8[length];
        error := ReadFull(buf);
        if error != None {
          return None, error;
        }
        payload := buf[..];
        assert old(rest)[HEADER_SIZE..][..length] == old(rest)[HEADER_SIZE..HEADER_SIZE + length];
        assert old(rest)[HEADER_SIZE..][length..] == old(rest)[HEADER_SIZE + length..];
      }
      return Some(Message(msgType, payload)), None;
    }
  }

  /** A byte sink that takes so many more bytes before it fails. */
  class Writer {
    var out: seq<uint8>
    var room: nat

    constructor (room: nat)
      ensures out == [] && this.room == room
    {
      out, this.room := [], room;
    }

    method Write(bytes: seq<uint8>) returns (ok: bool)
      modifies this
      ensures ok <==> |bytes| <= old(room)
      ensures var n := if ok then |bytes| else old(room);
        out == old(out) + bytes[..n] && room == old(room) - n
    {
      ok := |bytes| <= room;
      var n := if ok then |bytes| else room;
      out, room := out + bytes[..n], room - n;
    }

    /** Writes header and payload. A refused message leaves the stream alone; a failing write leaves a proper
        prefix of the frame. */
    method WriteMessage(m: Message) returns (ok: bool)
      modifies this
      ensures ok <==> LengthField(m) <= MAX_PAYLOAD && |Frame(m)| <= old(room)
      ensures out == if LengthField(m) > MAX_PAYLOAD then old(out)
                     else if ok then old(out) + Frame(m)
                     else old(out) + Frame(m)[..old(room)]
    {
      var length := |m.payload| % TWO_TO_THE_32;
      if length > MAX_PAYLOAD {
        return false;
      }
      var header := new uint8[HEADER_SIZE];
      header[0] := m.msgType;
      PutUint(header, 1, 4, length);
      assert header[..] == [m.msgType] + ToBytes(length, 4);
      ok := Write(header[..]);
      if !ok {
        return;
      }
      if length > 0 {
        ok := Write(m.payload);
      }
    }
  }
}
