// The battle server's broadcast packet: how it is built and how it is parsed
// (tools/mock/battle-server/internal/broadcast_windows.go, common/battleServer/broadcast.go,
// battle-server-broadcast/battleServer.go).
module Broadcast {
  import opened Wrappers

  newtype byte = b: int | 0 <= b < 0x100
  newtype uint16 = p: int | 0 <= p < 0x1_0000

  const HEADER: seq<byte> := [0x21, 0x24, 0x00]
  const GUID_LENGTH := 36
  const PORT_SIZE := 2
  const NAME_AT := 3 + GUID_LENGTH + PORT_SIZE
  const MINIMUM_SIZE := 3 + GUID_LENGTH + PORT_SIZE + 1 + 3 * PORT_SIZE

  /** A UUID by its sixteen bytes, and its text form as an inverse pair. */
  type Guid = id: seq<byte> | |id| == 16 witness seq(16, _ => 0)

  datatype GuidText = GuidText(show: Guid -> seq<byte>, parse: seq<byte> -> Option<Guid>) {
    ghost predicate Valid() {
      forall g :: |show(g)| == GUID_LENGTH && parse(show(g)) == Some(g)
    }
  }

  datatype Message = Message(id: Guid, name: seq<byte>, publicPort: uint16, websocketPort: uint16, outOfBandPort: uint16)

  /** A wrong size is an error with a message beside it, or a panic where the source slices too far. */
  datatype Parsed = Ok(message: Message) | InvalidData | BadGuid | SizeMismatch(message: Message) | Panic

  function LittleEndian(v: uint16): (bytes: seq<byte>)
    ensures |bytes| == PORT_SIZE
  {
    [(v % 0x100) as byte, (v / 0x100) as byte]
  }

  function Uint16At(s: seq<byte>, i: nat): uint16
    requires i + PORT_SIZE <= |s|
  {
    s[i] as uint16 + 0x100 * (s[i + 1] as uint16)
  }

  /** The name length as it is stored, cut to sixteen bits. */
  function StoredLength(name: seq<byte>): uint16 {
    (|name| % 0x1_0000) as uint16
  }

  function Packet(t: GuidText, m: Message): seq<byte> {
    HEADER + t.show(m.id) + LittleEndian(StoredLength(m.name)) + m.name
    + LittleEndian(m.publicPort) + LittleEndian(m.websocketPort) + LittleEndian(m.outOfBandPort)
  }

  predicate ValidData(data: seq<byte>, length: nat) {
    length >= MINIMUM_SIZE && HEADER <= data
  }

  /** addToSlice: the copy stops at the end of dst, the index moves by all of src. */
  method AddToSlice(dst: array<byte>, src: seq<byte>, index: nat) returns (next: nat)
    requires index <= dst.Length
    modifies dst
    ensures next == index + |src|
    ensures var n := if index + |src| <= dst.Length then |src| else dst.Length - index;
      dst[..] == old(dst[..index]) + src[..n] + old(dst[index + n..])
  {
    var n := if index + |src| <= dst.Length then |src| else dst.Length - index;
    for i := 0 to n
      invariant dst[..index] == old(dst[..index])
      invariant dst[index..index + i] == src[..i]
      invariant dst[index + i..] == old(dst[index + i..])
    {
      ghost var rest := dst[index + i..];
      dst[index + i] := src[i];
      assert dst[index..index + i + 1] == dst[index..index + i] + [src[i]];
      assert dst[index + i + 1..] == rest[1..];
    }
    assert dst[..] == dst[..index] + dst[index..index + n] + dst[index + n..];
    next := index + |src|;
  }

  /** The packet Broadcast sends; index is where its last write begins, as the last port does not move it. */
  method Build(t: GuidText, m: Message) returns (data: array<byte>, index: nat)
    requires t.Valid()
    ensures fresh(data) && data[..] == Packet(t, m)
    ensures index + PORT_SIZE == data.Length
  {
    data := new byte[MINIMUM_SIZE + |m.name| - 1];
    var parts := [HEADER, t.show(m.id), LittleEndian(StoredLength(m.name)), m.name,
                  LittleEndian(m.publicPort), LittleEndian(m.websocketPort), LittleEndian(m.outOfBandPort)];
    index := 0;
    index := WriteNext(data, [], parts[0], index);
    index := WriteNext(data, HEADER, parts[1], index);
    ghost var p2 := HEADER + t.show(m.id);
    index := WriteNext(data, p2, parts[2], index);
    ghost var p3 := p2 + LittleEndian(StoredLength(m.name));
    index := WriteNext(data, p3, parts[3], index);
    ghost var p4 := p3 + m.name;
    index := WriteNext(data, p4, parts[4], index);
    ghost var p5 := p4 + LittleEndian(m.publicPort);
    index := WriteNext(data, p5, parts[5], index);
    ghost var p6 := p5 + LittleEndian(m.websocketPort);
    var end := WriteNext(data, p6, parts[6], index);
    assert data[..end] == data[..];
  }

  /** One write behind what is already written. */
  method WriteNext(data: array<byte>, ghost written: seq<byte>, src: seq<byte>, index: nat) returns (next: nat)
    requires index + |src| <= data.Length && data[..index] == written
    modifies data
    ensures next == index + |src| && data[..next] == written + src
  {
    next := AddToSlice(data, src, index);
    assert src[..|src|] == src;
    assert data[..next] == data[..][..next];
  }

  /**
   * ParseBroadcastMessage on the first length bytes of a buffer. The wrong size is noted
   * but the parse goes on: a slice's end may lie behind length, though not behind the
   * buffer, and its start may not.
   */
  method Parse(t: GuidText, buffer: seq<byte>, length: nat) returns (r: Parsed)
    requires length <= |buffer|
    ensures r == Parsing(t, buffer, length)
  {
    if !ValidData(buffer, length) {
      return InvalidData;
    }
    var index := 3;
    var id := t.parse(buffer[index..index + GUID_LENGTH]);
    if id.None? {
      return BadGuid;
    }
    index := index + GUID_LENGTH;
    var nameLength := Uint16At(buffer, index) as int;
    index := index + 2;
    var mismatch := length - index != nameLength + 3 * PORT_SIZE;
    if index + nameLength > length {
      return Panic;
    }
    var name := buffer[index..index + nameLength];
    index := index + nameLength;
    if index + 3 * PORT_SIZE > |buffer| {
      return Panic;
    }
    var message := Message(id.value, name, Uint16At(buffer, index), Uint16At(buffer, index + PORT_SIZE),
                           Uint16At(buffer, index + 2 * PORT_SIZE));
    r := if mismatch then SizeMismatch(message) else Ok(message);
  }

  /** The message whose name ends, and whose ports begin, at a position. */
  function MessageAt(id: Guid, buffer: seq<byte>, portsAt: nat): Message
    requires NAME_AT <= portsAt && portsAt + 3 * PORT_SIZE <= |buffer|
  {
    Message(id, buffer[NAME_AT..portsAt], Uint16At(buffer, portsAt), Uint16At(buffer, portsAt + PORT_SIZE),
            Uint16At(buffer, portsAt + 2 * PORT_SIZE))
  }

  /** The fields of a packet by their positions. */
  function Parsing(t: GuidText, buffer: seq<byte>, length: nat): Parsed
    requires length <= |buffer|
  {
    if !ValidData(buffer, length) then InvalidData
    else
      match t.parse(buffer[3..3 + GUID_LENGTH])
      case None => BadGuid
      case Some(id) =>
        var portsAt := NAME_AT + Uint16At(buffer, 3 + GUID_LENGTH) as int;
        if portsAt > length || portsAt + 3 * PORT_SIZE > |buffer| then Panic
        else if length == portsAt + 3 * PORT_SIZE then Ok(MessageAt(id, buffer, portsAt))
        else SizeMismatch(MessageAt(id, buffer, portsAt))
  }

  lemma LittleEndianAt(v: uint16, s: seq<byte>, i: nat)
    requires i + PORT_SIZE <= |s| && s[i..i + PORT_SIZE] == LittleEndian(v)
    ensures Uint16At(s, i) == v
  {
    assert s[i] == s[i..i + PORT_SIZE][0] && s[i + 1] == s[i..i + PORT_SIZE][1];
  }

  /** Where each field of a packet stands. */
  lemma PacketFields(t: GuidText, m: Message)
    requires t.Valid()
    ensures var data := Packet(t, m); var portsAt := 41 + |m.name|;
      && |data| == portsAt + 6
      && HEADER <= data
      && data[3..39] == t.show(m.id)
      && data[39..41] == LittleEndian(StoredLength(m.name))
      && data[41..portsAt] == m.name
      && data[portsAt..portsAt + 2] == LittleEndian(m.publicPort)
      && data[portsAt + 2..portsAt + 4] == LittleEndian(m.websocketPort)
      && data[portsAt + 4..] == LittleEndian(m.outOfBandPort)
  {
  }

  /** Numbers stand with their low byte first. */
  lemma LowByteFirst(v: uint16)
    ensures LittleEndian(v)[0] as int == v as int % 256 && LittleEndian(v)[1] as int == v as int / 256
    ensures HEADER == [0x21, 0x24, 0x00]
  {
  }

  lemma SliceOfPrefix(packet: seq<byte>, rest: seq<byte>, i: nat, j: nat)
    requires i <= j <= |packet|
    ensures (packet + rest)[i..j] == packet[i..j]
  {
  }

  /** The same fields at the head of a buffer. */
  lemma BufferFields(t: GuidText, m: Message, rest: seq<byte>)
    requires t.Valid()
    ensures var buffer := Packet(t, m) + rest; var portsAt := NAME_AT + |m.name|;
      && |Packet(t, m)| == portsAt + 6 && HEADER <= buffer
      && buffer[3..39] == t.show(m.id)
      && Uint16At(buffer, 39) == StoredLength(m.name)
      && buffer[NAME_AT..portsAt] == m.name
      && Uint16At(buffer, portsAt) == m.publicPort
      && Uint16At(buffer, portsAt + 2) == m.websocketPort
      && Uint16At(buffer, portsAt + 4) == m.outOfBandPort
  {
    PacketFields(t, m);
    hide Packet, LittleEndian, StoredLength, Uint16At;
    var packet := Packet(t, m);
    var buffer := packet + rest;
    var portsAt := NAME_AT + |m.name|;
    SliceOfPrefix(packet, rest, 0, 3);
    SliceOfPrefix(packet, rest, 3, 39);
    SliceOfPrefix(packet, rest, 39, 41);
    SliceOfPrefix(packet, rest, 41, portsAt);
    SliceOfPrefix(packet, rest, portsAt, portsAt + 2);
    SliceOfPrefix(packet, rest, portsAt + 2, portsAt + 4);
    SliceOfPrefix(packet, rest, portsAt + 4, portsAt + 6);
    LittleEndianAt(StoredLength(m.name), buffer, 39);
    LittleEndianAt(m.publicPort, buffer, portsAt);
    LittleEndianAt(m.websocketPort, buffer, portsAt + 2);
    LittleEndianAt(m.outOfBandPort, buffer, portsAt + 4);
  }

  /**
   * Whatever else is in the buffer, the parser gives back the message that was built into
   * a packet exactly when its name has 1 to 65535 bytes. A longer name is cut, and noticed.
   */
  lemma ParsePacket(t: GuidText, m: Message, rest: seq<byte>)
    requires t.Valid()
    ensures var length := |Packet(t, m)|; var r := Parsing(t, Packet(t, m) + rest, length);
      && (r == Ok(m) <==> 1 <= |m.name| < 0x1_0000)
      && (r == InvalidData <==> m.name == [])
      && (|m.name| >= 0x1_0000 ==> r.SizeMismatch? && r.message.name == m.name[..|m.name| % 0x1_0000])
  {
    hide Packet, LittleEndian, Uint16At, StoredLength;
    BufferFields(t, m, rest);
    StoredNat(m.name);
    var buffer := Packet(t, m) + rest;
    var stored := NAME_AT + |m.name| % 0x1_0000;
    if |m.name| >= 0x1_0000 {
      hide MessageAt;
      CutName(m.id, buffer, stored, NAME_AT + |m.name|);
    } else if m.name != [] {
      assert MessageAt(m.id, buffer, stored) == m;
      hide MessageAt;
    }
  }

  lemma StoredNat(name: seq<byte>)
    ensures StoredLength(name) as int == |name| % 0x1_0000
    ensures |name| < 0x1_0000 ==> StoredLength(name) as int == |name|
  {
  }

  lemma CutName(id: Guid, buffer: seq<byte>, stored: nat, portsAt: nat)
    requires NAME_AT <= stored <= portsAt && portsAt + 6 <= |buffer|
    ensures MessageAt(id, buffer, stored).name == buffer[NAME_AT..portsAt][..stored - NAME_AT]
  {
  }

  lemma Uint16Bytes(s: seq<byte>, i: nat)
    requires i + PORT_SIZE <= |s|
    ensures LittleEndian(Uint16At(s, i)) == s[i..i + PORT_SIZE]
  {
  }

  /** Only the packet of a message is read as that message, when the id stands in its usual form. */
  lemma ParsedIsPacket(t: GuidText, buffer: seq<byte>, length: nat)
    requires length <= |buffer| && Parsing(t, buffer, length).Ok?
    requires t.show(Parsing(t, buffer, length).message.id) == buffer[3..3 + GUID_LENGTH]
    ensures buffer[..length] == Packet(t, Parsing(t, buffer, length).message)
  {
    var portsAt := NAME_AT + Uint16At(buffer, 39) as int;
    var m := Parsing(t, buffer, length).message;
    assert StoredLength(m.name) == Uint16At(buffer, 39);
    hide LittleEndian, Uint16At, StoredLength;
    Uint16Bytes(buffer, 39);
    Uint16Bytes(buffer, portsAt);
    Uint16Bytes(buffer, portsAt + 2);
    Uint16Bytes(buffer, portsAt + 4);
    SevenSlices(buffer, portsAt);
  }

  lemma SevenSlices(s: seq<byte>, portsAt: nat)
    requires NAME_AT <= portsAt && portsAt + 6 <= |s|
    ensures s[..portsAt + 6] == s[..3] + s[3..39] + s[39..41] + s[41..portsAt]
      + s[portsAt..portsAt + 2] + s[portsAt + 2..portsAt + 4] + s[portsAt + 4..portsAt + 6]
  {
  }
}
